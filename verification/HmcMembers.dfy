/** The context structures of the driver by member name, and the number that each member leaves
    at its bits of the hardware context. */
module HmcMembers {
  import opened Arith
  import opened HmcBits
  import opened HmcRead
  import opened HmcContext
  import opened HmcLayout
  import opened HmcProgram
  import opened HostStruct

  /** A row that takes its value from member `m`, which fits the width of the row. */
  ghost predicate Takes(f: Field, ms: seq<Member>, m: nat)
    requires Sized(ms)
  {
    m < |ms| && f.offset == OffsetOf(ms, m) && f.size == ms[m].size && ms[m].value < Pow2(f.width)
  }

  lemma {:induction false} RowFits(f: Field, ms: seq<Member>, m: nat, bigEndian: bool)
    requires Sized(ms) && Takes(f, ms, m)
    ensures f.offset + f.size <= |Structure(ms, bigEndian)| && FitsWidth(Structure(ms, bigEndian), f, bigEndian)
  {
    hide ValueBit, Structure, Digit, Pow2, OffsetOf;
    MemberByte(ms, bigEndian, m, 0);
    forall j: nat | f.width <= j < 8 * f.size
      ensures !ValueBit(Structure(ms, bigEndian), f, bigEndian, j)
    {
      RowTakesMember(ms, bigEndian, m, f, j);
      NoHighDigits(ms[m].value, f.width, j);
    }
  }

  /** In a context that holds its fields, the bits of such a row spell the member. */
  lemma {:induction false} RowSpells(bits: seq<bv8>, t: seq<Field>, i: nat, ms: seq<Member>, m: nat, bigEndian: bool)
    requires GoodTable(t) && Sized(ms) && InHost(t, Structure(ms, bigEndian)) && InTarget(t, |bits|)
    requires HoldsFields(bits, t, Structure(ms, bigEndian), bigEndian)
    requires i < |t| && m < |ms| && Takes(t[i], ms, m)
    ensures t[i].lsb + t[i].width <= 8 * |bits| && Spelled(bits, t[i].lsb, t[i].width) == ms[m].value
  {
    hide *;
    RowBounds(bits, t, i);
    WithinWidth(t[i], ms, m);
    forall j: nat | j < t[i].width
      ensures Bit(bits, t[i].lsb + j) <==> Digit(ms[m].value, j)
    {
      MemberBit(bits, t, i, ms, m, bigEndian, j);
    }
    SpelledIs(bits, t[i].lsb, t[i].width, ms[m].value);
  }

  lemma {:induction false} WithinWidth(f: Field, ms: seq<Member>, m: nat)
    requires Sized(ms) && Takes(f, ms, m)
    ensures ms[m].value < Pow2(f.width)
  {
  }

  lemma {:induction false} MemberBit(bits: seq<bv8>, t: seq<Field>, i: nat, ms: seq<Member>, m: nat, bigEndian: bool,
      j: nat)
    requires GoodTable(t) && Sized(ms) && InHost(t, Structure(ms, bigEndian)) && InTarget(t, |bits|)
    requires HoldsFields(bits, t, Structure(ms, bigEndian), bigEndian)
    requires i < |t| && m < |ms| && Takes(t[i], ms, m)
    requires j < t[i].width <= 8 * t[i].size && t[i].lsb + t[i].width <= 8 * |bits|
    ensures Bit(bits, t[i].lsb + j) <==> Digit(ms[m].value, j)
  {
    hide ValueBit, Structure, Digit, Pow2, OffsetOf, Bit, GoodTable, InHost, InTarget, HoldsFields;
    RowTakesMember(ms, bigEndian, m, t[i], j);
    RowBit(bits, t, i, Structure(ms, bigEndian), bigEndian, j);
  }

  lemma {:induction false} RowBounds(bits: seq<bv8>, t: seq<Field>, i: nat)
    requires GoodTable(t) && InTarget(t, |bits|) && i < |t|
    ensures t[i].width <= 8 * t[i].size && t[i].lsb + t[i].width <= 8 * |bits|
  {
    assert Contained(t[i]) && t[i].lsb / 8 + t[i].size <= |bits|;
  }

  lemma {:induction false} RowBit(bits: seq<bv8>, t: seq<Field>, i: nat, host: seq<bv8>, bigEndian: bool, j: nat)
    requires GoodTable(t) && InHost(t, host) && HoldsFields(bits, t, host, bigEndian)
    requires i < |t| && j < t[i].width <= 8 * t[i].size && t[i].lsb + j < 8 * |bits|
    requires t[i].offset + t[i].size <= |host|
    ensures Bit(bits, t[i].lsb + j) <==> ValueBit(host, t[i], bigEndian, j)
  {
    hide ValueBit, Bit;
    assert InField(t[i], t[i].lsb + j);
  }

  // ----- the receive context -----

  /** The receive structure, its members in the order of their declaration. */
  datatype RxContext = RxContext(
    head: nat, cpuid: nat, base: nat, qlen: nat, dbuff: nat, hbuff: nat, dtype: nat, dsize: nat, crcstrip: nat,
    fcEn: nat, l2tsel: nat, hsplit0: nat, hsplit1: nat, showiv: nat, rxmax: nat, tphrdescEn: nat, tphwdescEn: nat,
    tphdataEn: nat, tphheadEn: nat, lrxqthresh: nat, prefEn: nat)

  function RxMember(c: RxContext, i: nat): Member {
    match i
    case 0 => Member(2, c.head)
    case 1 => Member(2, c.cpuid)
    case 2 => Member(8, c.base)
    case 3 => Member(2, c.qlen)
    case 4 => Member(2, c.dbuff)
    case 5 => Member(2, c.hbuff)
    case 6 => Member(1, c.dtype)
    case 7 => Member(1, c.dsize)
    case 8 => Member(1, c.crcstrip)
    case 9 => Member(1, c.fcEn)
    case 10 => Member(1, c.l2tsel)
    case 11 => Member(1, c.hsplit0)
    case 12 => Member(1, c.hsplit1)
    case 13 => Member(1, c.showiv)
    case 14 => Member(4, c.rxmax)
    case 15 => Member(1, c.tphrdescEn)
    case 16 => Member(1, c.tphwdescEn)
    case 17 => Member(1, c.tphdataEn)
    case 18 => Member(1, c.tphheadEn)
    case 19 => Member(2, c.lrxqthresh)
    case 20 => Member(1, c.prefEn)
    case _ => Member(1, 0)
  }

  function RxMembers(c: RxContext): (ms: seq<Member>)
    ensures Sized(ms) && |ms| == 21
  {
    seq(21, i requires 0 <= i < 21 => RxMember(c, i))
  }

  /** Every member is within the width that the device has for it. */
  predicate RxInRange(c: RxContext) {
    c.head < Pow2(13) && c.cpuid < Pow2(8) && c.base < Pow2(57) && c.qlen < Pow2(13) && c.dbuff < Pow2(7)
    && c.hbuff < Pow2(5) && c.dtype < Pow2(2) && c.dsize < Pow2(1) && c.crcstrip < Pow2(1) && c.fcEn < Pow2(1)
    && c.l2tsel < Pow2(1) && c.hsplit0 < Pow2(4) && c.hsplit1 < Pow2(2) && c.showiv < Pow2(1) && c.rxmax < Pow2(14)
    && c.tphrdescEn < Pow2(1) && c.tphwdescEn < Pow2(1) && c.tphdataEn < Pow2(1) && c.tphheadEn < Pow2(1)
    && c.lrxqthresh < Pow2(3) && c.prefEn < Pow2(1)
  }

  /** The bits of a context spell the members, each at its place. */
  ghost predicate RxSpells(bits: seq<bv8>, c: RxContext) {
    |bits| >= 32
    && Spelled(bits, 0, 13) == c.head
    && Spelled(bits, 13, 8) == c.cpuid
    && Spelled(bits, 32, 57) == c.base
    && Spelled(bits, 89, 13) == c.qlen
    && Spelled(bits, 102, 7) == c.dbuff
    && Spelled(bits, 109, 5) == c.hbuff
    && Spelled(bits, 114, 2) == c.dtype
    && Spelled(bits, 116, 1) == c.dsize
    && Spelled(bits, 117, 1) == c.crcstrip
    && Spelled(bits, 118, 1) == c.fcEn
    && Spelled(bits, 119, 1) == c.l2tsel
    && Spelled(bits, 120, 4) == c.hsplit0
    && Spelled(bits, 124, 2) == c.hsplit1
    && Spelled(bits, 127, 1) == c.showiv
    && Spelled(bits, 174, 14) == c.rxmax
    && Spelled(bits, 193, 1) == c.tphrdescEn
    && Spelled(bits, 194, 1) == c.tphwdescEn
    && Spelled(bits, 195, 1) == c.tphdataEn
    && Spelled(bits, 196, 1) == c.tphheadEn
    && Spelled(bits, 198, 3) == c.lrxqthresh
    && Spelled(bits, 201, 1) == c.prefEn
  }

  /** The bits of a receive context that belong to no member. */
  predicate RxUnused(k: nat) {
    21 <= k < 32 || k == 126 || 128 <= k < 174 || 188 <= k < 193 || k == 197 || 202 <= k
  }

  /** The offsets in the rows of the table are those that C gives the members. */
  lemma {:induction false} RxOffsetIs(c: RxContext, m: nat)
    requires m < 21
    ensures OffsetOf(RxMembers(c), m) == RxRow(m).offset
    ensures RxMember(c, m).size == RxRow(m).size
  {
    if m == 0 {
    } else {
      RxOffsetIs(c, m - 1);
      RxNext(c, m);
    }
  }

  lemma {:induction false} RxNext(c: RxContext, m: nat)
    requires 0 < m < 21
    ensures RxMember(c, m).size == RxRow(m).size >= 1
    ensures AlignUp(RxRow(m - 1).offset + RxMember(c, m - 1).size, RxMember(c, m).size) ==
              RxRow(m).offset
  {
  }

  lemma {:induction false} RxTakes(c: RxContext, i: nat)
    requires i < 21 && RxInRange(c)
    ensures Takes(RxRow(i), RxMembers(c), i)
  {
    hide OffsetOf, Pow2;
    RxOffsetIs(c, i);
  }

  lemma {:induction false} RxSize(c: RxContext)
    ensures AlignUp(EndOf(RxMembers(c), 21), 8) == 48
  {
    hide OffsetOf;
    RxOffsetIs(c, 20);
    assert RxMembers(c)[20] == RxMember(c, 20);
  }

  /** The structure has the size that the driver's table is made for, and its values fit their rows. */
  lemma {:induction false} RxStructureFits(c: RxContext, bigEndian: bool)
    requires RxInRange(c)
    ensures |Structure(RxMembers(c), bigEndian)| == 48
    ensures AllFitWidth(RxTable()[..21], Structure(RxMembers(c), bigEndian), bigEndian)
  {
    hide RxRow, RxInRange, Structure, FitsWidth, Takes, OffsetOf, EndOf, AlignUp;
    RxSize(c);
    forall i: nat | i < 21
      ensures var f, host := RxRow(i), Structure(RxMembers(c), bigEndian);
              f.offset + f.size <= |host| && FitsWidth(host, f, bigEndian)
    {
      RxTakes(c, i);
      RowFits(RxRow(i), RxMembers(c), i, bigEndian);
    }
  }

  lemma {:induction false} RxRowSpells(bits: seq<bv8>, c: RxContext, bigEndian: bool, i: nat)
    requires RxInRange(c) && |bits| >= 32 && i < 21
    requires GoodTable(RxTable()[..21]) && InHost(RxTable()[..21], Structure(RxMembers(c), bigEndian))
    requires HoldsFields(bits, RxTable()[..21], Structure(RxMembers(c), bigEndian), bigEndian)
    ensures var f := RxRow(i);
            f.lsb + f.width <= 8 * |bits| && Spelled(bits, f.lsb, f.width) == RxMember(c, i).value
  {
    var host := Structure(RxMembers(c), bigEndian);
    RxStructureFits(c, bigEndian);
    RxTableIsGood(host);
    RxTakes(c, i);
    hide RxRow, RxInRange, Structure, Takes, OffsetOf, Spelled, HoldsFields, GoodTable;
    RowSpells(bits, RxTable()[..21], i, RxMembers(c), i, bigEndian);
  }

  lemma {:induction false} RxUnusedIsOutside(k: nat)
    requires RxUnused(k)
    ensures Outside(RxTable()[..21], k)
  {
    forall i | 0 <= i < 21
      ensures !InField(RxRow(i), k)
    {
    }
  }

  /** A context that holds the fields of the table spells every member at its place, and all other
      bits are zero. */
  lemma {:induction false} RxHeld(bits: seq<bv8>, c: RxContext, bigEndian: bool)
    requires RxInRange(c) && |bits| >= 32
    requires GoodTable(RxTable()[..21]) && InHost(RxTable()[..21], Structure(RxMembers(c), bigEndian))
    requires HoldsContext(bits, RxTable()[..21], Structure(RxMembers(c), bigEndian), bigEndian)
    ensures RxSpells(bits, c) && forall k: nat | RxUnused(k) && k < 8 * |bits| :: !Bit(bits, k)
  {
    hide RxInRange, Structure, Spelled, HoldsFields, GoodTable, InHost, RxUnused, Outside, Bit;
    forall k: nat | RxUnused(k) && k < 8 * |bits|
      ensures !Bit(bits, k)
    {
      RxUnusedIsOutside(k);
    }
    RxRowSpells(bits, c, bigEndian, 0);
    RxRowSpells(bits, c, bigEndian, 1);
    RxRowSpells(bits, c, bigEndian, 2);
    RxRowSpells(bits, c, bigEndian, 3);
    RxRowSpells(bits, c, bigEndian, 4);
    RxRowSpells(bits, c, bigEndian, 5);
    RxRowSpells(bits, c, bigEndian, 6);
    RxRowSpells(bits, c, bigEndian, 7);
    RxRowSpells(bits, c, bigEndian, 8);
    RxRowSpells(bits, c, bigEndian, 9);
    RxRowSpells(bits, c, bigEndian, 10);
    RxRowSpells(bits, c, bigEndian, 11);
    RxRowSpells(bits, c, bigEndian, 12);
    RxRowSpells(bits, c, bigEndian, 13);
    RxRowSpells(bits, c, bigEndian, 14);
    RxRowSpells(bits, c, bigEndian, 15);
    RxRowSpells(bits, c, bigEndian, 16);
    RxRowSpells(bits, c, bigEndian, 17);
    RxRowSpells(bits, c, bigEndian, 18);
    RxRowSpells(bits, c, bigEndian, 19);
    RxRowSpells(bits, c, bigEndian, 20);
  }

  /** Programs the receive context of a queue. It fails, and writes nothing, exactly when the context
      does not resolve; else its bits spell the members and no more, and the contexts of all other
      queues are as before. */
  method SetRxContext(l: Layout, pages: seq<array<bv8>>, queue: nat, c: RxContext, bigEndian: bool) returns (ok: bool)
    requires Supported(l) && Roomy(l) && Pages(l, pages) && RxInRange(c)
    modifies pages
    ensures ok <==> Va(l, Rx, queue).At?
    ensures !ok ==> Memory(pages) == old(Memory(pages))
    ensures ok ==>
      var bits := ContextOf(l, Memory(pages), Rx, queue);
      RxSpells(bits, c) && forall k: nat | RxUnused(k) && k < 8 * |bits| :: !Bit(bits, k)
    ensures ok && queue < l.queueMax ==>
      forall kind, q: nat | q < l.queueMax && (kind, q) != (Rx, queue) ::
        ContextOf(l, Memory(pages), kind, q) == ContextOf(l, old(Memory(pages)), kind, q)
  {
    hide RxInRange, Supported, Structure, HoldsContext, AllFitWidth, GoodTable, RxSpells, RxUnused, ContextOf, Va,
        Layout.Size;
    RxStructureFits(c, bigEndian);
    var host := Structure(RxMembers(c), bigEndian);
    RowsAreGood(Rx, host, l.Size(Rx));
    ok := SetContextOf(l, pages, Rx, queue, host, bigEndian);
    if ok {
      RxHeld(ContextOf(l, Memory(pages), Rx, queue), c, bigEndian);
    }
  }

  // ----- the transmit context -----

  /** The transmit structure, its members in the order of their declaration. */
  datatype TxContext = TxContext(
    head: nat, newContext: nat, base: nat, fcEn: nat, timesyncEn: nat, fdEn: nat, altVlanEn: nat, theadWb: nat,
    cpuid: nat, headWbEn: nat, qlen: nat, tphrdescEn: nat, tphrpktEn: nat, tphwdescEn: nat, headwbAddr: nat,
    crc: nat, rdylist: nat, rdylistAct: nat)

  function TxMember(c: TxContext, i: nat): Member {
    match i
    case 0 => Member(2, c.head)
    case 1 => Member(1, c.newContext)
    case 2 => Member(8, c.base)
    case 3 => Member(1, c.fcEn)
    case 4 => Member(1, c.timesyncEn)
    case 5 => Member(1, c.fdEn)
    case 6 => Member(1, c.altVlanEn)
    case 7 => Member(2, c.theadWb)
    case 8 => Member(1, c.cpuid)
    case 9 => Member(1, c.headWbEn)
    case 10 => Member(2, c.qlen)
    case 11 => Member(1, c.tphrdescEn)
    case 12 => Member(1, c.tphrpktEn)
    case 13 => Member(1, c.tphwdescEn)
    case 14 => Member(8, c.headwbAddr)
    case 15 => Member(4, c.crc)
    case 16 => Member(2, c.rdylist)
    case 17 => Member(1, c.rdylistAct)
    case _ => Member(1, 0)
  }

  function TxMembers(c: TxContext): (ms: seq<Member>)
    ensures Sized(ms) && |ms| == 18
  {
    seq(18, i requires 0 <= i < 18 => TxMember(c, i))
  }

  /** Every member is within the width that the device has for it. */
  predicate TxInRange(c: TxContext) {
    c.head < Pow2(13) && c.newContext < Pow2(1) && c.base < Pow2(57) && c.fcEn < Pow2(1)
    && c.timesyncEn < Pow2(1) && c.fdEn < Pow2(1) && c.altVlanEn < Pow2(1) && c.theadWb < Pow2(13)
    && c.cpuid < Pow2(8) && c.headWbEn < Pow2(1) && c.qlen < Pow2(13) && c.tphrdescEn < Pow2(1)
    && c.tphrpktEn < Pow2(1) && c.tphwdescEn < Pow2(1) && c.headwbAddr < Pow2(64) && c.crc < Pow2(32)
    && c.rdylist < Pow2(10) && c.rdylistAct < Pow2(1)
  }

  /** The bits of a context spell the members, each at its place. */
  ghost predicate TxSpells(bits: seq<bv8>, c: TxContext) {
    |bits| >= 128
    && Spelled(bits, 0, 13) == c.head
    && Spelled(bits, 30, 1) == c.newContext
    && Spelled(bits, 32, 57) == c.base
    && Spelled(bits, 89, 1) == c.fcEn
    && Spelled(bits, 90, 1) == c.timesyncEn
    && Spelled(bits, 91, 1) == c.fdEn
    && Spelled(bits, 92, 1) == c.altVlanEn
    && Spelled(bits, 96, 8) == c.cpuid
    && Spelled(bits, 128, 13) == c.theadWb
    && Spelled(bits, 160, 1) == c.headWbEn
    && Spelled(bits, 161, 13) == c.qlen
    && Spelled(bits, 174, 1) == c.tphrdescEn
    && Spelled(bits, 175, 1) == c.tphrpktEn
    && Spelled(bits, 176, 1) == c.tphwdescEn
    && Spelled(bits, 192, 64) == c.headwbAddr
    && Spelled(bits, 896, 32) == c.crc
    && Spelled(bits, 980, 10) == c.rdylist
    && Spelled(bits, 990, 1) == c.rdylistAct
  }

  /** The bits of a transmit context that belong to no member. */
  predicate TxUnused(k: nat) {
    13 <= k < 30 || k == 31 || 93 <= k < 96 || 104 <= k < 128 || 141 <= k < 160 || 177 <= k < 192
    || 256 <= k < 896 || 928 <= k < 980 || 991 <= k
  }

  /** The rows follow the order of the members, except that cpuid comes before thead_wb. */
  function Swapped(i: nat): nat {
    if i == 7 then 8 else if i == 8 then 7 else i
  }

  /** The offsets in the rows of the table are those that C gives the members. */
  lemma {:induction false} TxOffsetIs(c: TxContext, m: nat)
    requires m < 18
    ensures OffsetOf(TxMembers(c), m) == TxRow(Swapped(m)).offset
    ensures TxMember(c, m).size == TxRow(Swapped(m)).size
  {
    if m == 0 {
    } else {
      TxOffsetIs(c, m - 1);
      TxNext(c, m);
    }
  }

  lemma {:induction false} TxNext(c: TxContext, m: nat)
    requires 0 < m < 18
    ensures TxMember(c, m).size == TxRow(Swapped(m)).size >= 1
    ensures AlignUp(TxRow(Swapped(m - 1)).offset + TxMember(c, m - 1).size, TxMember(c, m).size) ==
              TxRow(Swapped(m)).offset
  {
  }

  lemma {:induction false} TxTakes(c: TxContext, i: nat)
    requires i < 18 && TxInRange(c)
    ensures Takes(TxRow(i), TxMembers(c), Swapped(i))
  {
    hide OffsetOf, Pow2;
    TxOffsetIs(c, Swapped(i));
  }

  lemma {:induction false} TxSize(c: TxContext)
    ensures AlignUp(EndOf(TxMembers(c), 18), 8) == 48
  {
    hide OffsetOf;
    TxOffsetIs(c, 17);
    assert TxMembers(c)[17] == TxMember(c, 17);
  }

  /** The structure has the size that the driver's table is made for, and its values fit their rows. */
  lemma {:induction false} TxStructureFits(c: TxContext, bigEndian: bool)
    requires TxInRange(c)
    ensures |Structure(TxMembers(c), bigEndian)| == 48
    ensures AllFitWidth(TxTable()[..18], Structure(TxMembers(c), bigEndian), bigEndian)
  {
    hide TxRow, TxInRange, Structure, FitsWidth, Takes, OffsetOf, EndOf, AlignUp;
    TxSize(c);
    forall i: nat | i < 18
      ensures var f, host := TxRow(i), Structure(TxMembers(c), bigEndian);
              f.offset + f.size <= |host| && FitsWidth(host, f, bigEndian)
    {
      TxTakes(c, i);
      RowFits(TxRow(i), TxMembers(c), Swapped(i), bigEndian);
    }
  }

  lemma {:induction false} TxRowSpells(bits: seq<bv8>, c: TxContext, bigEndian: bool, i: nat)
    requires TxInRange(c) && |bits| >= 128 && i < 18
    requires GoodTable(TxTable()[..18]) && InHost(TxTable()[..18], Structure(TxMembers(c), bigEndian))
    requires HoldsFields(bits, TxTable()[..18], Structure(TxMembers(c), bigEndian), bigEndian)
    ensures var f := TxRow(i);
            f.lsb + f.width <= 8 * |bits| && Spelled(bits, f.lsb, f.width) == TxMember(c, Swapped(i)).value
  {
    var host := Structure(TxMembers(c), bigEndian);
    TxStructureFits(c, bigEndian);
    TxTableIsGood(host);
    TxTakes(c, i);
    hide TxRow, TxInRange, Structure, Takes, OffsetOf, Spelled, HoldsFields, GoodTable;
    RowSpells(bits, TxTable()[..18], i, TxMembers(c), Swapped(i), bigEndian);
  }

  lemma {:induction false} TxUnusedIsOutside(k: nat)
    requires TxUnused(k)
    ensures Outside(TxTable()[..18], k)
  {
    forall i | 0 <= i < 18
      ensures !InField(TxRow(i), k)
    {
    }
  }

  /** A context that holds the fields of the table spells every member at its place, and all other
      bits are zero. */
  lemma {:induction false} TxHeld(bits: seq<bv8>, c: TxContext, bigEndian: bool)
    requires TxInRange(c) && |bits| >= 128
    requires GoodTable(TxTable()[..18]) && InHost(TxTable()[..18], Structure(TxMembers(c), bigEndian))
    requires HoldsContext(bits, TxTable()[..18], Structure(TxMembers(c), bigEndian), bigEndian)
    ensures TxSpells(bits, c) && forall k: nat | TxUnused(k) && k < 8 * |bits| :: !Bit(bits, k)
  {
    hide TxInRange, Structure, Spelled, HoldsFields, GoodTable, InHost, TxUnused, Outside, Bit;
    forall k: nat | TxUnused(k) && k < 8 * |bits|
      ensures !Bit(bits, k)
    {
      TxUnusedIsOutside(k);
    }
    TxRowSpells(bits, c, bigEndian, 0);
    TxRowSpells(bits, c, bigEndian, 1);
    TxRowSpells(bits, c, bigEndian, 2);
    TxRowSpells(bits, c, bigEndian, 3);
    TxRowSpells(bits, c, bigEndian, 4);
    TxRowSpells(bits, c, bigEndian, 5);
    TxRowSpells(bits, c, bigEndian, 6);
    TxRowSpells(bits, c, bigEndian, 7);
    TxRowSpells(bits, c, bigEndian, 8);
    TxRowSpells(bits, c, bigEndian, 9);
    TxRowSpells(bits, c, bigEndian, 10);
    TxRowSpells(bits, c, bigEndian, 11);
    TxRowSpells(bits, c, bigEndian, 12);
    TxRowSpells(bits, c, bigEndian, 13);
    TxRowSpells(bits, c, bigEndian, 14);
    TxRowSpells(bits, c, bigEndian, 15);
    TxRowSpells(bits, c, bigEndian, 16);
    TxRowSpells(bits, c, bigEndian, 17);
  }

  /** Programs the transmit context of a queue. It fails, and writes nothing, exactly when the context
      does not resolve; else its bits spell the members and no more, and the contexts of all other
      queues are as before. */
  method SetTxContext(l: Layout, pages: seq<array<bv8>>, queue: nat, c: TxContext, bigEndian: bool) returns (ok: bool)
    requires Supported(l) && Roomy(l) && Pages(l, pages) && TxInRange(c)
    modifies pages
    ensures ok <==> Va(l, Tx, queue).At?
    ensures !ok ==> Memory(pages) == old(Memory(pages))
    ensures ok ==>
      var bits := ContextOf(l, Memory(pages), Tx, queue);
      TxSpells(bits, c) && forall k: nat | TxUnused(k) && k < 8 * |bits| :: !Bit(bits, k)
    ensures ok && queue < l.queueMax ==>
      forall kind, q: nat | q < l.queueMax && (kind, q) != (Tx, queue) ::
        ContextOf(l, Memory(pages), kind, q) == ContextOf(l, old(Memory(pages)), kind, q)
  {
    hide TxInRange, Supported, Structure, HoldsContext, AllFitWidth, GoodTable, TxSpells, TxUnused, ContextOf, Va,
        Layout.Size;
    TxStructureFits(c, bigEndian);
    var host := Structure(TxMembers(c), bigEndian);
    RowsAreGood(Tx, host, l.Size(Tx));
    ok := SetContextOf(l, pages, Tx, queue, host, bigEndian);
    if ok {
      TxHeld(ContextOf(l, Memory(pages), Tx, queue), c, bigEndian);
    }
  }
}
