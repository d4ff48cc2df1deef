/** Whole queue contexts: zeroing the context and writing every field of a table. */
module HmcContext {
  import opened HmcBits
  import opened HmcRead

  // ----- tables of fields -----

  predicate InField(f: Field, k: nat) {
    f.lsb <= k < f.lsb + f.width
  }

  /** What the theorem asks of a table: rows within their bytes, disjoint and in ascending order. */
  ghost predicate GoodTable(t: seq<Field>) {
    (forall i | 0 <= i < |t| :: IsField(t[i]) && Contained(t[i]) && t[i].width > 0)
    && forall i, j | 0 <= i < j < |t| :: t[i].lsb + t[i].width <= t[j].lsb
  }

  ghost predicate InHost(t: seq<Field>, host: seq<bv8>) {
    forall i | 0 <= i < |t| :: t[i].offset + t[i].size <= |host|
  }

  ghost predicate InTarget(t: seq<Field>, size: nat) {
    forall i | 0 <= i < |t| :: t[i].lsb / 8 + t[i].size <= size
  }

  /** Every row lies in the host structure, and its value there fits its width. */
  ghost predicate AllFitWidth(t: seq<Field>, host: seq<bv8>, bigEndian: bool) {
    InHost(t, host) && forall i | 0 <= i < |t| :: FitsWidth(host, t[i], bigEndian)
  }

  ghost predicate Outside(t: seq<Field>, k: nat) {
    forall i | 0 <= i < |t| :: !InField(t[i], k)
  }

  ghost predicate HoldsFields(bits: seq<bv8>, t: seq<Field>, host: seq<bv8>, bigEndian: bool)
    requires GoodTable(t) && InHost(t, host)
  {
    forall i, k: nat | 0 <= i < |t| && InField(t[i], k) && k < 8 * |bits| ::
      Bit(bits, k) <==> ValueBit(host, t[i], bigEndian, k - t[i].lsb)
  }

  ghost predicate ZeroOutside(bits: seq<bv8>, t: seq<Field>) {
    forall k: nat | k < 8 * |bits| && Outside(t, k) :: !Bit(bits, k)
  }

  /** Every field holds its value and every bit outside all fields is zero. */
  ghost predicate HoldsContext(bits: seq<bv8>, t: seq<Field>, host: seq<bv8>, bigEndian: bool)
    requires GoodTable(t) && InHost(t, host)
  {
    HoldsFields(bits, t, host, bigEndian) && ZeroOutside(bits, t)
  }

  /** One more field: the write lands on bits that are still zero, so the over-wide mask does no harm. */
  lemma {:induction false} OneMoreField(before: seq<bv8>, after: seq<bv8>, t: seq<Field>, n: nat, host: seq<bv8>,
      bigEndian: bool)
    requires GoodTable(t) && AllFitWidth(t, host, bigEndian) && n < |t|
    requires HoldsContext(before, t[..n], host, bigEndian)
    requires Written(t[n], host, bigEndian, before, after)
    ensures HoldsContext(after, t[..n + 1], host, bigEndian)
  {
    hide HoldsFields, ZeroOutside, Written, FitsWidth, Contained, IsField;
    OneMoreHolds(before, after, t, n, host, bigEndian);
    OneMoreZero(before, after, t, n, host, bigEndian);
  }

  lemma {:induction false} OneMoreZero(before: seq<bv8>, after: seq<bv8>, t: seq<Field>, n: nat, host: seq<bv8>,
      bigEndian: bool)
    requires GoodTable(t) && AllFitWidth(t, host, bigEndian) && n < |t|
    requires HoldsContext(before, t[..n], host, bigEndian)
    requires Written(t[n], host, bigEndian, before, after)
    ensures ZeroOutside(after, t[..n + 1])
  {
    hide Bit, NewBit, HoldsContext, FitsWidth, GoodTable, InHost, Outside, Written;
    forall k: nat | k < 8 * |after| && Outside(t[..n + 1], k)
      ensures !Bit(after, k)
    {
      OutsideBitAfter(before, after, t, n, host, bigEndian, k);
    }
  }

  lemma {:induction false} OneMoreHolds(before: seq<bv8>, after: seq<bv8>, t: seq<Field>, n: nat, host: seq<bv8>,
      bigEndian: bool)
    requires GoodTable(t) && AllFitWidth(t, host, bigEndian) && n < |t|
    requires HoldsContext(before, t[..n], host, bigEndian)
    requires Written(t[n], host, bigEndian, before, after)
    ensures HoldsFields(after, t[..n + 1], host, bigEndian)
  {
    hide Bit, ValueBit, NewBit, FitsWidth, HoldsContext, Written;
    var more := t[..n + 1];
    assert forall i | 0 <= i < n + 1 :: more[i] == t[i];
    forall i, k: nat | 0 <= i < n + 1 && InField(more[i], k) && k < 8 * |after|
      ensures Bit(after, k) <==> ValueBit(host, more[i], bigEndian, k - more[i].lsb)
    {
      FieldBitAfter(before, after, t, n, host, bigEndian, i, k);
    }
  }

  lemma {:induction false} OutsideBitAfter(before: seq<bv8>, after: seq<bv8>, t: seq<Field>, n: nat, host: seq<bv8>,
      bigEndian: bool, k: nat)
    requires GoodTable(t) && AllFitWidth(t, host, bigEndian) && n < |t|
    requires HoldsContext(before, t[..n], host, bigEndian)
    requires Written(t[n], host, bigEndian, before, after)
    requires k < 8 * |after| && Outside(t[..n + 1], k)
    ensures !Bit(after, k)
  {
    hide ValueBit, MaskBit, Bit;
    var done, more := t[..n], t[..n + 1];
    forall i | 0 <= i < |done| ensures !InField(done[i], k) {
      assert more[i] == done[i];
    }
    assert !InField(t[n], k) by { assert more[n] == t[n]; }
    assert FitsWidth(host, t[n], bigEndian);
  }

  lemma {:induction false} FieldBitAfter(before: seq<bv8>, after: seq<bv8>, t: seq<Field>, n: nat, host: seq<bv8>,
      bigEndian: bool, i: nat, k: nat)
    requires GoodTable(t) && AllFitWidth(t, host, bigEndian) && i <= n < |t|
    requires HoldsContext(before, t[..n], host, bigEndian)
    requires Written(t[n], host, bigEndian, before, after)
    requires InField(t[i], k) && k < 8 * |after|
    ensures Bit(after, k) <==> ValueBit(host, t[i], bigEndian, k - t[i].lsb)
  {
    hide ValueBit, MaskBit, Bit;
    if i == n {
      assert t[n].lsb % 8 + t[n].width <= 8 * t[n].size;
      assert InWindow(t[n], k);
      MaskCoversField(t[n], k - t[n].lsb);
    } else {
      assert t[..n][i] == t[i];
      assert t[i].lsb + t[i].width <= t[n].lsb;
    }
  }

  /** Zeroes the context, the `size` bytes at `at`, then writes every field of the table in
      table order. The table ends with a row of width zero. */
  method SetContext(page: array<bv8>, at: nat, size: nat, t: seq<Field>, host: seq<bv8>, bigEndian: bool)
    requires |t| > 0 && t[|t| - 1].width == 0 && at + size <= page.Length
    requires GoodTable(t[..|t| - 1]) && InTarget(t[..|t| - 1], size) && AllFitWidth(t[..|t| - 1], host, bigEndian)
    modifies page
    ensures HoldsContext(page[at..at + size], t[..|t| - 1], host, bigEndian)
    ensures forall n | 0 <= n < page.Length && !(at <= n < at + size) :: page[n] == old(page[n])
  {
    ghost var rows := t[..|t| - 1];
    for i := 0 to size
      invariant forall n | 0 <= n < page.Length :: page[n] == if at <= n < at + i then 0 else old(page[n])
    {
      page[at + i] := 0;
    }
    ZeroContext(page[at..at + size], host, bigEndian);
    assert rows[..0] == [];
    hide HoldsContext, GoodTable, AllFitWidth, InHost, InTarget, Bit, NewBit, InField;
    var i := 0;
    while t[i].width != 0
      invariant 0 <= i < |t|
      invariant GoodTable(rows[..i]) && InHost(rows[..i], host)
      invariant HoldsContext(page[at..at + size], rows[..i], host, bigEndian)
      invariant forall n | 0 <= n < page.Length && !(at <= n < at + size) :: page[n] == old(page[n])
      decreases |t| - i
    {
      assert i < |t| - 1;
      TableRow(rows, i, host, bigEndian, size);
      ghost var before := page[at..at + size];
      HmcWrite(page, at, size, t[i], host, bigEndian);
      OneMoreField(before, page[at..at + size], rows, i, host, bigEndian);
      i := i + 1;
    }
    SentinelIsLast(t, i);
    assert rows[..i] == rows;
  }

  lemma {:induction false} TableRow(t: seq<Field>, i: nat, host: seq<bv8>, bigEndian: bool, size: nat)
    requires GoodTable(t) && InTarget(t, size) && AllFitWidth(t, host, bigEndian) && i < |t|
    ensures IsField(t[i]) && t[i].offset + t[i].size <= |host| && t[i].lsb / 8 + t[i].size <= size
    ensures GoodTable(t[..i + 1]) && InHost(t[..i + 1], host)
  {
    assert forall n | 0 <= n < i + 1 :: t[..i + 1][n] == t[n];
  }

  lemma {:induction false} SentinelIsLast(t: seq<Field>, i: nat)
    requires i < |t| && t[i].width == 0 && GoodTable(t[..|t| - 1])
    ensures i == |t| - 1
  {
    var rows := t[..|t| - 1];
    assert forall n | 0 <= n < |rows| :: rows[n] == t[n] && rows[n].width > 0;
  }

  lemma {:induction false} ZeroContext(bits: seq<bv8>, host: seq<bv8>, bigEndian: bool)
    requires forall n | 0 <= n < |bits| :: bits[n] == 0
    ensures HoldsContext(bits, [], host, bigEndian)
  {
    forall k: nat | k < 8 * |bits|
      ensures !Bit(bits, k)
    {
      ZeroAt(Idx(k % 8));
    }
  }

  lemma {:induction false} ZeroAt(j: bv8)
    requires j < 8
    ensures !BitAt(0, j)
  {
  }

  // ----- reading a context back -----

  /** A bit that the wrapped mask makes the read of `f` take from past the end of the field. */
  predicate OverRead(f: Field, k: nat)
    requires IsField(f)
  {
    InWindow(f, k) && f.lsb + f.width <= k && MaskBit(f, k - f.lsb)
  }

  /** No field has a set bit where the read of `f` reaches past its end. */
  ghost predicate NothingOverRead(t: seq<Field>, f: Field, host: seq<bv8>, bigEndian: bool)
    requires GoodTable(t) && InHost(t, host) && IsField(f)
  {
    forall m, k: nat | 0 <= m < |t| && InField(t[m], k) && OverRead(f, k) ::
      !ValueBit(host, t[m], bigEndian, k - t[m].lsb)
  }

  /** One bit of a field read back from the whole context. */
  lemma {:induction false} ReadBackBit(bits: seq<bv8>, t: seq<Field>, host: seq<bv8>, bigEndian: bool, i: nat, j: nat)
    requires GoodTable(t) && InTarget(t, |bits|) && AllFitWidth(t, host, bigEndian)
    requires HoldsContext(bits, t, host, bigEndian) && i < |t| && j < 8 * t[i].size
    ensures var k := t[i].lsb + j;
            (ReadBit(t[i], bits, j) <==> ValueBit(host, t[i], bigEndian, j)) <==> !(OverRead(t[i], k) && Bit(bits, k))
  {
    hide ValueBit, MaskBit, Bit;
    var f := t[i];
    assert FitsWidth(host, f, bigEndian) && IsField(f) && Contained(f);
    assert f.lsb / 8 + f.size <= |bits|;
    if j < f.width {
      MaskCoversField(f, j);
      assert InWindow(f, f.lsb + j) && InField(f, f.lsb + j);
    }
  }

  /** A field reads back as its value from the whole context exactly when no later field has a
      set bit where the wrapped mask reaches past its end. */
  lemma {:induction false} ContextReadsBackIff(bits: seq<bv8>, t: seq<Field>, host: seq<bv8>, bigEndian: bool, i: nat)
    requires GoodTable(t) && InTarget(t, |bits|) && AllFitWidth(t, host, bigEndian)
    requires HoldsContext(bits, t, host, bigEndian) && i < |t|
    ensures NothingOverRead(t, t[i], host, bigEndian) <==>
              forall j: nat | j < 8 * t[i].size :: ReadBit(t[i], bits, j) <==> ValueBit(host, t[i], bigEndian, j)
  {
    hide ValueBit, MaskBit, Bit, ReadBit;
    var f := t[i];
    assert f.lsb / 8 + f.size <= |bits|;
    if NothingOverRead(t, f, host, bigEndian) {
      forall j: nat | j < 8 * f.size
        ensures ReadBit(f, bits, j) <==> ValueBit(host, f, bigEndian, j)
      {
        ReadBackBit(bits, t, host, bigEndian, i, j);
        assert OverRead(f, f.lsb + j) && Bit(bits, f.lsb + j) ==> !Outside(t, f.lsb + j);
      }
    }
    if forall j: nat | j < 8 * f.size :: ReadBit(f, bits, j) <==> ValueBit(host, f, bigEndian, j) {
      forall m, k: nat | 0 <= m < |t| && InField(t[m], k) && OverRead(f, k)
        ensures !ValueBit(host, t[m], bigEndian, k - t[m].lsb)
      {
        ReadBackBit(bits, t, host, bigEndian, i, k - f.lsb);
      }
    }
  }

  /** The bits that the read of a field takes from past its end: the bytes whose subtraction wraps. */
  lemma {:induction false} OverReadRange(f: Field, k: nat)
    requires IsField(f)
    ensures OverRead(f, k) <==> f.lsb + 8 * (f.width / 8 + 1) <= k < 8 * (f.lsb / 8) + 8 * f.size
  {
    hide MaskBit;
    if InWindow(f, k) && f.lsb + f.width <= k {
      MaskPastField(f, k - f.lsb);
    }
  }

  /** In particular a field that needs all of its host bytes reads back. */
  lemma {:induction false} NoOverRead(t: seq<Field>, f: Field, host: seq<bv8>, bigEndian: bool)
    requires GoodTable(t) && InHost(t, host) && IsField(f) && 8 * (f.size - 1) <= f.width
    ensures NothingOverRead(t, f, host, bigEndian)
  {
    hide ValueBit, MaskBit;
    forall k: nat | InWindow(f, k) && f.lsb + f.width <= k
      ensures !OverRead(f, k)
    {
      MaskPastField(f, k - f.lsb);
    }
  }

  // ----- the tables of the device -----

  /** Rows 0 to 20 of the receive queue context, then the end mark. */
  function RxRow(i: nat): Field {
    match i
    case 0 => Field(0, 2, 13, 0)        // head
    case 1 => Field(2, 2, 8, 13)        // cpuid
    case 2 => Field(8, 8, 57, 32)       // base
    case 3 => Field(16, 2, 13, 89)      // qlen
    case 4 => Field(18, 2, 7, 102)      // dbuff
    case 5 => Field(20, 2, 5, 109)      // hbuff
    case 6 => Field(22, 1, 2, 114)      // dtype
    case 7 => Field(23, 1, 1, 116)      // dsize
    case 8 => Field(24, 1, 1, 117)      // crcstrip
    case 9 => Field(25, 1, 1, 118)      // fc_en
    case 10 => Field(26, 1, 1, 119)     // l2tsel
    case 11 => Field(27, 1, 4, 120)     // hsplit_0
    case 12 => Field(28, 1, 2, 124)     // hsplit_1
    case 13 => Field(29, 1, 1, 127)     // showiv
    case 14 => Field(32, 4, 14, 174)    // rxmax
    case 15 => Field(36, 1, 1, 193)     // tphrdesc_en
    case 16 => Field(37, 1, 1, 194)     // tphwdesc_en
    case 17 => Field(38, 1, 1, 195)     // tphdata_en
    case 18 => Field(39, 1, 1, 196)     // tphhead_en
    case 19 => Field(40, 2, 3, 198)     // lrxqthresh
    case 20 => Field(42, 1, 1, 201)     // pref_en
    case _ => Field(0, 0, 0, 0)
  }

  /** Rows 0 to 17 of the transmit queue context, then the end mark. */
  function TxRow(i: nat): Field {
    match i
    case 0 => Field(0, 2, 13, 0)        // head
    case 1 => Field(2, 1, 1, 30)        // new_context
    case 2 => Field(8, 8, 57, 32)       // base
    case 3 => Field(16, 1, 1, 89)       // fc_en
    case 4 => Field(17, 1, 1, 90)       // timesync_en
    case 5 => Field(18, 1, 1, 91)       // fd_en
    case 6 => Field(19, 1, 1, 92)       // alt_vlan_en
    case 7 => Field(22, 1, 8, 96)       // cpuid
    case 8 => Field(20, 2, 13, 128)     // thead_wb
    case 9 => Field(23, 1, 1, 160)      // head_wb_en
    case 10 => Field(24, 2, 13, 161)    // qlen
    case 11 => Field(26, 1, 1, 174)     // tphrdesc_en
    case 12 => Field(27, 1, 1, 175)     // tphrpkt_en
    case 13 => Field(28, 1, 1, 176)     // tphwdesc_en
    case 14 => Field(32, 8, 64, 192)    // headwb_addr
    case 15 => Field(40, 4, 32, 896)    // crc
    case 16 => Field(44, 2, 10, 980)    // rdylist
    case 17 => Field(46, 1, 1, 990)     // rdylist_act
    case _ => Field(0, 0, 0, 0)
  }

  function RxTable(): seq<Field> {
    seq(22, i requires 0 <= i < 22 => RxRow(i))
  }

  function TxTable(): seq<Field> {
    seq(19, i requires 0 <= i < 19 => TxRow(i))
  }

  const RX_HOST_SIZE := 48
  const TX_HOST_SIZE := 48

  lemma {:induction false} RxRowFacts(i: nat)
    requires i < 21
    ensures IsField(RxRow(i)) && Contained(RxRow(i)) && RxRow(i).width > 0
    ensures RxRow(i).offset + RxRow(i).size <= RX_HOST_SIZE && RxRow(i).lsb / 8 + RxRow(i).size <= 32
    ensures i < 20 ==> RxRow(i).lsb + RxRow(i).width <= RxRow(i + 1).lsb
  {
  }

  lemma {:induction false} TxRowFacts(i: nat)
    requires i < 18
    ensures IsField(TxRow(i)) && Contained(TxRow(i)) && TxRow(i).width > 0
    ensures TxRow(i).offset + TxRow(i).size <= TX_HOST_SIZE && TxRow(i).lsb / 8 + TxRow(i).size <= 128
    ensures i < 17 ==> TxRow(i).lsb + TxRow(i).width <= TxRow(i + 1).lsb
  {
  }

  lemma {:induction false} RxAscending(i: nat, j: nat)
    requires i < j < 21
    ensures RxRow(i).lsb + RxRow(i).width <= RxRow(j).lsb
  {
    hide RxRow;
    RxRowFacts(i);
    if i + 1 < j {
      RxAscending(i, j - 1);
      RxRowFacts(j - 1);
    }
  }

  lemma {:induction false} TxAscending(i: nat, j: nat)
    requires i < j < 18
    ensures TxRow(i).lsb + TxRow(i).width <= TxRow(j).lsb
  {
    hide TxRow;
    TxRowFacts(i);
    if i + 1 < j {
      TxAscending(i, j - 1);
      TxRowFacts(j - 1);
    }
  }

  /** The receive table meets what the packing theorem asks. */
  lemma {:induction false} RxTableIsGood(host: seq<bv8>)
    requires |host| == RX_HOST_SIZE
    ensures GoodTable(RxTable()[..21]) && InTarget(RxTable()[..21], 32) && InHost(RxTable()[..21], host)
    ensures RxTable()[21].width == 0
  {
    assert RxTable()[21].width == 0;
    hide RxRow;
    forall i, j | 0 <= i < j < 21 ensures RxRow(i).lsb + RxRow(i).width <= RxRow(j).lsb { RxAscending(i, j); }
    forall i | 0 <= i < 21 { RxRowFacts(i); }
  }

  /** The transmit table meets what the packing theorem asks. */
  lemma {:induction false} TxTableIsGood(host: seq<bv8>)
    requires |host| == TX_HOST_SIZE
    ensures GoodTable(TxTable()[..18]) && InTarget(TxTable()[..18], 128) && InHost(TxTable()[..18], host)
    ensures TxTable()[18].width == 0
  {
    assert TxTable()[18].width == 0;
    hide TxRow;
    forall i, j | 0 <= i < j < 18 ensures TxRow(i).lsb + TxRow(i).width <= TxRow(j).lsb { TxAscending(i, j); }
    forall i | 0 <= i < 18 { TxRowFacts(i); }
  }
}
