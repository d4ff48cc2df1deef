/** Which fields of a queue context read back as their values, and which do not. */
module HmcReadBack {
  import opened Arith
  import opened Options
  import opened HmcBits
  import opened HmcRead
  import opened HmcContext
  import opened HmcMembers
  import opened HostStruct

  /** A receive context holds the values of a host structure, each within its width. */
  ghost predicate Programmed(bits: seq<bv8>, host: seq<bv8>, bigEndian: bool) {
    var t := RxTable()[..21];
    |bits| >= 32 && |host| == RX_HOST_SIZE && AllFitWidth(t, host, bigEndian)
    && GoodTable(t) && HoldsContext(bits, t, host, bigEndian)
  }

  /** Every bit read from the context is that of the value. */
  ghost predicate ReadsBack(i: nat, bits: seq<bv8>, host: seq<bv8>, bigEndian: bool) {
    var f := RxRow(i);
    IsField(f) && f.lsb / 8 + f.size <= |bits| && f.offset + f.size <= |host| &&
    forall j: nat | j < 8 * f.size :: ReadBit(f, bits, j) <==> ValueBit(host, f, bigEndian, j)
  }

  /** Bit `j` of row `i`, as the host structure has it. */
  predicate Value(i: nat, host: seq<bv8>, bigEndian: bool, j: nat) {
    var f := RxRow(i);
    f.offset + f.size <= |host| && j < 8 * f.size && ValueBit(host, f, bigEndian, j)
  }

  /** The bits that the reads of dbuff, hbuff, rxmax and lrxqthresh reach past their ends. */
  predicate PastEnd(i: nat, k: nat) {
    (i == 4 && 110 <= k < 112) || (i == 5 && 117 <= k < 120) || (i == 14 && 190 <= k < 200) ||
        (i == 19 && 206 <= k < 208)
  }

  lemma {:induction false} RxOverRead(i: nat, k: nat)
    requires i < 21
    ensures IsField(RxRow(i)) && (OverRead(RxRow(i), k) <==> PastEnd(i, k))
  {
    hide OverRead;
    OverReadRange(RxRow(i), k);
  }

  /** The row that a bit past an end belongs to; 21 for none. */
  function RowAt(k: nat): nat {
    match k
    case 110 => 5
    case 111 => 5
    case 117 => 8
    case 118 => 9
    case 119 => 10
    case 193 => 15
    case 194 => 16
    case 195 => 17
    case 196 => 18
    case 198 => 19
    case 199 => 19
    case _ => 21
  }

  lemma {:induction false} RowAtIsOwner(i: nat, k: nat, m: nat)
    requires PastEnd(i, k) && m < 21
    ensures InField(RxRow(m), k) <==> m == RowAt(k)
  {
  }

  /** Bit `k` of the context is to be set: its row has a one there. */
  predicate WantsSet(k: nat, host: seq<bv8>, bigEndian: bool) {
    RowAt(k) < 21 && RxRow(RowAt(k)).lsb <= k && Value(RowAt(k), host, bigEndian, k - RxRow(RowAt(k)).lsb)
  }

  ghost predicate ClearPast(i: nat, host: seq<bv8>, bigEndian: bool) {
    forall k: nat | PastEnd(i, k) :: !WantsSet(k, host, bigEndian)
  }

  /** A row reads back exactly when the bits it reaches past its end are clear in their own rows. */
  lemma {:induction false} RowReadsBackIff(i: nat, bits: seq<bv8>, host: seq<bv8>, bigEndian: bool)
    requires i < 21 && Programmed(bits, host, bigEndian)
    ensures ReadsBack(i, bits, host, bigEndian) <==>
              ClearPast(i, host, bigEndian)
  {
    var t := RxTable()[..21];
    RxTableIsGood(host);
    RxRowFacts(i);
    ContextReadsBackIff(bits, t, host, bigEndian, i);
    NothingPast(i, host, bigEndian);
  }

  lemma {:induction false} NothingPast(i: nat, host: seq<bv8>, bigEndian: bool)
    requires i < 21 && |host| == RX_HOST_SIZE && GoodTable(RxTable()[..21]) && InHost(RxTable()[..21], host)
    requires IsField(RxRow(i))
    ensures NothingOverRead(RxTable()[..21], RxRow(i), host, bigEndian) <==>
              ClearPast(i, host, bigEndian)
  {
    hide RxRow, ValueBit, OverRead, PastEnd, RowAt, IsField;
    var t, f := RxTable()[..21], RxRow(i);
    assert forall m | 0 <= m < 21 :: t[m] == RxRow(m);
    if NothingOverRead(t, f, host, bigEndian) {
      forall k: nat | PastEnd(i, k) && RowAt(k) < 21
        ensures !WantsSet(k, host, bigEndian)
      {
        RxOverRead(i, k);
        RowAtIsOwner(i, k, RowAt(k));
        assert InField(t[RowAt(k)], k);
      }
    }
    if ClearPast(i, host, bigEndian) {
      forall m, k: nat | 0 <= m < |t| && InField(t[m], k) && OverRead(f, k)
        ensures !ValueBit(host, t[m], bigEndian, k - t[m].lsb)
      {
        RxOverRead(i, k);
        RowAtIsOwner(i, k, m);
        assert !WantsSet(k, host, bigEndian) && Contained(t[m]);
      }
    }
  }

  /** The receive field dbuff reads back exactly when bits 1 and 2 of hbuff are clear. */
  lemma {:induction false} DbuffReadsBackIff(bits: seq<bv8>, host: seq<bv8>, bigEndian: bool)
    requires Programmed(bits, host, bigEndian)
    ensures ReadsBack(4, bits, host, bigEndian) <==>
              !Value(5, host, bigEndian, 1) && !Value(5, host, bigEndian, 2)
  {
    hide Programmed, ReadsBack, Value;
    RowReadsBackIff(4, bits, host, bigEndian);
    assert RxRow(5).lsb == 109;
    assert PastEnd(4, 110) && PastEnd(4, 111) && RowAt(110) == 5 && RowAt(111) == 5;
  }

  /** The receive field hbuff reads back exactly when crcstrip, fc_en and l2tsel are clear. */
  lemma {:induction false} HbuffReadsBackIff(bits: seq<bv8>, host: seq<bv8>, bigEndian: bool)
    requires Programmed(bits, host, bigEndian)
    ensures ReadsBack(5, bits, host, bigEndian) <==>
              !Value(8, host, bigEndian, 0) && !Value(9, host, bigEndian, 0) && !Value(10, host, bigEndian, 0)
  {
    hide Programmed, ReadsBack, Value;
    RowReadsBackIff(5, bits, host, bigEndian);
    assert RxRow(8).lsb == 117 && RxRow(9).lsb == 118 && RxRow(10).lsb == 119;
    assert PastEnd(5, 117) && PastEnd(5, 118) && PastEnd(5, 119);
    assert RowAt(117) == 8 && RowAt(118) == 9 && RowAt(119) == 10;
  }

  /** The receive field rxmax reads back exactly when the four tph fields and bits 0 and 1 of
      lrxqthresh are clear. */
  lemma {:induction false} RxmaxReadsBackIff(bits: seq<bv8>, host: seq<bv8>, bigEndian: bool)
    requires Programmed(bits, host, bigEndian)
    ensures ReadsBack(14, bits, host, bigEndian) <==>
              !Value(15, host, bigEndian, 0) && !Value(16, host, bigEndian, 0) && !Value(17, host, bigEndian, 0) &&
              !Value(18, host, bigEndian, 0) && !Value(19, host, bigEndian, 0) && !Value(19, host, bigEndian, 1)
  {
    hide Programmed, ReadsBack, Value;
    RowReadsBackIff(14, bits, host, bigEndian);
    assert RxRow(15).lsb == 193 && RxRow(16).lsb == 194 && RxRow(17).lsb == 195 && RxRow(18).lsb == 196;
    assert RxRow(19).lsb == 198;
    assert PastEnd(14, 193) && PastEnd(14, 194) && PastEnd(14, 195) && PastEnd(14, 196);
    assert PastEnd(14, 198) && PastEnd(14, 199);
    assert RowAt(193) == 15 && RowAt(194) == 16 && RowAt(195) == 17 && RowAt(196) == 18;
    assert RowAt(198) == 19 && RowAt(199) == 19;
  }

  // ----- the values of the driver -----

  /** The number of descriptors of a ring. */
  const DESCRIPTORS := 4096

  /** The receive structure as the driver fills it in for a ring of descriptors at a DMA address,
      from the sizes of buffers and frames. It refuses sizes that the device does not support. */
  function DriverContext(dma: nat, bufSize: nat, frame: nat): (c: Option<RxContext>) {
    if bufSize % 128 != 0 || bufSize < 1024 || bufSize > 16 * 1024 - 128 then None
    else if frame > 9728 || frame > 5 * bufSize then None
    else Some(RxContext(
      head := 0, cpuid := 0, base := dma / 128, qlen := DESCRIPTORS, dbuff := bufSize / 128, hbuff := 0,
      dtype := 0, dsize := 0, crcstrip := 1, fcEn := 0, l2tsel := 1, hsplit0 := 0, hsplit1 := 0, showiv := 0,
      rxmax := frame, tphrdescEn := 1, tphwdescEn := 1, tphdataEn := 1, tphheadEn := 0, lrxqthresh := 2,
      prefEn := 1))
  }

  /** The driver accepts buffers of 8 to 127 units of 128 bytes and frames of at most five buffers
      and 9728 bytes. What it accepts is within the widths of the device, for any 64-bit DMA address.
      The default sizes are accepted. */
  lemma {:induction false} DriverContextFits(dma: nat, bufSize: nat, frame: nat)
    requires dma < Pow2(64)
    ensures DriverContext(dma, bufSize, frame).Some? <==>
              (exists n: nat :: 8 <= n <= 127 && bufSize == 128 * n) && frame <= 5 * bufSize && frame <= 9728
    ensures DriverContext(dma, bufSize, frame).Some? ==> RxInRange(DriverContext(dma, bufSize, frame).value)
    ensures DriverContext(dma, 2048, 1518).Some?
  {
    hide Pow2;
    WidthPowers();
    assert bufSize % 128 == 0 ==> bufSize == 128 * (bufSize / 128);
    assert dma / 128 < Pow2(57) by {
      Pow2Add(7, 57);
    }
  }

  lemma {:induction false} WidthPowers()
    ensures Pow2(1) == 2 && Pow2(2) == 4 && Pow2(3) == 8 && Pow2(4) == 16 && Pow2(5) == 32
    ensures Pow2(7) == 128 && Pow2(8) == 256 && Pow2(13) == 8192 && Pow2(14) == 16384
  {
    Pow2Values();
  }

  /** What the device finds in a context that spells the structure of the driver. */
  lemma {:induction false} DriverProgrammed(bits: seq<bv8>, dma: nat, bufSize: nat, frame: nat)
    requires DriverContext(dma, bufSize, frame).Some?
    requires RxSpells(bits, DriverContext(dma, bufSize, frame).value)
    ensures 128 * Spelled(bits, 32, 57) <= dma < 128 * Spelled(bits, 32, 57) + 128
    ensures Spelled(bits, 89, 13) == 4096 && 128 * Spelled(bits, 102, 7) == bufSize && Spelled(bits, 174, 14) == frame
    ensures Bit(bits, 117) && !Bit(bits, 118) && Bit(bits, 119) && Bit(bits, 201)
    ensures Bit(bits, 193) && Bit(bits, 194) && Bit(bits, 195) && !Bit(bits, 196) && Spelled(bits, 198, 3) == 2
    ensures Spelled(bits, 0, 13) == Spelled(bits, 13, 8) == Spelled(bits, 109, 5) == Spelled(bits, 114, 2) == 0
    ensures !Bit(bits, 116) && Spelled(bits, 120, 4) == Spelled(bits, 124, 2) == 0 && !Bit(bits, 127)
  {
    hide Bit;
  }

  /** Bit `j` of a row of the structure is binary digit `j` of its member. */
  lemma {:induction false} ValueIsDigit(c: RxContext, bigEndian: bool, i: nat, j: nat)
    requires i < 21 && j < 8 * RxRow(i).size
    ensures Value(i, Structure(RxMembers(c), bigEndian), bigEndian, j) <==> Digit(RxMember(c, i).value, j)
  {
    hide OffsetOf, Structure, ValueBit, Digit, RxRow;
    RxOffsetIs(c, i);
    RowTakesMember(RxMembers(c), bigEndian, i, RxRow(i), j);
  }

  lemma {:induction false} DriverBits(dma: nat, bufSize: nat, frame: nat, bigEndian: bool)
    requires DriverContext(dma, bufSize, frame).Some?
    ensures var host := Structure(RxMembers(DriverContext(dma, bufSize, frame).value), bigEndian);
            Value(8, host, bigEndian, 0) && Value(15, host, bigEndian, 0) &&
            !Value(5, host, bigEndian, 1) && !Value(5, host, bigEndian, 2)
  {
    hide Structure, Value;
    var c := DriverContext(dma, bufSize, frame).value;
    ValueIsDigit(c, bigEndian, 8, 0);
    ValueIsDigit(c, bigEndian, 15, 0);
    ValueIsDigit(c, bigEndian, 5, 1);
    ValueIsDigit(c, bigEndian, 5, 2);
    assert Pow2(0) == 1 && Digit(1, 0) && !Digit(0, 1) && !Digit(0, 2);
  }

  /** With the values of the driver every field of the receive context reads back, except hbuff
      and rxmax. */
  lemma {:induction false} DriverReadBack(bits: seq<bv8>, dma: nat, bufSize: nat, frame: nat, bigEndian: bool, i: nat)
    requires DriverContext(dma, bufSize, frame).Some? && i < 21
    requires Programmed(bits, Structure(RxMembers(DriverContext(dma, bufSize, frame).value), bigEndian), bigEndian)
    ensures var host := Structure(RxMembers(DriverContext(dma, bufSize, frame).value), bigEndian);
            ReadsBack(i, bits, host, bigEndian) <==> i != 5 && i != 14
  {
    hide Programmed, ReadsBack, Value, DriverContext, Structure;
    var host := Structure(RxMembers(DriverContext(dma, bufSize, frame).value), bigEndian);
    DriverBits(dma, bufSize, frame, bigEndian);
    if i == 4 {
      DbuffReadsBackIff(bits, host, bigEndian);
    } else if i == 5 {
      HbuffReadsBackIff(bits, host, bigEndian);
    } else if i == 14 {
      RxmaxReadsBackIff(bits, host, bigEndian);
    } else {
      RowReadsBackIff(i, bits, host, bigEndian);
    }
  }

  /** Writing rxmax clears ten bits past its end, those of the tph fields among them: written
      after them, it would undo them. */
  lemma {:induction false} RxmaxClears(host: seq<bv8>, bigEndian: bool, k: nat, was: bool)
    requires |host| == RX_HOST_SIZE && FitsWidth(host, RxRow(14), bigEndian) && PastEnd(14, k)
    ensures IsField(RxRow(14)) && !NewBit(RxRow(14), host, bigEndian, k, was)
  {
    hide ValueBit, MaskBit;
    RxOverRead(14, k);
  }

  /** Every field of the transmit context reads back, always: each needs all of its host bytes. */
  lemma {:induction false} TxReadsBack(bits: seq<bv8>, host: seq<bv8>, bigEndian: bool, i: nat, j: nat)
    requires |bits| >= 128 && |host| == TX_HOST_SIZE && AllFitWidth(TxTable()[..18], host, bigEndian)
    requires GoodTable(TxTable()[..18]) && HoldsContext(bits, TxTable()[..18], host, bigEndian)
    requires i < 18 && j < 8 * TxRow(i).size
    ensures IsField(TxRow(i)) && TxRow(i).lsb / 8 + TxRow(i).size <= 128
    ensures TxRow(i).offset + TxRow(i).size <= TX_HOST_SIZE
    ensures ReadBit(TxRow(i), bits, j) <==> ValueBit(host, TxRow(i), bigEndian, j)
  {
    var t := TxTable()[..18];
    TxTableIsGood(host);
    TxRowFacts(i);
    assert t[i] == TxRow(i) && 8 * (TxRow(i).size - 1) <= TxRow(i).width;
    hide TxRow, ReadBit, ValueBit, HoldsContext, GoodTable, NothingOverRead;
    NoOverRead(t, t[i], host, bigEndian);
    ContextReadsBackIff(bits, t, host, bigEndian, i);
  }
}
