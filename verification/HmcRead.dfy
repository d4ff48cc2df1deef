/** Reading a bit field back out of a queue context, and its round trip with the write. */
module HmcRead {
  import opened HmcBits

  /** A byte shifted down, with what the byte after spilled. */
  function Down(b: bv8, next: bv8, shift: bv8): bv8
    requires shift < 8
  {
    (b >> shift) | next
  }

  function SpillDown(b: bv8, shift: bv8): bv8
    requires shift < 8
  {
    b << (8 - shift)
  }

  function CarriedDown(b: seq<bv8>, shift: bv8, i: nat): bv8
    requires i <= |b| && shift < 8
  {
    if i == |b| then 0 else SpillDown(b[i], shift)
  }

  function ReadByte(b: seq<bv8>, mask: bv8, shift: bv8, i: nat): bv8
    requires i < |b| && shift < 8
  {
    And(Down(b[i], CarriedDown(b, shift, i + 1), shift), mask)
  }

  function And(x: bv8, mask: bv8): bv8 {
    x & mask
  }

  lemma {:induction false} DownAt(x: bv8, y: bv8, s: bv8, j: bv8)
    requires s < 8 && j < 8
    ensures BitAt(Down(x, SpillDown(y, s), s), j) <==> if s + j < 8 then BitAt(x, s + j) else BitAt(y, s + j - 8)
    ensures BitAt(Down(x, 0, s), j) <==> s + j < 8 && BitAt(x, s + j)
  {
  }

  lemma {:induction false} AndAt(x: bv8, m: bv8, j: bv8)
    requires j < 8
    ensures BitAt(And(x, m), j) <==> BitAt(x, j) && BitAt(m, j)
  {
  }

  lemma {:induction false} IdxSum(n: nat, s: nat)
    requires n < 8 && s < 8
    ensures Idx(n) < 8 && Idx(s) < 8
    ensures s + n < 8 <==> Idx(s) + Idx(n) < 8
    ensures s + n < 8 ==> Idx(s + n) == Idx(s) + Idx(n)
    ensures s + n >= 8 ==> Idx(s + n - 8) == Idx(s) + Idx(n) - 8
  {
  }

  /** Bit `j` of what the driver reads: masked, and zero past the last byte of the field. */
  predicate ReadBit(f: Field, bits: seq<bv8>, j: nat)
    requires IsField(f) && f.lsb / 8 + f.size <= |bits| && j < 8 * f.size
  {
    MaskBit(f, j) && InWindow(f, f.lsb + j) && Bit(bits, f.lsb + j)
  }

  lemma {:induction false} SumIndex(j: nat, s: nat)
    requires s < 8
    ensures if j % 8 + s < 8 then (j + s) / 8 == j / 8 && (j + s) % 8 == j % 8 + s
            else (j + s) / 8 == j / 8 + 1 && (j + s) % 8 == j % 8 + s - 8
  {
  }

  /** Bit `j` of a string shifted down is bit `j + s` of the string. */
  lemma {:induction false} ReadByteBits(b: seq<bv8>, mask: bv8, s: nat, j: nat)
    requires j < 8 * |b| && s < 8
    ensures Idx(s) < 8
    ensures BitOf(ReadByte(b, mask, Idx(s), j / 8), j % 8) <==>
              BitOf(mask, j % 8) && j + s < 8 * |b| && Bit(b, j + s)
  {
    hide BitAt, Idx, Down, SpillDown, And;
    var i, n := j / 8, j % 8;
    IdxSum(n, s);
    SumIndex(j, s);
    DownAt(b[i], if i + 1 == |b| then 0 else b[i + 1], Idx(s), Idx(n));
    AndAt(Down(b[i], CarriedDown(b, Idx(s), i + 1), Idx(s)), mask, Idx(n));
  }

  lemma {:induction false} ReadIsReadBit(f: Field, bits: seq<bv8>, src: seq<bv8>, j: nat)
    requires IsField(f) && f.lsb / 8 + f.size <= |bits| && src == bits[f.lsb / 8..f.lsb / 8 + f.size] && j < 8 * f.size
    ensures Idx(f.lsb % 8) < 8 && Idx(MaskWidth(f.width, j / 8)) <= 8
    ensures BitOf(ReadByte(src, MaskByte(Idx(MaskWidth(f.width, j / 8))), Idx(f.lsb % 8), j / 8), j % 8)
            <==> ReadBit(f, bits, j)
  {
    hide BitOf, Idx, MaskByte, MaskWidth, ReadByte;
    var s, dst := f.lsb % 8, f.lsb / 8;
    MaskByteBits(MaskWidth(f.width, j / 8), j % 8);
    ReadByteBits(src, MaskByte(Idx(MaskWidth(f.width, j / 8))), s, j);
    if j + s < 8 * f.size {
      assert f.lsb + j == 8 * dst + (j + s);
      assert (f.lsb + j) / 8 == dst + (j + s) / 8 && (f.lsb + j) % 8 == (j + s) % 8;
    }
  }

  /** Reads a field, last byte first, into the bytes of its value. */
  method ReadBytes(bits: array<bv8>, f: Field) returns (data: array<bv8>)
    requires IsField(f) && f.lsb / 8 + f.size <= bits.Length
    ensures fresh(data) && data.Length == 8
    ensures forall j: nat | j < 8 * f.size :: BitOf(data[j / 8], j % 8) <==> ReadBit(f, bits[..], j)
  {
    hide BitOf, Idx, MaskByte, MaskWidth, Down, And, SpillDown;
    var mask := new bv8[8];
    for i := 0 to f.size
      invariant forall n | 0 <= n < i ::
        Idx(MaskWidth(f.width, n)) <= 8 && mask[n] == MaskByte(Idx(MaskWidth(f.width, n)))
    {
      MaskByteBits(MaskWidth(f.width, i), 0);
      mask[i] := MaskByte(Idx(MaskWidth(f.width, i)));
    }
    IdxArith(f.lsb % 8, 0);
    var shift := Idx(f.lsb % 8);
    var base := f.lsb / 8;
    ghost var src := bits[base..base + f.size];

    data := new bv8[8];
    var nextData: bv8 := 0;
    for i := f.size downto 0
      invariant nextData == CarriedDown(src, shift, i)
      invariant forall n | 0 <= n < f.size ::
        Idx(MaskWidth(f.width, n)) <= 8 && mask[n] == MaskByte(Idx(MaskWidth(f.width, n)))
      invariant forall n | i <= n < f.size :: data[n] == ReadByte(src, mask[n], shift, n)
    {
      data[i] := And(Down(bits[base + i], nextData, shift), mask[i]);
      nextData := SpillDown(bits[base + i], shift);
    }
    forall j: nat | j < 8 * f.size
      ensures BitOf(data[j / 8], j % 8) <==> ReadBit(f, bits[..], j)
    {
      ReadIsReadBit(f, bits[..], src, j);
    }
  }

  /** Stores the bytes of a value into the host structure, in host byte order. */
  method HmcReadInto(bits: array<bv8>, f: Field, host: array<bv8>, bigEndian: bool)
    requires IsField(f) && f.lsb / 8 + f.size <= bits.Length && f.offset + f.size <= host.Length && bits != host
    modifies host
    ensures forall j: nat | j < 8 * f.size :: ValueBit(host[..], f, bigEndian, j) <==> ReadBit(f, bits[..], j)
    ensures forall n | 0 <= n < host.Length && !(f.offset <= n < f.offset + f.size) :: host[n] == old(host[n])
  {
    hide BitOf, ReadBit;
    var data := ReadBytes(bits, f);
    for i := 0 to f.size
      invariant forall n | 0 <= n < i :: HostByte(host[..], f, bigEndian, n) == data[n]
      invariant forall n | 0 <= n < host.Length && !(f.offset <= n < f.offset + f.size) :: host[n] == old(host[n])
      invariant forall j: nat | j < 8 * f.size :: BitOf(data[j / 8], j % 8) <==> ReadBit(f, bits[..], j)
    {
      host[if bigEndian then f.offset + f.size - (i + 1) else f.offset + i] := data[i];
    }
  }

  // ----- round trip -----

  /** The value fits the width of its field. */
  predicate FitsWidth(host: seq<bv8>, f: Field, bigEndian: bool)
    requires f.offset + f.size <= |host|
  {
    forall j: nat | f.width <= j < 8 * f.size :: !ValueBit(host, f, bigEndian, j)
  }

  /** The field lies within its `size` bytes of the target. */
  predicate Contained(f: Field) {
    f.lsb % 8 + f.width <= 8 * f.size
  }

  lemma {:induction false} MaskCoversField(f: Field, j: nat)
    requires IsField(f) && j < 8 * f.size && j < f.width
    ensures MaskBit(f, j)
  {
    assert WidthRemain(f.width, j / 8) == f.width - 8 * (j / 8);
  }

  /** The mask reaches past the field exactly when some byte index `i` has `width < 8 * i`. */
  lemma {:induction false} MaskPastField(f: Field, j: nat)
    requires IsField(f) && f.width <= j < 8 * f.size
    ensures MaskBit(f, j) <==> f.width < 8 * (j / 8)
  {
    var i := j / 8;
    if f.width < 8 * i {
      assert WidthRemain(f.width, i) == 0x10000 + f.width - 8 * i;
    } else {
      assert WidthRemain(f.width, i) == f.width - 8 * i;
    }
  }

  /** Reading after writing gives back the value, whatever the mask did elsewhere. */
  lemma {:induction false} ReadAfterWrite(f: Field, host: seq<bv8>, bigEndian: bool, before: seq<bv8>,
      after: seq<bv8>, j: nat)
    requires IsField(f) && f.offset + f.size <= |host| && Contained(f) && FitsWidth(host, f, bigEndian)
    requires f.lsb / 8 + f.size <= |before| && Written(f, host, bigEndian, before, after) && j < 8 * f.size
    ensures ReadBit(f, after, j) <==> ValueBit(host, f, bigEndian, j)
  {
    hide Bit, MaskBit, ValueBit;
    if j < f.width {
      MaskCoversField(f, j);
      assert InWindow(f, f.lsb + j);
    } else if InWindow(f, f.lsb + j) {
      assert f.lsb + j < 8 * |after|;
    }
  }

  lemma {:induction false} OtherBitsKept(f: Field, host: seq<bv8>, bigEndian: bool, k: nat, was: bool)
    requires IsField(f) && f.offset + f.size <= |host| && FitsWidth(host, f, bigEndian)
    requires 8 * (f.size - 1) <= f.width && !(f.lsb <= k < f.lsb + f.width)
    ensures NewBit(f, host, bigEndian, k, was) <==> was
  {
    hide ValueBit;
    if InWindow(f, k) {
      MaskPastField(f, k - f.lsb);
    }
  }

  lemma {:induction false} OtherBitCleared(f: Field, host: seq<bv8>, bigEndian: bool)
    requires IsField(f) && f.offset + f.size <= |host| && FitsWidth(host, f, bigEndian)
    requires 8 * (f.size - 1) > f.width
    ensures var k := f.lsb + 8 * (f.size - 1);
            !(f.lsb <= k < f.lsb + f.width) && !NewBit(f, host, bigEndian, k, true)
  {
    hide ValueBit;
    MaskPastField(f, 8 * (f.size - 1));
  }

  /** The bits outside a field survive every write of a fitting value exactly when the field
      needs all of its host bytes; otherwise the wrapped mask clears bits past its end. */
  lemma {:induction false} OtherBitsKeptIff(f: Field, host: seq<bv8>, bigEndian: bool)
    requires IsField(f) && f.offset + f.size <= |host| && FitsWidth(host, f, bigEndian)
    ensures 8 * (f.size - 1) <= f.width <==>
              forall k: nat, was | !(f.lsb <= k < f.lsb + f.width) :: NewBit(f, host, bigEndian, k, was) <==> was
  {
    hide NewBit;
    if 8 * (f.size - 1) <= f.width {
      forall k: nat, was | !(f.lsb <= k < f.lsb + f.width)
        ensures NewBit(f, host, bigEndian, k, was) <==> was
      {
        OtherBitsKept(f, host, bigEndian, k, was);
      }
    } else {
      OtherBitCleared(f, host, bigEndian);
    }
  }
}
