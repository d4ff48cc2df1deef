/** Packing of unaligned bit fields into a queue context: the byte loops of the driver and
    what they do bit by bit. */
module HmcBits {

  /** One row of a context table: where the field lies in the host structure (bytes) and in
      the hardware context (bits). */
  datatype Field = Field(offset: nat, size: nat, width: nat, lsb: nat)

  /** What the driver takes for granted of a row: 16-bit members and at most eight host bytes. */
  predicate IsField(f: Field) {
    f.size <= 8 && f.width < 0x10000 && f.lsb < 0x10000
  }

  /** Bit `j` of a byte, least significant first. */
  predicate BitAt(b: bv8, j: bv8)
    requires j < 8
  {
    (b >> j) & 1 == 1
  }

  /** A shift amount or bit number inside a byte. */
  function Idx(n: nat): bv8
    requires n <= 8
  {
    match n
    case 0 => 0 case 1 => 1 case 2 => 2 case 3 => 3 case 4 => 4
    case 5 => 5 case 6 => 6 case 7 => 7 case 8 => 8
  }

  lemma {:induction false} IdxArith(n: nat, s: nat)
    requires n < 8 && s < 8
    ensures Idx(n) < 8 && Idx(s) < 8
    ensures n >= s <==> Idx(n) >= Idx(s)
    ensures n >= s ==> Idx(n - s) == Idx(n) - Idx(s)
    ensures n < s ==> Idx(8 + n - s) == 8 + Idx(n) - Idx(s)
  {
  }

  predicate BitOf(b: bv8, j: nat)
    requires j < 8
  {
    IdxArith(j, j);
    BitAt(b, Idx(j))
  }

  /** Bit `k` of a byte string, least significant bit of the first byte first. */
  predicate Bit(s: seq<bv8>, k: nat)
    requires k < 8 * |s|
  {
    BitOf(s[k / 8], k % 8)
  }

  // ----- the value of a field, in either host byte order -----

  function HostByte(host: seq<bv8>, f: Field, bigEndian: bool, i: nat): bv8
    requires f.offset + f.size <= |host| && i < f.size
  {
    if bigEndian then host[f.offset + f.size - (i + 1)] else host[f.offset + i]
  }

  /** Bit `j` of the value of a field in the host structure. */
  predicate ValueBit(host: seq<bv8>, f: Field, bigEndian: bool, j: nat)
    requires f.offset + f.size <= |host| && j < 8 * f.size
  {
    BitOf(HostByte(host, f, bigEndian, j / 8), j % 8)
  }

  // ----- the mask -----

  /** `width - 8 * i` in sixteen bits: it wraps around when `width < 8 * i`. */
  function WidthRemain(width: nat, i: nat): (w: nat)
    requires width < 0x10000 && i < 8
    ensures w < 0x10000
  {
    (width - 8 * i) % 0x10000
  }

  function MaskWidth(width: nat, i: nat): (w: nat)
    requires width < 0x10000 && i < 8
    ensures w <= 8
  {
    if WidthRemain(width, i) < 8 then WidthRemain(width, i) else 8
  }

  function MaskByte(w: bv8): bv8
    requires w <= 8
  {
    if w == 8 then 0xFF else (1 << w) - 1
  }

  /** Bit `j` of the mask that the driver builds for a field. */
  predicate MaskBit(f: Field, j: nat)
    requires IsField(f) && j < 8 * f.size
  {
    j % 8 < MaskWidth(f.width, j / 8)
  }

  lemma {:induction false} MaskByteAt(w: bv8, j: bv8)
    requires w <= 8 && j < 8
    ensures BitAt(MaskByte(w), j) <==> j < w
  {
  }

  lemma {:induction false} MaskByteBits(w: nat, j: nat)
    requires w <= 8 && j < 8
    ensures Idx(w) <= 8 && (BitOf(MaskByte(Idx(w)), j) <==> j < w)
  {
    IdxArith(j, j);
    if w < 8 {
      IdxArith(j, w);
    }
    MaskByteAt(Idx(w), Idx(j));
  }

  // ----- one byte of the target -----

  /** The bits of a byte that a shift by `shift` pushes into the next byte. */
  function Spill(b: bv8, shift: bv8): bv8
    requires shift < 8
  {
    b >> (8 - shift)
  }

  /** A byte shifted up, with what the byte before spilled. */
  function Up(b: bv8, prev: bv8, shift: bv8): bv8
    requires shift < 8
  {
    (b << shift) | prev
  }

  /** A target byte: the value, and outside the mask what was there before. */
  function Merge(data: bv8, mask: bv8, was: bv8): bv8 {
    data | (!mask & was)
  }

  function Carried(b: seq<bv8>, shift: bv8, i: nat): bv8
    requires i <= |b| && shift < 8
  {
    if i == 0 then 0 else Spill(b[i - 1], shift)
  }

  /** Byte `i` of a string shifted up by `shift` bits. */
  function Shifted(b: seq<bv8>, shift: bv8, i: nat): bv8
    requires i < |b| && shift < 8
  {
    Up(b[i], Carried(b, shift, i), shift)
  }

  function NewByte(data: seq<bv8>, mask: seq<bv8>, shift: bv8, i: nat, was: bv8): bv8
    requires i < |data| == |mask| && shift < 8
  {
    Merge(Shifted(data, shift, i), Shifted(mask, shift, i), was)
  }

  lemma {:induction false} ShiftAt(x: bv8, y: bv8, s: bv8, j: bv8)
    requires s < 8 && j < 8
    ensures BitAt(Up(x, Spill(y, s), s), j) <==> if j >= s then BitAt(x, j - s) else BitAt(y, 8 + j - s)
    ensures BitAt(Up(x, 0, s), j) <==> j >= s && BitAt(x, j - s)
  {
  }

  lemma {:induction false} ShiftedIndex(k: nat, s: nat)
    requires s < 8 && k >= s
    ensures if k % 8 >= s then (k - s) / 8 == k / 8 && (k - s) % 8 == k % 8 - s
            else k / 8 > 0 && (k - s) / 8 == k / 8 - 1 && (k - s) % 8 == 8 + k % 8 - s
  {
  }

  /** Bit `k` of the shifted string is bit `k - s` of the string. */
  lemma {:induction false} ShiftedBits(b: seq<bv8>, s: nat, k: nat)
    requires k < 8 * |b| && s < 8
    ensures Idx(s) < 8 && (BitOf(Shifted(b, Idx(s), k / 8), k % 8) <==> k >= s && Bit(b, k - s))
  {
    hide BitAt, Idx, Up, Spill;
    var i, j := k / 8, k % 8;
    IdxArith(j, s);
    ShiftAt(b[i], if i == 0 then 0 else b[i - 1], Idx(s), Idx(j));
    if k >= s {
      ShiftedIndex(k, s);
    }
  }

  lemma {:induction false} MergeAt(d: bv8, m: bv8, was: bv8, j: bv8)
    requires j < 8
    ensures BitAt(Merge(d, m, was), j) <==> BitAt(d, j) || (!BitAt(m, j) && BitAt(was, j))
  {
  }

  // ----- what a write does, bit by bit -----

  /** The target bits that a write may reach: the field's bytes from its first bit on. */
  predicate InWindow(f: Field, k: nat) {
    f.lsb <= k < 8 * (f.lsb / 8) + 8 * f.size
  }

  /** Bit `k` of the target after a write, from its value before. */
  predicate NewBit(f: Field, host: seq<bv8>, bigEndian: bool, k: nat, was: bool)
    requires IsField(f) && f.offset + f.size <= |host|
  {
    if InWindow(f, k) then
      ValueBit(host, f, bigEndian, k - f.lsb) || (!MaskBit(f, k - f.lsb) && was)
    else was
  }

  ghost predicate DataAndMask(f: Field, host: seq<bv8>, bigEndian: bool, data: seq<bv8>, mask: seq<bv8>)
    requires IsField(f) && f.offset + f.size <= |host|
  {
    |data| == |mask| == f.size
    && (forall i | 0 <= i < f.size :: data[i] == HostByte(host, f, bigEndian, i))
    && forall i | 0 <= i < f.size :: Idx(MaskWidth(f.width, i)) <= 8 && mask[i] == MaskByte(Idx(MaskWidth(f.width, i)))
  }

  lemma {:induction false} MergeBits(d: bv8, m: bv8, was: bv8, j: nat)
    requires j < 8
    ensures BitOf(Merge(d, m, was), j) <==> BitOf(d, j) || (!BitOf(m, j) && BitOf(was, j))
  {
    IdxArith(j, j);
    MergeAt(d, m, was, Idx(j));
  }

  lemma {:induction false} MaskBits(f: Field, host: seq<bv8>, bigEndian: bool, data: seq<bv8>, mask: seq<bv8>, j: nat)
    requires IsField(f) && f.offset + f.size <= |host| && DataAndMask(f, host, bigEndian, data, mask) && j < 8 * f.size
    ensures Bit(data, j) <==> ValueBit(host, f, bigEndian, j)
    ensures Bit(mask, j) <==> MaskBit(f, j)
  {
    hide BitOf, Idx, MaskByte, MaskWidth;
    MaskByteBits(MaskWidth(f.width, j / 8), j % 8);
  }

  lemma {:induction false} WindowIndex(lsb: nat, k: nat)
    requires 8 * (lsb / 8) <= k
    ensures var k' := k - 8 * (lsb / 8);
            k' / 8 == k / 8 - lsb / 8 && k' % 8 == k % 8 && (k' >= lsb % 8 <==> k >= lsb) && k' - lsb % 8 == k - lsb
  {
  }

  lemma {:induction false} NewByteBits(f: Field, host: seq<bv8>, bigEndian: bool, data: seq<bv8>, mask: seq<bv8>,
      k: nat, was: bv8)
    requires IsField(f) && f.offset + f.size <= |host| && DataAndMask(f, host, bigEndian, data, mask)
    requires 8 * (f.lsb / 8) <= k < 8 * (f.lsb / 8) + 8 * f.size
    ensures Idx(f.lsb % 8) < 8
    ensures BitOf(NewByte(data, mask, Idx(f.lsb % 8), k / 8 - f.lsb / 8, was), k % 8)
            <==> NewBit(f, host, bigEndian, k, BitOf(was, k % 8))
  {
    hide BitOf, Idx, Shifted, Merge, MaskBit, ValueBit, Bit, DataAndMask;
    var s := f.lsb % 8;
    var k' := k - 8 * (f.lsb / 8);
    WindowIndex(f.lsb, k);
    assert |data| == |mask| == f.size by { DataAndMaskLength(f, host, bigEndian, data, mask); }
    ShiftedBits(data, s, k');
    ShiftedBits(mask, s, k');
    MergeBits(Shifted(data, Idx(s), k' / 8), Shifted(mask, Idx(s), k' / 8), was, k' % 8);
    if k' >= s {
      MaskBits(f, host, bigEndian, data, mask, k' - s);
    }
  }

  lemma {:induction false} DataAndMaskLength(f: Field, host: seq<bv8>, bigEndian: bool, data: seq<bv8>, mask: seq<bv8>)
    requires IsField(f) && f.offset + f.size <= |host| && DataAndMask(f, host, bigEndian, data, mask)
    ensures |data| == |mask| == f.size
  {
  }

  lemma {:induction false} WrittenBit(f: Field, host: seq<bv8>, bigEndian: bool, data: seq<bv8>, mask: seq<bv8>, k: nat,
      before: seq<bv8>, after: seq<bv8>)
    requires IsField(f) && f.offset + f.size <= |host| && DataAndMask(f, host, bigEndian, data, mask)
    requires |before| == |after| && k < 8 * |before| && Idx(f.lsb % 8) < 8
    requires var n := k / 8; var dst := f.lsb / 8;
             after[n] == if dst <= n < dst + f.size then NewByte(data, mask, Idx(f.lsb % 8), n - dst,
                 before[n]) else before[n]
    ensures Bit(after, k) <==> NewBit(f, host, bigEndian, k, Bit(before, k))
  {
    hide NewByte, Idx, BitOf;
    var dst := f.lsb / 8;
    if dst <= k / 8 < dst + f.size {
      NewByteBits(f, host, bigEndian, data, mask, k, before[k / 8]);
    }
  }

  /** Copies the value of a field out of the host structure and builds its mask. */
  method PrepareField(f: Field, host: seq<bv8>, bigEndian: bool) returns (data: array<bv8>, mask: array<bv8>)
    requires IsField(f) && f.offset + f.size <= |host|
    ensures fresh(data) && fresh(mask) && data.Length == mask.Length == 8
    ensures DataAndMask(f, host, bigEndian, data[..f.size], mask[..f.size])
  {
    hide BitOf, Idx, MaskByte, MaskWidth;
    data, mask := new bv8[8], new bv8[8];
    for i := 0 to f.size
      invariant forall n | 0 <= n < i :: data[n] == HostByte(host, f, bigEndian, n)
      invariant forall n | 0 <= n < i ::
        Idx(MaskWidth(f.width, n)) <= 8 && mask[n] == MaskByte(Idx(MaskWidth(f.width, n)))
    {
      data[i] := HostByte(host, f, bigEndian, i);
      MaskByteBits(MaskWidth(f.width, i), 0);
      mask[i] := MaskByte(Idx(MaskWidth(f.width, i)));
    }
  }

  /** Merges the shifted value into the target, byte by byte, carrying the bits that spill
      over into the next byte. */
  method MergeField(bits: array<bv8>, dst: nat, size: nat, shift: bv8, data: array<bv8>, mask: array<bv8>)
    requires size <= data.Length == mask.Length && dst + size <= bits.Length && shift < 8
    requires bits != data && bits != mask
    modifies bits
    ensures forall n: nat | n < bits.Length ::
      bits[n] == if dst <= n < dst + size then NewByte(data[..size], mask[..size], shift, n - dst, old(bits[n]))
                 else old(bits[n])
  {
    hide Up, Merge, Spill;
    ghost var d, m := data[..size], mask[..size];
    var prevData: bv8, prevMask: bv8 := 0, 0;
    for i := 0 to size
      invariant prevData == Carried(d, shift, i) && prevMask == Carried(m, shift, i)
      invariant forall n: nat | n < bits.Length ::
        bits[n] == if dst <= n < dst + i then NewByte(d, m, shift, n - dst, old(bits[n])) else old(bits[n])
    {
      var byteData := Up(data[i], prevData, shift);
      var byteMask := Up(mask[i], prevMask, shift);
      bits[dst + i] := Merge(byteData, byteMask, bits[dst + i]);
      prevData := Spill(data[i], shift);
      prevMask := Spill(mask[i], shift);
    }
  }

  /** Every bit of the target is what a write of the field makes of it. */
  ghost predicate Written(f: Field, host: seq<bv8>, bigEndian: bool, before: seq<bv8>, after: seq<bv8>)
    requires IsField(f) && f.offset + f.size <= |host|
  {
    |before| == |after| &&
    forall k: nat | k < 8 * |before| :: Bit(after, k) <==> NewBit(f, host, bigEndian, k, Bit(before, k))
  }

  /** Writes the value of a field into the target, the `size` bytes at `at`. */
  method HmcWrite(page: array<bv8>, at: nat, ghost size: nat, f: Field, host: seq<bv8>, bigEndian: bool)
    requires IsField(f) && f.offset + f.size <= |host| && f.lsb / 8 + f.size <= size && at + size <= page.Length
    modifies page
    ensures Written(f, host, bigEndian, old(page[at..at + size]), page[at..at + size])
    ensures forall n | 0 <= n < page.Length && !(at <= n < at + size) :: page[n] == old(page[n])
  {
    hide BitOf, Idx, NewByte, NewBit, DataAndMask;
    var data, mask := PrepareField(f, host, bigEndian);
    IdxArith(f.lsb % 8, 0);
    MergeField(page, at + f.lsb / 8, f.size, Idx(f.lsb % 8), data, mask);
    ghost var before, after := old(page[at..at + size]), page[at..at + size];
    forall k: nat | k < 8 * size
      ensures Bit(after, k) <==> NewBit(f, host, bigEndian, k, Bit(before, k))
    {
      WrittenBit(f, host, bigEndian, data[..f.size], mask[..f.size], k, before, after);
    }
  }
}
