/** Structures in memory as C lays them out, and the numbers that stretches of bits spell. */
module HostStruct {
  import opened Arith
  import opened HmcBits

  // ----- how C lays out a structure -----

  /** A member: its size in bytes, which is also its alignment, and its value. */
  datatype Member = Member(size: nat, value: nat)

  function AlignUp(x: nat, a: nat): (y: nat)
    requires a >= 1
    ensures x <= y < x + a && y % a == 0
  {
    Aligned(x, a);
    (x + a - 1) / a * a
  }

  lemma {:induction false} Aligned(x: nat, a: nat)
    requires a >= 1
    ensures var y := (x + a - 1) / a * a; x <= y < x + a && y % a == 0
  {
    var q := (x + a - 1) / a;
    assert x + a - 1 == a * q + (x + a - 1) % a && q * a == a * q + 0;
    DivUnique(q * a, a, q, 0);
    assert q * a == a * (q * a / a) + q * a % a;
  }

  predicate Sized(ms: seq<Member>) {
    forall i | 0 <= i < |ms| :: 1 <= ms[i].size <= 8
  }

  /** Member `i` starts at the next multiple of its size behind member `i - 1`. */
  function OffsetOf(ms: seq<Member>, i: nat): nat
    requires Sized(ms) && i < |ms|
  {
    if i == 0 then 0 else AlignUp(OffsetOf(ms, i - 1) + ms[i - 1].size, ms[i].size)
  }

  /** The first `n` members end here. */
  function EndOf(ms: seq<Member>, n: nat): nat
    requires Sized(ms) && n <= |ms|
  {
    if n == 0 then 0 else OffsetOf(ms, n - 1) + ms[n - 1].size
  }

  /** The byte with the last eight binary digits of `x`. */
  function ByteOf(x: nat): bv8 {
    (if Digit(x, 7) then 128 else 0) | (if Digit(x, 6) then 64 else 0)
    | (if Digit(x, 5) then 32 else 0) | (if Digit(x, 4) then 16 else 0)
    | (if Digit(x, 3) then 8 else 0) | (if Digit(x, 2) then 4 else 0)
    | (if Digit(x, 1) then 2 else 0) | (if Digit(x, 0) then 1 else 0)
  }

  /** Binary digit `j` of a number. */
  predicate Digit(x: nat, j: nat) {
    ShiftRight(x, j) % 2 == 1
  }

  lemma {:induction false} ByteOfBits(x: nat, j: nat)
    requires j < 8
    ensures BitOf(ByteOf(x), j) <==> Digit(x, j)
  {
    hide Digit;
    IdxArith(j, j);
    EightBits(Digit(x, 7), Digit(x, 6), Digit(x, 5), Digit(x, 4), Digit(x, 3), Digit(x, 2), Digit(x, 1), Digit(x, 0),
              Idx(j));
  }

  lemma {:induction false} EightBits(b7: bool, b6: bool, b5: bool, b4: bool, b3: bool, b2: bool, b1: bool, b0: bool,
      j: bv8)
    requires j < 8
    ensures BitAt((if b7 then 128 else 0) | (if b6 then 64 else 0) | (if b5 then 32 else 0) | (if b4 then 16 else 0)
                  | (if b3 then 8 else 0) | (if b2 then 4 else 0) | (if b1 then 2 else 0) | (if b0 then 1 else 0), j)
            <==> match j case 7 => b7 case 6 => b6 case 5 => b5 case 4 => b4
                         case 3 => b3 case 2 => b2 case 1 => b1 case _ => b0
  {
  }

  /** The bytes of a member in memory. */
  function BytesOf(m: Member, bigEndian: bool): (s: seq<bv8>)
    ensures |s| == m.size
  {
    seq(m.size, n requires 0 <= n < m.size => ByteOf(ShiftRight(m.value, 8 * if bigEndian then m.size - 1 - n else n)))
  }

  function Zeros(n: nat): (s: seq<bv8>)
    ensures |s| == n
  {
    seq(n, _ => 0)
  }

  /** The first `n` members in memory, with the padding between them. */
  function LaidOut(ms: seq<Member>, n: nat, bigEndian: bool): (s: seq<bv8>)
    requires Sized(ms) && n <= |ms|
    ensures |s| == EndOf(ms, n)
  {
    if n == 0 then []
    else
      var before := LaidOut(ms, n - 1, bigEndian);
      before + Zeros(OffsetOf(ms, n - 1) - |before|) + BytesOf(ms[n - 1], bigEndian)
  }

  /** The whole structure: its size is a multiple of eight, as it has a member of eight bytes. */
  function Structure(ms: seq<Member>, bigEndian: bool): (s: seq<bv8>)
    requires Sized(ms)
    ensures |s| == AlignUp(EndOf(ms, |ms|), 8)
  {
    var all := LaidOut(ms, |ms|, bigEndian);
    all + Zeros(AlignUp(|all|, 8) - |all|)
  }

  lemma {:induction false} EndsAscend(ms: seq<Member>, m: nat, n: nat)
    requires Sized(ms) && m <= n <= |ms|
    ensures EndOf(ms, m) <= EndOf(ms, n)
  {
    if m < n {
      EndsAscend(ms, m, n - 1);
    }
  }

  /** The bytes at the offset of a member are those of its value. */
  lemma {:induction false} MemberBytes(ms: seq<Member>, n: nat, bigEndian: bool, i: nat)
    requires Sized(ms) && i < n <= |ms|
    ensures OffsetOf(ms, i) + ms[i].size <= EndOf(ms, n)
    ensures LaidOut(ms, n, bigEndian)[OffsetOf(ms, i)..OffsetOf(ms, i) + ms[i].size] == BytesOf(ms[i], bigEndian)
  {
    hide BytesOf, AlignUp, OffsetOf, Zeros;
    EndsAscend(ms, i + 1, n);
    var before := LaidOut(ms, n - 1, bigEndian);
    var o, o' := OffsetOf(ms, i), OffsetOf(ms, i) + ms[i].size;
    if i == n - 1 {
      EndBefore(ms, i);
      Spliced(before, Zeros(o - |before|), BytesOf(ms[i], bigEndian));
    } else {
      MemberBytes(ms, n - 1, bigEndian, i);
      EndBefore(ms, n - 1);
      assert LaidOut(ms, n, bigEndian)[o..o'] == before[o..o'];
    }
  }

  lemma {:induction false} EndBefore(ms: seq<Member>, i: nat)
    requires Sized(ms) && i < |ms|
    ensures EndOf(ms, i) <= OffsetOf(ms, i)
  {
  }

  lemma {:induction false} Spliced(a: seq<bv8>, b: seq<bv8>, c: seq<bv8>)
    ensures (a + b + c)[|a| + |b|..] == c
  {
  }

  // ----- the digits of a value -----

  lemma {:induction false} DigitShift(x: nat, j: nat, k: nat)
    ensures Digit(ShiftRight(x, j), k) <==> Digit(x, j + k)
  {
    hide Pow2;
    DivDiv(x, Pow2(j), Pow2(k));
    Pow2Add(j, k);
  }

  /** A row whose place in the host structure is that of member `i` takes its value from there. */
  lemma {:induction false} RowTakesMember(ms: seq<Member>, bigEndian: bool, i: nat, f: Field, j: nat)
    requires Sized(ms) && i < |ms| && f.offset == OffsetOf(ms, i) && f.size == ms[i].size && j < 8 * f.size
    ensures f.offset + f.size <= |Structure(ms, bigEndian)|
    ensures ValueBit(Structure(ms, bigEndian), f, bigEndian, j) <==> Digit(ms[i].value, j)
  {
    hide Digit, ByteOf, BitOf, OffsetOf, LaidOut, BytesOf, AlignUp, ShiftRight;
    var m, n := ms[i], j / 8;
    var at := if bigEndian then f.size - 1 - n else n;
    MemberByte(ms, bigEndian, i, at);
    ByteAt(m, bigEndian, at);
    ByteOfBits(ShiftRight(m.value, 8 * n), j % 8);
    DigitShift(m.value, 8 * n, j % 8);
  }

  lemma {:induction false} ByteAt(m: Member, bigEndian: bool, at: nat)
    requires at < m.size
    ensures BytesOf(m, bigEndian)[at] == ByteOf(ShiftRight(m.value, 8 * if bigEndian then m.size - 1 - at else at))
  {
    hide ByteOf, ShiftRight;
  }

  lemma {:induction false} MemberByte(ms: seq<Member>, bigEndian: bool, i: nat, at: nat)
    requires Sized(ms) && i < |ms| && at < ms[i].size
    ensures OffsetOf(ms, i) + ms[i].size <= |Structure(ms, bigEndian)|
    ensures Structure(ms, bigEndian)[OffsetOf(ms, i) + at] == BytesOf(ms[i], bigEndian)[at]
  {
    hide BytesOf, LaidOut, OffsetOf, AlignUp, EndOf;
    MemberBytes(ms, |ms|, bigEndian, i);
    var all, o := LaidOut(ms, |ms|, bigEndian), OffsetOf(ms, i);
    assert all[o + at] == all[o..o + ms[i].size][at];
  }

  /** A number below 2^w has no digits from `w` on. */
  lemma {:induction false} NoHighDigits(x: nat, w: nat, j: nat)
    requires x < Pow2(w) && w <= j
    ensures !Digit(x, j)
  {
    hide Pow2;
    Pow2Add(w, j - w);
    MulStep(Pow2(w), 0, Pow2(j - w));
    DivUnique(x, Pow2(j), 0, x);
  }

  /** The number that `w` bits of a context spell, from bit `lsb` on. */
  ghost function Spelled(bits: seq<bv8>, lsb: nat, w: nat): nat
    requires lsb + w <= 8 * |bits|
    decreases w
  {
    if w == 0 then 0 else (if Bit(bits, lsb) then 1 else 0) + 2 * Spelled(bits, lsb + 1, w - 1)
  }

  lemma {:induction false} SpelledIs(bits: seq<bv8>, lsb: nat, w: nat, x: nat)
    requires lsb + w <= 8 * |bits| && x < Pow2(w)
    requires forall j: nat | j < w :: Bit(bits, lsb + j) <==> Digit(x, j)
    ensures Spelled(bits, lsb, w) == x
    decreases w
  {
    hide Bit;
    if w > 0 {
      assert Bit(bits, lsb + 0) <==> Digit(x, 0);
      assert Pow2(0) == 1 && Pow2(1) == 2;
      forall j: nat | j < w - 1 ensures Bit(bits, lsb + 1 + j) <==> Digit(x / 2, j) {
        DigitShift(x, 1, j);
        assert Bit(bits, lsb + (j + 1)) <==> Digit(x, j + 1);
      }
      SpelledIs(bits, lsb + 1, w - 1, x / 2);
    }
  }
}
