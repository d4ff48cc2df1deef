/** Network addresses as byte strings in network order, their bits, and the
    index arithmetic of the multibit trie. */
module Addresses {
  import opened Arith

  type byte = x: int | 0 <= x < 256

  /** An IPv4 (4 bytes) or IPv6 (16 bytes) address, or the leading bytes of one. */
  type Address = seq<byte>

  /** The address families: IPv4, IPv6, and any that is not supported. */
  datatype Family = INET | INET6 | OTHER

  /** Bit `j` of a byte, counted from the most significant one. */
  predicate ByteBit(b: byte, j: nat)
    requires j < 8
  {
    b as int / Pow2(7 - j) % 2 == 1
  }

  /** Bit `i` of an address, counted from the first bit on the wire. */
  predicate Bit(a: Address, i: nat)
    requires i < 8 * |a|
  {
    ByteBit(a[i / 8], i % 8)
  }

  /** The first `len` bits of `p` and `a` agree: `a` lies under the prefix `p`/`len`. */
  predicate SamePrefix(p: Address, a: Address, len: nat)
    requires len <= 8 * |p| && len <= 8 * |a|
  {
    forall i | 0 <= i < len :: Bit(p, i) == Bit(a, i)
  }

  /** The `n` leading bits of a byte, as a number. */
  function High(b: byte, n: nat): int
    requires n <= 8
  {
    b as int / Pow2(8 - n)
  }

  lemma {:induction false} HighStep(b: byte, n: nat)
    requires 1 <= n <= 8
    ensures High(b, n) == 2 * High(b, n - 1) + (if ByteBit(b, n - 1) then 1 else 0)
  {
    DivDiv(b, Pow2(8 - n), 2);
  }

  lemma {:induction false} HighIsBits(x: byte, y: byte, n: nat)
    requires n <= 8
    ensures High(x, n) == High(y, n) <==> forall j | 0 <= j < n :: ByteBit(x, j) == ByteBit(y, j)
  {
    if n == 0 {
      Pow2Values();
    } else {
      HighIsBits(x, y, n - 1);
      HighStep(x, n);
      HighStep(y, n);
      var before := forall j | 0 <= j < n - 1 :: ByteBit(x, j) == ByteBit(y, j);
      assert (forall j | 0 <= j < n :: ByteBit(x, j) == ByteBit(y, j)) <==>
        before && ByteBit(x, n - 1) == ByteBit(y, n - 1);
    }
  }

  lemma {:induction false} HighAll(x: byte)
    ensures High(x, 8) == x
  {
  }

  /** A window of whole bits inside byte `k` of two addresses. */
  lemma {:induction false} ByteWindow(p: Address, a: Address, k: nat, n: nat)
    requires k < |p| && k < |a| && n <= 8
    ensures High(p[k], n) == High(a[k], n) <==> forall i | 8 * k <= i < 8 * k + n :: Bit(p, i) == Bit(a, i)
  {
    HighIsBits(p[k], a[k], n);
    if forall j | 0 <= j < n :: ByteBit(p[k], j) == ByteBit(a[k], j) {
      forall i | 8 * k <= i < 8 * k + n
        ensures Bit(p, i) == Bit(a, i)
      {
        if n == 8 || i < 8 * k + n {
          assert i / 8 == k;
          assert ByteBit(p[k], i % 8) == ByteBit(a[k], i % 8);
        }
      }
    }
    if forall i | 8 * k <= i < 8 * k + n :: Bit(p, i) == Bit(a, i) {
      forall j | 0 <= j < n
        ensures ByteBit(p[k], j) == ByteBit(a[k], j)
      {
        assert Bit(p, 8 * k + j) == Bit(a, 8 * k + j);
        assert (8 * k + j) / 8 == k && (8 * k + j) % 8 == j;
      }
    }
  }

  lemma {:induction false} SameBytes(p: Address, a: Address, k: nat)
    requires k <= |p| && k <= |a|
    ensures SamePrefix(p, a, 8 * k) <==> p[..k] == a[..k]
  {
    if k == 0 {
    } else {
      SameBytes(p, a, k - 1);
      ByteWindow(p, a, k - 1, 8);
      HighAll(p[k - 1]);
      HighAll(a[k - 1]);
      assert p[..k] == p[..k - 1] + [p[k - 1]];
      assert a[..k] == a[..k - 1] + [a[k - 1]];
      assert p[..k] == a[..k] <==> p[..k - 1] == a[..k - 1] && p[k - 1] == a[k - 1];
      assert SamePrefix(p, a, 8 * k) <==>
        SamePrefix(p, a, 8 * (k - 1)) && forall i | 8 * (k - 1) <= i < 8 * k :: Bit(p, i) == Bit(a, i);
    }
  }

  /** Agreement on `8 * k + n` bits is agreement on `k` bytes and `n` leading bits of the next. */
  lemma {:induction false} SameBytesAndBits(p: Address, a: Address, k: nat, n: nat)
    requires k < |p| && k < |a| && n <= 8
    ensures SamePrefix(p, a, 8 * k + n) <==> p[..k] == a[..k] && High(p[k], n) == High(a[k], n)
  {
    SameBytes(p, a, k);
    ByteWindow(p, a, k, n);
    assert SamePrefix(p, a, 8 * k + n) <==>
      SamePrefix(p, a, 8 * k) && forall i | 8 * k <= i < 8 * k + n :: Bit(p, i) == Bit(a, i);
  }

  // ----- prefixes as numbers -----

  /** The number that an address spells in network byte order. */
  function Number(a: Address): nat {
    if a == [] then 0 else 256 * Number(a[..|a| - 1]) + a[|a| - 1]
  }

  /** The first `len` bits of an address, as a number. */
  function Leading(a: Address, len: nat): nat
    requires len <= 8 * |a|
  {
    ShiftRight(Number(a), 8 * |a| - len)
  }

  /** Cutting off the last byte. */
  lemma {:induction false} LeadingShorter(a: Address, len: nat)
    requires a != [] && len <= 8 * |a| - 8
    ensures Leading(a, len) == Leading(a[..|a| - 1], len)
  {
    hide Pow2;
    var b := a[..|a| - 1];
    DivUnique(Number(a), 256, Number(b), a[|a| - 1]);
    DivDiv(Number(a), 256, Pow2(8 * |b| - len));
    Pow2Values();
    Pow2Add(8, 8 * |b| - len);
  }

  /** The bits that end inside the last byte. */
  lemma {:induction false} LeadingInLast(a: Address, n: nat)
    requires a != [] && n <= 8
    ensures Leading(a, 8 * |a| - 8 + n) == Pow2(n) * Number(a[..|a| - 1]) + High(a[|a| - 1], n)
  {
    hide Pow2;
    var x, l, m := Number(a[..|a| - 1]), a[|a| - 1], Pow2(8 - n);
    Pow2Values();
    Pow2Add(8 - n, n);
    assert l as int == m * (l as int / m) + l as int % m;
    assert 256 * x == m * (Pow2(n) * x);
    DivUnique(Number(a), m, Pow2(n) * x + l as int / m, l as int % m);
  }

  lemma {:induction false} NumberUnique(a: Address, b: Address)
    requires |a| == |b|
    ensures Number(a) == Number(b) <==> a == b
  {
    if a != [] {
      NumberUnique(a[..|a| - 1], b[..|b| - 1]);
      assert a == a[..|a| - 1] + [a[|a| - 1]] && b == b[..|b| - 1] + [b[|b| - 1]];
    }
  }

  /** Two addresses of one family agree on a prefix exactly when they are the same number without
      the bits behind it. */
  lemma {:induction false} SamePrefixIff(p: Address, a: Address, len: nat)
    requires |p| == |a| && len <= 8 * |a|
    ensures SamePrefix(p, a, len) <==> Leading(p, len) == Leading(a, len)
    decreases |a|
  {
    if a == [] {
    } else if len <= 8 * |a| - 8 {
      var p', a' := p[..|p| - 1], a[..|a| - 1];
      LeadingShorter(p, len);
      LeadingShorter(a, len);
      SamePrefixIff(p', a', len);
      assert forall i | 0 <= i < len :: Bit(p, i) == Bit(p', i) && Bit(a, i) == Bit(a', i);
    } else {
      var k, n := |a| - 1, len - (8 * |a| - 8);
      LeadingInLast(p, n);
      LeadingInLast(a, n);
      SameBytesAndBits(p, a, k, n);
      NumberUnique(p[..k], a[..k]);
      HighBelow(p[k], n);
      HighBelow(a[k], n);
      DigitsUnique(Number(p[..k]), High(p[k], n), Number(a[..k]), High(a[k], n), Pow2(n));
    }
  }

  lemma {:induction false} HighBelow(b: byte, n: nat)
    requires n <= 8
    ensures 0 <= High(b, n) < Pow2(n)
  {
    hide Pow2;
    var m := Pow2(8 - n);
    Pow2Values();
    Pow2Add(8 - n, n);
    assert b as int == m * (b as int / m) + b as int % m;
    MulStep(m, Pow2(n) - 1, b as int / m);
    assert m * (Pow2(n) - 1) == m * Pow2(n) - m;
  }

  // ----- trie indices -----

  /** The 32-bit word `w` of an address, after conversion to host order. */
  function Word(a: Address, w: nat): (v: nat)
    requires 4 * w + 4 <= |a|
    ensures v < 0x1_0000_0000
  {
    a[4 * w] as int * 0x100_0000 + a[4 * w + 1] as int * 0x1_0000 + a[4 * w + 2] as int * 0x100 + a[4 * w + 3]
  }

  /** The index of `range` bits starting at bit `offset`: shift right, then mask. */
  function LpmIndex(a: Address, offset: nat, range: nat): (index: nat)
    requires offset % 32 + range <= 32 && 4 * (offset / 32) + 4 <= |a|
    ensures index < Pow2(range)
  {
    Word(a, offset / 32) / Pow2(32 - (offset % 32 + range)) % Pow2(range)
  }

  lemma {:induction false} DigitsOf(b0: int, b1: int, b2: int, b3: int)
    requires 0 <= b0 < 256 && 0 <= b1 < 256 && 0 <= b2 < 256 && 0 <= b3 < 256
    ensures var v := b0 * 0x100_0000 + b1 * 0x1_0000 + b2 * 0x100 + b3;
            v / 0x100_0000 % 256 == b0 && v / 0x1_0000 == 256 * b0 + b1 && v / 0x1_0000 % 256 == b1 &&
            v / 0x100 % 256 == b2 && v % 256 == b3
  {
    var v := b0 * 0x100_0000 + b1 * 0x1_0000 + b2 * 0x100 + b3;
    DivUnique(v, 0x100_0000, b0, b1 * 0x1_0000 + b2 * 0x100 + b3);
    DivUnique(v, 0x1_0000, 256 * b0 + b1, b2 * 0x100 + b3);
    DivUnique(v, 0x100, 0x1_0000 * b0 + 256 * b1 + b2, b3);
  }

  lemma {:induction false} WordByte(a: Address, w: nat, j: nat)
    requires 4 * w + 4 <= |a| && j < 4
    ensures Word(a, w) / Pow2(24 - 8 * j) % 256 == a[4 * w + j]
    ensures Word(a, w) / Pow2(16) == 256 * a[4 * w] as int + a[4 * w + 1]
  {
    DigitsOf(a[4 * w], a[4 * w + 1], a[4 * w + 2], a[4 * w + 3]);
    var v := Word(a, w);
    assert v / 0x100_0000 % 256 == a[4 * w] && v / 0x1_0000 % 256 == a[4 * w + 1];
    assert v / 0x100 % 256 == a[4 * w + 2] && v % 256 == a[4 * w + 3];
    assert v / 0x1_0000 == 256 * a[4 * w] as int + a[4 * w + 1];
    hide Pow2, Word;
    Pow2Values();
    if {
      case j == 0 => assert Pow2(24 - 8 * j) == 0x100_0000;
      case j == 1 => assert Pow2(24 - 8 * j) == 0x1_0000;
      case j == 2 => assert Pow2(24 - 8 * j) == 0x100;
      case j == 3 => assert Pow2(24 - 8 * j) == 1;
    }
  }

  /** The only two shapes of index the trie takes: the first two bytes, and one later byte. */
  lemma {:induction false} IndexIsBytes(a: Address, k: nat)
    requires |a| % 4 == 0 && k < |a|
    ensures 8 * k % 32 + 8 <= 32 && 4 * (8 * k / 32) + 4 <= |a|
    ensures LpmIndex(a, 8 * k, 8) == a[k]
  {
    hide Word, Pow2;
    assert 8 * k / 32 == k / 4 && 8 * k % 32 == 8 * (k % 4);
    WordByte(a, k / 4, k % 4);
    Pow2Values();
  }

  lemma {:induction false} RootIndexIsBytes(a: Address)
    requires |a| >= 4
    ensures LpmIndex(a, 0, 16) == 256 * a[0] as int + a[1]
  {
    hide Word, Pow2;
    WordByte(a, 0, 0);
    Pow2Values();
    assert 256 * a[0] as int + a[1] < 65536;
  }

  /** The index into the root table. */
  function RootIndex(a: Address): (index: nat)
    requires |a| >= 4
    ensures index == 256 * a[0] as int + a[1]
  {
    RootIndexIsBytes(a);
    LpmIndex(a, 0, 16)
  }

  /** The index into a table under a cell of path length `k`. */
  function TableIndex(a: Address, k: nat): (index: byte)
    requires |a| % 4 == 0 && k < |a|
    ensures index == a[k]
  {
    IndexIsBytes(a, k);
    LpmIndex(a, 8 * k, 8)
  }

  /** `index & ~(range - 1)` for a power of two `range`. */
  function AlignDown(index: nat, range: nat): (base: nat)
    requires range >= 1
    ensures base <= index < base + range
  {
    index - index % range
  }

  lemma {:induction false} AlignedBlock(x: nat, y: nat, m: nat)
    requires m >= 1
    ensures x / m == y / m <==> AlignDown(x, m) <= y < AlignDown(x, m) + m
  {
    assert x == m * (x / m) + x % m && y == m * (y / m) + y % m;
    MulStep(m, x / m, y / m);
    MulStep(m, y / m, x / m);
  }

  /** The aligned block around `x` ends inside a table of `m * c` cells. */
  lemma {:induction false} AlignedFits(x: nat, m: nat, c: nat)
    requires m >= 1 && x < m * c
    ensures AlignDown(x, m) + m <= m * c
  {
    assert x == m * (x / m) + x % m;
    MulStep(m, x / m, c);
    MulStep(m, c - 1, x / m);
    assert m * (c - 1) == m * c - m;
  }
}
