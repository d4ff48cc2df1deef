/** The IPv4 header checksum across the TTL decrement of a forwarded packet. */
module Checksum {
  import opened Arith
  import opened Addresses

  const MAX16 := 0xFFFF

  // ----- RFC 1071 -----

  /** Word `i` of a header, as a host of the given byte order loads it. */
  function HeaderWord(h: seq<byte>, i: nat, bigEndian: bool): (w: nat)
    requires 2 * i + 1 < |h|
    ensures w <= MAX16
  {
    if bigEndian then 256 * h[2 * i] as int + h[2 * i + 1] else h[2 * i] as int + 256 * h[2 * i + 1] as int
  }

  function Sum(h: seq<byte>, n: nat, bigEndian: bool): nat
    requires 2 * n <= |h|
  {
    if n == 0 then 0 else Sum(h, n - 1, bigEndian) + HeaderWord(h, n - 1, bigEndian)
  }

  /** Adds the carries back in until sixteen bits are left. */
  function Fold(s: nat): (f: nat)
    ensures f <= MAX16
  {
    if s <= MAX16 then s else Fold(s / 0x10000 + s % 0x10000)
  }

  function WithField(h: seq<byte>, b0: byte, b1: byte): (r: seq<byte>)
    requires |h| >= 12
    ensures |r| == |h|
  {
    h[10 := b0][11 := b1]
  }

  /** The checksum of a header computed from scratch: the field counts as zero. */
  function FromScratch(h: seq<byte>, bigEndian: bool): nat
    requires |h| >= 20 && |h| % 2 == 0
  {
    MAX16 - Fold(Sum(WithField(h, 0, 0), |h| / 2, bigEndian))
  }

  /** An IPv4 header: its first byte carries the version, so it is not zero. */
  predicate IsHeader(h: seq<byte>) {
    |h| >= 20 && |h| % 2 == 0 && h[0] != 0
  }

  /** The checksum field, in network byte order, is the one computed from scratch. */
  predicate Checksummed(h: seq<byte>)
    requires IsHeader(h)
  {
    HeaderWord(h, 5, true) == FromScratch(h, true)
  }

  // ----- one's complement arithmetic -----

  lemma {:induction false} ModUnique(x: int, y: int, q: int)
    requires x == y + MAX16 * q
    ensures x % MAX16 == y % MAX16
  {
    assert y == MAX16 * (y / MAX16) + y % MAX16;
    DivUnique(x, MAX16, y / MAX16 + q, y % MAX16);
  }

  /** Folding picks the representative from 1 to 0xFFFF of a positive sum modulo 0xFFFF. */
  lemma {:induction false} FoldIsResidue(s: nat)
    requires s > 0
    ensures 1 <= Fold(s) <= MAX16 && Fold(s) % MAX16 == s % MAX16
    decreases s
  {
    if s > MAX16 {
      FoldIsResidue(s / 0x10000 + s % 0x10000);
      ModUnique(s, s / 0x10000 + s % 0x10000, s / 0x10000);
    }
  }

  lemma {:induction false} ResidueUnique(x: nat, y: nat)
    requires 1 <= x <= MAX16 && 1 <= y <= MAX16 && x % MAX16 == y % MAX16
    ensures x == y
  {
  }

  // ----- the header as one number -----

  /** Adding up the words of a header keeps that number modulo 0xFFFF: 2^16 is 1 there. */
  lemma {:induction false} SumIsNumber(h: seq<byte>, n: nat) returns (q: nat)
    requires 2 * n <= |h|
    ensures Number(h[..2 * n]) == Sum(h, n, true) + MAX16 * q
  {
    if n == 0 {
      q := 0;
    } else {
      var p := SumIsNumber(h, n - 1);
      var t := h[..2 * n];
      assert t[..|t| - 1][..|t| - 2] == h[..2 * (n - 1)] && t[..|t| - 1][|t| - 2] == h[2 * n - 2];
      var before := Number(h[..2 * (n - 1)]);
      assert Number(t) == 0x10000 * before + HeaderWord(h, n - 1, true);
      q := p + before;
    }
  }

  lemma {:induction false} SumWithField(h: seq<byte>, n: nat)
    requires |h| >= 12 && 2 * n <= |h|
    ensures Sum(h, n, true) == Sum(WithField(h, 0, 0), n, true) + if n > 5 then HeaderWord(h, 5, true) else 0
  {
    if n > 0 {
      SumWithField(h, n - 1);
    }
  }

  /** A header has the right checksum, or 0xFFFF in place of zero, exactly when it is a multiple
      of 0xFFFF as one number. */
  lemma {:induction false} ChecksummedIff(h: seq<byte>)
    requires IsHeader(h)
    ensures Checksummed(h) || NegativeZero(h) <==> Number(h) % MAX16 == 0
  {
    hide Fold, Sum, Number;
    var n := |h| / 2;
    var s, w := Sum(WithField(h, 0, 0), n, true), HeaderWord(h, 5, true);
    assert h[..2 * n] == h;
    var q := SumIsNumber(h, n);
    SumWithField(h, n);
    ZeroFieldKeeps(h);
    SumPositive(WithField(h, 0, 0), n, true);
    FoldIsResidue(s);
    var f := Fold(s);
    var c := s / MAX16 - f / MAX16;
    assert s == f + MAX16 * c;
    ModUnique(Number(h), f + w, c + q);
    ZeroResidue(f + w);
  }

  lemma {:induction false} ZeroResidue(x: nat)
    requires 1 <= x <= 2 * MAX16
    ensures x % MAX16 == 0 <==> x == MAX16 || x == 2 * MAX16
  {
  }

  // ----- byte order independence -----

  function Swap(w: nat): (r: nat)
    requires w <= MAX16
    ensures r <= MAX16
  {
    w % 256 * 256 + w / 256
  }

  lemma {:induction false} SwapIsTimes256(w: nat)
    requires w <= MAX16
    ensures Swap(w) == 256 * w - MAX16 * (w / 256)
    ensures Swap(w) == 0 <==> w == 0
    ensures Swap(MAX16 - w) == MAX16 - Swap(w)
  {
  }

  lemma {:induction false} SumSwapped(h: seq<byte>, n: nat) returns (q: nat)
    requires 2 * n <= |h|
    ensures Sum(h, n, false) == 256 * Sum(h, n, true) - MAX16 * q
  {
    if n == 0 {
      q := 0;
    } else {
      var p := SumSwapped(h, n - 1);
      var w := HeaderWord(h, n - 1, true);
      assert HeaderWord(h, n - 1, false) == Swap(w);
      SwapIsTimes256(w);
      q := p + w / 256;
    }
  }

  lemma {:induction false} SumPositive(h: seq<byte>, n: nat, bigEndian: bool)
    requires 2 * n <= |h| && n >= 1 && h[0] != 0
    ensures Sum(h, n, bigEndian) > 0
  {
    if n > 1 {
      SumPositive(h, n - 1, bigEndian);
    }
  }

  /** Adding up byte-swapped words gives the byte-swapped sum. */
  lemma {:induction false} FoldSwapped(h: seq<byte>, n: nat)
    requires 2 * n <= |h| && n >= 1 && h[0] != 0
    ensures Fold(Sum(h, n, false)) == Swap(Fold(Sum(h, n, true)))
  {
    hide Fold, Sum;
    var s := Sum(h, n, true);
    var t := Sum(h, n, false);
    SumPositive(h, n, true);
    SumPositive(h, n, false);
    FoldIsResidue(s);
    FoldIsResidue(t);
    var f := Fold(s);
    SwapIsTimes256(f);
    var q := SumSwapped(h, n);
    // t == 256 * s == 256 * f == Swap(f), modulo 0xFFFF
    var c := s / MAX16 - f / MAX16;
    assert s == f + MAX16 * c;
    ModUnique(t, Swap(f), 256 * c - q + f / 256);
    ResidueUnique(Fold(t), Swap(f));
  }

  /** The checksum test gives the same verdict on hosts of either byte order. */
  lemma {:induction false} ByteOrderIndependent(h: seq<byte>)
    requires IsHeader(h)
    ensures Checksummed(h) <==> HeaderWord(h, 5, false) == FromScratch(h, false)
  {
    hide Fold, Sum;
    var z := WithField(h, 0, 0);
    FoldSwapped(z, |h| / 2);
    var f := Fold(Sum(z, |h| / 2, true));
    var w := HeaderWord(h, 5, true);
    assert HeaderWord(h, 5, false) == Swap(w);
    SwapIsTimes256(f);
    SwapInjective(w, MAX16 - f);
  }

  lemma {:induction false} SwapInjective(x: nat, y: nat)
    requires x <= MAX16 && y <= MAX16
    ensures Swap(x) == Swap(y) <==> x == y
  {
  }

  // ----- the TTL decrement -----

  /** The amount that the decrement takes from the word holding the TTL, as the host loads it. */
  function Step(bigEndian: bool): nat {
    if bigEndian then 0x0100 else 0x0001
  }

  /** The update of the checksum field: add with end-around carry. */
  function Updated(check: nat, bigEndian: bool): (c: nat)
    requires check <= MAX16
    ensures c <= MAX16
  {
    var sum := check + Step(bigEndian);
    (sum + if sum >= 0xFFFF then 1 else 0) % 0x10000
  }

  lemma {:induction false} UpdatedResidue(check: nat, d: nat) returns (q: int)
    requires check <= MAX16 && (d == 0x0001 || d == 0x0100)
    ensures Updated(check, d == 0x0100) == check + d + MAX16 * q
    ensures Updated(check, d == 0x0100) % MAX16 == (check + d) % MAX16
  {
    q := if check + d >= 0xFFFF then -1 else 0;
    ModUnique(Updated(check, d == 0x0100), check + d, q);
  }

  /** The update, read in network byte order, on a host that loads the field as `w`. */
  lemma {:induction false} FieldResidue(w: nat, bigEndian: bool)
    requires w <= MAX16
    ensures bigEndian ==> Updated(w, true) % MAX16 == (w + 0x0100) % MAX16
    ensures !bigEndian ==> Swap(Updated(w, false)) % MAX16 == (Swap(w) + 0x0100) % MAX16
  {
    hide Updated, Swap;
    if bigEndian {
      var _ := UpdatedResidue(w, 0x0100);
    } else {
      var q := UpdatedResidue(w, 0x0001);
      SwapIsTimes256(w);
      SwapIsTimes256(Updated(w, false));
      ModUnique(Swap(Updated(w, false)), Swap(w) + 0x0100, 256 * q + w / 256 - Updated(w, false) / 256);
    }
  }

  function Forwarded(h: seq<byte>, bigEndian: bool): (r: seq<byte>)
    requires |h| >= 20
    ensures |r| == |h|
  {
    var c := Updated(HeaderWord(h, 5, bigEndian), bigEndian);
    var h' := h[8 := (h[8] as int - 1) % 256];
    if bigEndian then WithField(h', c / 256, c % 256) else WithField(h', c % 256, c / 256)
  }

  lemma {:induction false} SumWithout(h: seq<byte>, ttl: byte, n: nat, bigEndian: bool)
    requires |h| >= 20 && 2 * n <= |h|
    ensures Sum(h[8 := ttl], n, bigEndian) ==
              Sum(h, n, bigEndian) + if n > 4 then Step(bigEndian) * (ttl as int - h[8] as int) else 0
  {
    if n > 0 {
      SumWithout(h, ttl, n - 1, bigEndian);
    }
  }

  /** End-around carry tracks a sum that loses `d`. */
  lemma {:induction false} CarryTracks(s: nat, d: nat, check: nat)
    requires 0 < d < MAX16 && s > d && check == MAX16 - Fold(s)
    ensures var sum := check + d;
            MAX16 - Fold(s - d) == (sum + if sum >= 0xFFFF then 1 else 0) % 0x10000
  {
    hide Fold;
    FoldIsResidue(s);
    FoldIsResidue(s - d);
    var f := Fold(s);
    var c := s / MAX16 - f / MAX16;
    assert s == f + MAX16 * c;
    if f > d {
      ModUnique(s - d, f - d, c);
      ResidueUnique(Fold(s - d), f - d);
    } else {
      ModUnique(s - d, f - d + MAX16, c - 1);
      ResidueUnique(Fold(s - d), f - d + MAX16);
    }
  }

  /** When the TTL wraps from 0 to 255 the field cannot be right any more. */
  lemma {:induction false} CarryMisses(s: nat, d: nat, check: nat)
    requires (d == 1 || d == 256) && s > 0 && check == MAX16 - Fold(s)
    ensures var sum := check + d;
            MAX16 - Fold(s + 255 * d) != (sum + if sum >= 0xFFFF then 1 else 0) % 0x10000
  {
    hide Fold;
    FoldIsResidue(s);
    FoldIsResidue(s + 255 * d);
    var f := Fold(s);
    var g := Fold(s + 255 * d);
    var c := s / MAX16 - f / MAX16;
    assert s == f + MAX16 * c;
    ModUnique(s + 255 * d, f + 255 * d, c);
  }

  /** The header sum that the new field has to match. */
  lemma {:induction false} ForwardedSum(h: seq<byte>, bigEndian: bool)
    requires |h| >= 20 && |h| % 2 == 0
    ensures var before := Sum(WithField(h, 0, 0), |h| / 2, bigEndian);
            Sum(WithField(Forwarded(h, bigEndian), 0, 0), |h| / 2, bigEndian) ==
              if h[8] > 0 then before - Step(bigEndian) else before + 255 * Step(bigEndian)
    ensures HeaderWord(Forwarded(h, bigEndian), 5, bigEndian) == Updated(HeaderWord(h, 5, bigEndian), bigEndian)
  {
    hide Sum, Updated, Forwarded, HeaderWord;
    var ttl: byte := (h[8] as int - 1) % 256;
    ForwardedParts(h, bigEndian);
    assert WithField(Forwarded(h, bigEndian), 0, 0) == WithField(h, 0, 0)[8 := ttl];
    SumWithout(WithField(h, 0, 0), ttl, |h| / 2, bigEndian);
  }

  lemma {:induction false} SumAbove(h: seq<byte>, n: nat, bigEndian: bool)
    requires |h| >= 20 && 5 <= n && 2 * n <= |h| && h[0] != 0 && h[8] != 0
    ensures Sum(h, n, bigEndian) > Step(bigEndian)
  {
    if n > 5 {
      SumAbove(h, n - 1, bigEndian);
    } else {
      SumPositive(h, 4, bigEndian);
    }
  }

  /** The update is exact: only the right field, or 0xFFFF standing in for zero, leads to the
      right field. */
  lemma {:induction false} CarryTracksIff(s: nat, d: nat, check: nat)
    requires 0 < d < MAX16 && s > d && check <= MAX16
    ensures var sum := check + d;
            MAX16 - Fold(s - d) == (sum + if sum >= 0xFFFF then 1 else 0) % 0x10000
            <==> check == MAX16 - Fold(s) || (check == MAX16 && Fold(s) == MAX16)
  {
    hide Fold;
    FoldIsResidue(s);
    CarryTracks(s, d, MAX16 - Fold(s));
  }

  /** The other encoding of zero, 0xFFFF, where a full computation gives zero: the corner case
      of section 3 of RFC 1624. */
  predicate NegativeZero(h: seq<byte>)
    requires IsHeader(h)
  {
    HeaderWord(h, 5, true) == MAX16 && FromScratch(h, true) == 0
  }

  lemma {:induction false} NegativeZeroEitherOrder(h: seq<byte>)
    requires IsHeader(h)
    ensures NegativeZero(h) <==> HeaderWord(h, 5, false) == MAX16 && FromScratch(h, false) == 0
  {
    hide Fold, Sum;
    var f := Fold(Sum(WithField(h, 0, 0), |h| / 2, true));
    FoldSwapped(WithField(h, 0, 0), |h| / 2);
    SwapInjective(f, MAX16);
  }

  /** After the decrement of a TTL that is not zero, the field is the one a full computation
      gives exactly when it was so before, on hosts of either byte order; 0xFFFF in place of
      zero is put right on the way. A TTL of zero always breaks a right checksum. */
  lemma {:induction false} ForwardedChecksum(h: seq<byte>, bigEndian: bool)
    requires IsHeader(h)
    ensures IsHeader(Forwarded(h, bigEndian))
    ensures h[8] != 0 ==> (Checksummed(Forwarded(h, bigEndian)) <==> Checksummed(h) || NegativeZero(h))
    ensures h[8] == 0 && Checksummed(h) ==> !Checksummed(Forwarded(h, bigEndian))
  {
    hide Fold, Sum, Forwarded, WithField;
    var h' := Forwarded(h, bigEndian);
    ForwardedBytes(h, bigEndian);
    ByteOrderIndependent(h);
    ByteOrderIndependent(h');
    NegativeZeroEitherOrder(h);
    ForwardedSum(h, bigEndian);
    var z := WithField(h, 0, 0);
    ZeroFieldKeeps(h);
    var s := Sum(z, |h| / 2, bigEndian);
    var check := HeaderWord(h, 5, bigEndian);
    SumPositive(z, |h| / 2, bigEndian);
    if h[8] != 0 {
      SumAbove(z, |h| / 2, bigEndian);
      CarryTracksIff(s, Step(bigEndian), check);
    } else if check == MAX16 - Fold(s) {
      CarryMisses(s, Step(bigEndian), check);
    }
  }

  /** Only the TTL and the checksum field change. The TTL goes down by one. The field, read in
      network byte order, gains 0x0100 modulo 0xFFFF on hosts of either byte order. */
  lemma {:induction false} ForwardedBytes(h: seq<byte>, bigEndian: bool)
    requires |h| >= 20
    ensures var r := Forwarded(h, bigEndian);
            r[8] == (h[8] as int - 1) % 256 &&
            (forall i | 0 <= i < |h| && i != 8 && i != 10 && i != 11 :: r[i] == h[i]) &&
            HeaderWord(r, 5, true) % MAX16 == (HeaderWord(h, 5, true) + 0x0100) % MAX16
  {
    hide Forwarded, HeaderWord, Updated, Swap;
    var r := Forwarded(h, bigEndian);
    ForwardedParts(h, bigEndian);
    FieldResidue(HeaderWord(h, 5, bigEndian), bigEndian);
    NetworkWord(h, bigEndian);
    NetworkWord(r, bigEndian);
  }

  lemma {:induction false} ForwardedParts(h: seq<byte>, bigEndian: bool)
    requires |h| >= 20
    ensures var r := Forwarded(h, bigEndian);
            r[8] == (h[8] as int - 1) % 256 &&
            (forall i | 0 <= i < |h| && i != 8 && i != 10 && i != 11 :: r[i] == h[i]) &&
            HeaderWord(r, 5, bigEndian) == Updated(HeaderWord(h, 5, bigEndian), bigEndian)
  {
    hide Updated;
  }

  lemma {:induction false} NetworkWord(h: seq<byte>, bigEndian: bool)
    requires |h| >= 20
    ensures HeaderWord(h, 5, true) ==
              if bigEndian then HeaderWord(h, 5, bigEndian) else Swap(HeaderWord(h, 5, bigEndian))
  {
  }

  lemma {:induction false} ZeroFieldKeeps(h: seq<byte>)
    requires |h| >= 20
    ensures WithField(h, 0, 0)[0] == h[0] && WithField(h, 0, 0)[8] == h[8]
  {
  }

  /** The update in place. A packet whose TTL is 1 is diverted untouched. */
  method DecrementTtl(h: array<byte>, bigEndian: bool) returns (forwarded: bool)
    requires IsHeader(h[..])
    modifies h
    ensures forwarded <==> old(h[8]) != 1
    ensures !forwarded ==> h[..] == old(h[..])
    ensures forwarded ==> h[..] == Forwarded(old(h[..]), bigEndian)
    ensures forwarded ==> h[8] == (old(h[8]) as int - 1) % 256
    ensures forall i | 0 <= i < h.Length && i != 8 && i != 10 && i != 11 :: h[i] == old(h[i])
    ensures IsHeader(h[..])
    ensures old(h[8]) != 0 && old(Checksummed(h[..])) ==> Checksummed(h[..])
  {
    if h[8] == 1 {
      return false;
    }
    ForwardedBytes(h[..], bigEndian);
    ForwardedChecksum(h[..], bigEndian);
    h[8] := (h[8] as int - 1) % 256;
    var check := if bigEndian then 256 * h[10] as int + h[11] else h[10] as int + 256 * h[11] as int;
    check := check + if bigEndian then 0x0100 else 0x0001;
    check := (check + if check >= 0xFFFF then 1 else 0) % 0x10000;
    if bigEndian {
      h[10], h[11] := check / 256, check % 256;
    } else {
      h[10], h[11] := check % 256, check / 256;
    }
    assert h[..] == Forwarded(old(h[..]), bigEndian);
    forwarded := true;
  }
}
