/** The routing table as a plain list: what the trie has to behave like.
    The list is kept in order of descending prefix length, newest first among
    equal lengths, so a lookup is "the first route that matches". */
module Routes {
  import opened Options
  import opened Addresses

  datatype Kind = Forward | Link | Local

  /** A route object. `obj` is the address of the object, so two routes with
      equal data are still two objects. */
  datatype Route = Route(obj: nat, prefix: Address, len: nat, id: int,
                         nexthop: Address, port: int, kind: Kind)

  /** The two address families: 4 or 16 bytes. */
  predicate IsWidth(width: nat) {
    width == 4 || width == 16
  }

  predicate Fits(r: Route, width: nat) {
    |r.prefix| == width && r.len <= 8 * width
  }

  predicate AllFit(rs: seq<Route>, width: nat) {
    forall r | r in rs :: Fits(r, width)
  }

  /** The route covers the destination. */
  predicate Covers(r: Route, dst: Address) {
    r.len <= 8 * |r.prefix| && r.len <= 8 * |dst| && SamePrefix(r.prefix, dst, r.len)
  }

  /** The route is the one named by (masked prefix, length, id). */
  predicate HasKey(r: Route, prefix: Address, len: nat, id: int) {
    r.id == id && r.len == len && len <= 8 * |prefix| && len <= 8 * |r.prefix| && SamePrefix(r.prefix, prefix, len)
  }

  predicate Present(rs: seq<Route>, prefix: Address, len: nat, id: int) {
    exists r | r in rs :: HasKey(r, prefix, len, id)
  }

  ghost predicate Sorted(rs: seq<Route>) {
    forall i, j | 0 <= i < j < |rs| :: rs[i].len >= rs[j].len
  }

  ghost predicate UniqueKeys(rs: seq<Route>) {
    forall i, j | 0 <= i < |rs| && 0 <= j < |rs| && i != j ::
      !HasKey(rs[i], rs[j].prefix, rs[j].len, rs[j].id)
  }

  /** What every reachable routing table satisfies. */
  ghost predicate Table(rs: seq<Route>, width: nat) {
    IsWidth(width) && AllFit(rs, width) && Sorted(rs) && UniqueKeys(rs)
  }

  /** What covering a destination and having a key come to, in numbers. */
  lemma {:induction false} CoversIff(r: Route, dst: Address)
    requires |r.prefix| == |dst|
    ensures Covers(r, dst) <==> r.len <= 8 * |dst| && Leading(r.prefix, r.len) == Leading(dst, r.len)
  {
    if r.len <= 8 * |dst| {
      SamePrefixIff(r.prefix, dst, r.len);
    }
  }

  lemma {:induction false} HasKeyIff(r: Route, prefix: Address, len: nat, id: int)
    requires |r.prefix| == |prefix| && len <= 8 * |prefix|
    ensures HasKey(r, prefix, len, id) <==>
              r.id == id && r.len == len && Leading(r.prefix, len) == Leading(prefix, len)
  {
    SamePrefixIff(r.prefix, prefix, len);
  }

  // ----- the two updates and the lookup, on the list -----

  function Insert(rs: seq<Route>, r: Route): (rs': seq<Route>) {
    if rs == [] || rs[0].len <= r.len then [r] + rs
    else [rs[0]] + Insert(rs[1..], r)
  }

  function Remove(rs: seq<Route>, r: Route): (rs': seq<Route>) {
    if rs == [] then []
    else if rs[0] == r then rs[1..]
    else [rs[0]] + Remove(rs[1..], r)
  }

  function FirstMatch(rs: seq<Route>, dst: Address): (m: Option<Route>) {
    if rs == [] then None
    else if Covers(rs[0], dst) then Some(rs[0])
    else FirstMatch(rs[1..], dst)
  }

  /** Longest match, stated without the list order. */
  ghost predicate IsLongestMatch(rs: seq<Route>, dst: Address, m: Option<Route>) {
    match m
    case None => forall r | r in rs :: !Covers(r, dst)
    case Some(x) => x in rs && Covers(x, dst) && forall r | r in rs && Covers(r, dst) :: r.len <= x.len
  }

  // ----- members, order and keys under the updates -----

  lemma {:induction false} InsertMembers(rs: seq<Route>, r: Route)
    ensures forall x :: x in Insert(rs, r) <==> x in rs || x == r
  {
    if rs != [] && rs[0].len > r.len {
      assert rs == [rs[0]] + rs[1..];
      InsertMembers(rs[1..], r);
    }
  }

  lemma {:induction false} RemoveMembers(rs: seq<Route>, r: Route)
    requires UniqueKeys(rs) && (forall x | x in rs :: x.len <= 8 * |x.prefix|)
    ensures forall x :: x in Remove(rs, r) <==> x in rs && x != r
  {
    if rs == [] {
    } else {
      assert rs == [rs[0]] + rs[1..];
      assert UniqueKeys(rs[1..]) by {
        forall i, j | 0 <= i < |rs| - 1 && 0 <= j < |rs| - 1 && i != j
          ensures !HasKey(rs[1..][i], rs[1..][j].prefix, rs[1..][j].len, rs[1..][j].id)
        {
          assert rs[1..][i] == rs[i + 1] && rs[1..][j] == rs[j + 1];
        }
      }
      RemoveMembers(rs[1..], r);
      if rs[0] == r {
        assert HasKey(r, r.prefix, r.len, r.id);
        forall x | x in rs[1..]
          ensures x != r
        {
          var j :| 0 <= j < |rs[1..]| && rs[1..][j] == x;
          assert !HasKey(rs[j + 1], rs[0].prefix, rs[0].len, rs[0].id);
        }
      }
    }
  }

  lemma {:induction false} InsertSorted(rs: seq<Route>, r: Route)
    requires Sorted(rs)
    ensures Sorted(Insert(rs, r))
  {
    if rs != [] && rs[0].len > r.len {
      InsertSorted(rs[1..], r);
      InsertMembers(rs[1..], r);
      var t := Insert(rs[1..], r);
      forall k | 0 <= k < |t|
        ensures rs[0].len >= t[k].len
      {
        assert t[k] in t;
      }
    }
  }

  lemma {:induction false} RemoveSorted(rs: seq<Route>, r: Route)
    requires Sorted(rs)
    ensures Sorted(Remove(rs, r))
    ensures forall x | x in Remove(rs, r) :: x in rs
  {
    if rs != [] && rs[0] != r {
      RemoveSorted(rs[1..], r);
      var t := Remove(rs[1..], r);
      forall k | 0 <= k < |t|
        ensures rs[0].len >= t[k].len
      {
        assert t[k] in t && t[k] in rs[1..];
      }
    }
  }

  lemma {:induction false} HasKeySymmetric(a: Route, b: Route)
    requires a.len <= 8 * |a.prefix| && b.len <= 8 * |b.prefix|
    ensures HasKey(a, b.prefix, b.len, b.id) <==> HasKey(b, a.prefix, a.len, a.id)
  {
  }

  /** Two routes with the key of a third share a key. */
  lemma {:induction false} HasKeyTransitive(a: Route, b: Route, prefix: Address, len: nat, id: int)
    requires HasKey(a, prefix, len, id) && HasKey(b, prefix, len, id)
    ensures HasKey(a, b.prefix, b.len, b.id)
  {
    forall i | 0 <= i < len
      ensures Bit(a.prefix, i) == Bit(b.prefix, i)
    {
      assert Bit(a.prefix, i) == Bit(prefix, i) == Bit(b.prefix, i);
    }
  }

  lemma {:induction false} UniqueHolder(rs: seq<Route>, a: Route, b: Route, prefix: Address, len: nat, id: int)
    requires UniqueKeys(rs) && a in rs && b in rs
    requires HasKey(a, prefix, len, id) && HasKey(b, prefix, len, id)
    ensures a == b
  {
    var i :| 0 <= i < |rs| && rs[i] == a;
    var j :| 0 <= j < |rs| && rs[j] == b;
    HasKeyTransitive(a, b, prefix, len, id);
  }

  /** `t` is `s` with one more element, at index `k`. */
  ghost predicate OneMore<T>(s: seq<T>, t: seq<T>, k: nat) {
    k <= |s| && |t| == |s| + 1
    && (forall i | 0 <= i < k :: t[i] == s[i])
    && forall i | k < i < |t| :: t[i] == s[i - 1]
  }

  lemma {:induction false} InsertAt(rs: seq<Route>, r: Route) returns (k: nat)
    ensures OneMore(rs, Insert(rs, r), k) && Insert(rs, r)[k] == r
    ensures forall i | 0 <= i < k :: rs[i].len > r.len
  {
    if rs == [] || rs[0].len <= r.len {
      k := 0;
    } else {
      var j := InsertAt(rs[1..], r);
      k := j + 1;
    }
  }

  lemma {:induction false} RemoveAt(rs: seq<Route>, r: Route) returns (k: nat)
    requires r in rs
    ensures OneMore(Remove(rs, r), rs, k) && rs[k] == r
  {
    if rs[0] == r {
      k := 0;
    } else {
      var j := RemoveAt(rs[1..], r);
      k := j + 1;
    }
  }

  /** Inserting a route whose key is absent keeps the table well formed. */
  lemma {:induction false} InsertKeepsTable(rs: seq<Route>, r: Route, width: nat)
    requires Table(rs, width) && Fits(r, width) && !Present(rs, r.prefix, r.len, r.id)
    ensures Table(Insert(rs, r), width)
  {
    InsertMembers(rs, r);
    InsertSorted(rs, r);
    var k := InsertAt(rs, r);
    InsertKeys(rs, Insert(rs, r), k, width);
  }

  lemma {:induction false} InsertKeys(rs: seq<Route>, t: seq<Route>, k: nat, width: nat)
    requires UniqueKeys(rs) && AllFit(rs, width) && OneMore(rs, t, k)
    requires Fits(t[k], width) && !Present(rs, t[k].prefix, t[k].len, t[k].id)
    ensures UniqueKeys(t)
  {
    forall i, j | 0 <= i < |t| && 0 <= j < |t| && i != j
      ensures !HasKey(t[i], t[j].prefix, t[j].len, t[j].id)
    {
      hide HasKey;
      if i == k {
        assert t[j] in rs;
        HasKeySymmetric(t[i], t[j]);
      } else if j == k {
        assert t[i] in rs;
      }
    }
  }

  lemma {:induction false} RemoveKeepsTable(rs: seq<Route>, r: Route, width: nat)
    requires Table(rs, width) && r in rs
    ensures Table(Remove(rs, r), width)
    ensures !Present(Remove(rs, r), r.prefix, r.len, r.id)
  {
    RemoveSorted(rs, r);
    var k := RemoveAt(rs, r);
    RemoveKeys(rs, Remove(rs, r), k);
  }

  lemma {:induction false} RemoveKeys(rs: seq<Route>, t: seq<Route>, k: nat)
    requires UniqueKeys(rs) && OneMore(t, rs, k)
    ensures UniqueKeys(t) && !Present(t, rs[k].prefix, rs[k].len, rs[k].id)
  {
    hide HasKey;
    forall i, j | 0 <= i < |t| && 0 <= j < |t| && i != j
      ensures !HasKey(t[i], t[j].prefix, t[j].len, t[j].id)
    {
      var i' := if i < k then i else i + 1;
      var j' := if j < k then j else j + 1;
      assert t[i] == rs[i'] && t[j] == rs[j'];
    }
    forall x | x in t
      ensures !HasKey(x, rs[k].prefix, rs[k].len, rs[k].id)
    {
      var i :| 0 <= i < |t| && t[i] == x;
      var i' := if i < k then i else i + 1;
      assert t[i] == rs[i'];
    }
  }

  /** Deleting what was just added gives back the same list, order included. */
  lemma {:induction false} RemoveInsert(rs: seq<Route>, r: Route)
    requires r !in rs
    ensures Remove(Insert(rs, r), r) == rs
  {
    if rs != [] && rs[0].len > r.len {
      RemoveInsert(rs[1..], r);
      assert Insert(rs, r)[1..] == Insert(rs[1..], r);
    }
  }

  // ----- the list lookup is the longest match -----

  lemma {:induction false} FirstMatchIsLongest(rs: seq<Route>, dst: Address)
    requires Sorted(rs)
    ensures IsLongestMatch(rs, dst, FirstMatch(rs, dst))
  {
    if rs == [] {
    } else {
      assert rs == [rs[0]] + rs[1..];
      if Covers(rs[0], dst) {
        forall r | r in rs
          ensures r.len <= rs[0].len
        {
          var i :| 0 <= i < |rs| && rs[i] == r;
        }
      } else {
        FirstMatchIsLongest(rs[1..], dst);
      }
    }
  }

  /** Among equal lengths the newest route wins: a route just added is the answer for
      every destination it covers that no longer route covers. */
  lemma {:induction false} NewestWins(rs: seq<Route>, r: Route, dst: Address)
    requires Sorted(rs) && Covers(r, dst)
    requires forall x | x in rs && Covers(x, dst) :: x.len <= r.len
    ensures FirstMatch(Insert(rs, r), dst) == Some(r)
  {
    if rs != [] && rs[0].len > r.len {
      assert rs[0] in rs;
      NewestWins(rs[1..], r, dst);
      assert Insert(rs, r)[1..] == Insert(rs[1..], r);
    }
  }

  // ----- chains -----

  /** What the chain operations compare: id and length, not the prefix. */
  predicate Identifies(e: Route, id: int, len: nat) {
    e.id == id && e.len == len
  }

  /** Inserting behind the longer entries is the list insertion. */
  lemma {:induction false} InsertAfterPrior(chain: seq<Route>, r: Route, k: nat)
    requires k <= |chain|
    requires forall j | 0 <= j < k :: chain[j].len > r.len
    requires forall j | k <= j < |chain| :: chain[j].len <= r.len
    ensures Insert(chain, r) == chain[..k] + [r] + chain[k..]
  {
    if k == 0 {
    } else {
      InsertAfterPrior(chain[1..], r, k - 1);
      assert chain[1..][..k - 1] == chain[1..k] && chain[1..][k - 1..] == chain[k..];
      assert chain[..k] == [chain[0]] + chain[1..k];
    }
  }

  lemma {:induction false} RemoveFirstAt(chain: seq<Route>, k: nat)
    requires k < |chain| && forall j | 0 <= j < k :: chain[j] != chain[k]
    ensures Remove(chain, chain[k]) == chain[..k] + chain[k + 1..]
  {
    if k == 0 {
    } else {
      RemoveFirstAt(chain[1..], k - 1);
      assert chain[1..][..k - 1] == chain[1..k] && chain[1..][k..] == chain[k + 1..];
      assert chain[..k] == [chain[0]] + chain[1..k];
    }
  }
}
