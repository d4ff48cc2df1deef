/** How many cells of the trie hold a route. */
module Refcounts {
  import opened Addresses
  import opened Routes
  import opened LpmTrie

  /** The number of chain entries for `r` in a node and everything under it. */
  ghost function Count(n: Node, r: Route): nat
    decreases n, 1
  {
    multiset(n.chain)[r] + CountAll(n.next, r)
  }

  ghost function CountAll(ns: seq<Node>, r: Route): nat
    decreases ns, 0
  {
    if ns == [] then 0 else Count(ns[0], r) + CountAll(ns[1..], r)
  }

  /** When only a block of cells holds `r`, each `v` times, the table holds it (block * v) times. */
  lemma {:induction false} CountBlock(ns: seq<Node>, r: Route, lo: int, hi: int, v: nat)
    requires lo <= hi <= |ns|
    requires forall i | 0 <= i < |ns| :: Count(ns[i], r) == if lo <= i < hi then v else 0
    ensures CountAll(ns, r) == (if hi <= 0 then 0 else if lo <= 0 then hi * v else (hi - lo) * v)
  {
    if ns == [] {
    } else {
      forall i | 0 <= i < |ns[1..]|
        ensures Count(ns[1..][i], r) == if lo - 1 <= i < hi - 1 then v else 0
      {
        assert ns[1..][i] == ns[i + 1];
      }
      CountBlock(ns[1..], r, lo - 1, hi - 1, v);
      assert hi * v == (hi - 1) * v + v;
      assert lo == 1 ==> (hi - lo) * v == (hi - 1) * v;
    }
  }

  lemma {:induction false} CellMultiplicity(rs: seq<Route>, path: Address, r: Route)
    ensures multiset(Cell(rs, path))[r] == if InCell(r, path) then multiset(rs)[r] else 0
  {
    if rs == [] {
    } else {
      CellMultiplicity(rs[1..], path, r);
      assert rs == [rs[0]] + rs[1..];
    }
  }

  lemma {:induction false} OnceEach(rs: seq<Route>, width: nat, r: Route)
    requires UniqueKeys(rs) && AllFit(rs, width)
    ensures multiset(rs)[r] == if r in rs then 1 else 0
  {
    if r in rs {
      var k :| 0 <= k < |rs| && rs[k] == r;
      assert rs == rs[..k] + [r] + rs[k + 1..];
      forall j | 0 <= j < |rs| && j != k
        ensures rs[j] != r
      {
        assert !HasKey(rs[j], rs[k].prefix, rs[k].len, rs[k].id);
        assert HasKey(r, r.prefix, r.len, r.id);
      }
      assert r !in rs[..k] && r !in rs[k + 1..];
    }
  }

  /** The number of entries for `r` that belong at or under the cell of `path`. */
  ghost function Share(r: Route, path: Address, rs: seq<Route>): nat {
    if r !in rs then 0
    else if InCell(r, path) then 1
    else if Below(r, path) then Expansion(r.len)
    else 0
  }

  lemma {:induction false} ShareApart(r: Route, path: Address, rs: seq<Route>)
    requires Apart(r, path)
    ensures Share(r, path, rs) == 0
  {
  }

  /** The shares of the 256 cells of a table add up: all of the expansion in one cell ... */
  lemma {:induction false} SharesDeep(next: seq<Node>, k: nat, rs: seq<Route>, r: Route)
    requires |next| == 256 && r in rs && 2 <= k && k + 1 < Level(r.len) && r.len <= 8 * |r.prefix|
    requires forall b: byte :: Count(next[b], r) == Share(r, r.prefix[..k] + [b], rs)
    ensures CountAll(next, r) == Expansion(r.len)
  {
    hide Count, CountAll;
    var c := r.prefix[k];
    BelowNext(r, r.prefix[..k]);
    forall b | 0 <= b < 256
      ensures Count(next[b], r) == if c <= b < c as int + 1 then Expansion(r.len) else 0
    {
      if b != c {
        ApartElsewhere(r, k, b);
        ShareApart(r, r.prefix[..k] + [b], rs);
      }
    }
    CountBlock(next, r, c, c as int + 1, Expansion(r.len));
  }

  /** ... or one entry in each cell of an aligned block. */
  lemma {:induction false} SharesBlock(next: seq<Node>, k: nat, rs: seq<Route>, r: Route)
    requires |next| == 256 && r in rs && 2 <= k && k + 1 == Level(r.len) && r.len <= 8 * |r.prefix|
    requires forall b: byte :: Count(next[b], r) == Share(r, r.prefix[..k] + [b], rs)
    ensures CountAll(next, r) == Expansion(r.len)
  {
    hide Count, CountAll;
    ApartOutsideBlock(r, k);
    hide InCell, Below, Expansion;
    var m := Expansion(r.len);
    var base := AlignDown(r.prefix[k], m);
    forall b | 0 <= b < 256
      ensures Count(next[b], r) == if base <= b < base + m then 1 else 0
    {
    }
    CountBlock(next, r, base, base + m, 1);
  }

  lemma {:induction false} SharesNone(next: seq<Node>, path: Address, rs: seq<Route>, r: Route)
    requires |next| == 256 && |path| >= 2 && !(r in rs && Below(r, path))
    requires forall b: byte :: Count(next[b], r) == Share(r, path + [b], rs)
    ensures CountAll(next, r) == 0
  {
    hide Count, CountAll;
    forall b | 0 <= b < 256
      ensures Count(next[b], r) == 0
    {
      if r in rs && (InCell(r, path + [b]) || Below(r, path + [b])) {
        BelowPrefix(r, path, b);
      }
    }
    CountBlock(next, r, 0, 256, 0);
  }

  lemma {:induction false} CountNode(n: Node, path: Address, rs: seq<Route>, width: nat, r: Route)
    requires Rep(n, path, rs) && Table(rs, width) && |path| >= 2
    ensures Count(n, r) == Share(r, path, rs)
    decreases n
  {
    hide Sorted, UniqueKeys, InCell, Expansion, Share;
    CellMultiplicity(rs, path, r);
    OnceEach(rs, width, r);
    assert CountAll(n.next, r) == if r in rs && Below(r, path) then Expansion(r.len) else 0 by {
      if n.next != [] {
        forall b: byte
          ensures Count(n.next[b], r) == Share(r, path + [b], rs)
        {
          CountNode(n.next[b], path + [b], rs, width, r);
        }
        if !(r in rs && Below(r, path)) {
          SharesNone(n.next, path, rs, r);
        } else if Level(r.len) == |path| + 1 {
          SharesBlock(n.next, |path|, rs, r);
        } else {
          SharesDeep(n.next, |path|, rs, r);
        }
      }
    }
    ShareOf(r, path, rs);
  }

  lemma {:induction false} ShareOf(r: Route, path: Address, rs: seq<Route>)
    ensures Share(r, path, rs) ==
              (if r in rs && InCell(r, path) then 1 else 0) +
              (if r in rs && Below(r, path) then Expansion(r.len) else 0)
  {
  }

  /** A live route is held by exactly 2^(level boundary - length) cells of the trie, any other by none. */
  lemma {:induction false} RouteCellCount(root: seq<Node>, rs: seq<Route>, width: nat, r: Route)
    requires |root| == 65536 && Table(rs, width) && forall i: nat | i < 65536 :: Rep(root[i], RootPath(i), rs)
    ensures CountAll(root, r) == if r in rs then Expansion(r.len) else 0
  {
    hide Count, CountAll, Rep, Sorted, UniqueKeys, RootIndex;
    forall i: nat | i < 65536
      ensures Count(root[i], r) == Share(r, RootPath(i), rs)
    {
      CountNode(root[i], RootPath(i), rs, width, r);
    }
    if r !in rs {
      CountBlock(root, r, 0, 65536, 0);
    } else if r.len > 16 {
      RootSharesDeep(root, rs, r);
    } else {
      RootSharesBlock(root, rs, r);
    }
  }

  lemma {:induction false} RootSharesDeep(root: seq<Node>, rs: seq<Route>, r: Route)
    requires |root| == 65536 && r in rs && r.len > 16 && r.len <= 8 * |r.prefix| && |r.prefix| >= 4
    requires forall i: nat | i < 65536 :: Count(root[i], r) == Share(r, RootPath(i), rs)
    ensures CountAll(root, r) == Expansion(r.len)
  {
    hide Count, CountAll, RootIndex, Expansion;
    var x := RootIndex(r.prefix);
    RootPathOf(r.prefix);
    forall i: nat | i < 65536
      ensures Count(root[i], r) == if x <= i < x + 1 then Expansion(r.len) else 0
    {
      if i != x {
        ApartRootElsewhere(r, r.prefix, r.len, r.id, i);
        ShareApart(r, RootPath(i), rs);
      }
    }
    CountBlock(root, r, x, x + 1, Expansion(r.len));
  }

  lemma {:induction false} RootSharesBlock(root: seq<Node>, rs: seq<Route>, r: Route)
    requires |root| == 65536 && r in rs && r.len <= 16 && r.len <= 8 * |r.prefix| && |r.prefix| >= 4
    requires forall i: nat | i < 65536 :: Count(root[i], r) == Share(r, RootPath(i), rs)
    ensures CountAll(root, r) == Expansion(r.len)
  {
    hide Count, CountAll, RootIndex;
    ApartOutsideRootBlock(r, r.prefix, r.len, r.id);
    hide InCell, Below, Expansion;
    var m := Expansion(r.len);
    var base := AlignDown(RootIndex(r.prefix), m);
    forall i: nat | i < 65536
      ensures Count(root[i], r) == if base <= i < base + m then 1 else 0
    {
    }
    CountBlock(root, r, base, base + m, 1);
  }
}
