/** Whole runs of the forwarding table: what is live after any sequence of updates and
    withdrawals, what a lookup then answers, and that the trie depends on nothing else. */
module FibRuns {
  import opened Options
  import opened Addresses
  import opened Routes
  import opened LpmTrie
  import opened Fib
  import TrieCells

  datatype Op =
    | Update(route: Route)
    | Withdraw(prefix: Address, len: nat, id: int)

  // ----- the routing table after a run -----

  ghost function Apply(rs: seq<Route>, op: Op): seq<Route> {
    match op
    case Update(r) => if Present(rs, r.prefix, r.len, r.id) then rs else Insert(rs, r)
    case Withdraw(p, l, i) => if Present(rs, p, l, i) then Remove(rs, Holder(rs, p, l, i)) else rs
  }

  ghost function Play(ops: seq<Op>): seq<Route> {
    if ops == [] then [] else Apply(Play(ops[..|ops| - 1]), ops[|ops| - 1])
  }

  predicate OpFits(op: Op, width: nat) {
    match op
    case Update(r) => Fits(r, width)
    case Withdraw(p, l, _) => |p| == width && l <= 8 * width
  }

  /** A run over one address family in which the allocator never hands out the address of a
      route object that is still in use. */
  ghost predicate Run(ops: seq<Op>, width: nat) {
    IsWidth(width)
    && (forall i | 0 <= i < |ops| :: OpFits(ops[i], width))
    && forall i | 0 <= i < |ops| && ops[i].Update? :: forall r | r in Play(ops[..i]) :: r.obj != ops[i].route.obj
  }

  lemma {:induction false} RunPrefix(ops: seq<Op>, width: nat, n: nat)
    requires Run(ops, width) && n <= |ops|
    ensures Run(ops[..n], width)
  {
    forall i | 0 <= i < n
      ensures ops[..n][..i] == ops[..i] && ops[..n][i] == ops[i]
    {
    }
  }

  // ----- an order-free account of what is live -----

  /** `r` is live after `ops`: it was installed when no live route had its key, and its key
      has not been withdrawn since. */
  ghost predicate Live(ops: seq<Op>, r: Route) {
    ops != [] &&
    var before := ops[..|ops| - 1];
    match ops[|ops| - 1]
    case Update(q) => Live(before, r) || (r == q && forall x | Live(before, x) :: !HasKey(x, q.prefix, q.len, q.id))
    case Withdraw(p, l, i) => Live(before, r) && !HasKey(r, p, l, i)
  }

  lemma {:induction false} ApplyTable(rs: seq<Route>, op: Op, width: nat)
    requires Table(rs, width) && OpFits(op, width)
    ensures Table(Apply(rs, op), width)
  {
    hide Sorted, UniqueKeys;
    match op
    case Update(r) =>
      if !Present(rs, r.prefix, r.len, r.id) {
        InsertKeepsTable(rs, r, width);
      }
    case Withdraw(p, l, i) =>
      if Present(rs, p, l, i) {
        RemoveKeepsTable(rs, Holder(rs, p, l, i), width);
      }
  }

  lemma {:induction false} ApplyMembers(rs: seq<Route>, op: Op, width: nat, x: Route)
    requires Table(rs, width)
    ensures x in Apply(rs, op) <==>
              match op
              case Update(r) => x in rs || (x == r && !Present(rs, r.prefix, r.len, r.id))
              case Withdraw(p, l, i) => x in rs && !HasKey(x, p, l, i)
  {
    match op
    case Update(r) =>
      InsertMembers(rs, r);
    case Withdraw(p, l, i) =>
      if Present(rs, p, l, i) {
        var h := Holder(rs, p, l, i);
        RemoveMembers(rs, h);
        if x in rs && HasKey(x, p, l, i) {
          UniqueHolder(rs, x, h, p, l, i);
        }
      }
  }

  lemma {:induction false} PlayIsLive(ops: seq<Op>, width: nat)
    requires Run(ops, width)
    ensures Table(Play(ops), width)
    ensures forall r :: r in Play(ops) <==> Live(ops, r)
  {
    if ops != [] {
      var n := |ops| - 1;
      RunPrefix(ops, width, n);
      PlayIsLive(ops[..n], width);
      assert OpFits(ops[n], width);
      ApplyTable(Play(ops[..n]), ops[n], width);
      forall r
        ensures r in Play(ops) <==> Live(ops, r)
      {
        LiveStep(ops[..n], ops, width, r);
      }
    } else {
      assert Table([], width);
    }
  }

  lemma {:induction false} LiveStep(before: seq<Op>, ops: seq<Op>, width: nat, r: Route)
    requires ops != [] && before == ops[..|ops| - 1] && Table(Play(before), width)
    requires forall x :: x in Play(before) <==> Live(before, x)
    ensures r in Play(ops) <==> Live(ops, r)
  {
    hide Table, HasKey;
    var rs := Play(before);
    ApplyMembers(rs, ops[|ops| - 1], width, r);
    match ops[|ops| - 1]
    case Update(q) =>
      assert Present(rs, q.prefix, q.len, q.id) <==> exists x :: Live(before, x) && HasKey(x, q.prefix, q.len, q.id);
    case Withdraw(p, l, i) =>
  }

  // ----- newest first -----

  /** When a live route was installed: the last update with it. */
  ghost function Installed(ops: seq<Op>, r: Route): int {
    if ops == [] then -1
    else if ops[|ops| - 1] == Update(r) then |ops| - 1
    else Installed(ops[..|ops| - 1], r)
  }

  ghost predicate NewestFirst(rs: seq<Route>, ops: seq<Op>) {
    forall i, j | 0 <= i < j < |rs| && rs[i].len == rs[j].len :: Installed(ops, rs[i]) > Installed(ops, rs[j])
  }

  lemma {:induction false} InstalledBefore(ops: seq<Op>, r: Route)
    ensures Installed(ops, r) < |ops|
  {
    if ops == [] {
    } else {
      InstalledBefore(ops[..|ops| - 1], r);
    }
  }

  lemma {:induction false} NewestFirstInsert(rs: seq<Route>, ops: seq<Op>, r: Route)
    requires NewestFirst(rs, ops) && ops != [] && ops[|ops| - 1] == Update(r)
    requires forall x | x in rs :: Installed(ops, x) < |ops| - 1
    ensures NewestFirst(Insert(rs, r), ops)
  {
    var k := InsertAt(rs, r);
    var t := Insert(rs, r);
    assert Installed(ops, r) == |ops| - 1;
    hide Installed, Insert;
    forall i, j | 0 <= i < j < |t| && t[i].len == t[j].len
      ensures Installed(ops, t[i]) > Installed(ops, t[j])
    {
      if i == k {
        assert t[j] in rs;
      } else if j != k {
        assert t[i] == rs[if i < k then i else i - 1] && t[j] == rs[if j < k then j else j - 1];
      }
    }
  }

  lemma {:induction false} NewestFirstRemove(rs: seq<Route>, ops: seq<Op>, r: Route)
    requires NewestFirst(rs, ops) && r in rs
    ensures NewestFirst(Remove(rs, r), ops)
  {
    var k := RemoveAt(rs, r);
    var t := Remove(rs, r);
    hide Installed, Remove;
    forall i, j | 0 <= i < j < |t| && t[i].len == t[j].len
      ensures Installed(ops, t[i]) > Installed(ops, t[j])
    {
      assert t[i] == rs[if i < k then i else i + 1] && t[j] == rs[if j < k then j else j + 1];
    }
  }

  lemma {:induction false} PlayNewestFirst(ops: seq<Op>, width: nat)
    requires Run(ops, width)
    ensures NewestFirst(Play(ops), ops)
  {
    if ops == [] {
    } else {
      var n := |ops| - 1;
      var before := ops[..n];
      var rs := Play(before);
      RunPrefix(ops, width, n);
      PlayNewestFirst(before, width);
      PlayIsLive(before, width);
      forall x | x in rs
        ensures Installed(ops, x) == Installed(before, x) < n
      {
        InstalledBefore(before, x);
        assert ops[n].Update? ==> x.obj != ops[n].route.obj;
      }
      assert NewestFirst(rs, ops);
      match ops[n]
      case Update(r) =>
        if !Present(rs, r.prefix, r.len, r.id) {
          NewestFirstInsert(rs, ops, r);
        }
      case Withdraw(p, l, i) =>
        if Present(rs, p, l, i) {
          NewestFirstRemove(rs, ops, Holder(rs, p, l, i));
        }
    }
  }

  // ----- the main theorem -----

  /** `m` is the answer owed to a packet for `dst` after `ops`: nothing exactly when no live
      route covers it, else the live covering route of greatest length, the most recently
      installed one among those. */
  ghost predicate Answer(ops: seq<Op>, dst: Address, m: Option<Route>) {
    match m
    case None => forall r | Live(ops, r) :: !Covers(r, dst)
    case Some(x) =>
      Live(ops, x) && Covers(x, dst) &&
      forall r | Live(ops, r) && Covers(r, dst) && r != x ::
        r.len < x.len || (r.len == x.len && Installed(ops, r) < Installed(ops, x))
  }

  lemma {:induction false} FirstMatchAt(rs: seq<Route>, dst: Address) returns (k: nat)
    requires FirstMatch(rs, dst).Some?
    ensures k < |rs| && FirstMatch(rs, dst) == Some(rs[k]) && Covers(rs[k], dst)
    ensures forall i | 0 <= i < k :: !Covers(rs[i], dst)
  {
    if Covers(rs[0], dst) {
      k := 0;
    } else {
      var j := FirstMatchAt(rs[1..], dst);
      k := j + 1;
      forall i | 0 <= i < k
        ensures !Covers(rs[i], dst)
      {
        if i > 0 {
          assert rs[i] == rs[1..][i - 1];
        }
      }
    }
  }

  lemma {:induction false} FirstMatchIsAnswer(ops: seq<Op>, width: nat, dst: Address)
    requires Run(ops, width)
    ensures Answer(ops, dst, FirstMatch(Play(ops), dst))
  {
    hide Run, Live, Covers, FirstMatch, Play, UniqueKeys, Installed;
    PlayIsLive(ops, width);
    PlayNewestFirst(ops, width);
    var rs := Play(ops);
    FirstMatchIsLongest(rs, dst);
    if FirstMatch(rs, dst).Some? {
      var k := FirstMatchAt(rs, dst);
      forall r | Live(ops, r) && Covers(r, dst) && r != rs[k]
        ensures r.len < rs[k].len || (r.len == rs[k].len && Installed(ops, r) < Installed(ops, rs[k]))
      {
        var j :| 0 <= j < |rs| && rs[j] == r;
      }
    }
  }

  /** After every run, the lookup of the trie gives the answer owed. */
  method RunThenLookup(family: Family, ops: seq<Op>, dst: Address) returns (m: Option<Route>)
    requires family != OTHER && Run(ops, WidthOf(family)) && |dst| == WidthOf(family)
    ensures Answer(ops, dst, m)
  {
    var fib := RunAll(family, ops);
    m := fib.Lookup(dst);
    FirstMatchIsAnswer(ops, WidthOf(family), dst);
  }

  /** Every run keeps the trie in step with the routing table. */
  method RunAll(family: Family, ops: seq<Op>) returns (fib: ForwardingTable)
    requires family != OTHER && Run(ops, WidthOf(family))
    ensures fresh(fib) && fresh(fib.owned) && fib.Valid() && fib.routes == Play(ops) && fib.width == WidthOf(family)
  {
    hide Root, Table, TrieCells.TableSpells;
    fib := new ForwardingTable(family);
    for n := 0 to |ops|
      invariant fresh(fib) && fresh(fib.owned)
      invariant fib.Valid() && fib.routes == Play(ops[..n]) && fib.width == WidthOf(family)
    {
      assert ops[..n + 1][..n] == ops[..n];
      assert OpFits(ops[n], fib.width);
      hide Run;
      match ops[n]
      case Update(r) =>
        assert forall x | x in fib.refs :: x.obj != r.obj;
        var ok := fib.RouteUpdate(family, r.kind, r.prefix, r.len, r.nexthop, r.port, r.id, r.obj);
      case Withdraw(p, l, i) =>
        var ok := fib.RouteDelete(p, l, i);
    }
    assert ops[..|ops|] == ops;
  }

  // ----- the trie is a function of the routing table -----

  lemma {:induction false} SameRoutesSameTrie(a: seq<Node>, b: seq<Node>, rs: seq<Route>)
    requires Root(a, rs) && Root(b, rs)
    ensures a == b
  {
    forall i: nat | i < 65536
      ensures a[i] == b[i]
    {
      RepUnique(a[i], b[i], RootPath(i), rs);
    }
  }

  lemma {:induction false} InsertedThenRemoved(rs: seq<Route>, r: Route, width: nat)
    requires Table(rs, width) && Table(Insert(rs, r), width) && !Present(rs, r.prefix, r.len, r.id)
    ensures var mid := Insert(rs, r);
            Present(mid, r.prefix, r.len, r.id) && Holder(mid, r.prefix, r.len, r.id) == r && Remove(mid, r) == rs
  {
    hide Sorted;
    var mid := Insert(rs, r);
    InsertMembers(rs, r);
    assert r in mid && HasKey(r, r.prefix, r.len, r.id);
    UniqueHolder(mid, r, Holder(mid, r.prefix, r.len, r.id), r.prefix, r.len, r.id);
    assert r !in rs;
    RemoveInsert(rs, r);
  }

  lemma {:induction false} SameRefs(a: map<Route, nat>, b: map<Route, nat>, rs: seq<Route>)
    requires forall r :: r in a <==> r in rs
    requires forall r :: r in b <==> r in rs
    requires forall r | r in rs :: a[r] == Expansion(r.len) == b[r]
    ensures a == b
  {
    hide Expansion;
  }

  /** Installing a route whose key is absent and withdrawing it restores the trie exactly:
      chains, their order, the set of tables and the reference counts. */
  method AddThenDelete(fib: ForwardingTable, family: Family, r: Route)
    requires fib.Valid() && family != OTHER && WidthOf(family) == fib.width && Fits(r, fib.width)
    requires !Present(fib.routes, r.prefix, r.len, r.id) && forall x | x in fib.refs :: x.obj != r.obj
    modifies fib, fib.owned
    ensures fib.Valid() && fib.routes == old(fib.routes)
    ensures fib.tree == old(fib.tree) && fib.refs == old(fib.refs)
  {
    hide Table, Root, Present, Insert, Remove, Expansion, TrieCells.TableSpells;
    ghost var rs, refs, root := fib.routes, fib.refs, fib.tree;
    var ok := fib.RouteUpdate(family, r.kind, r.prefix, r.len, r.nexthop, r.port, r.id, r.obj);
    InsertedThenRemoved(rs, r, fib.width);
    ok := fib.RouteDelete(r.prefix, r.len, r.id);
    SameRoutesSameTrie(root, fib.tree, rs);
    SameRefs(refs, fib.refs, rs);
  }

  /** No reachable trie contains an empty table. */
  ghost predicate NoEmptyTable(n: Node) {
    n.next == [] || (!AllEmpty(n.next) && forall b | 0 <= b < |n.next| :: NoEmptyTable(n.next[b]))
  }

  lemma {:induction false} TablesInUse(n: Node, path: Address, rs: seq<Route>, width: nat)
    requires Rep(n, path, rs) && AllFit(rs, width) && |path| >= 2
    ensures NoEmptyTable(n)
    decreases n
  {
    if n.next == [] {
    } else {
      PruneIsExact(n.next, path, rs);
      forall b | 0 <= b < 256
        ensures NoEmptyTable(n.next[b])
      {
        TablesInUse(n.next[b], path + [b], rs, width);
      }
    }
  }
}
