/** The forwarding table: the trie in place, with its route objects and their reference
    counts. The ghost list `routes` is the routing table the trie stands for. */
module Fib {
  import opened Options
  import opened Arith
  import opened Addresses
  import opened Routes
  import opened LpmTrie
  import opened Refcounts
  import C = TrieCells

  function WidthOf(family: Family): nat {
    match family
    case INET => 4
    case INET6 => 16
    case OTHER => 0
  }

  /** The reference counts after one put: at zero the object is freed. */
  function Released(refs: map<Route, nat>, r: Route): map<Route, nat>
    requires r in refs && refs[r] > 0
  {
    if refs[r] == 1 then refs - {r} else refs[r := refs[r] - 1]
  }

  /** The number of references a route object has, zero for a freed one. */
  ghost function RefOf(refs: map<Route, nat>, r: Route): nat {
    if r in refs then refs[r] else 0
  }

  ghost predicate Positive(refs: map<Route, nat>) {
    forall r | r in refs :: refs[r] > 0
  }

  /** The route with the given key, when there is one. */
  ghost function Holder(rs: seq<Route>, prefix: Address, len: nat, id: int): (x: Route)
    requires Present(rs, prefix, len, id)
    ensures x in rs && HasKey(x, prefix, len, id)
  {
    var x :| x in rs && HasKey(x, prefix, len, id);
    x
  }

  /** The root cells are right for the routing table. */
  ghost predicate Root(tree: seq<Node>, rs: seq<Route>) {
    |tree| == 65536 && forall i: nat | i < 65536 :: Rep(tree[i], RootPath(i), rs)
  }

  class ForwardingTable {
    const width: nat
    const node: array<C.Cell>

    /** The allocated route objects and their reference counts. */
    var refs: map<Route, nat>

    ghost var routes: seq<Route>

    /** The trie that the root cells stand for, and the memory it is made of. */
    ghost var tree: seq<Node>
    ghost var owned: set<object>

    /** The cells spell a trie for the routing table. */
    ghost predicate Cells(rs: seq<Route>)
      reads this, node, owned
    {
      this !in owned && C.TableSpells(node, owned, tree) && Root(tree, rs)
    }

    /** Every live route object is counted once per cell of its range, and nothing else is allocated. */
    ghost predicate Counted()
      reads this
    {
      (forall r :: r in refs <==> r in routes) && forall r | r in routes :: refs[r] == Expansion(r.len)
    }

    ghost predicate Valid()
      reads this, node, owned
    {
      Table(routes, width) && Cells(routes) && Counted()
    }

    constructor (family: Family)
      requires family != OTHER
      ensures Valid() && routes == [] && width == WidthOf(family) && fresh(owned)
    {
      hide C.TableSpells, C.Spells;
      width := WidthOf(family);
      var cells := C.NewCells(65536);
      node := cells;
      refs := map[];
      routes := [];
      tree := seq(65536, _ => EMPTY);
      owned := C.NewParts(cells);
      new;
      C.EmptyTable(cells);
      EmptyTrie(width);
    }

    // ----- lookup -----

    /** The lookup answers with the longest match, as a scan of the routing table would. */
    method Lookup(dst: Address) returns (entry: Option<Route>)
      requires Valid() && |dst| == width
      ensures entry == FirstMatch(routes, dst)
      ensures IsLongestMatch(routes, dst, entry)
    {
      hide Sorted, UniqueKeys, Rep, Shape, RootIndex, FirstMatch, IsLongestMatch, C.Spells;
      var index := RootIndex(dst);
      RootPathOf(dst);
      LookupFromRoot(dst, tree[index], routes);
      entry := C.Walk(dst, node[index], tree[index]);
    }

    // ----- reference counts -----

    method Pull(r: Route)
      requires r in refs
      modifies this`refs
      ensures refs == old(refs)[r := old(refs)[r] + 1]
    {
      refs := refs[r := refs[r] + 1];
    }

    method Put(r: Route)
      requires r in refs && refs[r] > 0
      modifies this`refs
      ensures refs == Released(old(refs), r)
    {
      refs := refs[r := refs[r] - 1];
      if refs[r] == 0 {
        refs := refs - {r};
      }
    }

    // ----- one chain -----

    method EntryInsert(c: C.Cell, r: Route, ghost n: Node) returns (ok: bool, ghost n': Node)
      requires C.Spells(c, n) && this !in C.Repr(c) && Sorted(n.chain) && r in refs
      modifies this`refs, C.Repr(c)
      ensures C.Spells(c, n') && fresh(C.Repr(c) - old(C.Repr(c)))
      ensures ok <==> forall e | e in n.chain :: !Identifies(e, r.id, r.len)
      ensures ok ==> n' == Node(Insert(n.chain, r), n.next) && refs == old(refs)[r := old(refs)[r] + 1]
      ensures !ok ==> n' == n && refs == old(refs)
    {
      hide C.Spells, Sorted;
      ok := C.InsertEntry(c, r, n);
      n' := if ok then Node(Insert(n.chain, r), n.next) else n;
      if ok {
        Pull(r);
      }
    }

    method EntryDelete(c: C.Cell, id: int, len: nat, ghost n: Node)
      returns (ok: bool, ghost n': Node, ghost victim: Route)
      requires C.Spells(c, n) && this !in C.Repr(c)
      requires forall e | e in n.chain && Identifies(e, id, len) :: e in refs && refs[e] > 0
      modifies this`refs, C.Repr(c)
      ensures C.Spells(c, n') && fresh(C.Repr(c) - old(C.Repr(c)))
      ensures ok <==> exists e | e in n.chain :: Identifies(e, id, len)
      ensures ok ==> victim in n.chain && Identifies(victim, id, len) && n' == Node(Remove(n.chain, victim), n.next)
      ensures ok ==> victim in old(refs) && old(refs)[victim] > 0 && refs == Released(old(refs), victim)
      ensures !ok ==> n' == n && refs == old(refs)
    {
      hide C.Spells;
      var gone;
      ok, gone := C.RemoveEntry(c, id, len, n);
      n', victim := n, *;
      if ok {
        victim := gone.data;
        n' := Node(Remove(n.chain, victim), n.next);
        Put(gone.data);
      }
    }

    // ----- one route more -----

    /** Inserts `r` into one cell of its range. The cell refuses it exactly when the routing
        table has its key, so all the cells of the range refuse it or none does. */
    method AddToCell(t: array<C.Cell>, b: nat, r: Route, ghost owned: set<object>, ghost next: seq<Node>,
        ghost path: Address, ghost rs: seq<Route>)
      returns (ok: bool, ghost owned': set<object>, ghost next': seq<Node>)
      requires C.TableSpells(t, owned, next) && this !in owned && b < t.Length
      requires Sorted(rs) && |path| >= 2 && Rep(next[b], path, rs)
      requires InCell(r, path) && r.len <= 8 * |r.prefix| && r in refs
      modifies this`refs, owned
      ensures C.TableSpells(t, owned', next') && fresh(owned' - owned)
      ensures ok <==> !Present(rs, r.prefix, r.len, r.id)
      ensures !ok ==> next' == next && refs == old(refs)
      ensures ok ==> |next'| == |next| && forall a | 0 <= a < |next| && a != b :: next'[a] == next[a]
      ensures ok ==> Rep(next'[b], path, Insert(rs, r)) && refs == old(refs)[r := old(refs)[r] + 1]
    {
      hide InCell, Sorted, Present, C.Spells, C.Repr;
      CellAccepts(rs, path, r);
      ghost var n;
      ok, n := EntryInsert(t[b], r, next[b]);
      C.CellChanged(C.Change(t, owned, next, b, n));
      owned', next' := owned + C.Repr(t[b]), next[b := n];
      if ok {
        InsertHere(next[b], path, rs, r);
      }
    }

    /** Inserts `r` into `range` cells of a table, stopping at a cell that already has its key.
        A stop is at the first cell, so there is nothing to roll back. */
    method FillCells(t: array<C.Cell>, base: nat, range: nat, r: Route, ghost owned: set<object>,
        ghost next: seq<Node>, ghost path: Address, ghost rs: seq<Route>)
      returns (ok: bool, ghost owned': set<object>, ghost next': seq<Node>)
      requires C.TableSpells(t, owned, next) && this !in owned
      requires |next| == 256 && range >= 1 && base + range <= 256 && |path| >= 2
      requires Sorted(rs) && r in refs && r.len <= 8 * |r.prefix|
      requires forall b: byte :: Rep(next[b], path + [b], rs)
      requires forall b: byte | base <= b < base + range :: InCell(r, path + [b])
      modifies this`refs, owned
      ensures C.TableSpells(t, owned', next') && fresh(owned' - owned)
      ensures ok <==> !Present(rs, r.prefix, r.len, r.id)
      ensures !ok ==> next' == next && refs == old(refs)
      ensures ok ==> |next'| == 256 && refs == old(refs)[r := old(refs)[r] + range]
      ensures ok ==> forall b: byte :: if base <= b < base + range then Rep(next'[b], path + [b], Insert(rs, r))
                                       else next'[b] == next[b]
    {
      hide InCell, Sorted, Present, Rep, C.Spells, C.Repr;
      owned', next' := owned, next;
      for i := 0 to range
        invariant C.TableSpells(t, owned', next') && this !in owned' && fresh(owned' - owned)
        invariant |next'| == 256
        invariant i > 0 ==> !Present(rs, r.prefix, r.len, r.id)
        invariant forall b: byte :: if base <= b < base + i then Rep(next'[b], path + [b], Insert(rs, r))
                                    else next'[b] == next[b]
        invariant refs == if i == 0 then old(refs) else old(refs)[r := old(refs)[r] + i]
      {
        ok, owned', next' := AddToCell(t, base + i, r, owned', next', path + [base + i], rs);
        if !ok {
          assert i == 0;
          return;
        }
      }
      ok := true;
    }

    /** Adds `r` inside the table under the cell of path `r.prefix[..k]`. */
    method AddInTable(t: array<C.Cell>, r: Route, k: nat, ghost owned: set<object>, ghost next: seq<Node>,
        ghost rs: seq<Route>)
      returns (ok: bool, ghost owned': set<object>, ghost next': seq<Node>)
      requires C.TableSpells(t, owned, next) && this !in owned
      requires Table(rs, width) && Fits(r, width) && r in refs
      requires 2 <= k < Level(r.len) && |next| == 256
      requires forall b: byte :: Rep(next[b], r.prefix[..k] + [b], rs)
      modifies this`refs, owned
      ensures C.TableSpells(t, owned', next') && fresh(owned' - owned)
      ensures ok <==> !Present(rs, r.prefix, r.len, r.id)
      ensures !ok ==> next' == next && refs == old(refs)
      ensures ok ==> |next'| == 256 && refs == old(refs)[r := old(refs)[r] + Expansion(r.len)]
      ensures ok ==> forall b: byte :: (Apart(r, r.prefix[..k] + [b]) && next'[b] == next[b])
                                    || Rep(next'[b], r.prefix[..k] + [b], Insert(rs, r))
      decreases Level(r.len) - k, 0
    {
      hide Rep, Sorted, UniqueKeys, AllFit, Below, InCell, Apart, Present, Pow2, TableIndex, C.Spells, C.Repr;
      var index := TableIndex(r.prefix, k);
      if r.len - 8 * k > 8 {
        ghost var n;
        assert r.prefix[..k] + [index] == r.prefix[..k + 1];
        ok, n := AddBelow(t[index], r, k + 1, next[index], rs);
        C.CellChanged(C.Change(t, owned, next, index, n));
        owned', next' := owned + C.Repr(t[index]), next[index := n];
        forall b: byte | b != index ensures Apart(r, r.prefix[..k] + [b]) {
          ApartElsewhere(r, k, b);
        }
      } else {
        ApartOutsideBlock(r, k);
        var range := Pow2(8 - (r.len - 8 * k));
        ok, owned', next' := FillCells(t, AlignDown(index, range), range, r, owned, next, r.prefix[..k], rs);
      }
    }

    method AddBelow(parent: C.Cell, r: Route, k: nat, ghost n: Node, ghost rs: seq<Route>)
      returns (ok: bool, ghost n': Node)
      requires C.Spells(parent, n) && this !in C.Repr(parent)
      requires Table(rs, width) && Fits(r, width) && r in refs
      requires 2 <= k < Level(r.len) && Rep(n, r.prefix[..k], rs)
      modifies this`refs, C.Repr(parent)
      ensures C.Spells(parent, n') && fresh(C.Repr(parent) - old(C.Repr(parent)))
      ensures ok <==> !Present(rs, r.prefix, r.len, r.id)
      ensures !ok ==> n' == n && refs == old(refs)
      ensures ok ==> Rep(n', r.prefix[..k], Insert(rs, r))
      ensures ok ==> refs == old(refs)[r := old(refs)[r] + Expansion(r.len)]
      decreases Level(r.len) - k, 1
    {
      hide Rep, Sorted, UniqueKeys, AllFit, InCell, Apart, Present, AllEmpty, C.Spells, C.TableSpells, C.Chain;
      ghost var path := r.prefix[..k];
      n' := n;
      C.Parts(parent, n);
      if parent.next == null {
        C.MakeTable(parent, n);
        n' := Node(n.chain, seq(256, _ => EMPTY));
        C.Parts(parent, n');
      }
      NextOrFresh(n, path, rs);
      ghost var owned, next;
      ok, owned, next := AddInTable(parent.next, r, k, parent.below, n'.next, rs);
      C.TakeIn(parent, owned, n', next);
      if ok {
        AddedBelow(n, n'.next, next, path, rs, r);
        n' := Node(n.chain, next);
      } else {
        var bare := C.AllBare(parent.next, owned, next);
        if bare {
          C.DropTable(parent, n');
          n' := Node(n.chain, []);
        }
        TableInUse(n, path, rs, r, width);
      }
    }

    /** The root cells spell the trie `tree` and have taken in new memory only. */
    twostate predicate Grown()
      reads this, node, owned
    {
      this !in owned && C.TableSpells(node, owned, tree) && |tree| == 65536 && fresh(owned - old(owned))
    }

    method FillRoot(base: nat, range: nat, r: Route) returns (ok: bool)
      requires Table(routes, width) && Cells(routes) && Fits(r, width) && r in refs
      requires range >= 1 && base + range <= 65536
      requires forall i: nat | base <= i < base + range :: InCell(r, RootPath(i))
      modifies this`refs, this`tree, this`owned, owned
      ensures Grown()
      ensures ok <==> !Present(routes, r.prefix, r.len, r.id)
      ensures !ok ==> tree == old(tree) && refs == old(refs)
      ensures ok ==> refs == old(refs)[r := old(refs)[r] + range]
      ensures ok ==> forall i: nat | i < 65536 ::
        if base <= i < base + range then Rep(tree[i], RootPath(i), Insert(routes, r)) else tree[i] == old(tree[i])
    {
      hide InCell, Sorted, UniqueKeys, Present, Rep, C.Spells, C.Repr;
      for i := 0 to range
        invariant Grown()
        invariant i > 0 ==> !Present(routes, r.prefix, r.len, r.id)
        invariant forall j: nat | j < 65536 ::
          if base <= j < base + i then Rep(tree[j], RootPath(j), Insert(routes, r)) else tree[j] == old(tree[j])
        invariant refs == if i == 0 then old(refs) else old(refs)[r := old(refs)[r] + i]
      {
        ghost var owned', tree';
        ok, owned', tree' := AddToCell(node, base + i, r, owned, tree, RootPath(base + i), routes);
        owned, tree := owned', tree';
        if !ok {
          assert i == 0;
          return;
        }
      }
      ok := true;
    }

    /** Adds a route, or refuses it and changes nothing, as its key is absent or present. */
    method LpmAdd(r: Route) returns (ok: bool)
      requires Table(routes, width) && Cells(routes) && Fits(r, width) && r in refs
      modifies this`refs, this`routes, this`tree, this`owned, owned
      ensures Cells(routes) && fresh(owned - old(owned))
      ensures ok <==> !Present(old(routes), r.prefix, r.len, r.id)
      ensures !ok ==> tree == old(tree) && refs == old(refs) && routes == old(routes)
      ensures ok ==> routes == Insert(old(routes), r) && Table(routes, width)
      ensures ok ==> refs == old(refs)[r := old(refs)[r] + Expansion(r.len)]
    {
      hide Sorted, UniqueKeys, Rep, InCell, Below, Apart, RootIndex, Present, Pow2, C.Spells, C.Repr;
      ghost var before := tree;
      var index := RootIndex(r.prefix);
      if r.len > 16 {
        RootPathOf(r.prefix);
        ghost var n;
        ok, n := AddBelow(node[index], r, 2, tree[index], routes);
        C.CellChanged(C.Change(node, owned, tree, index, n));
        owned, tree := owned + C.Repr(node[index]), tree[index := n];
        forall i: nat | i < 65536 && i != index ensures Apart(r, RootPath(i)) {
          ApartRootElsewhere(r, r.prefix, r.len, r.id, i);
        }
      } else {
        ApartOutsideRootBlock(r, r.prefix, r.len, r.id);
        var range := Pow2(16 - r.len);
        ok := FillRoot(AlignDown(index, range), range, r);
      }
      if ok {
        RootAdded(before, tree, routes, r);
        InsertKeepsTable(routes, r, width);
        routes := Insert(routes, r);
      }
    }

    // ----- one route less -----

    /** Deletes the key from one cell of its range. `x` is the holder of the key, if there is one. */
    method DeleteFromCell(t: array<C.Cell>, b: nat, prefix: Address, len: nat, id: int, ghost x: Route,
        ghost owned: set<object>, ghost next: seq<Node>, ghost path: Address, ghost rs: seq<Route>)
      returns (ok: bool, ghost owned': set<object>, ghost next': seq<Node>)
      requires C.TableSpells(t, owned, next) && this !in owned && b < t.Length
      requires Table(rs, width) && |path| >= 2 && Rep(next[b], path, rs) && |path| == Level(len)
      requires len <= 8 * |prefix| && len <= 8 * |path| && SamePrefix(prefix, path, len)
      requires Present(rs, prefix, len, id) ==> x in rs && HasKey(x, prefix, len, id) && x in refs && refs[x] > 0
      modifies this`refs, owned
      ensures C.TableSpells(t, owned', next') && fresh(owned' - owned)
      ensures ok <==> Present(rs, prefix, len, id)
      ensures !ok ==> next' == next && refs == old(refs)
      ensures ok ==> |next'| == |next| && forall a | 0 <= a < |next| && a != b :: next'[a] == next[a]
      ensures ok ==> Rep(next'[b], path, Remove(rs, x)) && refs == Released(old(refs), x)
    {
      hide Sorted, UniqueKeys, InCell, HasKey, SamePrefix, C.Spells, C.Repr;
      CellHolds(rs, path, prefix, len, id, x);
      ghost var n, victim := next[b], x;
      assert forall e | e in n.chain && Identifies(e, id, len) :: e == x;
      assert forall e | e in n.chain && Identifies(e, id, len) :: Present(rs, prefix, len, id);
      ok, n, victim := EntryDelete(t[b], id, len, n);
      C.CellChanged(C.Change(t, owned, next, b, n));
      owned', next' := owned + C.Repr(t[b]), next[b := n];
      if ok {
        RemoveHere(next[b], path, rs, x, width);
      }
    }

    method ClearCells(t: array<C.Cell>, base: nat, range: nat, prefix: Address, len: nat, id: int, ghost x: Route,
        ghost owned: set<object>, ghost next: seq<Node>, ghost path: Address, ghost rs: seq<Route>)
      returns (ok: bool, ghost owned': set<object>, ghost next': seq<Node>)
      requires C.TableSpells(t, owned, next) && this !in owned
      requires |next| == 256 && range >= 1 && base + range <= 256
      requires Table(rs, width) && |path| >= 2 && |path| + 1 == Level(len) && len <= 8 * |prefix|
      requires forall b: byte :: Rep(next[b], path + [b], rs)
      requires forall b: byte | base <= b < base + range :: SamePrefix(prefix, path + [b], len)
      requires Present(rs, prefix, len, id) ==> x in rs && HasKey(x, prefix, len, id) && x in refs && refs[x] == range
      modifies this`refs, owned
      ensures C.TableSpells(t, owned', next') && fresh(owned' - owned)
      ensures ok <==> Present(rs, prefix, len, id)
      ensures !ok ==> next' == next && refs == old(refs)
      ensures ok ==> |next'| == 256 && refs == old(refs) - {x}
      ensures ok ==> forall b: byte :: if base <= b < base + range then Rep(next'[b], path + [b], Remove(rs, x))
                                       else next'[b] == next[b]
    {
      hide Sorted, UniqueKeys, Rep, Present, HasKey, SamePrefix, C.Spells, C.Repr;
      owned', next' := owned, next;
      for i := 0 to range
        invariant C.TableSpells(t, owned', next') && this !in owned' && fresh(owned' - owned)
        invariant |next'| == 256
        invariant i > 0 ==> Present(rs, prefix, len, id)
        invariant forall b: byte :: if base <= b < base + i then Rep(next'[b], path + [b], Remove(rs, x))
                                    else next'[b] == next[b]
        invariant refs == if i == 0 then old(refs) else if i < range then old(refs)[x := range - i] else old(refs) - {x}
      {
        ok, owned', next' :=
          DeleteFromCell(t, base + i, prefix, len, id, x, owned', next', path + [base + i], rs);
        if !ok {
          assert i == 0;
          return;
        }
      }
      ok := true;
    }

    method DeleteInTable(t: array<C.Cell>, prefix: Address, len: nat, id: int, k: nat, ghost x: Route,
        ghost owned: set<object>, ghost next: seq<Node>, ghost rs: seq<Route>)
      returns (ok: bool, ghost owned': set<object>, ghost next': seq<Node>)
      requires C.TableSpells(t, owned, next) && this !in owned
      requires Table(rs, width) && |prefix| == width && len <= 8 * width
      requires 2 <= k < Level(len) && |next| == 256
      requires forall b: byte :: Rep(next[b], prefix[..k] + [b], rs)
      requires Present(rs, prefix, len, id) ==>
        x in rs && HasKey(x, prefix, len, id) && x in refs && refs[x] == Expansion(len)
      modifies this`refs, owned
      ensures C.TableSpells(t, owned', next') && fresh(owned' - owned)
      ensures ok <==> Present(rs, prefix, len, id)
      ensures !ok ==> next' == next && refs == old(refs)
      ensures ok ==> |next'| == 256 && refs == old(refs) - {x}
      ensures ok ==> forall b: byte :: (Apart(x, prefix[..k] + [b]) && next'[b] == next[b])
                                    || Rep(next'[b], prefix[..k] + [b], Remove(rs, x))
      decreases Level(len) - k, 0
    {
      hide Rep, Sorted, UniqueKeys, AllFit, Apart, Present, HasKey, Pow2, TableIndex, C.Spells, C.Repr;
      var index := TableIndex(prefix, k);
      if len - 8 * k > 8 {
        ghost var n;
        assert prefix[..k] + [index] == prefix[..k + 1];
        ok, n := DeleteBelow(t[index], prefix, len, id, k + 1, x, next[index], rs);
        C.CellChanged(C.Change(t, owned, next, index, n));
        owned', next' := owned + C.Repr(t[index]), next[index := n];
        if ok {
          forall b: byte | b != index ensures Apart(x, prefix[..k] + [b]) {
            KeyApartElsewhere(x, prefix, len, id, k, b);
          }
        }
      } else {
        BlockInTable(prefix, len, k);
        var range := Pow2(8 - (len - 8 * k));
        ok, owned', next' :=
          ClearCells(t, AlignDown(index, range), range, prefix, len, id, x, owned, next, prefix[..k], rs);
        if ok {
          forall b: byte | !SamePrefix(prefix, prefix[..k] + [b], len) ensures Apart(x, prefix[..k] + [b]) {
            KeyApartOutsideBlock(x, prefix, len, id, k, b);
          }
        }
      }
    }

    method DeleteBelow(parent: C.Cell, prefix: Address, len: nat, id: int, k: nat, ghost x: Route, ghost n: Node,
        ghost rs: seq<Route>)
      returns (ok: bool, ghost n': Node)
      requires C.Spells(parent, n) && this !in C.Repr(parent)
      requires Table(rs, width) && |prefix| == width && len <= 8 * width
      requires 2 <= k < Level(len) && Rep(n, prefix[..k], rs)
      requires Present(rs, prefix, len, id) ==>
        x in rs && HasKey(x, prefix, len, id) && x in refs && refs[x] == Expansion(len)
      modifies this`refs, C.Repr(parent)
      ensures C.Spells(parent, n') && fresh(C.Repr(parent) - old(C.Repr(parent)))
      ensures ok <==> Present(rs, prefix, len, id)
      ensures !ok ==> n' == n && refs == old(refs)
      ensures ok ==> Rep(n', prefix[..k], Remove(rs, x)) && refs == old(refs) - {x}
      decreases Level(len) - k, 1
    {
      hide Sorted, UniqueKeys, Apart, HasKey, SamePrefix, AllEmpty, C.Spells, C.TableSpells, C.Chain;
      n' := n;
      C.Parts(parent, n);
      if parent.next == null {
        NoKeyBelow(prefix, len, id, k, rs);
        return false, n;
      }
      ghost var owned, next;
      ok, owned, next := DeleteInTable(parent.next, prefix, len, id, k, x, parent.below, n.next, rs);
      C.TakeIn(parent, owned, n, next);
      if !ok {
        return;
      }
      KeyBelow(x, prefix, len, id, k);
      DeletedBelow(n, next, prefix[..k], rs, x, width);
      n' := Node(n.chain, next);
      var bare := C.AllBare(parent.next, owned, next);
      if bare {
        C.DropTable(parent, n');
        n' := Node(n.chain, []);
      }
    }

    method ClearRoot(base: nat, range: nat, prefix: Address, len: nat, id: int, ghost x: Route) returns (ok: bool)
      requires Table(routes, width) && Cells(routes) && |prefix| == width && len <= 16
      requires range >= 1 && base + range <= 65536
      requires forall i: nat | base <= i < base + range :: SamePrefix(prefix, RootPath(i), len)
      requires Present(routes, prefix, len, id) ==>
        x in routes && HasKey(x, prefix, len, id) && x in refs && refs[x] == range
      modifies this`refs, this`tree, this`owned, owned
      ensures Grown()
      ensures ok <==> Present(routes, prefix, len, id)
      ensures !ok ==> tree == old(tree) && refs == old(refs)
      ensures ok ==> refs == old(refs) - {x}
      ensures ok ==> forall i: nat | i < 65536 ::
        if base <= i < base + range then Rep(tree[i], RootPath(i), Remove(routes, x)) else tree[i] == old(tree[i])
    {
      hide Sorted, UniqueKeys, Rep, Present, HasKey, SamePrefix, C.Spells, C.Repr;
      for i := 0 to range
        invariant Grown()
        invariant i > 0 ==> Present(routes, prefix, len, id)
        invariant forall j: nat | j < 65536 ::
          if base <= j < base + i then Rep(tree[j], RootPath(j), Remove(routes, x)) else tree[j] == old(tree[j])
        invariant refs == if i == 0 then old(refs) else if i < range then old(refs)[x := range - i] else old(refs) - {x}
      {
        ghost var owned', tree';
        ok, owned', tree' :=
          DeleteFromCell(node, base + i, prefix, len, id, x, owned, tree, RootPath(base + i), routes);
        owned, tree := owned', tree';
        if !ok {
          assert i == 0;
          return;
        }
      }
      ok := true;
    }

    method DeleteInRoot(prefix: Address, len: nat, id: int, ghost x: Route) returns (ok: bool)
      requires Table(routes, width) && Cells(routes) && |prefix| == width && len <= 8 * width
      requires Present(routes, prefix, len, id) ==>
        x in routes && HasKey(x, prefix, len, id) && x in refs && refs[x] == Expansion(len)
      modifies this`refs, this`tree, this`owned, owned
      ensures Grown()
      ensures ok <==> Present(routes, prefix, len, id)
      ensures !ok ==> tree == old(tree) && refs == old(refs)
      ensures ok ==> refs == old(refs) - {x}
      ensures ok ==> forall i: nat | i < 65536 ::
        (Apart(x, RootPath(i)) && tree[i] == old(tree[i])) || Rep(tree[i], RootPath(i), Remove(routes, x))
    {
      hide Sorted, UniqueKeys, Rep, Apart, RootIndex, Pow2, SamePrefix, HasKey, Present, C.Spells, C.Repr;
      var index := RootIndex(prefix);
      if len > 16 {
        RootPathOf(prefix);
        ghost var n;
        ok, n := DeleteBelow(node[index], prefix, len, id, 2, x, tree[index], routes);
        C.CellChanged(C.Change(node, owned, tree, index, n));
        owned, tree := owned + C.Repr(node[index]), tree[index := n];
        if ok {
          forall i: nat | i < 65536 && i != index ensures Apart(x, RootPath(i)) {
            ApartRootElsewhere(x, prefix, len, id, i);
          }
        }
      } else {
        RootBlock(prefix, len);
        var range := Pow2(16 - len);
        ok := ClearRoot(AlignDown(index, range), range, prefix, len, id, x);
        if ok {
          ApartOutsideRootBlock(x, prefix, len, id);
        }
      }
    }

    /** Deletes the route with the key, or fails and changes nothing when there is none. */
    method LpmDelete(prefix: Address, len: nat, id: int, ghost x: Route) returns (ok: bool)
      requires Table(routes, width) && Cells(routes) && |prefix| == width && len <= 8 * width
      requires Present(routes, prefix, len, id) ==>
        x in routes && HasKey(x, prefix, len, id) && x in refs && refs[x] == Expansion(len)
      modifies this`refs, this`routes, this`tree, this`owned, owned
      ensures Cells(routes) && fresh(owned - old(owned))
      ensures ok <==> Present(old(routes), prefix, len, id)
      ensures !ok ==> tree == old(tree) && refs == old(refs) && routes == old(routes)
      ensures ok ==> routes == Remove(old(routes), x) && Table(routes, width)
      ensures ok ==> refs == old(refs) - {x}
    {
      hide Table, Rep, Apart, HasKey, Present, C.TableSpells;
      ghost var before := tree;
      ok := DeleteInRoot(prefix, len, id, x);
      if ok {
        RootDeleted(before, tree, routes, x, width);
        RemoveKeepsTable(routes, x, width);
        routes := Remove(routes, x);
      }
    }

    // ----- the operations of the forwarding table -----

    /** Installs a route. The allocator hands out an object address `obj` not in use. */
    method RouteUpdate(family: Family, kind: Kind, prefix: Address, len: nat, nexthop: Address,
        port: int, id: int, obj: nat)
      returns (ok: bool)
      requires Valid() && len <= 8 * width
      requires family != OTHER ==> WidthOf(family) == width == |prefix|
      requires forall r | r in refs :: r.obj != obj
      modifies this, owned
      ensures Valid() && fresh(owned - old(owned))
      ensures ok <==> family != OTHER && !Present(old(routes), prefix, len, id)
      ensures ok ==> routes == Insert(old(routes), Route(obj, prefix, len, id, nexthop, port, kind))
      ensures !ok ==> tree == old(tree) && refs == old(refs) && routes == old(routes)
    {
      hide Table, Root, Present, Insert, C.TableSpells;
      if family == OTHER {
        return false;
      }
      var r := Route(obj, prefix, len, id, nexthop, port, kind);
      refs := refs[r := 0];
      ok := LpmAdd(r);
      InsertMembers(old(routes), r);
      if !ok {
        refs := refs - {r};
      }
    }

    /** Withdraws the route with the given key and frees its object. */
    method RouteDelete(prefix: Address, len: nat, id: int) returns (ok: bool)
      requires Valid() && |prefix| == width && len <= 8 * width
      modifies this, owned
      ensures Valid() && fresh(owned - old(owned))
      ensures ok <==> Present(old(routes), prefix, len, id)
      ensures ok ==> var x := Holder(old(routes), prefix, len, id);
                     routes == Remove(old(routes), x) && refs == old(refs) - {x}
      ensures !ok ==> tree == old(tree) && refs == old(refs) && routes == old(routes)
    {
      hide Root, C.TableSpells;
      ghost var x := if Present(routes, prefix, len, id) then Holder(routes, prefix, len, id)
                     else Route(0, prefix, len, id, [], 0, Local);
      ghost var rs := routes;
      ok := LpmDelete(prefix, len, id, x);
      if ok {
        RemoveMembers(rs, x);
      }
    }

    // ----- releasing the whole table -----

    /** Puts every entry of a chain: each object loses as many references as it has entries. */
    method PutAll(chain: seq<Route>)
      requires Positive(refs) && forall r :: multiset(chain)[r] <= RefOf(refs, r)
      modifies this`refs
      ensures Positive(refs)
      ensures forall r :: RefOf(refs, r) == RefOf(old(refs), r) - multiset(chain)[r]
    {
      for i := 0 to |chain|
        invariant Positive(refs)
        invariant forall r :: RefOf(refs, r) == RefOf(old(refs), r) - multiset(chain)[r] + multiset(chain[i..])[r]
      {
        assert chain[i..] == [chain[i]] + chain[i + 1..];
        assert RefOf(refs, chain[i]) > 0;
        Put(chain[i]);
      }
    }

    method EntryDeleteAll(c: C.Cell, ghost n: Node)
      requires C.Spells(c, n) && this !in C.Repr(c)
      requires Positive(refs) && forall r :: multiset(n.chain)[r] <= RefOf(refs, r)
      modifies this`refs, C.Repr(c)
      ensures C.Spells(c, Node([], n.next)) && C.Repr(c) <= old(C.Repr(c))
      ensures Positive(refs)
      ensures forall r :: RefOf(refs, r) == RefOf(old(refs), r) - multiset(n.chain)[r]
    {
      hide C.Spells;
      var chain := C.ClearEntries(c, n);
      PutAll(chain);
    }

    method DeleteAllBelow(parent: C.Cell, ghost n: Node)
      requires C.Spells(parent, n) && this !in C.Repr(parent)
      requires Positive(refs) && forall r :: CountAll(n.next, r) <= RefOf(refs, r)
      modifies this`refs, C.Repr(parent)
      ensures C.Spells(parent, Node(n.chain, [])) && C.Repr(parent) <= old(C.Repr(parent))
      ensures Positive(refs)
      ensures forall r :: RefOf(refs, r) == RefOf(old(refs), r) - CountAll(n.next, r)
      decreases n, 0
    {
      hide C.Spells, C.TableSpells, C.Chain;
      C.Parts(parent, n);
      if parent.next == null {
        return;
      }
      ghost var owned, next := DeleteCells(parent.next, parent.below, n.next);
      C.TakeIn(parent, owned, n, next);
      C.DropTable(parent, Node(n.chain, next));
    }

    /** Empties every cell of a table. */
    method DeleteCells(t: array<C.Cell>, ghost owned: set<object>, ghost next: seq<Node>)
      returns (ghost owned': set<object>, ghost next': seq<Node>)
      requires C.TableSpells(t, owned, next) && this !in owned
      requires Positive(refs) && forall r :: CountAll(next, r) <= RefOf(refs, r)
      modifies this`refs, owned
      ensures C.TableSpells(t, owned', next') && fresh(owned' - owned)
      ensures |next'| == |next| && AllEmpty(next')
      ensures Positive(refs)
      ensures forall r :: RefOf(refs, r) == RefOf(old(refs), r) - CountAll(next, r)
      decreases next
    {
      hide C.Spells, C.Repr, Count;
      owned', next' := owned, next;
      for i := 0 to t.Length
        invariant C.TableSpells(t, owned', next') && this !in owned' && fresh(owned' - owned)
        invariant |next'| == |next| && forall b | 0 <= b < |next| :: next'[b] == if b < i then EMPTY else next[b]
        invariant Positive(refs)
        invariant forall r :: RefOf(refs, r) == RefOf(old(refs), r) - CountAll(next, r) + CountAll(next[i..], r)
      {
        assert next[i..][0] == next[i] && next[i..][1..] == next[i + 1..];
        assert forall r :: CountAll(next[i..], r) == Count(next[i], r) + CountAll(next[i + 1..], r);
        owned', next' := DeleteCell(t, i, owned', next');
      }
    }

    /** Empties one cell of a table: the tables under it, then its chain. */
    method DeleteCell(t: array<C.Cell>, b: nat, ghost owned: set<object>, ghost next: seq<Node>)
      returns (ghost owned': set<object>, ghost next': seq<Node>)
      requires C.TableSpells(t, owned, next) && this !in owned && b < t.Length
      requires Positive(refs) && forall r :: Count(next[b], r) <= RefOf(refs, r)
      modifies this`refs, owned
      ensures C.TableSpells(t, owned', next') && fresh(owned' - owned) && next' == next[b := EMPTY]
      ensures Positive(refs)
      ensures forall r :: RefOf(refs, r) == RefOf(old(refs), r) - Count(next[b], r)
      decreases next[b], 1
    {
      hide C.Spells, C.Repr;
      DeleteAllBelow(t[b], next[b]);
      EntryDeleteAll(t[b], Node(next[b].chain, []));
      C.CellChanged(C.Change(t, owned, next, b, EMPTY));
      owned', next' := owned + C.Repr(t[b]), next[b := EMPTY];
    }

    /** Empties the trie: every table and entry goes, and every route object is freed. */
    method LpmDeleteAll()
      requires Valid()
      modifies this, owned
      ensures Valid() && routes == [] && refs == map[] && fresh(owned - old(owned))
      ensures AllEmpty(tree)
    {
      hide Table, Rep, Expansion, Count, C.TableSpells;
      TableWidth(routes, width);
      assert forall r :: RefOf(refs, r) == CountAll(tree, r) by {
        forall r ensures RefOf(refs, r) == CountAll(tree, r) {
          RouteCellCount(tree, routes, width, r);
        }
      }
      assert Positive(refs) by {
        ExpansionPositive();
      }
      ghost var owned', tree' := DeleteCells(node, owned, tree);
      owned, tree := owned', tree';
      NoReferences(refs);
      routes := [];
      EmptyTrie(width);
    }
  }

  lemma {:induction false} TableWidth(rs: seq<Route>, width: nat)
    requires Table(rs, width)
    ensures IsWidth(width)
  {
  }

  lemma {:induction false} NoReferences(refs: map<Route, nat>)
    requires Positive(refs) && forall r :: RefOf(refs, r) == 0
    ensures refs == map[]
  {
    forall r ensures r !in refs {
      assert RefOf(refs, r) == 0;
    }
  }

  lemma {:induction false} ExpansionPositive()
    ensures forall len: nat :: Expansion(len) > 0
  {
  }

  lemma {:induction false} EmptyTrie(width: nat)
    requires IsWidth(width)
    ensures Table([], width) && forall i: nat | i < 65536 :: Rep(EMPTY, RootPath(i), [])
  {
  }
}
