/** The cells of the trie on the heap: a list head and a pointer to a table of 256 cells, changed
    in place. The predicate `Spells` says which trie value a cell and everything under it stands
    for, and that its parts share no memory. */
module TrieCells {
  import opened Options
  import opened Addresses
  import opened Routes
  import T = LpmTrie
  import L = Hlist
  import RouteChain

  class Cell {
    const head: L.Head<Route>
    var next: array?<Cell>
    /** The list nodes of the chain, and everything that the table under the cell is made of. */
    ghost var chain: seq<L.Node<Route>>
    ghost var below: set<object>

    constructor ()
      ensures Spells(this, T.EMPTY) && fresh(head) && chain == [] && below == {}
    {
      head := new L.Head<Route>();
      next := null;
      chain := [];
      below := {};
    }
  }

  /** The cell itself and its list. */
  ghost function List(c: Cell): set<object>
    reads c`chain
  {
    {c, c.head} + set x | x in c.chain
  }

  /** Everything a cell is made of. */
  ghost function Repr(c: Cell): set<object>
    reads c`chain, c`below
  {
    List(c) + c.below
  }

  ghost predicate Chain(c: Cell, rs: seq<Route>)
    reads c`chain, c.head, c.chain
  {
    L.Spells(c.head, c.chain) && L.Data(c.chain) == rs
  }

  /** The cells of an array stand for the given nodes and share no memory. The set `owned` has the
      array and everything its cells are made of. */
  ghost predicate TableSpells(t: array<Cell>, owned: set<object>, next: seq<T.Node>)
    reads t, owned
    decreases next, 0
  {
    t in owned && |next| == t.Length
    && (forall b | 0 <= b < t.Length :: t[b] in owned && Repr(t[b]) <= owned && t !in Repr(t[b]))
    && (forall a, b | 0 <= a < b < t.Length :: Repr(t[a]) !! Repr(t[b]))
    && forall b | 0 <= b < t.Length :: Spells(t[b], next[b])
  }

  /** The table under a cell, if there is one. */
  ghost predicate Under(c: Cell, next: seq<T.Node>)
    reads c`next, c`below, c.below
    decreases next, 1
  {
    if c.next == null then next == [] else |next| == 256 && c.next in c.below && TableSpells(c.next, c.below, next)
  }

  ghost predicate Spells(c: Cell, n: T.Node)
    reads c, c.head, c.chain, c.below
    decreases n
  {
    List(c) !! c.below && Chain(c, n.chain) && Under(c, n.next)
  }

  /** What a cell that stands for a node owns. */
  lemma {:induction false} Parts(c: Cell, n: T.Node)
    requires Spells(c, n)
    ensures List(c) !! c.below && Chain(c, n.chain) && (c.next == null <==> n.next == [])
    ensures c.next != null ==> c.next.Length == 256 == |n.next| && TableSpells(c.next, c.below, n.next)
  {
    assert Under(c, n.next);
    assert c.next != null ==> TableSpells(c.next, c.below, n.next);
  }

  // ----- chains -----

  /** Inserts a route into the chain of a cell, behind the longer ones, unless it has an entry with
      its id and length. */
  method InsertEntry(c: Cell, r: Route, ghost n: T.Node) returns (ok: bool)
    requires Spells(c, n) && Sorted(n.chain)
    modifies c`chain, c.head, c.chain
    ensures ok <==> forall e | e in n.chain :: !Identifies(e, r.id, r.len)
    ensures Spells(c, if ok then T.Node(Insert(n.chain, r), n.next) else n)
    ensures fresh(List(c) - old(List(c)))
  {
    hide Under, L.Spells, L.Data, Sorted, Insert;
    var entry := new L.Node(r, L.AtFirst(c.head));
    ghost var t;
    ok, t := RouteChain.EntryInsert(c.head, entry, c.chain);
    if ok {
      c.chain := t;
    }
  }

  /** Removes the entry with the given id and length from the chain of a cell, if there is one. */
  method RemoveEntry(c: Cell, id: int, len: nat, ghost n: T.Node) returns (ok: bool, gone: L.Node?<Route>)
    requires Spells(c, n)
    modifies c`chain, c.head, c.chain
    ensures ok <==> exists e | e in n.chain :: Identifies(e, id, len)
    ensures ok ==> gone != null && gone.data in n.chain && Identifies(gone.data, id, len)
    ensures Spells(c, if ok then T.Node(Remove(n.chain, gone.data), n.next) else n)
    ensures List(c) <= old(List(c))
  {
    hide Under, L.Spells, Remove;
    ghost var s, t := c.chain, [];
    ok, gone, t := RouteChain.EntryDelete(c.head, id, len, c.chain);
    if ok {
      ghost var i :| 0 <= i < |s| && s[i] == gone;
      assert n.chain[i] == gone.data;
      c.chain := t;
    }
  }

  /** Empties the chain of a cell, visiting each entry once. */
  method ClearEntries(c: Cell, ghost n: T.Node) returns (gone: seq<Route>)
    requires Spells(c, n)
    modifies c`chain, c.head, c.chain
    ensures gone == n.chain && Spells(c, T.Node([], n.next)) && List(c) <= old(List(c))
  {
    hide Under, L.Spells;
    var visited := L.DeleteAll(c.head, c.chain);
    c.chain := [];
    gone := L.Data(visited);
  }

  // ----- tables -----

  /** The cells of a new table: empty, and sharing no memory. */
  method NewCells(size: nat) returns (t: array<Cell>)
    ensures fresh(t) && t.Length == size
    ensures forall b | 0 <= b < size :: fresh(t[b]) && fresh(t[b].head) && t[b].chain == [] && t[b].below == {}
    ensures forall b | 0 <= b < size :: Spells(t[b], T.EMPTY)
    ensures forall a, b | 0 <= a < b < size :: t[a] != t[b] && t[a].head != t[b].head
  {
    hide Spells;
    var c := new Cell();
    t := new Cell[size](_ => c);
    for i := 0 to size
      invariant forall b | 0 <= b < size :: fresh(t[b])
      invariant forall b | 0 <= b < i :: fresh(t[b].head) && t[b].chain == [] && t[b].below == {}
      invariant forall b | 0 <= b < i :: Spells(t[b], T.EMPTY)
      invariant forall a, b | 0 <= a < b < i :: t[a] != t[b] && t[a].head != t[b].head
    {
      c := new Cell();
      t[i] := c;
    }
  }

  /** What a new table is made of. */
  ghost function NewParts(t: array<Cell>): set<object>
    reads t
  {
    {t} + (set b | 0 <= b < t.Length :: t[b]) + (set b | 0 <= b < t.Length :: t[b].head)
  }

  lemma {:induction false} EmptyTable(t: array<Cell>)
    requires forall b | 0 <= b < t.Length :: t[b].chain == [] && t[b].below == {} && Spells(t[b], T.EMPTY)
    requires forall a, b | 0 <= a < b < t.Length :: t[a] != t[b] && t[a].head != t[b].head
    ensures TableSpells(t, NewParts(t), seq(t.Length, _ => T.EMPTY))
  {
    hide Spells, Repr;
    forall b | 0 <= b < t.Length
      ensures Repr(t[b]) == {t[b], t[b].head}
    {
      BareRepr(t[b]);
    }
  }

  lemma {:induction false} BareRepr(c: Cell)
    requires c.chain == [] && c.below == {}
    ensures Repr(c) == {c, c.head}
  {
  }

  /** Hangs a table of empty cells under a cell. */
  method MakeTable(c: Cell, ghost n: T.Node)
    requires Spells(c, n)
    modifies c`next, c`below
    ensures Spells(c, T.Node(n.chain, seq(256, _ => T.EMPTY))) && c.next != null
    ensures fresh(c.below)
  {
    hide Chain, TableSpells;
    var t := NewCells(256);
    c.next := t;
    c.below := NewParts(t);
    EmptyTable(t);
  }

  /** Takes the table under a cell away. */
  method DropTable(c: Cell, ghost n: T.Node)
    requires Spells(c, n)
    modifies c`next, c`below
    ensures Spells(c, T.Node(n.chain, [])) && c.next == null && c.below == {}
  {
    hide Chain;
    c.next := null;
    c.below := {};
  }

  lemma {:induction false} BareCell(c: Cell, n: T.Node)
    requires Spells(c, n)
    ensures n == T.EMPTY <==> c.next == null && c.head.first == null
    ensures n.next == [] <==> c.next == null
    ensures n.chain == [] <==> c.head.first == null
    ensures n.chain != [] ==> c.head.first.data == n.chain[0]
  {
    hide TableSpells;
  }

  /** The pruning test: no cell of the table has entries or a table of its own. */
  method AllBare(t: array<Cell>, ghost owned: set<object>, ghost next: seq<T.Node>) returns (bare: bool)
    requires TableSpells(t, owned, next)
    ensures bare <==> T.AllEmpty(next)
  {
    hide Spells, Repr;
    for i := 0 to t.Length
      invariant forall b | 0 <= b < i :: next[b] == T.EMPTY
    {
      BareCell(t[i], next[i]);
      if t[i].next != null || t[i].head.first != null {
        return false;
      }
    }
    bare := true;
  }

  /** A table that stood for the nodes `next`, whose cell `b` now stands for `m`. */
  datatype Change = Change(t: array<Cell>, owned: set<object>, next: seq<T.Node>, b: nat, m: T.Node)

  /** A table after one of its cells has changed and has taken in new memory only. */
  twostate lemma CellChanged(ch: Change)
    requires old(TableSpells(ch.t, ch.owned, ch.next)) && ch.b < ch.t.Length
    requires forall o | o in ch.owned && o !in old(Repr(ch.t[ch.b])) :: unchanged(o)
    requires Spells(ch.t[ch.b], ch.m) && fresh(Repr(ch.t[ch.b]) - old(Repr(ch.t[ch.b])))
    ensures TableSpells(ch.t, ch.owned + Repr(ch.t[ch.b]), ch.next[ch.b := ch.m])
  {
    hide Chain;
    var Change(t, owned, next, b, m) := ch;
    assert unchanged(t);
    forall a | 0 <= a < t.Length && a != b
      ensures Repr(t[a]) == old(Repr(t[a])) && Spells(t[a], next[a])
    {
      var kid := t[a];
      assert unchanged(kid) && unchanged(kid.head);
      forall x | x in old(kid.chain) ensures unchanged(x) {
        assert x in old(Repr(kid));
      }
      assert forall o | o in old(kid.below) :: unchanged(o);
      assert old(Spells(kid, next[a]));
    }
  }

  /** Enters a changed table under its cell. */
  ghost method TakeIn(c: Cell, owned: set<object>, n: T.Node, next: seq<T.Node>)
    requires List(c) !! owned && Chain(c, n.chain) && c.next != null && |next| == 256
    requires TableSpells(c.next, owned, next)
    modifies c`below
    ensures c.below == owned && Spells(c, T.Node(n.chain, next))
  {
    hide Chain;
    c.below := owned;
    assert TableSpells(c.next, owned, next);
  }

  // ----- lookup -----

  /** The list head of the deepest non-empty cell on the way to `dst` under `parent`, if any. */
  method WalkBelow(dst: Address, parent: Cell, k: nat, ghost n: T.Node) returns (head: L.Head?<Route>)
    requires Spells(parent, n) && |dst| % 4 == 0 && k <= |dst| && parent.next != null && T.Shape(n, |dst| - k)
    ensures n.next != []
    ensures match T.LookupBelow(dst, n, k)
            case None => head == null
            case Some(rs) => head != null && head.first != null && rs != [] && head.first.data == rs[0]
    decreases n
  {
    hide Spells, TableIndex;
    Parts(parent, n);
    var index := TableIndex(dst, k);
    var node := parent.next[index];
    BareCell(node, n.next[index]);
    head := null;
    if node.next != null {
      head := WalkBelow(dst, node, k + 1, n.next[index]);
    }
    if head == null && node.head.first != null {
      head := node.head;
    }
  }

  /** The lookup from a root cell: the first entry of the chain that the walk ends at. */
  method Walk(dst: Address, node: Cell, ghost n: T.Node) returns (entry: Option<Route>)
    requires Spells(node, n) && |dst| % 4 == 0 && |dst| >= 4 && T.Shape(n, |dst| - 2)
    ensures entry == T.LookupFrom(dst, n)
  {
    hide Spells, T.LookupBelow;
    BareCell(node, n);
    var head := node.head;
    if node.next != null {
      var deeper := WalkBelow(dst, node, 2, n);
      if deeper != null {
        head := deeper;
      }
    }
    entry := if head.first != null then Some(head.first.data) else None;
  }
}
