/** The memory pool: the tree of block nodes on the heap, changed in place. The ghost fields
    `tree` and `at` say which tree the nodes spell and where each node stands in it. */
module MemPool {
  import opened Options
  import opened BuddyTree
  import opened BuddyEdit

  class MNode {
    var child0: MNode?
    var child1: MNode?
    var parent: MNode?
    var used: bool
    const index: bool
    const size: nat
    const ptr: nat

    constructor (parent: MNode?, ptr: nat, size: nat, index: bool)
      ensures Snap(this) == View(null, null, parent, false, index, size, ptr)
    {
      this.parent := parent;
      child0, child1 := null, null;
      used := false;
      this.index := index;
      this.size := size;
      this.ptr := ptr;
    }
  }

  // ----- what the fields of all nodes say together -----

  /** The fields of one node. */
  datatype View = View(child0: MNode?, child1: MNode?, parent: MNode?, used: bool, index: bool, size: nat, ptr: nat)

  ghost function Snap(n: MNode): View
    reads n
  {
    View(n.child0, n.child1, n.parent, n.used, n.index, n.size, n.ptr)
  }

  ghost function NodeAt(at: map<Path, MNode>, p: Path): MNode? {
    if p in at then at[p] else null
  }

  /** The node at `p` has the block, the flag and the links that the tree gives it. */
  ghost predicate Fits(v: View, at: map<Path, MNode>, t: Tree, base: nat, size: nat, p: Path) {
    IsNode(t, p)
    && v.size == SizeAt(size, p) && v.ptr == AddrAt(base, size, p) && v.used == Get(t, p).used
    && v.child0 == NodeAt(at, p + [false]) && v.child1 == NodeAt(at, p + [true])
    && if p == [] then v.parent == null
       else v.parent == NodeAt(at, p[..|p| - 1]) && v.index == p[|p| - 1]
  }

  /** The nodes spell the tree: one object for each of its nodes, properly linked. */
  ghost predicate Spells(vs: map<Path, View>, at: map<Path, MNode>, t: Tree, base: nat, size: nat) {
    vs.Keys == at.Keys
    && (forall p :: p in at <==> IsNode(t, p))
    && (forall p {:trigger vs[p]} | p in vs :: Fits(vs[p], at, t, base, size, p))
    && forall p, q | p in at && q in at && at[p] == at[q] :: p == q
  }

  /** The block of a child is one half of the block of its parent. */
  lemma {:induction false} BlockOfChild(base: nat, size: nat, p: Path, b: bool)
    ensures SizeAt(size, p + [b]) == SizeAt(size, p) / 2
    ensures AddrAt(base, size, p + [b]) == AddrAt(base, size, p) + if b then SizeAt(size, p) / 2 else 0
    decreases p
  {
    if p == [] {
      assert [b][1..] == [];
    } else {
      BlockOfChild(base + if p[0] then size / 2 else 0, size / 2, p[1..], b);
      assert (p + [b])[1..] == p[1..] + [b];
    }
  }

  lemma {:induction false} ChildPaths(p: Path)
    ensures forall b :: (p + [b])[..|p|] == p && (p + [b])[|p|] == b && |p + [b]| == |p| + 1
    ensures p + [false] != p + [true] && p + [false] != p && p + [true] != p
  {
    forall b ensures (p + [b])[..|p|] == p && (p + [b])[|p|] == b && |p + [b]| == |p| + 1 {}
    assert (p + [false])[|p|] != (p + [true])[|p|];
  }

  /** Only `p` has `p + [b]` for a child. */
  lemma {:induction false} OtherParent(p: Path, q: Path)
    ensures p != q ==> forall b, c :: q + [b] != p + [c]
  {
    forall b, c ensures q + [b] == p + [c] ==> p == q {
      assert (q + [b])[..|q + [b]| - 1] == q && (p + [c])[..|p + [c]| - 1] == p;
    }
  }

  lemma {:induction false} SubNode(t: Tree, p: Path, q: Path)
    requires IsNode(t, p)
    ensures IsNode(t, p + q) <==> IsNode(Get(t, p), q)
    ensures IsNode(Get(t, p), q) ==> Get(t, p + q) == Get(Get(t, p), q)
    decreases p
  {
    if p == [] {
      assert p + q == q;
    } else {
      SubNode(Child(t, p[0]), p[1..], q);
      assert (p + q)[1..] == p[1..] + q;
    }
  }

  // ----- step: set a flag -----

  lemma {:induction false} SameShape(t: Tree, u: bool, q: Path)
    ensures IsNode(t.(used := u), q) <==> IsNode(t, q)
    ensures IsNode(t, q) ==> Get(t.(used := u), q).used == if q == [] then u else Get(t, q).used
  {
  }

  /** Setting a flag changes the flag of that node and nothing else. */
  lemma {:induction false} SetFlag(t: Tree, p: Path, u: bool, q: Path)
    requires IsNode(t, p)
    ensures var t' := Set(t, p, Get(t, p).(used := u));
            (IsNode(t', q) <==> IsNode(t, q)) &&
            (IsNode(t, q) ==> Get(t', q).used == if q == p then u else Get(t, q).used)
  {
    SetNodes(t, p, Get(t, p).(used := u), q);
    if p <= q {
      SameShape(Get(t, p), u, q[|p|..]);
      SubNode(t, p, q[|p|..]);
      assert p + q[|p|..] == q;
    }
  }

  lemma {:induction false} SpellsFlag(vs: map<Path, View>, at: map<Path, MNode>, t: Tree, base: nat, size: nat,
      p: Path, u: bool)
    requires Spells(vs, at, t, base, size) && p in at
    ensures IsNode(t, p)
    ensures Spells(vs[p := vs[p].(used := u)], at, Set(t, p, Get(t, p).(used := u)), base, size)
  {
    hide IsNode, Get, Set, SizeAt, AddrAt;
    var t' := Set(t, p, Get(t, p).(used := u));
    var vs' := vs[p := vs[p].(used := u)];
    forall q ensures q in at <==> IsNode(t', q) {
      SetFlag(t, p, u, q);
    }
    forall q | q in vs' ensures Fits(vs'[q], at, t', base, size, q) {
      SetFlag(t, p, u, q);
      assert Fits(vs[q], at, t, base, size, q);
    }
  }

  // ----- step: split a free leaf -----

  lemma {:induction false} TwoLeaves(r: Path, u: bool)
    ensures IsNode(Split(u, FREE, FREE), r) <==> r == [] || r == [false] || r == [true]
    ensures IsNode(Leaf(u), r) <==> r == []
  {
    if r != [] {
      assert r == [r[0]] + r[1..];
    }
  }

  /** A split adds two free leaves and keeps all other nodes. */
  lemma {:induction false} SplitAdds(t: Tree, p: Path, q: Path)
    requires IsNode(t, p) && Get(t, p) == FREE
    ensures var t' := Set(t, p, Split(false, FREE, FREE));
            (IsNode(t', q) <==> IsNode(t, q) || q == p + [false] || q == p + [true]) &&
            (IsNode(t', q) ==> Get(t', q).used == (IsNode(t, q) && Get(t, q).used))
    ensures !IsNode(t, p + [false]) && !IsNode(t, p + [true])
  {
    ChildNode(t, p, false);
    ChildNode(t, p, true);
    SetNodes(t, p, Split(false, FREE, FREE), q);
    if p <= q {
      var r := q[|p|..];
      assert q == p + r;
      SubNode(t, p, r);
      TwoLeaves(r, false);
    }
  }

  lemma {:induction false} NoGrandchildren(t: Tree, p: Path, b: bool)
    requires IsNode(t, p) && Get(t, p) == FREE
    ensures forall c :: !IsNode(Set(t, p, Split(false, FREE, FREE)), p + [b] + [c])
  {
    var t' := Set(t, p, Split(false, FREE, FREE));
    SplitAdds(t, p, p + [b]);
    SetHere(t, p, Split(false, FREE, FREE), FREE);
    ChildNode(t', p, b);
    forall c ensures !IsNode(t', p + [b] + [c]) {
      ChildNode(t', p + [b], c);
    }
  }

  lemma {:induction false} FitsNewChild(v: View, at: map<Path, MNode>, at': map<Path, MNode>, t: Tree, base: nat,
      size: nat, p: Path, b: bool, c0: MNode, c1: MNode)
    requires p in at && IsNode(t, p) && Get(t, p) == FREE && (forall q :: q in at <==> IsNode(t, q))
    requires Fits(v, at, t, base, size, p) && at' == at[p + [false] := c0][p + [true] := c1]
    ensures Fits(View(null, null, at[p], false, b, v.size / 2, v.ptr + if b then v.size / 2 else 0),
                 at', Set(t, p, Split(false, FREE, FREE)), base, size, p + [b])
  {
    hide IsNode, Get, Set, SizeAt, AddrAt;
    var q := p + [b];
    ChildPaths(p);
    SplitAdds(t, p, q);
    BlockOfChild(base, size, p, b);
    forall c ensures q + [c] !in at' {
      NoGrandchildren(t, p, b);
      SplitAdds(t, p, q + [c]);
      ChildPaths(q);
    }
  }

  lemma {:induction false} FitsSplit(v: View, at: map<Path, MNode>, at': map<Path, MNode>, t: Tree, base: nat,
      size: nat, p: Path, c0: MNode, c1: MNode)
    requires p in at && IsNode(t, p) && Get(t, p) == FREE && (forall q :: q in at <==> IsNode(t, q))
    requires Fits(v, at, t, base, size, p) && at' == at[p + [false] := c0][p + [true] := c1]
    ensures Fits(v.(child0 := c0, child1 := c1), at', Set(t, p, Split(false, FREE, FREE)), base, size, p)
  {
    hide IsNode, Get, Set, SizeAt, AddrAt;
    ChildPaths(p);
    SplitAdds(t, p, p);
    ParentKept(t, p, p);
  }

  lemma {:induction false} FitsBeside(v: View, at: map<Path, MNode>, at': map<Path, MNode>, t: Tree, base: nat,
      size: nat, p: Path, q: Path, c0: MNode, c1: MNode)
    requires p in at && IsNode(t, p) && Get(t, p) == FREE && (forall q :: q in at <==> IsNode(t, q))
    requires Fits(v, at, t, base, size, q) && q != p && at' == at[p + [false] := c0][p + [true] := c1]
    ensures Fits(v, at', Set(t, p, Split(false, FREE, FREE)), base, size, q)
  {
    hide IsNode, Get, Set, SizeAt, AddrAt;
    SplitAdds(t, p, q);
    OtherParent(p, q);
    ParentKept(t, p, q);
  }

  /** Hanging two fresh nodes under a free leaf gives nodes that spell the split tree. */
  lemma {:induction false} SpellsSplit(vs: map<Path, View>, at: map<Path, MNode>, t: Tree, base: nat, size: nat,
      p: Path, c0: MNode, c1: MNode, vs': map<Path, View>, at': map<Path, MNode>)
    requires Spells(vs, at, t, base, size) && p in at && IsNode(t, p) && Get(t, p) == FREE
    requires c0 != c1 && c0 !in at.Values && c1 !in at.Values
    requires at' == at[p + [false] := c0][p + [true] := c1]
    requires vs'.Keys == at'.Keys && forall q | q in at && q != p :: vs'[q] == vs[q]
    requires vs'[p] == vs[p].(child0 := c0, child1 := c1)
    requires vs'[p + [false]] == View(null, null, at[p], false, false, vs[p].size / 2, vs[p].ptr)
    requires vs'[p + [true]] == View(null, null, at[p], false, true, vs[p].size / 2, vs[p].ptr + vs[p].size / 2)
    ensures Spells(vs', at', Set(t, p, Split(false, FREE, FREE)), base, size)
  {
    hide IsNode, Get, Set, Fits;
    var t' := Set(t, p, Split(false, FREE, FREE));
    var p0, p1 := p + [false], p + [true];
    ChildPaths(p);
    SplitAdds(t, p, p0);
    forall q ensures q in at' <==> IsNode(t', q) {
      SplitAdds(t, p, q);
    }
    var v := vs[p];
    FitsSplit(v, at, at', t, base, size, p, c0, c1);
    FitsNewChild(v, at, at', t, base, size, p, false, c0, c1);
    FitsNewChild(v, at, at', t, base, size, p, true, c0, c1);
    forall q | q in vs' ensures Fits(vs'[q], at', t', base, size, q) {
      if q != p && q != p0 && q != p1 {
        FitsBeside(vs[q], at, at', t, base, size, p, q, c0, c1);
      }
    }
    StillInjective(at, p0, c0, p1, c1);
  }

  lemma {:induction false} StillInjective(at: map<Path, MNode>, p0: Path, c0: MNode, p1: Path, c1: MNode)
    requires forall p, q | p in at && q in at && at[p] == at[q] :: p == q
    requires p0 !in at && p1 !in at && p0 != p1 && c0 != c1 && c0 !in at.Values && c1 !in at.Values
    ensures var at' := at[p0 := c0][p1 := c1];
            forall p, q | p in at' && q in at' && at'[p] == at'[q] :: p == q
  {
    var at' := at[p0 := c0][p1 := c1];
    forall p, q | p in at' && q in at' && at'[p] == at'[q]
      ensures p == q
    {
      assert p in at ==> at[p] in at.Values;
      assert q in at ==> at[q] in at.Values;
    }
  }

  /** Where the children of `p` are leaves or not there at all, they are nobody's parent. */
  lemma {:induction false} ParentKept(t: Tree, p: Path, q: Path)
    requires IsNode(t, p) && IsNode(t, q)
    requires Get(t, p).Split? ==> Get(t, p).left.Leaf? && Get(t, p).right.Leaf?
    ensures q != [] ==> IsNode(t, q[..|q| - 1]) && q[..|q| - 1] != p + [false] && q[..|q| - 1] != p + [true]
  {
    if q != [] {
      ParentNode(t, q);
      ChildNode(t, p, false);
      ChildNode(t, p, true);
    }
  }

  // ----- step: release two leaves under a node -----

  /** Dropping the two leaves under a node drops those two nodes and keeps all others. */
  lemma {:induction false} MergeDrops(t: Tree, p: Path, q: Path)
    requires IsNode(t, p) && Get(t, p).Split? && Get(t, p).left.Leaf? && Get(t, p).right.Leaf?
    ensures var t' := Set(t, p, Leaf(Get(t, p).used));
            (IsNode(t', q) <==> IsNode(t, q) && q != p + [false] && q != p + [true]) &&
            (IsNode(t', q) ==> Get(t', q).used == Get(t, q).used)
  {
    var g := Get(t, p);
    SetNodes(t, p, Leaf(g.used), q);
    ChildPaths(p);
    if p <= q {
      var r := q[|p|..];
      assert q == p + r;
      SubNode(t, p, r);
      LeavesOnly(g, r);
    }
  }

  lemma {:induction false} LeavesOnly(g: Tree, r: Path)
    requires g.Split? && g.left.Leaf? && g.right.Leaf?
    ensures IsNode(g, r) <==> r == [] || r == [false] || r == [true]
    ensures IsNode(Leaf(g.used), r) <==> r == []
  {
    if r != [] {
      assert r == [r[0]] + r[1..];
    }
  }

  lemma {:induction false} FitsMerged(v: View, at: map<Path, MNode>, at': map<Path, MNode>, t: Tree, base: nat,
      size: nat, p: Path)
    requires p in at && IsNode(t, p) && Get(t, p).Split? && Get(t, p).left.Leaf? && Get(t, p).right.Leaf?
    requires Fits(v, at, t, base, size, p) && at' == at - {p + [false], p + [true]}
    ensures Fits(v.(child0 := null, child1 := null), at', Set(t, p, Leaf(Get(t, p).used)), base, size, p)
  {
    hide IsNode, Get, Set, SizeAt, AddrAt;
    ChildPaths(p);
    MergeDrops(t, p, p);
    assert p != [] ==> |p[..|p| - 1]| < |p|;
  }

  lemma {:induction false} FitsBesideMerge(v: View, at: map<Path, MNode>, at': map<Path, MNode>, t: Tree, base: nat,
      size: nat, p: Path, q: Path)
    requires p in at && IsNode(t, p) && Get(t, p).Split? && Get(t, p).left.Leaf? && Get(t, p).right.Leaf?
    requires Fits(v, at, t, base, size, q) && q != p && q != p + [false] && q != p + [true]
    requires at' == at - {p + [false], p + [true]}
    ensures Fits(v, at', Set(t, p, Leaf(Get(t, p).used)), base, size, q)
  {
    assert q != [] ==> IsNode(t, q[..|q| - 1]) && q[..|q| - 1] != p + [false] && q[..|q| - 1] != p + [true] by {
      ParentKept(t, p, q);
    }
    hide IsNode, Get, Set, SizeAt, AddrAt;
    MergeDrops(t, p, q);
    OtherParent(p, q);
  }

  /** Releasing the two leaves under a node leaves nodes that spell the merged tree. */
  lemma {:induction false} SpellsMerge(vs: map<Path, View>, at: map<Path, MNode>, t: Tree, base: nat, size: nat,
      p: Path, vs': map<Path, View>, at': map<Path, MNode>)
    requires Spells(vs, at, t, base, size) && p in at
    requires IsNode(t, p) && Get(t, p).Split? && Get(t, p).left.Leaf? && Get(t, p).right.Leaf?
    requires at' == at - {p + [false], p + [true]}
    requires vs'.Keys == at'.Keys && forall q | q in at' && q != p :: vs'[q] == vs[q]
    requires p in at' ==> vs'[p] == vs[p].(child0 := null, child1 := null)
    ensures Spells(vs', at', Set(t, p, Leaf(Get(t, p).used)), base, size)
  {
    hide IsNode, Set, Fits;
    var t' := Set(t, p, Leaf(Get(t, p).used));
    ChildPaths(p);
    forall q ensures q in at' <==> IsNode(t', q) {
      MergeDrops(t, p, q);
    }
    FitsMerged(vs[p], at, at', t, base, size, p);
    forall q | q in vs' ensures Fits(vs'[q], at', t', base, size, q) {
      if q != p {
        FitsBesideMerge(vs[q], at, at', t, base, size, p, q);
      }
    }
  }

  lemma {:induction false} OnlyNode(vs: map<Path, View>, at: map<Path, MNode>, t: Tree, base: nat, size: nat, p: Path)
    requires Spells(vs, at, t, base, size) && p in at
    ensures forall q | q in at && q != p :: at[q] != at[p]
  {
  }

  lemma {:induction false} NoChildren(vs: map<Path, View>, at: map<Path, MNode>, t: Tree, base: nat, size: nat, p: Path)
    requires Spells(vs, at, t, base, size) && IsNode(t, p) && Get(t, p).Leaf?
    ensures p + [false] !in at && p + [true] !in at
  {
    ChildNode(t, p, false);
    ChildNode(t, p, true);
  }

  // ----- allocation, as the nodes do it -----

  /** The search in the two children of a node. */
  ghost function InChildren(g: Tree, size: nat, req: nat): (Tree, Option<Path>)
    requires req >= 1 && size / 2 >= req
  {
    match g
    case Leaf(_) => (g, None)
    case Split(a, left, right) =>
      var (l, pl) := Alloc(left, size / 2, req);
      if pl.Some? then (Split(a, l, right), Some([false] + pl.value))
      else
        var (r, pr) := Alloc(right, size / 2, req);
        (Split(a, l, r), if pr.Some? then Some([true] + pr.value) else None)
  }

  lemma {:induction false} AllocByChildren(t: Tree, size: nat, req: nat)
    requires req >= 1 && size / 2 >= req && Settled(t)
    ensures var s := if t.used then t else Split(false, FREE, FREE);
            var (s', r) := InChildren(s, size, req);
            Alloc(t, size, req) == (if r.Some? then s'.(used := true) else s', r)
  {
    if !t.used {
      AllocSucceedsIff(FREE, size / 2, req);
    }
  }

  /** No node is lost. */
  ghost predicate Extends(was: map<Path, MNode>, now: map<Path, MNode>) {
    forall q | q in was :: q in now && now[q] == was[q]
  }

  lemma {:induction false} AllocSmall(t: Tree, size: nat, req: nat)
    requires req >= 1 && size / 2 < req
    ensures Alloc(t, size, req) == if !t.used && size >= req then (t.(used := true), Some([])) else (t, None)
  {
  }

  lemma {:induction false} UnusedIsFree(t: Tree)
    requires Settled(t)
    ensures !t.used ==> t == FREE
    ensures t.Split? ==> Settled(t.left) && Settled(t.right)
  {
  }

  // ----- the pool -----

  class Pool {
    const base: nat
    const size: nat
    var root: MNode
    ghost var tree: Tree
    ghost var at: map<Path, MNode>

    ghost function Views(): map<Path, View>
      reads this, at.Values
    {
      map p | p in at :: Snap(at[p])
    }

    ghost predicate Valid()
      reads this, at.Values
    {
      [] in at && at[[]] == root && Spells(Views(), at, tree, base, size)
    }

    constructor (base: nat, size: nat)
      ensures Valid() && tree == FREE && this.base == base && this.size == size
      ensures fresh(at.Values)
    {
      this.base := base;
      this.size := size;
      var n := new MNode(null, base, size, false);
      root := n;
      tree := FREE;
      at := map[[] := n];
    }

    /** Sets the flag of a node. */
    method SetUsed(n: MNode, u: bool, ghost p: Path)
      requires Valid() && p in at && at[p] == n
      modifies this`tree, n`used
      ensures Valid() && IsNode(old(tree), p) && tree == Set(old(tree), p, Get(old(tree), p).(used := u))
    {
      hide IsNode, Get, Set, Spells;
      SpellsFlag(Views(), at, tree, base, size, p, u);
      OnlyNode(Views(), at, tree, base, size, p);
      n.used := u;
      tree := Set(tree, p, Get(tree, p).(used := u));
      ghost var vs' := old(Views())[p := old(Views())[p].(used := u)];
      forall q | q in at ensures Snap(at[q]) == vs'[q] {
        if q != p {
          assert Snap(at[q]) == old(Snap(at[q]));
        }
      }
      assert Views() == vs';
    }

    method NewChildren(n: MNode) returns (c0: MNode, c1: MNode)
      modifies n`child0, n`child1
      ensures fresh(c0) && fresh(c1) && c0 != c1
      ensures Snap(n) == old(Snap(n)).(child0 := c0, child1 := c1)
      ensures Snap(c0) == View(null, null, n, false, false, n.size / 2, n.ptr)
      ensures Snap(c1) == View(null, null, n, false, true, n.size / 2, n.ptr + n.size / 2)
    {
      var half := n.size / 2;
      c0 := new MNode(n, n.ptr, half, false);
      n.child0 := c0;
      c1 := new MNode(n, n.ptr + half, half, true);
      n.child1 := c1;
    }

    /** Puts two new nodes into the tree; `vs` are the fields as they were before. */
    ghost method Adopt(vs: map<Path, View>, p: Path, c0: MNode, c1: MNode)
      requires Spells(vs, at, tree, base, size) && vs.Keys == at.Keys && [] in at && at[[]] == root
      requires p in at && IsNode(tree, p) && Get(tree, p) == FREE
      requires c0 != c1 && c0 !in at.Values && c1 !in at.Values
      requires forall q | q in at && q != p :: Snap(at[q]) == vs[q]
      requires Snap(at[p]) == vs[p].(child0 := c0, child1 := c1)
      requires Snap(c0) == View(null, null, at[p], false, false, vs[p].size / 2, vs[p].ptr)
      requires Snap(c1) == View(null, null, at[p], false, true, vs[p].size / 2, vs[p].ptr + vs[p].size / 2)
      modifies this`tree, this`at
      ensures Valid() && tree == Set(old(tree), p, Split(false, FREE, FREE))
      ensures at == old(at)[p + [false] := c0][p + [true] := c1]
    {
      hide IsNode, Get, Set, Spells, Snap;
      ghost var was, t := at, tree;
      NoChildren(vs, at, t, base, size, p);
      ChildPaths(p);
      at := at[p + [false] := c0][p + [true] := c1];
      tree := Set(t, p, Split(false, FREE, FREE));
      ghost var vs' := Views();
      forall q | q in was && q != p ensures vs'[q] == vs[q] {}
      SpellsSplit(vs, was, t, base, size, p, c0, c1, vs', at);
    }

    /** Gives a free leaf two free children of half its size. */
    method SplitNode(n: MNode, ghost p: Path)
      requires Valid() && p in at && at[p] == n && IsNode(tree, p) && Get(tree, p) == FREE
      modifies this`tree, this`at, n`child0, n`child1
      ensures Valid() && tree == Set(old(tree), p, Split(false, FREE, FREE))
      ensures Extends(old(at), at) && fresh(at.Values - old(at.Values))
    {
      hide IsNode, Get, Set, Spells;
      ghost var vs, was := Views(), at;
      OnlyNode(vs, at, tree, base, size, p);
      NoChildren(vs, at, tree, base, size, p);
      var c0, c1 := NewChildren(n);
      forall q | q in at && q != p ensures Snap(at[q]) == vs[q] {
        assert Snap(at[q]) == old(Snap(at[q]));
      }
      Adopt(vs, p, c0, c1);
      TwoMore(was, p + [false], c0, p + [true], c1);
    }

    lemma {:induction false} NodeFacts(p: Path)
      requires Valid() && p in at
      ensures IsNode(tree, p) && Fits(Snap(at[p]), at, tree, base, size, p)
      ensures at[p].used == Get(tree, p).used && at[p].size == SizeAt(size, p) && at[p].ptr == AddrAt(base, size, p)
    {
      assert Views()[p] == Snap(at[p]);
    }

    lemma {:induction false} ChildFacts(p: Path, b: bool)
      requires Valid() && p in at
      ensures IsNode(tree, p)
      ensures var c := if b then at[p].child1 else at[p].child0;
              (c != null <==> Get(tree, p).Split?) &&
              (c != null ==> p + [b] in at && at[p + [b]] == c && IsNode(tree, p + [b]) &&
                             c.size == at[p].size / 2 && Get(tree, p + [b]) == Child(Get(tree, p), b))
    {
      NodeFacts(p);
      ChildNode(tree, p, b);
      if p + [b] in at {
        NodeFacts(p + [b]);
        BlockOfChild(base, size, p, b);
      }
    }

    /** Finds a block for `req` bytes at or under a node and marks it and the nodes above it
        up to this one, as the tree function `Alloc` says. */
    method AllocNode(node: MNode?, req: nat, ghost p: Path) returns (ret: MNode?, ghost rp: Path)
      requires Valid() && req >= 1
      requires node != null ==> p in at && at[p] == node && IsNode(tree, p) && Settled(Get(tree, p))
      modifies this`tree, this`at, at.Values
      ensures Valid() && Extends(old(at), at) && fresh(at.Values - old(at.Values))
      ensures node == null ==> ret == null && tree == old(tree)
      ensures node != null ==> IsNode(old(tree), p)
      ensures node != null ==>
        var (t, r) := Alloc(Get(old(tree), p), node.size, req);
        tree == Set(old(tree), p, t) && (ret != null <==> r.Some?) &&
        (ret != null ==> rp == p + r.value && rp in at && at[rp] == ret)
      decreases if node == null then 0 else node.size + 1, 2
    {
      hide IsNode, Get, Set, Alloc, Settled, Spells, Fits;
      rp := [];
      if node == null {
        return null, rp;
      }
      ret := null;
      NodeFacts(p);
      ghost var t0, g := tree, Get(tree, p);
      if node.size / 2 < req {
        AllocSmall(g, node.size, req);
        SetSame(t0, p);
        if !node.used && node.size >= req {
          ret, rp := node, p;
        }
      } else {
        AllocByChildren(g, node.size, req);
        ghost var s' := InChildren(if g.used then g else Split(false, FREE, FREE), node.size, req).0;
        ret, rp := SearchChildren(node, req, p);
        SetHere(t0, p, s', s'.(used := true));
      }
      if ret != null {
        SetUsed(node, true, p);
      }
    }

    /** Splits a node that is still free, then searches its children. */
    method SearchChildren(node: MNode, req: nat, ghost p: Path) returns (ret: MNode?, ghost rp: Path)
      requires Valid() && req >= 1 && p in at && at[p] == node && node.size / 2 >= req
      requires IsNode(tree, p) && Settled(Get(tree, p))
      modifies this`tree, this`at, at.Values
      ensures Valid() && Extends(old(at), at) && fresh(at.Values - old(at.Values))
      ensures IsNode(old(tree), p)
      ensures var g := Get(old(tree), p);
              var (s, r) := InChildren(if g.used then g else Split(false, FREE, FREE), node.size, req);
              tree == Set(old(tree), p, s) && (ret != null <==> r.Some?) &&
              (ret != null ==> rp == p + r.value && rp in at && at[rp] == ret)
      decreases node.size + 1, 1
    {
      hide IsNode, Get, Set, Settled, Spells, Fits, InChildren;
      ghost var t0, g := tree, Get(tree, p);
      NodeFacts(p);
      UnusedIsFree(g);
      ghost var s := if g.used then g else Split(false, FREE, FREE);
      assert s.Split? ==> Settled(s.left) && Settled(s.right) by {
        FreeIsSettled();
      }
      SetSame(t0, p);
      SetHere(t0, p, s, InChildren(s, node.size, req).0);
      if !node.used {
        SplitNode(node, p);
      }
      ret, rp := AllocInChildren(node, req, p);
    }

    method AllocInChildren(node: MNode, req: nat, ghost p: Path) returns (ret: MNode?, ghost rp: Path)
      requires Valid() && req >= 1 && p in at && at[p] == node && node.size / 2 >= req
      requires IsNode(tree, p) && (Get(tree, p).Split? ==> Settled(Get(tree, p).left) && Settled(Get(tree, p).right))
      modifies this`tree, this`at, at.Values
      ensures Valid() && Extends(old(at), at) && fresh(at.Values - old(at.Values))
      ensures IsNode(old(tree), p)
      ensures var (s, r) := InChildren(Get(old(tree), p), node.size, req);
              tree == Set(old(tree), p, s) && (ret != null <==> r.Some?) &&
              (ret != null ==> rp == p + r.value && rp in at && at[rp] == ret)
      decreases node.size + 1, 0
    {
      hide IsNode, Get, Set, Settled, Spells, Fits, Alloc;
      ghost var t0, g := tree, Get(tree, p);
      ChildFacts(p, false);
      ChildFacts(p, true);
      SetSame(t0, p);
      ret, rp := AllocNode(node.child0, req, p + [false]);
      if g.Split? {
        ghost var l := Alloc(g.left, node.size / 2, req).0;
        SetChild(t0, p, false, l);
        SetHere(t0, p, Split(g.used, l, g.right), g);
        assert tree == Set(t0, p, Split(g.used, l, g.right));
      }
      if ret == null {
        ChildFacts(p, true);
        ghost var t1 := tree;
        ret, rp := AllocNode(node.child1, req, p + [true]);
        if g.Split? {
          ghost var l := Alloc(g.left, node.size / 2, req).0;
          ghost var r := Alloc(g.right, node.size / 2, req).0;
          SetChild(t1, p, true, r);
          SetHere(t0, p, Split(g.used, l, g.right), Split(g.used, l, r));
        }
      }
    }

    // ----- release -----

    /** Unhooks a node from its parent. */
    method Release(n: MNode)
      requires n.parent != n
      modifies if n.parent != null then {n.parent} else {}
      ensures n.parent != null ==>
        Snap(n.parent) == if n.index then old(Snap(n.parent)).(child1 := null)
                          else old(Snap(n.parent)).(child0 := null)
    {
      var parent := n.parent;
      if parent != null {
        if n.index {
          parent.child1 := null;
        } else {
          parent.child0 := null;
        }
      }
    }

    /** Takes the two leaves under a node out of the tree; `vs` are the fields as they were before. */
    ghost method Drop(vs: map<Path, View>, q: Path)
      requires Spells(vs, at, tree, base, size) && vs.Keys == at.Keys && [] in at && at[[]] == root
      requires q in at && IsNode(tree, q) && Get(tree, q).Split? && Get(tree, q).left.Leaf? && Get(tree, q).right.Leaf?
      requires forall r | r in at && r != q :: Snap(at[r]) == vs[r]
      requires Snap(at[q]) == vs[q].(child0 := null, child1 := null)
      modifies this`tree, this`at
      ensures Valid() && tree == Set(old(tree), q, Leaf(Get(old(tree), q).used)) && Extends(at, old(at)) && q in at
    {
      hide IsNode, Get, Set, Spells, Snap;
      ghost var was, t := at, tree;
      ChildPaths(q);
      at := at - {q + [false], q + [true]};
      tree := Set(t, q, Leaf(Get(t, q).used));
      ghost var vs' := Views();
      forall r | r in at && r != q ensures vs'[r] == vs[r] {}
      SpellsMerge(vs, was, t, base, size, q, vs', at);
    }

    /** Releases the two children of a node, which are leaves. */
    method MergeNode(parent: MNode, child: MNode, buddy: MNode, ghost q: Path, ghost b: bool)
      requires Valid() && q in at && at[q] == parent && q + [b] in at && at[q + [b]] == child
      requires q + [!b] in at && at[q + [!b]] == buddy
      requires IsNode(tree, q) && Get(tree, q).Split? && Get(tree, q).left.Leaf? && Get(tree, q).right.Leaf?
      modifies this`tree, this`at, parent
      ensures Valid() && tree == Set(old(tree), q, Leaf(Get(old(tree), q).used))
      ensures Extends(at, old(at)) && q in at
    {
      hide IsNode, Get, Set, Spells;
      ghost var vs := Views();
      OnlyNode(vs, at, tree, base, size, q);
      LinksOf(q, b);
      LinksOf(q, !b);
      ChildPaths(q);
      Release(buddy);
      Release(child);
      forall r | r in at && r != q ensures Snap(at[r]) == vs[r] {
        assert Snap(at[r]) == old(Snap(at[r]));
      }
      Drop(vs, q);
    }

    lemma {:induction false} LinksOf(q: Path, b: bool)
      requires Valid() && q in at && q + [b] in at
      ensures at[q + [b]].parent == at[q] && at[q + [b]].index == b
    {
      NodeFacts(q + [b]);
      ChildPaths(q);
    }

    lemma {:induction false} ParentFacts(p: Path)
      requires Valid() && p in at
      ensures p == [] ==> at[p].parent == null
      ensures p != [] ==> var q, b := p[..|p| - 1], p[|p| - 1];
                          q in at && at[p].parent == at[q] && at[p].index == b && p == q + [b]
                          && IsNode(tree, q) && Get(tree, q).Split?
    {
      NodeFacts(p);
      if p != [] {
        ParentNode(tree, p);
      }
    }

    /** The buddy of a child, and its flag. */
    lemma {:induction false} BuddyFacts(q: Path, b: bool)
      requires Valid() && q in at && IsNode(tree, q) && Get(tree, q).Split?
      ensures q + [!b] in at
      ensures at[q + [!b]] == if b then at[q].child0 else at[q].child1
      ensures at[q + [!b]].used == Child(Get(tree, q), !b).used
    {
      hide IsNode, Get, Spells, Fits, SizeAt, AddrAt, Views, Snap;
      ChildFacts(q, !b);
      NodeFacts(q + [!b]);
    }

    /** Frees a leaf and merges free buddies on the way up, as the tree function `Free` says. */
    method FreeNode(node: MNode, ghost p: Path)
      requires Valid() && p in at && at[p] == node && Settled(tree) && IsNode(tree, p) && Get(tree, p).Leaf?
      modifies this`tree, this`at, at.Values
      ensures Valid() && Extends(at, old(at))
      ensures IsNode(old(tree), p) && tree == Free(old(tree), p)
      decreases |p|
    {
      hide IsNode, Get, Set, Spells, Fits, Settled, Free, SizeAt, AddrAt, Views, Snap;
      ghost var t0 := tree;
      SetUsed(node, false, p);
      SetHere(t0, p, FREE, FREE);
      ParentFacts(p);
      var parent := node.parent;
      if parent == null {
        FreeRoot(t0);
        return;
      }
      ghost var q, b := p[..|p| - 1], p[|p| - 1];
      OneUp(t0, q, b);
      BuddyFacts(q, b);
      var buddy := if node.index then parent.child0 else parent.child1;
      if buddy.used {
        return;
      }
      MergeNode(parent, node, buddy, q, b);
      FreeNode(parent, q);
    }
  }

  lemma {:induction false} FreeRoot(t: Tree)
    ensures IsNode(t, []) && Set(t, [], FREE) == FREE == Free(t, [])
  {
  }

  /** One level of the release, in terms of the tree `t` before it and the tree with the leaf freed. */
  lemma {:induction false} OneUp(t: Tree, q: Path, b: bool)
    requires Settled(t) && IsNode(t, q + [b]) && IsNode(Set(t, q + [b], FREE), q)
    ensures IsNode(t, q) && Get(t, q).Split?
    ensures var g := Get(Set(t, q + [b], FREE), q);
            g.Split? && Child(g, b) == FREE && g.used &&
            (Child(g, !b).used ==> Free(t, q + [b]) == Set(t, q + [b], FREE)) &&
            (!Child(g, !b).used ==>
               g.left.Leaf? && g.right.Leaf? &&
               var t' := Set(Set(t, q + [b], FREE), q, Leaf(true));
               Settled(t') && IsNode(t', q) && Get(t', q) == Leaf(true) && Free(t', q) == Free(t, q + [b]))
  {
    ChildPaths(q);
    ParentNode(t, q + [b]);
    var g0 := Get(t, q);
    var g := if b then Split(g0.used, g0.left, FREE) else Split(g0.used, FREE, g0.right);
    SetChild(t, q, b, FREE);
    SetHere(t, q, g, Leaf(true));
    SettledAt(t, q);
    FreeStep(t, q, b);
    if !Child(g, !b).used {
      SetHere(t, q, Leaf(true), FREE);
      SetLeafSettled(t, q, true);
      FreeForgets(t, q, Leaf(true));
    }
  }

  lemma {:induction false} FreeIsSettled()
    ensures Settled(FREE)
  {
  }

  lemma {:induction false} TwoMore(was: map<Path, MNode>, p0: Path, c0: MNode, p1: Path, c1: MNode)
    requires p0 !in was && p1 !in was
    ensures var now := was[p0 := c0][p1 := c1];
            Extends(was, now) && now.Values - was.Values <= {c0, c1}
  {
    var now := was[p0 := c0][p1 := c1];
    forall n | n in now.Values - was.Values ensures n in {c0, c1} {
      var q :| q in now && now[q] == n;
      if q in was {
        assert was[q] == n;
      }
    }
  }
}
