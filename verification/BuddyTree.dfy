/** The buddy allocator as a tree: allocation with splitting, release with coalescing, and
    what every reachable tree looks like. */
module BuddyTree {
  import opened Options
  import opened Sequences

  /** A node of the tree. `used` is the allocated flag of the node; a node that has been split
      carries it too. */
  datatype Tree =
    | Leaf(used: bool)
    | Split(used: bool, left: Tree, right: Tree)

  /** The way from the root to a node: false for the first child. */
  type Path = seq<bool>

  const FREE := Leaf(false)

  // ----- the two operations -----

  /** Looks for a block of at least `req` bytes, splitting free blocks on the way down.
      The first free block in address order that is small enough not to be split is taken. */
  function Alloc(t: Tree, size: nat, req: nat): (r: (Tree, Option<Path>))
    requires req >= 1
    decreases size
  {
    if size / 2 < req then
      if !t.used && size >= req then (t.(used := true), Some([])) else (t, None)
    else
      var s := if t.used then t else Split(false, FREE, FREE);
      match s
      case Leaf(_) => (t, None)
      case Split(a, left, right) =>
        var (l, pl) := Alloc(left, size / 2, req);
        if pl.Some? then (Split(true, l, right), Some([false] + pl.value))
        else
          var (r, pr) := Alloc(right, size / 2, req);
          if pr.Some? then (Split(true, l, r), Some([true] + pr.value))
          else (Split(a, l, r), None)
  }

  /** Puts a free leaf at `p` and merges free buddies from there up. */
  function Free(t: Tree, p: Path): (r: Tree)
    requires IsNode(t, p)
  {
    if p == [] then FREE
    else
      var l := if p[0] then t.left else Free(t.left, p[1..]);
      var r := if p[0] then Free(t.right, p[1..]) else t.right;
      if !l.used && !r.used then FREE else Split(t.used, l, r)
  }

  // ----- nodes and blocks -----

  predicate IsNode(t: Tree, p: Path) {
    p == [] || (t.Split? && IsNode(if p[0] then t.right else t.left, p[1..]))
  }

  function Get(t: Tree, p: Path): (s: Tree)
    requires IsNode(t, p)
  {
    if p == [] then t else Get(if p[0] then t.right else t.left, p[1..])
  }

  predicate IsLeaf(t: Tree, p: Path, used: bool) {
    IsNode(t, p) && Get(t, p) == Leaf(used)
  }

  /** The size and the address of the block of a node. */
  function SizeAt(size: nat, p: Path): nat {
    if p == [] then size else SizeAt(size / 2, p[1..])
  }

  function AddrAt(base: nat, size: nat, p: Path): nat
    decreases p
  {
    if p == [] then base else AddrAt(base + if p[0] then size / 2 else 0, size / 2, p[1..])
  }

  /** The blocks in the hands of clients. */
  ghost predicate Live(t: Tree, p: Path) {
    IsLeaf(t, p, true)
  }

  // ----- what every reachable tree satisfies -----

  /** A node that has been split is marked allocated. */
  predicate Settled(t: Tree) {
    t.Split? ==> t.used && Settled(t.left) && Settled(t.right)
  }

  /** No two free buddies: they would have been merged. */
  predicate Coalesced(t: Tree) {
    t.Split? ==> (t.left.used || t.right.used) && Coalesced(t.left) && Coalesced(t.right)
  }

  predicate Good(t: Tree) {
    Settled(t) && Coalesced(t)
  }

  // ----- allocation -----

  /** Some free leaf is at least `req` bytes. */
  ghost predicate HasRoom(t: Tree, size: nat, req: nat) {
    exists p :: IsLeaf(t, p, false) && SizeAt(size, p) >= req
  }

  /** The same, computed from the top. */
  predicate Room(t: Tree, size: nat, req: nat) {
    match t
    case Leaf(a) => !a && size >= req
    case Split(_, l, r) => Room(l, size / 2, req) || Room(r, size / 2, req)
  }

  lemma {:induction false} RoomAt(t: Tree, size: nat, req: nat, p: Path)
    requires IsLeaf(t, p, false) && SizeAt(size, p) >= req
    ensures Room(t, size, req)
    decreases p
  {
    if p == [] {
    } else {
      RoomAt(if p[0] then t.right else t.left, size / 2, req, p[1..]);
    }
  }

  lemma {:induction false} RoomFound(t: Tree, size: nat, req: nat) returns (p: Path)
    requires Room(t, size, req)
    ensures IsLeaf(t, p, false) && SizeAt(size, p) >= req
    decreases t
  {
    match t
    case Leaf(_) => p := [];
    case Split(_, l, r) =>
      if Room(l, size / 2, req) {
        var q := RoomFound(l, size / 2, req);
        p := [false] + q;
      } else {
        var q := RoomFound(r, size / 2, req);
        p := [true] + q;
      }
  }

  lemma {:induction false} RoomIsHasRoom(t: Tree, size: nat, req: nat)
    ensures Room(t, size, req) <==> HasRoom(t, size, req)
  {
    if Room(t, size, req) {
      var p := RoomFound(t, size, req);
    } else if HasRoom(t, size, req) {
      var p :| IsLeaf(t, p, false) && SizeAt(size, p) >= req;
      RoomAt(t, size, req, p);
    }
  }

  lemma {:induction false} NoRoomInSmall(t: Tree, size: nat, req: nat)
    requires size < req
    ensures !Room(t, size, req)
    decreases t
  {
    match t
    case Leaf(_) =>
    case Split(_, l, r) =>
      NoRoomInSmall(l, size / 2, req);
      NoRoomInSmall(r, size / 2, req);
  }

  /** Allocation succeeds exactly when there is room, and a failure changes nothing. */
  lemma {:induction false} AllocSucceedsIff(t: Tree, size: nat, req: nat)
    requires req >= 1 && Settled(t)
    ensures Alloc(t, size, req).1.Some? <==> Room(t, size, req)
    ensures Alloc(t, size, req).1.None? ==> Alloc(t, size, req).0 == t
    decreases size
  {
    if size / 2 < req {
      if t.Split? {
        NoRoomInSmall(t.left, size / 2, req);
        NoRoomInSmall(t.right, size / 2, req);
      }
    } else if !t.used {
      AllocSucceedsIff(FREE, size / 2, req);
    } else if t.Split? {
      AllocSucceedsIff(t.left, size / 2, req);
      AllocSucceedsIff(t.right, size / 2, req);
    }
  }

  /** The block handed out: a leaf, marked allocated, of at least the request and less than
      twice the request. */
  lemma {:induction false} AllocResult(t: Tree, size: nat, req: nat)
    requires req >= 1 && Settled(t) && Alloc(t, size, req).1.Some?
    ensures var (t', r) := Alloc(t, size, req);
            IsLeaf(t', r.value, true) && req <= SizeAt(size, r.value) < 2 * req && t'.used
    decreases size
  {
    if size / 2 >= req {
      var s := if t.used then t else Split(false, FREE, FREE);
      if s.Split? {
        var (l, pl) := Alloc(s.left, size / 2, req);
        if pl.Some? {
          AllocResult(s.left, size / 2, req);
        } else {
          AllocResult(s.right, size / 2, req);
        }
      }
    }
  }

  /** Allocation adds one live block and keeps the others. */
  lemma {:induction false} AllocLive(t: Tree, size: nat, req: nat, p: Path)
    requires req >= 1 && Settled(t) && Alloc(t, size, req).1.Some?
    ensures var (t', r) := Alloc(t, size, req); Live(t', p) <==> Live(t, p) || p == r.value
    ensures var (t', r) := Alloc(t, size, req); !Live(t, r.value)
    decreases size
  {
    if size / 2 >= req {
      var s := if t.used then t else Split(false, FREE, FREE);
      var q := if p == [] then [] else p[1..];
      var (l, pl) := Alloc(s.left, size / 2, req);
      if pl.Some? {
        AllocLive(s.left, size / 2, req, q);
        assert ([false] + pl.value)[1..] == pl.value;
      } else {
        AllocSucceedsIff(s.left, size / 2, req);
        AllocLive(s.right, size / 2, req, q);
        var pr := Alloc(s.right, size / 2, req).1;
        assert ([true] + pr.value)[1..] == pr.value;
      }
    }
  }

  lemma {:induction false} AllocKeepsGood(t: Tree, size: nat, req: nat)
    requires req >= 1 && Good(t)
    ensures Good(Alloc(t, size, req).0)
    decreases size
  {
    AllocSucceedsIff(t, size, req);
    if Alloc(t, size, req).1.Some? && size / 2 >= req {
      var s := if t.used then t else Split(false, FREE, FREE);
      AllocKeepsGood(s.left, size / 2, req);
      AllocKeepsGood(s.right, size / 2, req);
      AllocSucceedsIff(s.left, size / 2, req);
      if Alloc(s.left, size / 2, req).1.Some? {
        AllocResult(s.left, size / 2, req);
      } else {
        AllocResult(s.right, size / 2, req);
      }
    }
  }

  // ----- release -----

  lemma {:induction false} FreeKeepsGood(t: Tree, p: Path)
    requires Good(t) && IsNode(t, p)
    ensures Good(Free(t, p))
    decreases p
  {
    if p == [] {
    } else {
      FreeKeepsGood(if p[0] then t.right else t.left, p[1..]);
    }
  }

  /** Release takes away exactly the block released. */
  lemma {:induction false} FreeLive(t: Tree, p: Path, q: Path)
    requires Settled(t) && Live(t, p)
    ensures Live(Free(t, p), q) <==> Live(t, q) && q != p
    decreases p
  {
    if p == [] {
    } else {
      var c := if p[0] then t.right else t.left;
      FreeLive(c, p[1..], if q == [] then [] else q[1..]);
      if q != [] && q[0] == p[0] {
        assert q == p <==> q[1..] == p[1..] by {
          if q[1..] == p[1..] {
            assert q == [q[0]] + q[1..] && p == [p[0]] + p[1..];
          }
        }
      }
    }
  }

  /** A tree in which nothing is live has been merged back into one free block. */
  lemma {:induction false} NothingLive(t: Tree)
    requires Good(t) && forall p :: !Live(t, p)
    ensures t == FREE
    decreases t
  {
    match t
    case Leaf(a) =>
      assert !Live(t, []);
    case Split(_, l, r) =>
      forall p
        ensures !Live(l, p) && !Live(r, p)
      {
        assert ([false] + p)[1..] == p && ([true] + p)[1..] == p;
        assert !Live(t, [false] + p) && !Live(t, [true] + p);
      }
      NothingLive(l);
      NothingLive(r);
  }

  /** Release undoes the allocation it follows, block structure included. */
  lemma {:induction false} FreeAfterAlloc(t: Tree, size: nat, req: nat)
    requires req >= 1 && Good(t) && Alloc(t, size, req).1.Some?
    ensures var (t', r) := Alloc(t, size, req); IsNode(t', r.value) && Free(t', r.value) == t
    decreases size
  {
    AllocResult(t, size, req);
    if size / 2 < req {
    } else {
      var s := if t.used then t else Split(false, FREE, FREE);
      var (l, pl) := Alloc(s.left, size / 2, req);
      AllocSucceedsIff(s.left, size / 2, req);
      if pl.Some? {
        FreeAfterAlloc(s.left, size / 2, req);
        assert ([false] + pl.value)[1..] == pl.value;
      } else {
        FreeAfterAlloc(s.right, size / 2, req);
        var pr := Alloc(s.right, size / 2, req).1;
        assert ([true] + pr.value)[1..] == pr.value;
      }
    }
  }

  // ----- releasing everything -----

  function FreeAll(t: Tree, order: seq<Path>): Tree
    decreases |order|
  {
    if order == [] then t
    else if IsNode(t, order[0]) then FreeAll(Free(t, order[0]), order[1..])
    else FreeAll(t, order[1..])
  }

  /** Releasing all live blocks, in any order, gives back the single free block. */
  lemma {:induction false} FreeAllIsFree(t: Tree, order: seq<Path>)
    requires Good(t) && NoRepeats(order) && forall p :: Live(t, p) <==> p in order
    ensures FreeAll(t, order) == FREE
    decreases |order|
  {
    if order == [] {
      NothingLive(t);
    } else {
      var p, rest := order[0], order[1..];
      assert Live(t, p);
      FreeKeepsGood(t, p);
      forall q
        ensures Live(Free(t, p), q) <==> q in rest
      {
        FreeLive(t, p, q);
        assert order == [p] + rest;
        if q in rest {
          var j :| 0 <= j < |rest| && rest[j] == q;
          assert order[j + 1] == q;
        }
      }
      FreeAllIsFree(Free(t, p), rest);
    }
  }
}
