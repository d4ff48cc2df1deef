/** Where the blocks of the buddy tree lie: they never overlap, and on a power-of-two pool
    the leaves cover every address exactly once. */
module BuddyBlocks {
  import opened Arith
  import opened BuddyTree

  predicate InBlock(base: nat, size: nat, p: Path, x: int) {
    AddrAt(base, size, p) <= x < AddrAt(base, size, p) + SizeAt(size, p)
  }

  /** The block of a node lies inside the pool. */
  lemma {:induction false} BlockInPool(base: nat, size: nat, p: Path)
    ensures base <= AddrAt(base, size, p) && AddrAt(base, size, p) + SizeAt(size, p) <= base + size
    decreases p
  {
    if p == [] {
    } else {
      BlockInPool(base + if p[0] then size / 2 else 0, size / 2, p[1..]);
    }
  }

  /** Different leaves have disjoint blocks. */
  lemma {:induction false} LeavesDisjoint(t: Tree, base: nat, size: nat, p: Path, q: Path, x: int)
    requires IsNode(t, p) && IsNode(t, q) && Get(t, p).Leaf? && Get(t, q).Leaf?
    requires InBlock(base, size, p, x) && InBlock(base, size, q, x)
    ensures p == q
    decreases t
  {
    match t
    case Leaf(_) =>
    case Split(_, l, r) =>
      var half := size / 2;
      BlockInPool(base + if p[0] then half else 0, half, p[1..]);
      BlockInPool(base + if q[0] then half else 0, half, q[1..]);
      if p[0] == q[0] {
        LeavesDisjoint(if p[0] then r else l, base + if p[0] then half else 0, half, p[1..], q[1..], x);
        assert p == [p[0]] + p[1..] && q == [q[0]] + q[1..];
      }
  }

  /** Allocation takes the lowest block: no free leaf that is large enough lies below it. */
  lemma {:induction false} AllocLowest(t: Tree, base: nat, size: nat, req: nat, q: Path)
    requires req >= 1 && Settled(t) && Alloc(t, size, req).1.Some?
    requires IsLeaf(t, q, false) && SizeAt(size, q) >= req
    ensures AddrAt(base, size, Alloc(t, size, req).1.value) <= AddrAt(base, size, q)
    decreases size
  {
    var p, half := Alloc(t, size, req).1.value, size / 2;
    BlockInPool(base, size, q);
    if half < req {
    } else if !t.used {
      AllocSucceedsIff(FREE, half, req);
      AllocLowest(FREE, base, half, req, []);
      assert p[1..] == Alloc(FREE, half, req).1.value;
    } else {
      var pl, pr := Alloc(t.left, half, req).1, Alloc(t.right, half, req).1;
      assert p[1..] == if p[0] then pr.value else pl.value;
      if p[0] == q[0] {
        AllocLowest(if q[0] then t.right else t.left, base + if q[0] then half else 0, half, req, q[1..]);
      } else if p[0] {
        RoomAt(t.left, half, req, q[1..]);
        AllocSucceedsIff(t.left, half, req);
      } else {
        BlockInPool(base, half, p[1..]);
        BlockInPool(base + half, half, q[1..]);
      }
    }
  }

  /** Every block that has been split was of even size. */
  predicate EvenSplits(t: Tree, size: nat) {
    t.Split? ==> size % 2 == 0 && EvenSplits(t.left, size / 2) && EvenSplits(t.right, size / 2)
  }

  /** The leaves cover the pool: every address lies in exactly one of them. */
  lemma {:induction false} LeavesPartition(t: Tree, base: nat, size: nat, x: int) returns (p: Path)
    requires EvenSplits(t, size) && base <= x < base + size
    ensures IsNode(t, p) && Get(t, p).Leaf? && InBlock(base, size, p, x)
    ensures forall q | IsNode(t, q) && Get(t, q).Leaf? && InBlock(base, size, q, x) :: q == p
    decreases t
  {
    match t {
      case Leaf(_) =>
        p := [];
      case Split(_, l, r) =>
        var half := size / 2;
        if x < base + half {
          var q := LeavesPartition(l, base, half, x);
          p := [false] + q;
        } else {
          var q := LeavesPartition(r, base + half, half, x);
          p := [true] + q;
        }
    }
    forall q | IsNode(t, q) && Get(t, q).Leaf? && InBlock(base, size, q, x)
      ensures q == p
    {
      LeavesDisjoint(t, base, size, q, p, x);
    }
  }

  /** On a power-of-two pool every split is even. */
  lemma {:induction false} AllocEvenSplits(t: Tree, k: nat, req: nat)
    requires req >= 1 && EvenSplits(t, Pow2(k))
    ensures EvenSplits(Alloc(t, Pow2(k), req).0, Pow2(k))
    decreases k
  {
    var size := Pow2(k);
    if size / 2 >= req {
      assert k >= 1 && size == 2 * Pow2(k - 1);
      var s := if t.used then t else Split(false, FREE, FREE);
      if s.Split? {
        AllocEvenSplits(s.left, k - 1, req);
        AllocEvenSplits(s.right, k - 1, req);
      }
    }
  }

  lemma {:induction false} FreeEvenSplits(t: Tree, size: nat, p: Path)
    requires IsNode(t, p) && EvenSplits(t, size)
    ensures EvenSplits(Free(t, p), size)
    decreases p
  {
    if p == [] {
    } else {
      FreeEvenSplits(if p[0] then t.right else t.left, size / 2, p[1..]);
    }
  }
}
