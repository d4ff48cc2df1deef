/** Replacing one subtree: how the single steps of the allocator change the tree. */
module BuddyEdit {
  import opened BuddyTree

  function Child(t: Tree, b: bool): Tree
    requires t.Split?
  {
    if b then t.right else t.left
  }

  /** `t` with the subtree at `p` replaced. */
  function Set(t: Tree, p: Path, s: Tree): (r: Tree)
    requires IsNode(t, p)
  {
    if p == [] then s
    else if p[0] then Split(t.used, t.left, Set(t.right, p[1..], s))
    else Split(t.used, Set(t.left, p[1..], s), t.right)
  }

  lemma {:induction false} SetSame(t: Tree, p: Path)
    requires IsNode(t, p)
    ensures Set(t, p, Get(t, p)) == t
    decreases p
  {
    if p == [] {
    } else {
      SetSame(Child(t, p[0]), p[1..]);
    }
  }

  lemma {:induction false} SetHere(t: Tree, p: Path, s: Tree, u: Tree)
    requires IsNode(t, p)
    ensures IsNode(Set(t, p, s), p) && Get(Set(t, p, s), p) == s && Set(Set(t, p, s), p, u) == Set(t, p, u)
    decreases p
  {
    if p == [] {
    } else {
      SetHere(Child(t, p[0]), p[1..], s, u);
    }
  }

  /** The children of a node, by path. */
  lemma {:induction false} ChildNode(t: Tree, p: Path, b: bool)
    requires IsNode(t, p)
    ensures IsNode(t, p + [b]) <==> Get(t, p).Split?
    ensures Get(t, p).Split? ==> Get(t, p + [b]) == Child(Get(t, p), b)
    decreases p
  {
    if p == [] {
      assert [b][1..] == [];
    } else {
      ChildNode(Child(t, p[0]), p[1..], b);
      assert (p + [b])[1..] == p[1..] + [b];
    }
  }

  /** Whatever has been split off has been split off a node. */
  lemma {:induction false} NodeAbove(t: Tree, q: Path, b: bool)
    requires IsNode(t, q + [b])
    ensures IsNode(t, q) && Get(t, q).Split?
    decreases q
  {
    if q == [] {
    } else {
      assert (q + [b])[1..] == q[1..] + [b];
      NodeAbove(Child(t, q[0]), q[1..], b);
    }
  }

  /** A node below the root has a parent that has been split. */
  lemma {:induction false} ParentNode(t: Tree, p: Path)
    requires IsNode(t, p) && p != []
    ensures var q := p[..|p| - 1]; IsNode(t, q) && Get(t, q).Split? && p == q + [p[|p| - 1]]
  {
    hide IsNode, Get;
    var q := p[..|p| - 1];
    assert p == q + [p[|p| - 1]];
    NodeAbove(t, q, p[|p| - 1]);
  }

  /** Changing a child is changing its parent. */
  lemma {:induction false} SetChild(t: Tree, p: Path, b: bool, s: Tree)
    requires IsNode(t, p) && Get(t, p).Split?
    ensures IsNode(t, p + [b])
    ensures var g := Get(t, p);
            Set(t, p + [b], s) == Set(t, p, if b then Split(g.used, g.left, s) else Split(g.used, s, g.right))
    decreases p
  {
    ChildNode(t, p, b);
    if p == [] {
      assert [b][1..] == [];
    } else {
      SetChild(Child(t, p[0]), p[1..], b, s);
      assert (p + [b])[1..] == p[1..] + [b];
    }
  }

  /** Which nodes there are, and their flags, after a replacement. */
  lemma {:induction false} SetNodes(t: Tree, p: Path, s: Tree, q: Path)
    requires IsNode(t, p)
    ensures p <= q ==> (IsNode(Set(t, p, s), q) <==> IsNode(s, q[|p|..]))
    ensures p <= q && IsNode(s, q[|p|..]) ==> Get(Set(t, p, s), q) == Get(s, q[|p|..])
    ensures !(p <= q) ==> (IsNode(Set(t, p, s), q) <==> IsNode(t, q))
    ensures !(p <= q) && IsNode(t, q) ==> Get(Set(t, p, s), q).used == Get(t, q).used
    decreases p
  {
    if p != [] && q != [] && p[0] == q[0] {
      SetNodes(Child(t, p[0]), p[1..], s, q[1..]);
      assert p <= q <==> p[1..] <= q[1..];
      if p <= q {
        assert q[1..][|p| - 1..] == q[|p|..];
      }
    }
  }

  // ----- release, from the bottom up -----

  /** Release does not look at what was in the block. */
  lemma {:induction false} FreeForgets(t: Tree, p: Path, s: Tree)
    requires IsNode(t, p)
    ensures IsNode(Set(t, p, s), p) && Free(Set(t, p, s), p) == Free(t, p)
    decreases p
  {
    SetHere(t, p, s, s);
    if p == [] {
    } else {
      FreeForgets(Child(t, p[0]), p[1..], s);
    }
  }

  /** One step up: with a busy buddy the release ends here, with a free one it goes on at the parent. */
  lemma {:induction false} FreeStep(t: Tree, q: Path, b: bool)
    requires Settled(t) && IsNode(t, q) && Get(t, q).Split?
    ensures IsNode(t, q + [b])
    ensures Free(t, q + [b]) == if Child(Get(t, q), !b).used then Set(t, q + [b], FREE) else Free(t, q)
    decreases q
  {
    ChildNode(t, q, b);
    if q == [] {
      assert [b][1..] == [];
    } else {
      FreeStep(Child(t, q[0]), q[1..], b);
      assert (q + [b])[1..] == q[1..] + [b];
      ChildNode(Child(t, q[0]), q[1..], b);
      if Child(Get(t, q), !b).used {
        SetUsed(Child(t, q[0]), q[1..] + [b], FREE);
      }
    }
  }

  lemma {:induction false} SetUsed(t: Tree, p: Path, s: Tree)
    requires IsNode(t, p) && p != []
    ensures Set(t, p, s).used == t.used
  {
  }

  lemma {:induction false} SettledAt(t: Tree, p: Path)
    requires Settled(t) && IsNode(t, p)
    ensures Settled(Get(t, p))
    decreases p
  {
    if p == [] {
    } else {
      SettledAt(Child(t, p[0]), p[1..]);
    }
  }

  /** Replacing a subtree by a leaf keeps the tree settled. */
  lemma {:induction false} SetLeafSettled(t: Tree, p: Path, u: bool)
    requires Settled(t) && IsNode(t, p)
    ensures Settled(Set(t, p, Leaf(u)))
    decreases p
  {
    if p == [] {
    } else {
      SetLeafSettled(Child(t, p[0]), p[1..], u);
    }
  }
}
