/** The allocation interface: areas handed to clients, the header word in front of each, and
    the memory those words live in. */
module MemArena {
  import opened Options
  import opened Arith
  import opened BuddyTree
  import opened BuddyBlocks
  import opened MemPool

  /** The pool: its first address, its size, and the size of a header, which is that of a pointer. */
  datatype Span = Span(base: nat, size: nat, header: nat)

  /** An area in the hands of a client: the block it was cut from and its size. */
  datatype Area = Area(path: Path, size: nat)

  /** The words of memory that hold a node pointer, by address. Storing one overwrites
      whatever overlaps it. */
  function Store<T>(words: map<nat, T>, h: nat, n: T, header: nat): (r: map<nat, T>)
    requires header >= 1
    ensures h in r && r[h] == n
    ensures forall k | k in words && (k + header <= h || h + header <= k) :: k in r && r[k] == words[k]
    ensures forall k | k in r && k != h :: k in words && (k + header <= h || h + header <= k)
  {
    (map k | k in words && (k + header <= h || h + header <= k) :: words[k])[h := n]
  }

  /** A client overwrites the byte at `x`. */
  function Clobber<T>(words: map<nat, T>, x: nat, header: nat): (r: map<nat, T>)
    ensures forall k | k in words && !(k <= x < k + header) :: k in r && r[k] == words[k]
    ensures forall k | k in r :: k in words && !(k <= x < k + header)
  {
    map k | k in words && !(k <= x < k + header) :: words[k]
  }

  /** The area at `a`, its header included, lies inside its own block, and its header word
      leads to the node of that block. */
  ghost predicate Owns(t: Tree, at: map<Path, MNode>, words: map<nat, MNode>, sp: Span, a: nat, area: Area) {
    Live(t, area.path) && a >= sp.header
    && AddrAt(sp.base, sp.size, area.path) <= a - sp.header
    && a + area.size <= AddrAt(sp.base, sp.size, area.path) + SizeAt(sp.size, area.path)
    && area.path in at && a - sp.header in words && words[a - sp.header] == at[area.path]
  }

  /** The areas and the live blocks correspond one to one. */
  ghost predicate Matched(t: Tree, areas: map<nat, Area>) {
    (forall a, b | a in areas && b in areas && areas[a].path == areas[b].path :: a == b)
    && forall p | Live(t, p) :: exists a :: a in areas && areas[a].path == p
  }

  /** On a power-of-two pool every split has been even. */
  ghost predicate Halving(t: Tree, size: nat) {
    (exists k: nat :: size == Pow2(k)) ==> EvenSplits(t, size)
  }

  lemma {:induction false} AllocHalving(t: Tree, size: nat, req: nat)
    requires req >= 1 && Halving(t, size)
    ensures Halving(Alloc(t, size, req).0, size)
  {
    if k: nat :| size == Pow2(k) {
      AllocEvenSplits(t, k, req);
    }
  }

  /** No free leaf of at least `req` bytes lies below the block at `p`. */
  ghost predicate Lowest(t: Tree, base: nat, size: nat, req: nat, p: Path) {
    forall q | IsLeaf(t, q, false) && SizeAt(size, q) >= req :: AddrAt(base, size, p) <= AddrAt(base, size, q)
  }

  predicate InArea(a: nat, area: Area, header: nat, x: int) {
    a - header <= x < a + area.size
  }

  class Arena {
    const pool: Pool
    /** The page size of the system and the size of a pointer. */
    const page: nat
    const header: nat
    var words: map<nat, MNode>
    ghost var areas: map<nat, Area>

    ghost function Extent(): Span {
      Span(pool.base, pool.size, header)
    }

    ghost predicate Valid()
      reads this, pool, pool.at.Values
    {
      page >= 1 && header >= 1 && pool.Valid() && Good(pool.tree) && Halving(pool.tree, pool.size)
      && Matched(pool.tree, areas) && AllOwned(pool.tree, pool.at, words, Extent(), areas)
    }

    constructor (base: nat, size: nat, page: nat, header: nat)
      requires page >= 1 && header >= 1
      ensures Valid() && areas == map[] && pool.tree == FREE && pool.base == base && pool.size == size
      ensures this.page == page && this.header == header
      ensures fresh(pool) && fresh(pool.at.Values)
    {
      pool := new Pool(base, size);
      this.page, this.header := page, header;
      words := map[];
      areas := map[];
    }

    /** Takes a block of at least `req` bytes from the pool. It succeeds exactly when some free
        leaf is large enough, and the block is smaller than twice the request. */
    method Take(req: nat) returns (node: MNode?, ghost rp: Path)
      requires pool.Valid() && Good(pool.tree) && Halving(pool.tree, pool.size) && req >= 1
      modifies pool`tree, pool`at, pool.at.Values
      ensures pool.Valid() && Good(pool.tree) && Halving(pool.tree, pool.size)
      ensures fresh(pool.at.Values - old(pool.at.Values))
      ensures Extends(old(pool.at), pool.at)
      ensures node != null <==> HasRoom(old(pool.tree), pool.size, req)
      ensures node == null ==> pool.tree == old(pool.tree)
      ensures node != null ==>
        !Live(old(pool.tree), rp) && (forall p :: Live(pool.tree, p) <==> Live(old(pool.tree), p) || p == rp) &&
        rp in pool.at && pool.at[rp] == node && node.ptr == AddrAt(pool.base, pool.size, rp) &&
        req <= SizeAt(pool.size, rp) < 2 * req && Free(pool.tree, rp) == old(pool.tree)
      ensures node != null ==> Lowest(old(pool.tree), pool.base, pool.size, req, rp)
    {
      hide Spells, Fits, Settled, Coalesced, Alloc, HasRoom, Extends, Halving;
      ghost var t := pool.tree;
      RootFacts();
      node, rp := pool.AllocNode(pool.root, req, []);
      AllocSucceedsIff(t, pool.size, req);
      RoomIsHasRoom(t, pool.size, req);
      AllocKeepsGood(t, pool.size, req);
      AllocHalving(t, pool.size, req);
      if node != null {
        assert [] + Alloc(t, pool.size, req).1.value == rp;
        AllocResult(t, pool.size, req);
        FreeAfterAlloc(t, pool.size, req);
        forall p ensures Live(pool.tree, p) <==> Live(t, p) || p == rp {
          AllocLive(t, pool.size, req, p);
        }
        AllocLive(t, pool.size, req, rp);
        pool.NodeFacts(rp);
        forall q | IsLeaf(t, q, false) && SizeAt(pool.size, q) >= req
          ensures AddrAt(pool.base, pool.size, rp) <= AddrAt(pool.base, pool.size, q)
        {
          AllocLowest(t, pool.base, pool.size, req, q);
        }
      }
    }

    lemma {:induction false} RootFacts()
      requires pool.Valid()
      ensures [] in pool.at && pool.at[[]] == pool.root && IsNode(pool.tree, []) && Get(pool.tree, []) == pool.tree
      ensures pool.root.size == pool.size
    {
      pool.NodeFacts([]);
    }

    /** Writes the header and hands the area behind it to the client. */
    method Hand(node: MNode, h: nat, ghost length: nat, ghost rp: Path, ghost t: Tree,
        ghost at: map<Path, MNode>)
      returns (addr: nat)
      requires page >= 1 && header >= 1 && pool.Valid() && Good(pool.tree) && Halving(pool.tree, pool.size) &&
               Matched(t, areas)
      requires AllOwned(t, at, words, Extent(), areas) && Extends(at, pool.at)
      requires !Live(t, rp) && forall p :: Live(pool.tree, p) <==> Live(t, p) || p == rp
      requires rp in pool.at && pool.at[rp] == node && AddrAt(pool.base, pool.size, rp) <= h
      requires h + header + length <= AddrAt(pool.base, pool.size, rp) + SizeAt(pool.size, rp)
      modifies this
      ensures Valid() && addr == h + header && addr !in old(areas) && areas == old(areas)[addr := Area(rp, length)]
    {
      hide Spells, Good, Halving, Live, Owns, Matched, AllOwned;
      Handed(t, pool.tree, at, pool.at, words, Extent(), areas, rp, node, h, length);
      forall a | a in areas ensures Live(t, areas[a].path) {
        OwnedFacts(t, at, words, Extent(), areas, a);
      }
      HandedMatched(t, pool.tree, areas, rp, h + header, length);
      words := Store(words, h, node, header);
      addr := h + header;
      areas := areas[addr := Area(rp, length)];
    }

    /** Allocates an area of `length` bytes. */
    method MemAlloc(length: nat) returns (addr: Option<nat>)
      requires Valid()
      modifies this, pool, pool.at.Values
      ensures Valid() && fresh(pool.at.Values - old(pool.at.Values))
      ensures addr.Some? <==> HasRoom(old(pool.tree), pool.size, header + length)
      ensures addr.None? ==> areas == old(areas) && pool.tree == old(pool.tree)
      ensures addr.Some? ==> addr.value !in old(areas) && addr.value in areas && areas[addr.value].size == length
      ensures addr.Some? ==> areas == old(areas)[addr.value := areas[addr.value]]
      ensures addr.Some? ==> Free(pool.tree, areas[addr.value].path) == old(pool.tree)
      ensures addr.Some? ==> addr.value == AddrAt(pool.base, pool.size, areas[addr.value].path) + header
      ensures addr.Some? ==> Lowest(old(pool.tree), pool.base, pool.size, header + length, areas[addr.value].path)
    {
      hide Spells, Good, Halving, Live, Owns, Matched, HasRoom, Extends, Lowest;
      ghost var t, at := pool.tree, pool.at;
      var node, rp := Take(header + length);
      if node == null {
        StillOwned(t, at, pool.at, words, Extent(), areas);
        return None;
      }
      var a := Hand(node, node.ptr, length, rp, t, at);
      addr := Some(a);
    }

    /** Allocates an area whose address is a multiple of `align`, and of the page size at least. */
    method MemAllocAlign(length: nat, align: nat) returns (addr: Option<nat>)
      requires Valid()
      modifies this, pool, pool.at.Values
      ensures Valid() && fresh(pool.at.Values - old(pool.at.Values))
      ensures var align' := if align > page then align else page;
              (addr.Some? <==> HasRoom(old(pool.tree), pool.size, align' + header + length)) &&
              (addr.Some? ==> addr.value % align' == 0)
      ensures addr.None? ==> areas == old(areas) && pool.tree == old(pool.tree)
      ensures addr.Some? ==> addr.value !in old(areas) && addr.value in areas && areas[addr.value].size == length
      ensures addr.Some? ==> areas == old(areas)[addr.value := areas[addr.value]]
      ensures addr.Some? ==> Free(pool.tree, areas[addr.value].path) == old(pool.tree)
      ensures var align' := if align > page then align else page;
              addr.Some? ==>
                var path := areas[addr.value].path;
                Lowest(old(pool.tree), pool.base, pool.size, align' + header + length, path) &&
                AddrAt(pool.base, pool.size, path) + header < addr.value &&
                addr.value <= AddrAt(pool.base, pool.size, path) + header + align'
    {
      hide Spells, Good, Halving, Live, Owns, Matched, HasRoom, Extends, Lowest;
      var align' := if align > page then align else page;
      ghost var t, at := pool.tree, pool.at;
      var node, rp := Take(align' + header + length);
      if node == null {
        StillOwned(t, at, pool.at, words, Extent(), areas);
        return None;
      }
      AlignedOffset(node.ptr, align', header);
      var offset := align' - (node.ptr + header) % align';
      var a := Hand(node, node.ptr + offset, length, rp, t, at);
      addr := Some(a);
    }

    /** A client writes a byte of its own area: no header is lost. */
    method ClientWrite(addr: nat, x: nat)
      requires Valid() && addr in areas && addr <= x < addr + areas[addr].size
      modifies this`words
      ensures Valid() && words == Clobber(old(words), x, header)
    {
      hide Spells, Good, Halving, Live, Matched;
      forall b | b in areas
        ensures !(b - header <= x < b)
      {
        assert Owns(pool.tree, pool.at, words, Extent(), addr, areas[addr]);
        assert Owns(pool.tree, pool.at, words, Extent(), b, areas[b]);
        if b - header <= x < b {
          AreasDisjoint(pool.tree, pool.at, words, Extent(), addr, areas[addr], b, areas[b], x);
          SamePathSameArea(pool.tree, areas, addr, b);
        }
      }
      words := Clobber(words, x, header);
    }

    /** Releases an area by its address alone: the header leads to its block. */
    method MemFree(addr: nat)
      requires Valid() && addr in areas
      modifies this`areas, pool, pool.at.Values
      ensures Valid() && areas == old(areas) - {addr} && Extends(pool.at, old(pool.at))
      ensures IsNode(old(pool.tree), old(areas)[addr].path)
      ensures pool.tree == Free(old(pool.tree), old(areas)[addr].path)
    {
      hide Spells, Owns, Matched, Settled, Coalesced, Free, EvenSplits;
      ghost var t, at, p := pool.tree, pool.at, areas[addr].path;
      OwnedFacts(t, at, words, Extent(), areas, addr);
      var node := words[addr - header];
      pool.FreeNode(node, p);
      FreeKeepsGood(t, p);
      if EvenSplits(t, pool.size) {
        FreeEvenSplits(t, pool.size, p);
      }
      forall q ensures Live(pool.tree, q) <==> Live(t, q) && q != p {
        FreeLive(t, p, q);
      }
      forall q | Live(pool.tree, q) ensures q in pool.at {
        NodeInMap(q);
      }
      TakenBack(t, pool.tree, at, pool.at, words, Extent(), areas, addr);
      areas := areas - {addr};
    }

    lemma {:induction false} NodeInMap(q: Path)
      requires pool.Valid() && IsNode(pool.tree, q)
      ensures q in pool.at
    {
    }

    /** On a power-of-two pool every address lies in exactly one leaf block. */
    lemma {:induction false} LeavesPartitionPool(k: nat, x: nat) returns (p: Path)
      requires Valid() && pool.size == Pow2(k) && pool.base <= x < pool.base + pool.size
      ensures IsNode(pool.tree, p) && Get(pool.tree, p).Leaf? && InBlock(pool.base, pool.size, p, x)
      ensures forall q | IsNode(pool.tree, q) && Get(pool.tree, q).Leaf? ::
        InBlock(pool.base, pool.size, q, x) ==> q == p
    {
      p := LeavesPartition(pool.tree, pool.base, pool.size, x);
    }

    /** Two areas never overlap, headers included: an address belongs to one area at most. */
    lemma {:induction false} AreasApart(a: nat, b: nat, x: nat)
      requires Valid() && a in areas && b in areas
      requires InArea(a, areas[a], header, x) && InArea(b, areas[b], header, x)
      ensures a == b
    {
      hide Spells, Good, Halving, Live, Matched, Owns;
      AreasDisjoint(pool.tree, pool.at, words, Extent(), a, areas[a], b, areas[b], x);
      SamePathSameArea(pool.tree, areas, a, b);
    }

    /** When every area has been released, in whatever order, the pool is one free block again. */
    lemma {:induction false} AllReleased()
      requires Valid() && areas == map[]
      ensures pool.tree == FREE
    {
      NothingLive(pool.tree);
    }
  }

  /** Areas with a common address, headers included, are cut from the same block. */
  lemma {:induction false} AreasDisjoint(t: Tree, at: map<Path, MNode>, words: map<nat, MNode>, sp: Span,
      a: nat, area: Area, b: nat, other: Area, x: int)
    requires Owns(t, at, words, sp, a, area) && Owns(t, at, words, sp, b, other)
    requires InArea(a, area, sp.header, x) && InArea(b, other, sp.header, x)
    ensures area.path == other.path
  {
    LeavesDisjoint(t, sp.base, sp.size, area.path, other.path, x);
  }

  /** The header words of two blocks do not touch. */
  lemma {:induction false} HeadersApart(t: Tree, sp: Span, p: Path, q: Path, g: nat, h: nat)
    requires Live(t, p) && Live(t, q) && p != q
    requires AddrAt(sp.base, sp.size, p) <= g && g + sp.header <= AddrAt(sp.base, sp.size, p) + SizeAt(sp.size, p)
    requires AddrAt(sp.base, sp.size, q) <= h && h + sp.header <= AddrAt(sp.base, sp.size, q) + SizeAt(sp.size, q)
    ensures g + sp.header <= h || h + sp.header <= g
  {
    if g < h + sp.header && h < g + sp.header {
      LeavesDisjoint(t, sp.base, sp.size, p, q, if g < h then h else g);
    }
  }

  /** All areas are owned, and a new one may be added in a new block. */
  ghost predicate AllOwned(t: Tree, at: map<Path, MNode>, words: map<nat, MNode>, sp: Span, areas: map<nat, Area>) {
    forall a | a in areas :: Owns(t, at, words, sp, a, areas[a])
  }

  /** Handing out an area in a fresh block disturbs no other area. */
  lemma {:induction false} Handed(t: Tree, t': Tree, at: map<Path, MNode>, at': map<Path, MNode>,
      words: map<nat, MNode>, sp: Span, areas: map<nat, Area>, rp: Path, n: MNode, h: nat, length: nat)
    requires sp.header >= 1 && AllOwned(t, at, words, sp, areas) && Extends(at, at')
    requires !Live(t, rp) && (forall p :: Live(t', p) <==> Live(t, p) || p == rp) && rp in at' && at'[rp] == n
    requires AddrAt(sp.base, sp.size, rp) <= h &&
             h + sp.header + length <= AddrAt(sp.base, sp.size, rp) + SizeAt(sp.size, rp)
    ensures h + sp.header !in areas
    ensures AllOwned(t', at', Store(words, h, n, sp.header), sp, areas[h + sp.header := Area(rp, length)])
  {
    hide Live, AddrAt, SizeAt, Store;
    var words' := Store(words, h, n, sp.header);
    forall a | a in areas
      ensures Owns(t', at', words', sp, a, areas[a]) && a != h + sp.header
    {
      assert Owns(t, at, words, sp, a, areas[a]);
      HeadersApart(t', sp, areas[a].path, rp, a - sp.header, h);
    }
  }

  lemma {:induction false} HandedMatched(t: Tree, t': Tree, areas: map<nat, Area>, rp: Path, addr: nat, length: nat)
    requires Matched(t, areas) && addr !in areas && (forall a | a in areas :: Live(t, areas[a].path))
    requires !Live(t, rp) && (forall p :: Live(t', p) <==> Live(t, p) || p == rp)
    ensures Matched(t', areas[addr := Area(rp, length)])
  {
    hide Live;
    var areas' := areas[addr := Area(rp, length)];
    forall p | Live(t', p) ensures exists a :: a in areas' && areas'[a].path == p {
      if p == rp {
        assert areas'[addr].path == p;
      } else {
        var a :| a in areas && areas[a].path == p;
        assert areas'[a].path == p;
      }
    }
  }

  lemma {:induction false} StillOwned(t: Tree, at: map<Path, MNode>, at': map<Path, MNode>, words: map<nat, MNode>,
      sp: Span, areas: map<nat, Area>)
    requires AllOwned(t, at, words, sp, areas) && Extends(at, at')
    ensures AllOwned(t, at', words, sp, areas)
  {
  }

  lemma {:induction false} SamePathSameArea(t: Tree, areas: map<nat, Area>, a: nat, b: nat)
    requires Matched(t, areas) && a in areas && b in areas && areas[a].path == areas[b].path
    ensures a == b
  {
  }

  lemma {:induction false} OwnedFacts(t: Tree, at: map<Path, MNode>, words: map<nat, MNode>, sp: Span,
      areas: map<nat, Area>, a: nat)
    requires AllOwned(t, at, words, sp, areas) && a in areas
    ensures Live(t, areas[a].path) && a >= sp.header && areas[a].path in at
    ensures a - sp.header in words && words[a - sp.header] == at[areas[a].path]
  {
    assert Owns(t, at, words, sp, a, areas[a]);
  }

  /** Taking an area back disturbs no other area. */
  lemma {:induction false} TakenBack(t: Tree, t': Tree, at: map<Path, MNode>, at': map<Path, MNode>,
      words: map<nat, MNode>, sp: Span, areas: map<nat, Area>, a: nat)
    requires AllOwned(t, at, words, sp, areas) && Matched(t, areas) && Extends(at', at) && a in areas
    requires forall p :: Live(t', p) <==> Live(t, p) && p != areas[a].path
    requires forall p | Live(t', p) :: p in at'
    ensures AllOwned(t', at', words, sp, areas - {a}) && Matched(t', areas - {a})
  {
    hide Live, AddrAt, SizeAt;
    var areas' := areas - {a};
    forall b | b in areas'
      ensures Owns(t', at', words, sp, b, areas'[b])
    {
      assert Owns(t, at, words, sp, b, areas[b]);
      assert Live(t', areas[b].path);
    }
    forall p | Live(t', p) ensures exists b :: b in areas' && areas'[b].path == p {
      var b :| b in areas && areas[b].path == p;
      assert areas'[b].path == p;
    }
  }

  lemma {:induction false} AlignedOffset(ptr: nat, align: nat, header: nat)
    requires align >= 1
    ensures var offset := align - (ptr + header) % align;
            1 <= offset <= align && (ptr + offset + header) % align == 0
  {
    var x := ptr + header;
    var q := x / align;
    assert x == align * q + x % align;
    assert x + (align - x % align) == align * (q + 1) + 0;
    DivUnique(x + (align - x % align), align, q + 1, 0);
    assert x + (align - x % align) == align * ((x + (align - x % align)) / align) + (x + (align - x % align)) % align;
  }
}
