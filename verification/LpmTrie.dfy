/** The 16-8-8-... multibit trie and what it stands for.

    A cell is named by its path: the leading bytes of the addresses that reach it
    (two bytes for a cell of the root table, one more per level). The predicate
    `Rep` says which node stands at a path when the routing table is the list `rs`. */
module LpmTrie {
  import opened Options
  import opened Arith
  import opened Addresses
  import opened Routes

  /** A cell: its chain of entries and its next table (`[]` for no table, else 256 cells). */
  datatype Node = Node(chain: seq<Route>, next: seq<Node>)

  const EMPTY := Node([], [])

  /** The path length of the cells that hold a route of length `len`. */
  function Level(len: nat): nat {
    if len <= 16 then 2 else (len + 7) / 8
  }

  /** The number of cells a route of length `len` is expanded to. */
  function Expansion(len: nat): nat {
    Pow2(8 * Level(len) - len)
  }

  /** The route is expanded to the cell at `path`. */
  predicate InCell(r: Route, path: Address) {
    |path| == Level(r.len) && Covers(r, path)
  }

  /** The route is stored in some table under the cell at `path`. */
  predicate Below(r: Route, path: Address) {
    |path| < Level(r.len) && |path| <= |r.prefix| && r.prefix[..|path|] == path
  }

  predicate AnyBelow(rs: seq<Route>, path: Address) {
    exists r | r in rs :: Below(r, path)
  }

  /** The entries of the cell at `path`, in list order. */
  function Cell(rs: seq<Route>, path: Address): (c: seq<Route>) {
    if rs == [] then []
    else (if InCell(rs[0], path) then [rs[0]] else []) + Cell(rs[1..], path)
  }

  /** `n` is the node at `path` for the routing table `rs`: its chain is the cell's part of
      `rs`, it has a next table exactly when some route is stored further down, and so on
      in every cell of that table. */
  ghost predicate Rep(n: Node, path: Address, rs: seq<Route>)
    decreases n
  {
    && n.chain == Cell(rs, path)
    && (n.next == [] <==> !AnyBelow(rs, path))
    && (n.next == [] || (|n.next| == 256 && forall b | 0 <= b < 256 :: Rep(n.next[b], path + [b], rs)))
  }

  // ----- the routing table determines the trie -----

  lemma {:induction false} RepUnique(m: Node, n: Node, path: Address, rs: seq<Route>)
    requires Rep(m, path, rs) && Rep(n, path, rs)
    ensures m == n
    decreases m
  {
    if m.next == [] {
    } else {
      forall b | 0 <= b < 256
        ensures m.next[b] == n.next[b]
      {
        RepUnique(m.next[b], n.next[b], path + [b], rs);
      }
      assert m.next == n.next;
    }
  }

  // ----- one cell -----

  lemma {:induction false} CellMembers(rs: seq<Route>, path: Address)
    ensures forall r :: r in Cell(rs, path) <==> r in rs && InCell(r, path)
  {
    if rs == [] {
    } else {
      assert rs == [rs[0]] + rs[1..];
      CellMembers(rs[1..], path);
    }
  }

  lemma {:induction false} CellEmpty(rs: seq<Route>, path: Address)
    requires forall r | r in rs :: !InCell(r, path)
    ensures Cell(rs, path) == []
  {
    if rs == [] {
    } else {
      assert rs[0] in rs;
      CellEmpty(rs[1..], path);
    }
  }

  lemma {:induction false} CellSorted(rs: seq<Route>, path: Address)
    requires Sorted(rs)
    ensures Sorted(Cell(rs, path))
  {
    if rs == [] {
    } else {
      CellSorted(rs[1..], path);
      CellMembers(rs[1..], path);
      var t := Cell(rs[1..], path);
      forall k | 0 <= k < |t|
        ensures rs[0].len >= t[k].len
      {
        assert t[k] in t && t[k] in rs[1..];
      }
    }
  }

  lemma {:induction false} CellInsert(rs: seq<Route>, r: Route, path: Address)
    requires Sorted(rs)
    ensures Cell(Insert(rs, r), path) == if InCell(r, path) then Insert(Cell(rs, path), r) else Cell(rs, path)
  {
    if rs == [] {
    } else if rs[0].len <= r.len {
      assert ([r] + rs)[1..] == rs;
      var c := Cell(rs, path);
      CellMembers(rs, path);
      if c != [] {
        assert c[0] in rs;
      }
    } else {
      CellInsert(rs[1..], r, path);
      assert Insert(rs, r)[0] == rs[0] && Insert(rs, r)[1..] == Insert(rs[1..], r);
      if InCell(rs[0], path) {
        assert Cell(rs, path)[0] == rs[0] && Cell(rs, path)[1..] == Cell(rs[1..], path);
      } else {
        assert Cell(rs, path) == Cell(rs[1..], path);
      }
    }
  }

  lemma {:induction false} CellRemove(rs: seq<Route>, r: Route, path: Address)
    ensures Cell(Remove(rs, r), path) == if InCell(r, path) then Remove(Cell(rs, path), r) else Cell(rs, path)
  {
    if rs == [] || rs[0] == r {
    } else {
      CellRemove(rs[1..], r, path);
      assert Remove(rs, r)[0] == rs[0] && Remove(rs, r)[1..] == Remove(rs[1..], r);
      if InCell(rs[0], path) {
        assert Cell(rs, path)[0] == rs[0] && Cell(rs, path)[1..] == Cell(rs[1..], path);
      } else {
        assert Cell(rs, path) == Cell(rs[1..], path);
      }
    }
  }

  /** At any cell of its range, (id, length) alone identifies a route: all the entries of
      the cell with that length share the masked prefix. So a route is in all cells of its
      range or in none. */
  lemma {:induction false} CellIdentifies(rs: seq<Route>, path: Address, prefix: Address, len: nat, id: int)
    requires len <= 8 * |prefix| && len <= 8 * |path| && |path| == Level(len) && SamePrefix(prefix, path, len)
    ensures forall x | x in Cell(rs, path) && x.id == id && x.len == len :: x in rs && HasKey(x, prefix, len, id)
    ensures forall x | x in rs && HasKey(x, prefix, len, id) :: x in Cell(rs, path)
  {
    CellMembers(rs, path);
    forall x | x in Cell(rs, path) && x.id == id && x.len == len
      ensures HasKey(x, prefix, len, id)
    {
      forall i | 0 <= i < len
        ensures Bit(x.prefix, i) == Bit(prefix, i)
      {
        assert Bit(x.prefix, i) == Bit(path, i) == Bit(prefix, i);
      }
    }
    forall x | x in rs && HasKey(x, prefix, len, id)
      ensures InCell(x, path)
    {
      forall i | 0 <= i < len
        ensures Bit(x.prefix, i) == Bit(path, i)
      {
        assert Bit(x.prefix, i) == Bit(prefix, i) == Bit(path, i);
      }
    }
  }

  // ----- paths -----

  /** What is in a cell of a table, or below it, is below the table's own cell. */
  lemma {:induction false} BelowPrefix(r: Route, path: Address, b: byte)
    requires |path| >= 2 && (InCell(r, path + [b]) || Below(r, path + [b]))
    ensures Below(r, path)
  {
    var k := |path|;
    if InCell(r, path + [b]) {
      assert r.len > 8 * k;
      assert SamePrefix(r.prefix, path + [b], 8 * k);
      SameBytes(r.prefix, path + [b], k);
      assert (path + [b])[..k] == path;
    } else {
      assert r.prefix[..k] == r.prefix[..k + 1][..k] == path;
    }
  }

  /** A route below a cell is in, or below, the cell its next byte selects. */
  lemma {:induction false} BelowNext(r: Route, path: Address)
    requires Below(r, path) && |path| >= 2 && r.len <= 8 * |r.prefix|
    ensures |path| < |r.prefix|
    ensures var p := path + [r.prefix[|path|]]; if Level(r.len) == |path| + 1 then InCell(r, p) else Below(r, p)
  {
    var k := |path|;
    var p := path + [r.prefix[k]];
    assert r.prefix[..k + 1] == p;
    if Level(r.len) == k + 1 {
      SameBytes(r.prefix, p, k + 1);
      assert SamePrefix(r.prefix, p, 8 * (k + 1));
    }
  }

  /** The cells of one 256-cell table that a route is expanded to are an aligned block. */
  lemma {:induction false} BlockInTable(prefix: Address, len: nat, k: nat)
    requires 2 <= k < |prefix| && 8 * k < len <= 8 * k + 8
    ensures Level(len) == k + 1
    ensures Expansion(len) == Pow2(8 * k + 8 - len)
    ensures var m := Expansion(len);
            AlignDown(prefix[k], m) + m <= 256 &&
            forall b: byte :: SamePrefix(prefix, prefix[..k] + [b], len) <==>
              AlignDown(prefix[k], m) <= b < AlignDown(prefix[k], m) + m
  {
    var n := len - 8 * k;
    var m := Pow2(8 - n);
    Pow2Values();
    Pow2Add(8 - n, n);
    AlignedFits(prefix[k], m, Pow2(n));
    forall b: byte
      ensures SamePrefix(prefix, prefix[..k] + [b], len) <==>
                AlignDown(prefix[k], m) <= b < AlignDown(prefix[k], m) + m
    {
      var p := prefix[..k] + [b];
      SameBytesAndBits(prefix, p, k, n);
      assert p[..k] == prefix[..k];
      AlignedBlock(prefix[k], b, m);
    }
  }

  /** The path of cell `i` of the 65536-cell root table. */
  function RootPath(i: nat): Address
    requires i < 65536
  {
    [i / 256, i % 256]
  }

  /** The root cells that a route of length at most 16 is expanded to are an aligned block. */
  lemma {:induction false} BlockInRoot(prefix: Address, len: nat)
    requires |prefix| >= 2 && len <= 16
    ensures Level(len) == 2
    ensures Expansion(len) == Pow2(16 - len)
    ensures var m := Expansion(len);
            var x := 256 * prefix[0] as int + prefix[1];
            AlignDown(x, m) + m <= 65536 &&
            forall i: nat | i < 65536 :: SamePrefix(prefix, RootPath(i), len) <==>
              AlignDown(x, m) <= i < AlignDown(x, m) + m
  {
    var m := Pow2(16 - len);
    var x := 256 * prefix[0] as int + prefix[1];
    Pow2Values();
    Pow2Add(16 - len, len);
    AlignedFits(x, m, Pow2(len));
    forall i: nat | i < 65536
      ensures SamePrefix(prefix, RootPath(i), len) <==> AlignDown(x, m) <= i < AlignDown(x, m) + m
    {
      AlignedBlock(x, i, m);
      RootQuotient(prefix, i, len);
    }
  }

  lemma {:induction false} RootQuotient(prefix: Address, i: nat, len: nat)
    requires |prefix| >= 2 && len <= 16 && i < 65536
    ensures var x := 256 * prefix[0] as int + prefix[1]; var m := Pow2(16 - len);
            SamePrefix(prefix, RootPath(i), len) <==> x / m == i / m
  {
    var p := RootPath(i);
    var x := 256 * prefix[0] as int + prefix[1];
    Pow2Values();
    if len <= 8 {
      SameBytesAndBits(prefix, p, 0, len);
      Pow2Add(8, 8 - len);
      QuotientOfHigh(prefix[0], prefix[1], Pow2(8 - len));
      QuotientOfHigh(p[0], p[1], Pow2(8 - len));
    } else {
      SameBytesAndBits(prefix, p, 1, len - 8);
      assert prefix[..1] == p[..1] <==> prefix[0] == p[0];
      Pow2Add(16 - len, len - 8);
      QuotientOfLow(prefix[0], prefix[1], Pow2(16 - len), Pow2(len - 8));
      QuotientOfLow(p[0], p[1], Pow2(16 - len), Pow2(len - 8));
      LowBelow(prefix[1], Pow2(16 - len), Pow2(len - 8));
      LowBelow(p[1], Pow2(16 - len), Pow2(len - 8));
      DigitsUnique(prefix[0], prefix[1] as int / Pow2(16 - len), p[0], p[1] as int / Pow2(16 - len), Pow2(len - 8));
    }
  }

  lemma {:induction false} QuotientOfHigh(h: byte, l: byte, m: nat)
    requires m >= 1
    ensures (256 * h as int + l) / (256 * m) == h as int / m
  {
    var q := h as int / m;
    assert h as int == m * q + h as int % m;
    DivUnique(256 * h as int + l, 256 * m, q, 256 * (h as int % m) + l);
  }

  lemma {:induction false} QuotientOfLow(h: byte, l: byte, m: nat, c: nat)
    requires m >= 1 && m * c == 256
    ensures (256 * h as int + l) / m == c * h + l as int / m
  {
    var q := l as int / m;
    assert l as int == m * q + l as int % m;
    assert m * (c * h + q) == m * c * h + m * q;
    DivUnique(256 * h as int + l, m, c * h + q, l as int % m);
  }

  lemma {:induction false} LowBelow(l: byte, m: nat, c: nat)
    requires m >= 1 && m * c == 256
    ensures 0 <= l as int / m < c
  {
    var q := l as int / m;
    assert l as int == m * q + l as int % m;
    MulStep(m, c - 1, q);
    assert m * (c - 1) == m * c - m;
  }

  // ----- one route more or less -----

  lemma {:induction false} FrameInsert(n: Node, path: Address, rs: seq<Route>, r: Route)
    requires Sorted(rs) && |path| >= 2 && Rep(n, path, rs) && !InCell(r, path) && !Below(r, path)
    ensures Rep(n, path, Insert(rs, r))
    decreases n
  {
    hide Insert, Sorted, InCell, Below;
    CellInsert(rs, r, path);
    InsertMembers(rs, r);
    forall b | 0 <= b < |n.next|
      ensures Rep(n.next[b], path + [b], Insert(rs, r))
    {
      if InCell(r, path + [b]) || Below(r, path + [b]) {
        BelowPrefix(r, path, b);
      } else {
        FrameInsert(n.next[b], path + [b], rs, r);
      }
    }
  }

  lemma {:induction false} FrameRemove(n: Node, path: Address, rs: seq<Route>, r: Route, width: nat)
    requires Table(rs, width) && |path| >= 2 && Rep(n, path, rs) && !InCell(r, path) && !Below(r, path)
    ensures Rep(n, path, Remove(rs, r))
    decreases n
  {
    hide Remove, Sorted, InCell, Below;
    CellRemove(rs, r, path);
    RemoveMembers(rs, r);
    forall b | 0 <= b < |n.next|
      ensures Rep(n.next[b], path + [b], Remove(rs, r))
    {
      if InCell(r, path + [b]) || Below(r, path + [b]) {
        BelowPrefix(r, path, b);
      } else {
        FrameRemove(n.next[b], path + [b], rs, r, width);
      }
    }
  }

  lemma {:induction false} InsertHere(n: Node, path: Address, rs: seq<Route>, r: Route)
    requires Sorted(rs) && |path| >= 2 && Rep(n, path, rs) && InCell(r, path)
    ensures Rep(Node(Insert(n.chain, r), n.next), path, Insert(rs, r))
  {
    hide Insert, Sorted;
    CellInsert(rs, r, path);
    InsertMembers(rs, r);
    forall b | 0 <= b < |n.next|
      ensures Rep(n.next[b], path + [b], Insert(rs, r))
    {
      if InCell(r, path + [b]) || Below(r, path + [b]) {
        BelowPrefix(r, path, b);
      } else {
        FrameInsert(n.next[b], path + [b], rs, r);
      }
    }
  }

  lemma {:induction false} RemoveHere(n: Node, path: Address, rs: seq<Route>, r: Route, width: nat)
    requires Table(rs, width) && |path| >= 2 && Rep(n, path, rs) && InCell(r, path)
    ensures Rep(Node(Remove(n.chain, r), n.next), path, Remove(rs, r))
  {
    hide Remove, Sorted;
    CellRemove(rs, r, path);
    RemoveMembers(rs, r);
    forall b | 0 <= b < |n.next|
      ensures Rep(n.next[b], path + [b], Remove(rs, r))
    {
      if InCell(r, path + [b]) || Below(r, path + [b]) {
        BelowPrefix(r, path, b);
      } else {
        FrameRemove(n.next[b], path + [b], rs, r, width);
      }
    }
  }

  // ----- lazily created and pruned tables -----

  /** A freshly created table is right for a list with no route below the cell. */
  lemma {:induction false} FreshTable(path: Address, b: byte, rs: seq<Route>)
    requires |path| >= 2 && !AnyBelow(rs, path)
    ensures Rep(EMPTY, path + [b], rs)
  {
    forall r | r in rs
      ensures !InCell(r, path + [b]) && !Below(r, path + [b])
    {
      if InCell(r, path + [b]) || Below(r, path + [b]) {
        BelowPrefix(r, path, b);
      }
    }
    CellEmpty(rs, path + [b]);
  }

  predicate AllEmpty(next: seq<Node>) {
    forall b | 0 <= b < |next| :: next[b] == EMPTY
  }

  /** The pruning test is exact: all 256 cells are empty just when no route is stored below. */
  lemma {:induction false} PruneIsExact(next: seq<Node>, path: Address, rs: seq<Route>)
    requires |path| >= 2 && |next| == 256 && forall r | r in rs :: r.len <= 8 * |r.prefix|
    requires forall b | 0 <= b < 256 :: Rep(next[b], path + [b], rs)
    ensures AllEmpty(next) <==> !AnyBelow(rs, path)
  {
    if AnyBelow(rs, path) {
      var r :| r in rs && Below(r, path);
      BelowNext(r, path);
      var b := r.prefix[|path|];
      CellMembers(rs, path + [b]);
      assert Rep(next[b], path + [b], rs);
      assert next[b] != EMPTY;
    } else {
      forall b | 0 <= b < 256
        ensures next[b] == EMPTY
      {
        FreshTable(path, b, rs);
        RepUnique(next[b], EMPTY, path + [b], rs);
      }
    }
  }

  // ----- lookup -----

  /** A trie of at most `depth` further tables, each of 256 cells. */
  ghost predicate Shape(n: Node, depth: nat)
    decreases depth
  {
    n.next == [] || (|n.next| == 256 && depth > 0 && forall b | 0 <= b < 256 :: Shape(n.next[b], depth - 1))
  }

  lemma {:induction false} RepShape(n: Node, path: Address, rs: seq<Route>, width: nat)
    requires Rep(n, path, rs) && AllFit(rs, width) && 2 <= |path| <= width
    ensures Shape(n, width - |path|)
    decreases n
  {
    if n.next == [] {
    } else {
      var r :| r in rs && Below(r, path);
      forall b | 0 <= b < 256
        ensures Shape(n.next[b], width - |path| - 1)
      {
        RepShape(n.next[b], path + [b], rs, width);
      }
    }
  }

  /** The chain of the deepest non-empty cell on the way to `dst` under `parent`, if any.
      The table under `parent` is indexed by the eight bits at offset `8 * k`. */
  function LookupBelow(dst: Address, parent: Node, k: nat): (head: Option<seq<Route>>)
    requires |dst| % 4 == 0 && k <= |dst| && parent.next != [] && Shape(parent, |dst| - k)
    decreases parent
  {
    var node := parent.next[TableIndex(dst, k)];
    var head := if node.next != [] then LookupBelow(dst, node, k + 1) else None;
    if head.None? && node.chain != [] then Some(node.chain) else head
  }

  /** The lookup, from the root cell that the first 16 bits of `dst` select. */
  function LookupFrom(dst: Address, node: Node): (entry: Option<Route>)
    requires |dst| % 4 == 0 && |dst| >= 4 && Shape(node, |dst| - 2)
  {
    var head := if node.next != [] then
                  match LookupBelow(dst, node, 2) { case None => node.chain case Some(h) => h }
                else node.chain;
    if head != [] then Some(head[0]) else None
  }

  /** The first covering route among those stored at path length `k` or more. */
  ghost function FirstFrom(rs: seq<Route>, dst: Address, k: nat): Option<Route> {
    if rs == [] then None
    else if Covers(rs[0], dst) && Level(rs[0].len) >= k then Some(rs[0])
    else FirstFrom(rs[1..], dst, k)
  }

  lemma {:induction false} FirstFromNone(rs: seq<Route>, dst: Address, k: nat)
    requires forall r | r in rs :: !(Covers(r, dst) && Level(r.len) >= k)
    ensures FirstFrom(rs, dst, k) == None
  {
    if rs == [] {
    } else {
      assert rs[0] in rs;
      FirstFromNone(rs[1..], dst, k);
    }
  }

  lemma {:induction false} FirstFromTwo(rs: seq<Route>, dst: Address)
    ensures FirstFrom(rs, dst, 2) == FirstMatch(rs, dst)
  {
    if rs == [] {
    } else {
      FirstFromTwo(rs[1..], dst);
    }
  }

  lemma {:induction false} InCellOfDst(r: Route, dst: Address, k: nat)
    requires k <= |dst|
    ensures InCell(r, dst[..k]) <==> Level(r.len) == k && Covers(r, dst)
  {
    if Level(r.len) == k && r.len <= 8 * |r.prefix| {
      forall i | 0 <= i < r.len
        ensures Bit(dst[..k], i) == Bit(dst, i)
      {
      }
    }
  }

  /** One level of the walk: the deeper levels go first, then the cell itself. */
  lemma {:induction false} DeeperFirst(rs: seq<Route>, dst: Address, k: nat)
    requires Sorted(rs) && k <= |dst|
    ensures var c := Cell(rs, dst[..k]);
            FirstFrom(rs, dst, k) ==
              if FirstFrom(rs, dst, k + 1).Some? then FirstFrom(rs, dst, k + 1)
              else if c != [] then Some(c[0]) else None
  {
    if rs == [] {
    } else {
      InCellOfDst(rs[0], dst, k);
      if InCell(rs[0], dst[..k]) {
        forall r | r in rs
          ensures Level(r.len) <= k
        {
          var i :| 0 <= i < |rs| && rs[i] == r;
        }
        FirstFromNone(rs, dst, k + 1);
      } else {
        DeeperFirst(rs[1..], dst, k);
        assert Cell(rs, dst[..k]) == Cell(rs[1..], dst[..k]);
      }
    }
  }

  lemma {:induction false} CoversBelow(r: Route, dst: Address, k: nat)
    requires 2 <= k <= |dst| && Covers(r, dst) && Level(r.len) > k
    ensures Below(r, dst[..k])
  {
    assert SamePrefix(r.prefix, dst, 8 * k);
    SameBytes(r.prefix, dst, k);
  }

  /** With no route below the cell of `dst`, no deeper route covers `dst`. */
  lemma {:induction false} NoneBelow(rs: seq<Route>, dst: Address, k: nat)
    requires k <= |dst| && k >= 2 && !AnyBelow(rs, dst[..k])
    ensures FirstFrom(rs, dst, k + 1) == None
  {
    forall r | r in rs
      ensures !(Covers(r, dst) && Level(r.len) >= k + 1)
    {
      if Covers(r, dst) && Level(r.len) >= k + 1 {
        CoversBelow(r, dst, k);
      }
    }
    FirstFromNone(rs, dst, k + 1);
  }

  ghost predicate HeadIs(head: Option<seq<Route>>, m: Option<Route>) {
    match head
    case None => m == None
    case Some(h) => h != [] && m == Some(h[0])
  }

  /** One cell of the walk, given what was found further down. */
  lemma {:induction false} WalkStep(rs: seq<Route>, dst: Address, k: nat, deeper: Option<seq<Route>>)
    requires Sorted(rs) && k <= |dst| && HeadIs(deeper, FirstFrom(rs, dst, k + 1))
    ensures var c := Cell(rs, dst[..k]);
            HeadIs(if deeper.None? && c != [] then Some(c) else deeper, FirstFrom(rs, dst, k))
  {
    DeeperFirst(rs, dst, k);
  }

  lemma {:induction false} ChildRep(parent: Node, dst: Address, k: nat, rs: seq<Route>)
    requires k < |dst| && Rep(parent, dst[..k], rs) && parent.next != []
    ensures |parent.next| == 256 && Rep(parent.next[dst[k]], dst[..k + 1], rs)
  {
    assert dst[..k + 1] == dst[..k] + [dst[k]];
  }

  lemma {:induction false} LookupBelowCorrect(dst: Address, parent: Node, k: nat, rs: seq<Route>)
    requires |dst| % 4 == 0 && 2 <= k <= |dst| && Sorted(rs)
    requires Rep(parent, dst[..k], rs) && parent.next != [] && Shape(parent, |dst| - k)
    ensures HeadIs(LookupBelow(dst, parent, k), FirstFrom(rs, dst, k + 1))
    decreases parent
  {
    hide FirstFrom, Cell, AnyBelow;
    ChildRep(parent, dst, k, rs);
    var node := parent.next[dst[k]];
    var deeper := if node.next != [] then LookupBelow(dst, node, k + 1) else None;
    if node.next != [] {
      LookupBelowCorrect(dst, node, k + 1, rs);
    } else {
      NoneBelow(rs, dst, k + 1);
    }
    WalkStep(rs, dst, k + 1, deeper);
  }

  /** The trie walk finds the route that the list scan finds. */
  lemma {:induction false} LookupCorrect(dst: Address, node: Node, rs: seq<Route>)
    requires |dst| % 4 == 0 && |dst| >= 4 && Sorted(rs) && Rep(node, dst[..2], rs) && Shape(node, |dst| - 2)
    ensures LookupFrom(dst, node) == FirstMatch(rs, dst)
  {
    var deeper := if node.next != [] then LookupBelow(dst, node, 2) else None;
    if node.next != [] {
      LookupBelowCorrect(dst, node, 2, rs);
    } else {
      NoneBelow(rs, dst, 2);
    }
    WalkStep(rs, dst, 2, deeper);
    FirstFromTwo(rs, dst);
  }

  lemma {:induction false} RootPathOf(dst: Address)
    requires |dst| >= 4
    ensures RootIndex(dst) < 65536 && RootPath(RootIndex(dst)) == dst[..2]
  {
    hide LpmIndex;
  }

  /** Lookup from the root cell of `dst` answers as a scan of the routing table would. */
  lemma {:induction false} LookupFromRoot(dst: Address, node: Node, rs: seq<Route>)
    requires |dst| >= 4 && Table(rs, |dst|) && Rep(node, dst[..2], rs)
    ensures Shape(node, |dst| - 2)
    ensures LookupFrom(dst, node) == FirstMatch(rs, dst) && IsLongestMatch(rs, dst, FirstMatch(rs, dst))
  {
    hide UniqueKeys, Sorted, LookupFrom, FirstMatch, IsLongestMatch, Rep, Shape;
    RepShape(node, dst[..2], rs, |dst|);
    LookupCorrect(dst, node, rs);
    FirstMatchIsLongest(rs, dst);
  }

  // ----- adding, one table at a time -----

  /** A cell of the range of `r` refuses `r` exactly when its key is in the routing table. */
  lemma {:induction false} CellAccepts(rs: seq<Route>, path: Address, r: Route)
    requires Sorted(rs) && InCell(r, path) && r.len <= 8 * |r.prefix|
    ensures Sorted(Cell(rs, path))
    ensures (exists e | e in Cell(rs, path) :: e.id == r.id && e.len == r.len) <==> Present(rs, r.prefix, r.len, r.id)
  {
    CellSorted(rs, path);
    CellIdentifies(rs, path, r.prefix, r.len, r.id);
  }

  lemma {:induction false} NextOrFresh(parent: Node, path: Address, rs: seq<Route>)
    requires |path| >= 2 && Rep(parent, path, rs)
    ensures var next := if parent.next == [] then seq(256, _ => EMPTY) else parent.next;
            |next| == 256 && forall b: byte :: Rep(next[b], path + [b], rs)
  {
    if parent.next == [] {
      forall b: byte
        ensures Rep(EMPTY, path + [b], rs)
      {
        FreshTable(path, b, rs);
      }
    }
  }

  /** The cells of a table that `r` does not reach. */
  predicate Apart(r: Route, path: Address) {
    !InCell(r, path) && !Below(r, path)
  }

  lemma {:induction false} ApartElsewhere(r: Route, k: nat, b: byte)
    requires 2 <= k && k + 1 < Level(r.len) && k < |r.prefix| && b != r.prefix[k]
    ensures Apart(r, r.prefix[..k] + [b])
  {
    assert (r.prefix[..k] + [b])[k] == b;
  }

  /** The cells of the aligned block hold `r`; it does not reach the others. */
  lemma {:induction false} ApartOutsideBlock(r: Route, k: nat)
    requires 2 <= k < |r.prefix| && 8 * k < r.len <= 8 * k + 8 && r.len <= 8 * |r.prefix|
    ensures Level(r.len) == k + 1 && Expansion(r.len) == Pow2(8 * k + 8 - r.len)
    ensures var base := AlignDown(r.prefix[k], Expansion(r.len));
            base + Expansion(r.len) <= 256 &&
            forall b: byte :: if base <= b < base + Expansion(r.len) then InCell(r, r.prefix[..k] + [b])
                              else Apart(r, r.prefix[..k] + [b])
  {
    BlockInTable(r.prefix, r.len, k);
  }

  /** With the key of `r` in the routing table, the table under the cell exists and is in use. */
  lemma {:induction false} TableInUse(parent: Node, path: Address, rs: seq<Route>, r: Route, width: nat)
    requires |path| >= 2 && Rep(parent, path, rs) && Below(r, path) && r.len <= 8 * |r.prefix|
    requires Present(rs, r.prefix, r.len, r.id) && AllFit(rs, width)
    ensures parent.next != [] && !AllEmpty(parent.next)
  {
    var k := |path|;
    var x :| x in rs && HasKey(x, r.prefix, r.len, r.id);
    assert SamePrefix(x.prefix, r.prefix, 8 * k);
    SameBytes(x.prefix, r.prefix, k);
    assert Below(x, path);
    PruneIsExact(parent.next, path, rs);
  }

  lemma {:induction false} AddedBelow(parent: Node, before: seq<Node>, after: seq<Node>, path: Address,
      rs: seq<Route>, r: Route)
    requires |path| >= 2 && Rep(parent, path, rs) && Sorted(rs) && Below(r, path)
    requires |before| == 256 && forall b: byte :: Rep(before[b], path + [b], rs)
    requires |after| == 256
    requires forall b: byte ::
      (Apart(r, path + [b]) && after[b] == before[b]) || Rep(after[b], path + [b], Insert(rs, r))
    ensures Rep(Node(parent.chain, after), path, Insert(rs, r))
  {
    CellInsert(rs, r, path);
    InsertMembers(rs, r);
    forall b: byte
      ensures Rep(after[b], path + [b], Insert(rs, r))
    {
      if Apart(r, path + [b]) && after[b] == before[b] {
        FrameInsert(before[b], path + [b], rs, r);
      }
    }
  }

  // ----- deleting, one table at a time -----

  /** A route lies in the cells that its key selects. */
  lemma {:induction false} KeyCells(x: Route, prefix: Address, len: nat, id: int, path: Address)
    requires HasKey(x, prefix, len, id)
    ensures InCell(x, path) <==> |path| == Level(len) && len <= 8 * |path| && SamePrefix(prefix, path, len)
  {
    if |path| == Level(len) && len <= 8 * |path| {
      forall i | 0 <= i < len
        ensures Bit(x.prefix, i) == Bit(prefix, i)
      {
      }
    }
  }

  lemma {:induction false} KeyBytes(x: Route, prefix: Address, len: nat, id: int, k: nat)
    requires HasKey(x, prefix, len, id) && 8 * k <= len
    ensures x.prefix[..k] == prefix[..k]
  {
    assert SamePrefix(x.prefix, prefix, 8 * k);
    SameBytes(x.prefix, prefix, k);
  }

  lemma {:induction false} KeyBelow(x: Route, prefix: Address, len: nat, id: int, k: nat)
    requires HasKey(x, prefix, len, id) && 2 <= k < Level(len)
    ensures k <= |prefix| && Below(x, prefix[..k])
  {
    KeyBytes(x, prefix, len, id, k);
  }

  /** In a cell of the range of a key, (id, length) finds the holder of the key or nothing. */
  lemma {:induction false} CellHolds(rs: seq<Route>, path: Address, prefix: Address, len: nat, id: int, x: Route)
    requires UniqueKeys(rs) && len <= 8 * |prefix|
    requires |path| == Level(len) && len <= 8 * |path| && SamePrefix(prefix, path, len)
    requires Present(rs, prefix, len, id) ==> x in rs && HasKey(x, prefix, len, id)
    ensures (exists e | e in Cell(rs, path) :: e.id == id && e.len == len) <==> Present(rs, prefix, len, id)
    ensures forall e | e in Cell(rs, path) && e.id == id && e.len == len :: e == x
    ensures Present(rs, prefix, len, id) ==> InCell(x, path)
  {
    CellIdentifies(rs, path, prefix, len, id);
    forall e | e in Cell(rs, path) && e.id == id && e.len == len
      ensures e == x
    {
      assert Present(rs, prefix, len, id);
      UniqueHolder(rs, e, x, prefix, len, id);
    }
    if Present(rs, prefix, len, id) {
      KeyCells(x, prefix, len, id, path);
    }
  }

  lemma {:induction false} KeyApartElsewhere(x: Route, prefix: Address, len: nat, id: int, k: nat, b: byte)
    requires HasKey(x, prefix, len, id) && 2 <= k && 8 * k + 8 < len && b != prefix[k]
    ensures Apart(x, prefix[..k] + [b])
  {
    KeyBytes(x, prefix, len, id, k + 1);
    assert x.prefix[..k + 1][..k] == x.prefix[..k] && prefix[..k + 1][..k] == prefix[..k];
    assert x.prefix[..k + 1][k] == prefix[..k + 1][k];
    ApartElsewhere(x, k, b);
  }

  lemma {:induction false} KeyApartOutsideBlock(x: Route, prefix: Address, len: nat, id: int, k: nat, b: byte)
    requires HasKey(x, prefix, len, id) && 2 <= k < |prefix| && 8 * k < len <= 8 * k + 8
    requires !SamePrefix(prefix, prefix[..k] + [b], len)
    ensures Apart(x, prefix[..k] + [b])
  {
    KeyCells(x, prefix, len, id, prefix[..k] + [b]);
  }

  /** With no table under the cell, no key is stored below it. */
  lemma {:induction false} NoKeyBelow(prefix: Address, len: nat, id: int, k: nat, rs: seq<Route>)
    requires 2 <= k < Level(len) && k <= |prefix| && !AnyBelow(rs, prefix[..k])
    ensures !Present(rs, prefix, len, id)
  {
    forall x | x in rs
      ensures !HasKey(x, prefix, len, id)
    {
      if HasKey(x, prefix, len, id) {
        KeyBytes(x, prefix, len, id, k);
      }
    }
  }

  /** A table without the route, pruned if that leaves it empty. */
  lemma {:induction false} DeletedBelow(parent: Node, after: seq<Node>, path: Address, rs: seq<Route>, x: Route,
      width: nat)
    requires |path| >= 2 && Rep(parent, path, rs) && Table(rs, width) && Below(x, path) && parent.next != []
    requires |after| == 256
    requires forall b: byte ::
      (Apart(x, path + [b]) && after[b] == parent.next[b]) || Rep(after[b], path + [b], Remove(rs, x))
    ensures Rep(Node(parent.chain, if AllEmpty(after) then [] else after), path, Remove(rs, x))
  {
    hide UniqueKeys, Sorted;
    CellRemove(rs, x, path);
    RemoveMembers(rs, x);
    forall b: byte
      ensures Rep(after[b], path + [b], Remove(rs, x))
    {
      if Apart(x, path + [b]) && after[b] == parent.next[b] {
        FrameRemove(parent.next[b], path + [b], rs, x, width);
      }
    }
    PruneIsExact(after, path, Remove(rs, x));
  }

  // ----- the root table -----

  lemma {:induction false} RootPathsDiffer(i: nat, j: nat)
    requires i < 65536 && j < 65536 && RootPath(i) == RootPath(j)
    ensures i == j
  {
    assert RootPath(i)[0] == RootPath(j)[0] && RootPath(i)[1] == RootPath(j)[1];
  }

  lemma {:induction false} RootAdded(before: seq<Node>, after: seq<Node>, rs: seq<Route>, r: Route)
    requires |before| == 65536 && |after| == 65536 && Sorted(rs)
    requires forall i: nat | i < 65536 :: Rep(before[i], RootPath(i), rs)
    requires forall i: nat | i < 65536 ::
      (Apart(r, RootPath(i)) && after[i] == before[i]) || Rep(after[i], RootPath(i), Insert(rs, r))
    ensures forall i: nat | i < 65536 :: Rep(after[i], RootPath(i), Insert(rs, r))
  {
    forall i: nat | i < 65536
      ensures Rep(after[i], RootPath(i), Insert(rs, r))
    {
      if Apart(r, RootPath(i)) && after[i] == before[i] {
        FrameInsert(before[i], RootPath(i), rs, r);
      }
    }
  }

  lemma {:induction false} RootDeleted(before: seq<Node>, after: seq<Node>, rs: seq<Route>, x: Route, width: nat)
    requires |before| == 65536 && |after| == 65536 && Table(rs, width)
    requires forall i: nat | i < 65536 :: Rep(before[i], RootPath(i), rs)
    requires forall i: nat | i < 65536 ::
      (Apart(x, RootPath(i)) && after[i] == before[i]) || Rep(after[i], RootPath(i), Remove(rs, x))
    ensures forall i: nat | i < 65536 :: Rep(after[i], RootPath(i), Remove(rs, x))
  {
    forall i: nat | i < 65536
      ensures Rep(after[i], RootPath(i), Remove(rs, x))
    {
      if Apart(x, RootPath(i)) && after[i] == before[i] {
        FrameRemove(before[i], RootPath(i), rs, x, width);
      }
    }
  }

  lemma {:induction false} RootBlock(prefix: Address, len: nat)
    requires |prefix| >= 4 && len <= 16
    ensures Level(len) == 2 && Expansion(len) == Pow2(16 - len)
    ensures var base := AlignDown(RootIndex(prefix), Expansion(len));
            base + Expansion(len) <= 65536 &&
            forall i: nat | i < 65536 :: base <= i < base + Expansion(len) <==> SamePrefix(prefix, RootPath(i), len)
  {
    hide RootIndex;
    BlockInRoot(prefix, len);
  }

  /** A route longer than 16 bits reaches one root cell. */
  lemma {:induction false} ApartRootElsewhere(x: Route, prefix: Address, len: nat, id: int, i: nat)
    requires HasKey(x, prefix, len, id) && |prefix| >= 4 && len > 16 && i < 65536 && i != RootIndex(prefix)
    ensures Apart(x, RootPath(i))
  {
    hide RootIndex;
    RootPathOf(prefix);
    KeyBytes(x, prefix, len, id, 2);
    if RootPath(i) == prefix[..2] {
      RootPathsDiffer(i, RootIndex(prefix));
    }
  }

  /** A route of at most 16 bits reaches an aligned block of root cells. */
  lemma {:induction false} ApartOutsideRootBlock(x: Route, prefix: Address, len: nat, id: int)
    requires HasKey(x, prefix, len, id) && |prefix| >= 4 && len <= 16
    ensures Level(len) == 2 && Expansion(len) == Pow2(16 - len)
    ensures var base := AlignDown(RootIndex(prefix), Expansion(len));
            base + Expansion(len) <= 65536 &&
            forall i: nat | i < 65536 ::
              if base <= i < base + Expansion(len) then SamePrefix(prefix, RootPath(i), len) && InCell(x, RootPath(i))
              else Apart(x, RootPath(i))
  {
    hide RootIndex;
    RootBlock(prefix, len);
    forall i: nat | i < 65536
      ensures InCell(x, RootPath(i)) <==> SamePrefix(prefix, RootPath(i), len)
    {
      KeyCells(x, prefix, len, id, RootPath(i));
    }
  }
}
