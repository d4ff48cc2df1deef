/** The list with a single-pointer head. The `prev` field of a node designates the location
    that points at the node: the `first` field of the head or the `next` field of a node. */
module Hlist {

  class Head<T> {
    var first: Node?<T>

    constructor ()
      ensures first == null
    {
      first := null;
    }
  }

  class Node<T> {
    var next: Node?<T>
    var prev: Loc<T>
    const data: T

    constructor (data: T, somewhere: Loc<T>)
      ensures this.data == data
    {
      this.data := data;
      next := null;
      prev := somewhere;
    }
  }

  datatype Loc<!T> = AtFirst(head: Head<T>) | AtNext(node: Node<T>)

  /** What the node at index `i` has to point to, and where it has to be pointed at from. */
  ghost function NextOf<T>(s: seq<Node<T>>, i: int): Node?<T> {
    if 0 <= i < |s| then s[i] else null
  }

  ghost function PrevOf<T>(head: Head<T>, s: seq<Node<T>>, i: nat): Loc<T>
    requires i <= |s|
  {
    if i == 0 then AtFirst(head) else AtNext(s[i - 1])
  }

  /** The list under `head` is the sequence `s`: following `next` spells it, every `prev`
      designates the location that points at its node, and no node occurs twice. */
  ghost predicate Spells<T>(head: Head<T>, s: seq<Node<T>>)
    reads head, s
  {
    head.first == NextOf(s, 0)
    && (forall i {:trigger s[i].next} | 0 <= i < |s| :: s[i].next == NextOf(s, i + 1))
    && (forall i {:trigger s[i].prev} | 0 <= i < |s| :: s[i].prev == PrevOf(head, s, i))
    && forall i, j | 0 <= i < j < |s| :: s[i] != s[j]
  }

  function InsertAt<X>(s: seq<X>, k: nat, x: X): (t: seq<X>)
    requires k <= |s|
    ensures |t| == |s| + 1 && t[k] == x
    ensures forall i | 0 <= i < k :: t[i] == s[i]
    ensures forall i | k < i < |t| :: t[i] == s[i - 1]
  {
    s[..k] + [x] + s[k..]
  }

  function RemoveAt<X>(s: seq<X>, k: nat): (t: seq<X>)
    requires k < |s|
    ensures |t| == |s| - 1
    ensures forall i | 0 <= i < k :: t[i] == s[i]
    ensures forall i | k <= i < |t| :: t[i] == s[i + 1]
  {
    s[..k] + s[k + 1..]
  }

  /** The data of the nodes, in order. */
  function Data<T>(s: seq<Node<T>>): (d: seq<T>)
    ensures |d| == |s| && forall i | 0 <= i < |s| :: d[i] == s[i].data
  {
    seq(|s|, i requires 0 <= i < |s| => s[i].data)
  }

  /** Stores a pointer at a location. */
  method Assign<T>(loc: Loc<T>, to: Node?<T>)
    modifies match loc { case AtFirst(h) => {h as object} case AtNext(n) => {n} }
    ensures match loc
            case AtFirst(h) => h.first == to
            case AtNext(n) => n.next == to && n.prev == old(n.prev)
  {
    match loc
    case AtFirst(h) => h.first := to;
    case AtNext(n) => n.next := to;
  }

  method AddFirst<T>(head: Head<T>, new': Node<T>, ghost s: seq<Node<T>>)
    requires Spells(head, s) && new' !in s
    modifies head, new', s
    ensures Spells(head, InsertAt(s, 0, new'))
  {
    new'.next := head.first;
    new'.prev := AtFirst(head);
    if head.first != null {
      head.first.prev := AtNext(new');
    }
    head.first := new';
  }

  /** Inserting a new node keeps the nodes apart. */
  lemma {:induction false} InsertedApart<T>(s: seq<Node<T>>, k: nat, x: Node<T>)
    requires k <= |s| && x !in s && forall i, j | 0 <= i < j < |s| :: s[i] != s[j]
    ensures var t := InsertAt(s, k, x); forall i, j | 0 <= i < j < |t| :: t[i] != t[j]
  {
    hide InsertAt;
    var t := InsertAt(s, k, x);
    forall i, j | 0 <= i < j < |t| ensures t[i] != t[j] {
      assert i != k ==> t[i] in s;
      assert j != k ==> t[j] in s;
    }
  }

  method AddAfter<T>(node: Node<T>, new': Node<T>, ghost head: Head<T>, ghost s: seq<Node<T>>, ghost k: nat)
    requires Spells(head, s) && new' !in s && k < |s| && s[k] == node
    modifies new', s
    ensures Spells(head, InsertAt(s, k + 1, new'))
  {
    hide InsertAt;
    ghost var t := InsertAt(s, k + 1, new');
    InsertedApart(s, k + 1, new');
    new'.next := node.next;
    new'.prev := AtNext(node);
    if new'.next != null {
      new'.next.prev := AtNext(new');
    }
    node.next := new';
    forall i | 0 <= i < |t| ensures t[i].next == NextOf(t, i + 1) {
      assert i != k + 1 ==> t[i] == s[if i <= k then i else i - 1];
    }
    forall i | 0 <= i < |t| ensures t[i].prev == PrevOf(head, t, i) {
      assert i != k + 1 ==> t[i] == s[if i <= k then i else i - 1];
    }
  }

  method AddBefore<T>(node: Node<T>, new': Node<T>, ghost head: Head<T>, ghost s: seq<Node<T>>, ghost k: nat)
    requires Spells(head, s) && new' !in s && k < |s| && s[k] == node
    modifies head, new', s
    ensures Spells(head, InsertAt(s, k, new'))
  {
    hide InsertAt;
    ghost var t := InsertAt(s, k, new');
    InsertedApart(s, k, new');
    new'.next := node;
    new'.prev := node.prev;
    node.prev := AtNext(new');
    assert new'.prev == PrevOf(head, s, k);
    Assign(new'.prev, new');
    forall i | 0 <= i < |t| ensures t[i].next == NextOf(t, i + 1) {
      assert i != k ==> t[i] == s[if i < k then i else i - 1];
    }
    forall i | 0 <= i < |t| ensures t[i].prev == PrevOf(head, t, i) {
      assert i != k ==> t[i] == s[if i < k then i else i - 1];
    }
  }

  /** The links of the nodes of `s`, and the head, after the node at `k` has been unhooked. */
  ghost predicate Unhooked<T>(head: Head<T>, s: seq<Node<T>>, k: nat)
    requires k < |s|
    reads head, s
  {
    head.first == (if k == 0 then NextOf(s, 1) else NextOf(s, 0))
    && (forall i {:trigger s[i].next} | 0 <= i < |s| && i != k ::
          s[i].next == if i + 1 == k then NextOf(s, k + 1) else NextOf(s, i + 1))
    && (forall i {:trigger s[i].prev} | 0 <= i < |s| && i != k ::
          s[i].prev == if i == k + 1 then PrevOf(head, s, k) else PrevOf(head, s, i))
  }

  lemma {:induction false} UnhookedSpells<T>(head: Head<T>, s: seq<Node<T>>, k: nat)
    requires k < |s| && Unhooked(head, s, k) && forall i, j | 0 <= i < j < |s| :: s[i] != s[j]
    ensures Spells(head, RemoveAt(s, k))
  {
    hide RemoveAt;
    var t := RemoveAt(s, k);
    forall i | 0 <= i < |t| ensures t[i].next == NextOf(t, i + 1) && t[i].prev == PrevOf(head, t, i) {
      assert t[i] == s[if i < k then i else i + 1];
    }
  }

  method Del<T>(node: Node<T>, ghost head: Head<T>, ghost s: seq<Node<T>>, ghost k: nat)
    requires Spells(head, s) && k < |s| && s[k] == node
    modifies head, s
    ensures Spells(head, RemoveAt(s, k))
  {
    hide RemoveAt;
    if node.next != null {
      node.next.prev := node.prev;
    }
    assert node.prev == PrevOf(head, s, k);
    Assign(node.prev, node.next);
    UnhookedSpells(head, s, k);
  }

  lemma {:induction false} FirstTwo<T>(head: Head<T>, s: seq<Node<T>>)
    requires Spells(head, s)
    ensures head.first == NextOf(s, 0) && (s != [] ==> s[0].next == NextOf(s, 1))
  {
  }

  /** The traversal that may delete the node it stands on, deleting every one: each node is
      visited once, in order, and the list ends up empty. */
  method DeleteAll<T>(head: Head<T>, ghost s: seq<Node<T>>) returns (visited: seq<Node<T>>)
    requires Spells(head, s)
    modifies head, s
    ensures visited == s && Spells(head, [])
  {
    hide Spells, RemoveAt;
    FirstTwo(head, s);
    assert s[0..] == s;
    visited := [];
    var data := head.first;
    var temp: Node?<T> := null;
    if data != null {
      temp := data.next;
    }
    while data != null
      invariant |visited| <= |s| && visited == s[..|visited|]
      invariant Spells(head, s[|visited|..])
      invariant data == NextOf(s, |visited|) && (data != null ==> temp == NextOf(s, |visited| + 1))
      decreases |s| - |visited|
    {
      ghost var rest := s[|visited|..];
      Del(data, head, rest, 0);
      assert RemoveAt(rest, 0) == s[|visited| + 1..];
      visited := visited + [data];
      data := temp;
      if data != null {
        FirstTwo(head, s[|visited|..]);
        temp := data.next;
      }
    }
    assert s[|visited|..] == [];
  }
}
