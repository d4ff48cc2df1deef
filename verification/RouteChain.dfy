/** The chain of a trie cell at the level of its list pointers. Inserting and deleting an
    entry here does to the list what the trie model does to a sequence. */
module RouteChain {
  import opened Hlist
  import opened Routes

  /** Walks the chain: stops at an entry with the id and length of `r`, else finds the last
      entry with a longer prefix. The first `k` entries are the longer ones. */
  method FindPrior(head: Head<Route>, r: Route, ghost s: seq<Node<Route>>)
    returns (ok: bool, prior: Node?<Route>, ghost k: nat)
    requires Spells(head, s) && Sorted(Data(s))
    ensures ok <==> forall e | e in Data(s) :: !Identifies(e, r.id, r.len)
    ensures ok ==> k <= |s| && prior == NextOf(s, k - 1)
    ensures ok ==> forall j | 0 <= j < k :: s[j].data.len > r.len
    ensures ok ==> forall j | k <= j < |s| :: s[j].data.len <= r.len
  {
    prior := null;
    k := 0;
    ghost var i := 0;
    var e := head.first;
    while e != null
      invariant 0 <= k <= i <= |s| && e == NextOf(s, i) && prior == NextOf(s, k - 1)
      invariant forall j | 0 <= j < i :: !Identifies(s[j].data, r.id, r.len)
      invariant forall j | 0 <= j < k :: s[j].data.len > r.len
      invariant forall j | k <= j < i :: s[j].data.len <= r.len
      decreases |s| - i
    {
      if Identifies(e.data, r.id, r.len) {
        assert e.data == Data(s)[i];
        return false, null, 0;
      }
      assert forall j | k <= j < i :: Data(s)[j].len >= Data(s)[i].len;
      if e.data.len > r.len {
        prior := e;
        k := i + 1;
      }
      e := e.next;
      i := i + 1;
    }
    ok := true;
  }

  /** Hooks an entry into the chain behind the entries with longer prefixes, unless one with
      its id and length is there already. */
  method EntryInsert(head: Head<Route>, entry: Node<Route>, ghost s: seq<Node<Route>>)
    returns (ok: bool, ghost t: seq<Node<Route>>)
    requires Spells(head, s) && entry !in s && Sorted(Data(s))
    modifies head, entry, s
    ensures Spells(head, t)
    ensures ok <==> forall e | e in Data(s) :: !Identifies(e, entry.data.id, entry.data.len)
    ensures ok ==> Data(t) == Insert(Data(s), entry.data) && forall x :: x in t <==> x in s || x == entry
    ensures !ok ==> t == s
  {
    hide Spells, Sorted, Insert, Hlist.InsertAt;
    var prior;
    ghost var k;
    ok, prior, k := FindPrior(head, entry.data, s);
    if !ok {
      return false, s;
    }
    t := Hlist.InsertAt(s, k, entry);
    InsertedBehind(s, k, entry);
    if prior != null {
      AddAfter(prior, entry, head, s, k - 1);
    } else {
      AddFirst(head, entry, s);
    }
  }

  lemma {:induction false} InsertedBehind(s: seq<Node<Route>>, k: nat, x: Node<Route>)
    requires k <= |s|
    requires forall j | 0 <= j < k :: s[j].data.len > x.data.len
    requires forall j | k <= j < |s| :: s[j].data.len <= x.data.len
    ensures Data(Hlist.InsertAt(s, k, x)) == Insert(Data(s), x.data)
    ensures forall y :: y in Hlist.InsertAt(s, k, x) <==> y in s || y == x
  {
    var t := Hlist.InsertAt(s, k, x);
    InsertAfterPrior(Data(s), x.data, k);
    assert Data(t) == Data(s)[..k] + [x.data] + Data(s)[k..];
  }

  /** Unhooks the first entry with the given id and length. */
  method EntryDelete(head: Head<Route>, id: int, len: nat, ghost s: seq<Node<Route>>)
    returns (ok: bool, gone: Node?<Route>, ghost t: seq<Node<Route>>)
    requires Spells(head, s)
    modifies head, s
    ensures Spells(head, t)
    ensures ok <==> exists e | e in Data(s) :: Identifies(e, id, len)
    ensures ok ==> gone != null && gone in s && Identifies(gone.data, id, len) && Data(t) == Remove(Data(s), gone.data)
    ensures !ok ==> t == s
    ensures forall x | x in t :: x in s
  {
    ghost var i := 0;
    var e := head.first;
    while e != null
      invariant 0 <= i <= |s| && e == NextOf(s, i) && Spells(head, s)
      invariant forall j | 0 <= j < i :: !Identifies(s[j].data, id, len)
      decreases |s| - i
    {
      if Identifies(e.data, id, len) {
        assert Data(s)[i] == e.data;
        RemoveFirstAt(Data(s), i);
        t := Hlist.RemoveAt(s, i);
        assert Data(t) == Data(s)[..i] + Data(s)[i + 1..];
        Del(e, head, s, i);
        return true, e, t;
      }
      e := e.next;
      i := i + 1;
    }
    return false, null, s;
  }
}
