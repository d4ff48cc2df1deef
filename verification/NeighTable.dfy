/** The neighbour table: chained hash buckets that behave like a finite map from addresses
    to MAC addresses. */
module NeighTable {
  import opened Hlist
  import opened Options
  import Addresses

  const BUCKETS := 65536

  /** An IPv4 address as one 32-bit word, or an IPv6 address as two 64-bit words. */
  datatype Key = V4(word: nat) | V6(first: nat, second: nat)

  datatype Entry = Entry(key: Key, mac: seq<nat>)

  /** Multiplicative hashing; the top sixteen bits of the product select the bucket. */
  function Hash(key: Key): (h: nat)
    ensures h < BUCKETS
  {
    match key
    case V4(w) => w * 0x9e37_0001 % 0x1_0000_0000 / 0x1_0000
    case V6(a, b) =>
      var h := a * b % 0x1_0000_0000_0000_0000;
      h * 0x9e37_ffff_fffc_0001 % 0x1_0000_0000_0000_0000 / 0x1_0000_0000_0000
  }

  /** The hash is bits 16 to 31 of the product with the 32-bit constant, or bits 48 to 63 of the
      product with the 64-bit constant: `low` is what lies below them, `high` what is cut off. */
  lemma {:induction false} HashIsTopBits(key: Key) returns (high: nat, low: nat)
    ensures match key
            case V4(w) => low < 0x1_0000 && w * 0x9e37_0001 == 0x1_0000_0000 * high + 0x1_0000 * Hash(key) + low
            case V6(a, b) =>
              low < 0x1_0000_0000_0000 &&
              a * b * 0x9e37_ffff_fffc_0001 ==
                0x1_0000_0000_0000_0000 * high + 0x1_0000_0000_0000 * Hash(key) + low
  {
    match key
    case V4(w) =>
      high, low := TopBits(w * 0x9e37_0001, 0x1_0000, 0x1_0000_0000);
    case V6(a, b) =>
      var q := a * b / 0x1_0000_0000_0000_0000;
      var h := a * b % 0x1_0000_0000_0000_0000;
      high, low := TopBits(h * 0x9e37_ffff_fffc_0001, 0x1_0000_0000_0000, 0x1_0000_0000_0000_0000);
      assert a * b == 0x1_0000_0000_0000_0000 * q + h;
      high := high + q * 0x9e37_ffff_fffc_0001;
  }

  lemma {:induction false} TopBits(x: nat, m: nat, n: nat) returns (high: nat, low: nat)
    requires m >= 1 && n >= 1
    ensures low < m && x == n * high + m * (x % n / m) + low
  {
    high, low := x / n, x % n % m;
    var r := x % n;
    assert x == n * high + r && r == m * (r / m) + low;
  }

  /** The position of a key in a chain. */
  predicate At(chain: seq<Entry>, key: Key, i: nat) {
    i < |chain| && chain[i].key == key
  }

  /** Every entry sits in the bucket of its key, no key occurs twice, and the entries are
      those of the map. */
  ghost predicate Stored(h: seq<seq<Entry>>, m: map<Key, seq<nat>>) {
    |h| == BUCKETS
    && (forall b: nat, i: nat | b < BUCKETS && i < |h[b]| ::
          Hash(h[b][i].key) == b && h[b][i].key in m && m[h[b][i].key] == h[b][i].mac)
    && (forall b: nat, i: nat, j: nat | b < BUCKETS && i < j < |h[b]| :: h[b][i].key != h[b][j].key)
    && forall k | k in m :: exists i: nat :: At(h[Hash(k)], k, i)
  }

  lemma {:induction false} StoredAdd(h: seq<seq<Entry>>, m: map<Key, seq<nat>>, key: Key, mac: seq<nat>)
    requires Stored(h, m) && key !in m
    ensures var b := Hash(key);
            Stored(h[b := [Entry(key, mac)] + h[b]], m[key := mac])
  {
    hide Hash;
    var b := Hash(key);
    var h', m' := h[b := [Entry(key, mac)] + h[b]], m[key := mac];
    forall k | k in m' ensures exists i: nat :: At(h'[Hash(k)], k, i) {
      if k == key {
        assert At(h'[b], k, 0);
      } else {
        var i: nat :| At(h[Hash(k)], k, i);
        assert At(h'[Hash(k)], k, if Hash(k) == b then i + 1 else i);
      }
    }
  }

  lemma {:induction false} StoredDelete(h: seq<seq<Entry>>, m: map<Key, seq<nat>>, key: Key, n: nat)
    requires Stored(h, m) && At(h[Hash(key)], key, n)
    ensures var b := Hash(key);
            Stored(h[b := h[b][..n] + h[b][n + 1..]], m - {key})
  {
    hide Hash;
    var b := Hash(key);
    var h', m' := h[b := h[b][..n] + h[b][n + 1..]], m - {key};
    forall k | k in m' ensures exists i: nat :: At(h'[Hash(k)], k, i) {
      var i: nat :| At(h[Hash(k)], k, i);
      assert At(h'[Hash(k)], k, if Hash(k) == b && i > n then i - 1 else i);
    }
  }

  /** The buckets without the entries of bucket `b` store the map without the keys of that bucket. */
  lemma {:induction false} StoredClear(h: seq<seq<Entry>>, m: map<Key, seq<nat>>, b: nat)
    requires Stored(h, m) && b < BUCKETS
    ensures Stored(h[b := []], Without(m, b))
  {
    hide Hash;
    var h', m' := h[b := []], Without(m, b);
    forall k | k in m' ensures exists i: nat :: At(h'[Hash(k)], k, i) {
      var i: nat :| At(h[Hash(k)], k, i);
      assert At(h'[Hash(k)], k, i);
    }
  }

  ghost function Without(m: map<Key, seq<nat>>, b: nat): map<Key, seq<nat>> {
    map k | k in m && Hash(k) != b :: m[k]
  }

  /** The family of addresses that a key stands for. */
  function FamilyOf(key: Key): Addresses.Family {
    if key.V4? then Addresses.INET else Addresses.INET6
  }

  class Table {
    /** The list heads of the buckets. */
    const head: array<Head<Entry>>
    /** The nodes of each bucket in order, and all of them. */
    ghost var chains: seq<seq<Node<Entry>>>
    ghost var nodes: set<Node<Entry>>
    ghost var m: map<Key, seq<nat>>

    ghost function Entries(): (h: seq<seq<Entry>>)
      reads this
      ensures |h| == |chains| && forall b | 0 <= b < |h| :: h[b] == Data(chains[b])
    {
      seq(|chains|, b requires 0 <= b < |chains| reads this => Data(chains[b]))
    }

    /** Every bucket is a proper list, and no two buckets share a head. */
    ghost predicate Linked()
      reads this, head, head[..], nodes
    {
      head.Length == |chains| == BUCKETS
      && (forall b, c | 0 <= b < c < BUCKETS :: head[b] != head[c])
      && (forall b, x | 0 <= b < BUCKETS && x in chains[b] :: x in nodes)
      && forall b | 0 <= b < BUCKETS :: Spells(head[b], chains[b])
    }

    ghost predicate Valid()
      reads this, head, head[..], nodes
    {
      Linked() && Stored(Entries(), m)
    }

    constructor ()
      ensures Valid() && m == map[] && fresh(head) && fresh(head[..]) && nodes == {}
    {
      var heads := NewHeads();
      head := heads;
      chains := seq(BUCKETS, _ => []);
      nodes := {};
      m := map[];
    }

    static method NewHeads() returns (heads: array<Head<Entry>>)
      ensures fresh(heads) && heads.Length == BUCKETS
      ensures forall b | 0 <= b < BUCKETS :: fresh(heads[b]) && heads[b].first == null
      ensures forall b, c | 0 <= b < c < BUCKETS :: heads[b] != heads[c]
    {
      var first := new Head<Entry>();
      heads := new Head<Entry>[BUCKETS](_ => first);
      for i := 0 to BUCKETS
        invariant forall b | 0 <= b < BUCKETS :: fresh(heads[b])
        invariant forall b | 0 <= b < i :: heads[b].first == null && heads[b] != first
        invariant forall b, c | 0 <= b < c < i :: heads[b] != heads[c]
      {
        heads[i] := new Head<Entry>();
      }
    }

    /** Nodes of different buckets are different: their keys have different hashes. */
    lemma {:induction false} ChainsApart(b: nat)
      requires Valid() && b < BUCKETS == |chains|
      ensures forall c, x | 0 <= c < BUCKETS && c != b && x in chains[c] :: x !in chains[b]
    {
      hide Hash, Spells;
      forall c: nat, x | c < BUCKETS && c != b && x in chains[c]
        ensures x !in chains[b]
      {
        HashOfNode(c, x);
        if x in chains[b] {
          HashOfNode(b, x);
        }
      }
    }

    lemma {:induction false} HashOfNode(b: nat, x: Node<Entry>)
      requires Valid() && b < BUCKETS == |chains| && x in chains[b]
      ensures Hash(x.data.key) == b
    {
      hide Hash, Spells;
      var i :| 0 <= i < |chains[b]| && chains[b][i] == x;
      assert Entries()[b][i] == x.data;
    }

    /** The node of a key in its bucket, if it is there. */
    method Find(key: Key) returns (node: Node?<Entry>, ghost i: nat)
      requires Valid()
      ensures node != null <==> key in m
      ensures |chains| == BUCKETS && (node != null ==> i < |chains[Hash(key)]| && chains[Hash(key)][i] == node)
      ensures node != null ==> At(Entries()[Hash(key)], key, i)
    {
      hide Hash;
      ghost var chain := chains[Hash(key)];
      assert Spells(head[Hash(key)], chain);
      node := head[Hash(key)].first;
      i := 0;
      while node != null
        invariant i <= |chain| && node == NextOf(chain, i) && forall j: nat | j < i :: chain[j].data.key != key
        decreases |chain| - i
      {
        if node.data.key == key {
          assert At(Entries()[Hash(key)], key, i);
          return;
        }
        node := node.next;
        i := i + 1;
      }
      NotThere(Entries(), m, key);
    }

    method Lookup(key: Key) returns (mac: Option<seq<nat>>)
      requires Valid()
      ensures mac == if key in m then Some(m[key]) else None
    {
      hide Hash, Spells;
      var node, i := Find(key);
      mac := if node != null then Some(node.data.mac) else None;
      if node != null {
        assert Entries()[Hash(key)][i] == node.data;
      }
    }

    /** Notes that bucket `b` now spells `chain`. */
    ghost method Note(b: nat, chain: seq<Node<Entry>>, was: seq<seq<Node<Entry>>>, now: map<Key, seq<nat>>)
      requires head.Length == |was| == BUCKETS && b < BUCKETS && chains == was
      requires forall i, j | 0 <= i < j < BUCKETS :: head[i] != head[j]
      requires forall c, x | 0 <= c < BUCKETS && x in was[c] :: x in nodes
      requires forall c | 0 <= c < BUCKETS && c != b :: Spells(head[c], was[c])
      requires Spells(head[b], chain) && Stored(Entries()[b := Data(chain)], now)
      modifies this
      ensures Valid() && m == now && chains == was[b := chain]
      ensures Entries() == old(Entries())[b := Data(chain)]
      ensures nodes == old(nodes) + set x | x in chain
    {
      hide Spells, Stored, Data;
      ghost var h := Entries();
      chains := was[b := chain];
      nodes := nodes + set x | x in chain;
      m := now;
      assert Entries() == h[b := Data(chain)];
    }

    /** A key that is present is refused and keeps its MAC address, and so is an unknown family. */
    method Add(family: Addresses.Family, key: Key, mac: seq<nat>) returns (ok: bool)
      requires Valid() && (family != Addresses.OTHER ==> family == FamilyOf(key))
      modifies this, head[..], nodes
      ensures Valid() && (ok <==> family != Addresses.OTHER && key !in old(m))
      ensures m == if ok then old(m)[key := mac] else old(m)
      ensures !ok ==> chains == old(chains)
      ensures |old(Entries())| == BUCKETS
      ensures ok ==> Entries() == old(Entries())[Hash(key) := [Entry(key, mac)] + old(Entries())[Hash(key)]]
      ensures fresh(nodes - old(nodes))
    {
      hide Hash, Stored, Data;
      if family == Addresses.OTHER {
        return false;
      }
      var found, _ := Find(key);
      if found != null {
        return false;
      }
      var b := Hash(key);
      StoredAdd(Entries(), m, key, mac);
      ChainsApart(b);
      ghost var was := chains;
      var entry := new Node(Entry(key, mac), AtFirst(head[b]));
      AddFirst(head[b], entry, chains[b]);
      ghost var chain := Hlist.InsertAt(was[b], 0, entry);
      InsertedData(was[b], entry);
      forall c | 0 <= c < BUCKETS && c != b ensures Spells(head[c], was[c]) {
        forall x: Node<Entry> | x in was[c] ensures x.next == old(x.next) && x.prev == old(x.prev) {
          assert x !in was[b];
        }
      }
      Note(b, chain, was, m[key := mac]);
      ok := true;
    }

    /** A key that is present loses its entry, at position `n` of its bucket. */
    method Delete(key: Key) returns (ok: bool, ghost n: nat)
      requires Valid()
      modifies this, head[..], nodes
      ensures Valid() && (ok <==> key in old(m))
      ensures m == if ok then old(m) - {key} else old(m)
      ensures !ok ==> chains == old(chains)
      ensures |old(Entries())| == BUCKETS
      ensures ok ==> At(old(Entries())[Hash(key)], key, n)
      ensures ok ==> var bucket := old(Entries())[Hash(key)];
                     Entries() == old(Entries())[Hash(key) := bucket[..n] + bucket[n + 1..]]
      ensures nodes == old(nodes)
    {
      hide Hash, Stored, Data;
      var node;
      node, n := Find(key);
      if node == null {
        return false, n;
      }
      var b := Hash(key);
      StoredDelete(Entries(), m, key, n);
      ChainsApart(b);
      ghost var was := chains;
      Del(node, head[b], chains[b], n);
      RemovedData(was[b], n);
      forall c | 0 <= c < BUCKETS && c != b ensures Spells(head[c], was[c]) {
        forall x: Node<Entry> | x in was[c] ensures x.next == old(x.next) && x.prev == old(x.prev) {
          assert x !in was[b];
        }
      }
      Note(b, Hlist.RemoveAt(was[b], n), was, m - {key});
      assert forall x | x in Hlist.RemoveAt(was[b], n) :: x in was[b];
      assert nodes == old(nodes);
      ok := true;
    }

    /** Empties one bucket, visiting each of its entries once. */
    method Clear(b: nat) returns (visited: seq<Node<Entry>>)
      requires Valid() && b < BUCKETS == head.Length
      modifies this, head[..], nodes
      ensures Valid() && m == Without(old(m), b) && nodes == old(nodes)
      ensures |old(chains)| == BUCKETS && visited == old(chains)[b] && chains == old(chains)[b := []]
    {
      hide Hash, Stored, Data, Without;
      StoredClear(Entries(), m, b);
      ChainsApart(b);
      ghost var was := chains;
      visited := Hlist.DeleteAll(head[b], chains[b]);
      assert Data<Entry>([]) == [];
      forall c | 0 <= c < BUCKETS && c != b ensures Spells(head[c], was[c]) {
        forall x: Node<Entry> | x in was[c] ensures x.next == old(x.next) && x.prev == old(x.prev) {
          assert x !in was[b];
        }
      }
      Note(b, [], was, Without(m, b));
      assert nodes == old(nodes);
    }

    /** Empties all buckets, visiting each entry once. */
    method DeleteAll() returns (visited: seq<seq<Node<Entry>>>)
      requires Valid()
      modifies this, head[..], nodes
      ensures Valid() && m == map[] && forall b | 0 <= b < BUCKETS :: b < |chains| && chains[b] == []
      ensures visited == old(chains)
    {
      hide Hash, Stored;
      Size();
      visited := [];
      for b := 0 to BUCKETS
        invariant Valid() && |chains| == |old(chains)| == BUCKETS && nodes == old(nodes)
        invariant forall c: nat | c < BUCKETS :: chains[c] == if c < b then [] else old(chains)[c]
        invariant visited == old(chains)[..b]
      {
        var gone := Clear(b);
        visited := visited + [gone];
      }
      AllEmpty(Entries(), m);
    }

    lemma {:induction false} Size()
      requires Valid()
      ensures head.Length == |chains| == BUCKETS
    {
    }
  }

  lemma {:induction false} InsertedData(s: seq<Node<Entry>>, x: Node<Entry>)
    ensures Data(Hlist.InsertAt(s, 0, x)) == [x.data] + Data(s)
  {
  }

  lemma {:induction false} RemovedData(s: seq<Node<Entry>>, k: nat)
    requires k < |s|
    ensures Data(Hlist.RemoveAt(s, k)) == Data(s)[..k] + Data(s)[k + 1..]
  {
  }

  lemma {:induction false} NotThere(h: seq<seq<Entry>>, m: map<Key, seq<nat>>, key: Key)
    requires Stored(h, m) && forall i: nat :: !At(h[Hash(key)], key, i)
    ensures key !in m
  {
    hide Hash;
  }

  lemma {:induction false} AllEmpty(h: seq<seq<Entry>>, m: map<Key, seq<nat>>)
    requires Stored(h, m) && forall b: nat | b < BUCKETS :: h[b] == []
    ensures m == map[]
  {
    hide Hash;
    assert forall k | k in m :: exists i: nat :: At(h[Hash(k)], k, i);
  }
}
