/** Programming a queue context where the layout puts it, over the pages of the device. */
module HmcProgram {
  import opened HmcBits
  import opened HmcContext
  import opened HmcLayout

  function TableOf(kind: Kind): seq<Field> {
    if kind == Tx then TxTable() else RxTable()
  }

  /** The rows of a table, without its end mark. */
  function RowsOf(kind: Kind): seq<Field> {
    if kind == Tx then TxTable()[..18] else RxTable()[..21]
  }

  /** The objects have room for the fields: 128 bytes to transmit, 32 to receive. */
  predicate Roomy(l: Layout) {
    l.Size(Tx) >= 128 && l.Size(Rx) >= 32
  }

  /** The pages of all segments. */
  ghost predicate Pages(l: Layout, pages: seq<array<bv8>>) {
    |pages| == PAGES_PER_SEGMENT * l.SegmentCount()
    && (forall p | 0 <= p < |pages| :: pages[p].Length == PAGE)
    && forall p, q | 0 <= p < q < |pages| :: pages[p] != pages[q]
  }

  lemma {:induction false} PlaceInPages(l: Layout, kind: Kind, queue: nat)
    requires Supported(l) && Va(l, kind, queue).At?
    ensures var place := Va(l, kind, queue);
            place.page < PAGES_PER_SEGMENT * l.SegmentCount() && place.offset + l.Size(kind) <= PAGE
  {
    ContextInOnePage(l, kind, queue);
    var page := l.Address(kind, queue) / PAGE;
    hide Layout.SegmentCount, Layout.Address, Layout.Size;
    assert page == PAGES_PER_SEGMENT * (page / PAGES_PER_SEGMENT) + page % PAGES_PER_SEGMENT;
  }

  /** The contents of the pages. */
  ghost function Memory(pages: seq<array<bv8>>): (m: seq<seq<bv8>>)
    reads pages
    ensures |m| == |pages| && forall p | 0 <= p < |m| :: m[p] == pages[p][..]
  {
    seq(|pages|, p requires 0 <= p < |pages| reads pages => pages[p][..])
  }

  /** The bytes of the context that resolves for a queue. */
  ghost function ContextOf(l: Layout, m: seq<seq<bv8>>, kind: Kind, queue: nat): seq<bv8> {
    var place := Va(l, kind, queue);
    if place.At? && place.page < |m| && place.offset + l.Size(kind) <= |m[place.page]|
    then m[place.page][place.offset..place.offset + l.Size(kind)]
    else []
  }

  /** With all pages in place the context that resolves for a queue is as many bytes as an object
      has, and they are those at the addresses that the registers give to the queue. */
  lemma {:induction false} ContextIsAt(l: Layout, m: seq<seq<bv8>>, kind: Kind, queue: nat)
    requires Supported(l) && Va(l, kind, queue).At?
    requires |m| == PAGES_PER_SEGMENT * l.SegmentCount() && forall p | 0 <= p < |m| :: |m[p]| == PAGE
    ensures |ContextOf(l, m, kind, queue)| == l.Size(kind)
    ensures forall i: nat | i < l.Size(kind) ::
      var a := queue * l.Size(kind) + l.Base(kind) + i;
      a / 4096 < |m| && ContextOf(l, m, kind, queue)[i] == m[a / 4096][a % 4096]
  {
    hide Va, Layout.Size, Layout.Base, Layout.SegmentCount, Supported;
    PlaceIs(l, kind, queue);
    PlaceInPages(l, kind, queue);
    var place := Va(l, kind, queue);
    forall i: nat | i < l.Size(kind)
      ensures var a := queue * l.Size(kind) + l.Base(kind) + i;
              a / 4096 < |m| && ContextOf(l, m, kind, queue)[i] == m[a / 4096][a % 4096]
    {
      var a := queue * l.Size(kind) + l.Base(kind) + i;
      assert a / 4096 == place.page && a % 4096 == place.offset + i;
    }
  }

  /** Only the context of one queue has changed. */
  ghost predicate OnlyChanged(l: Layout, kind: Kind, queue: nat, m: seq<seq<bv8>>, m': seq<seq<bv8>>) {
    |m| == |m'|
    && (forall p: nat | p < |m| :: |m[p]| == |m'[p]|)
    && forall p: nat, n: nat | p < |m| && n < |m[p]| ::
         Occupies(l, kind, Va(l, kind, queue), p, n) || m[p][n] == m'[p][n]
  }

  /** Programming one queue leaves the context of every other queue as it was. */
  lemma {:induction false} OtherContextKept(l: Layout, m: seq<seq<bv8>>, m': seq<seq<bv8>>, k1: Kind, q1: nat,
      k2: Kind, q2: nat)
    requires Supported(l) && q1 < l.queueMax && q2 < l.queueMax && (k1, q1) != (k2, q2)
    requires OnlyChanged(l, k1, q1, m, m')
    ensures ContextOf(l, m', k2, q2) == ContextOf(l, m, k2, q2)
  {
    hide Va, Layout.Size, Supported;
    var other, size := Va(l, k2, q2), l.Size(k2);
    if other.At? && other.page < |m| && other.offset + size <= |m[other.page]| {
      var c, c' := m[other.page][other.offset..other.offset + size], m'[other.page][other.offset..other.offset + size];
      forall i | 0 <= i < size
        ensures c[i] == c'[i]
      {
        if Occupies(l, k1, Va(l, k1, q1), other.page, other.offset + i) {
          ContextsDisjoint(l, k1, q1, k2, q2, other.page, other.offset + i);
        }
      }
      assert c == c';
    }
  }

  lemma {:induction false} OthersKept(l: Layout, m: seq<seq<bv8>>, m': seq<seq<bv8>>, kind: Kind, queue: nat)
    requires Supported(l) && OnlyChanged(l, kind, queue, m, m')
    ensures queue < l.queueMax ==>
      forall k, q: nat | q < l.queueMax && (k, q) != (kind, queue) :: ContextOf(l, m', k, q) == ContextOf(l, m, k, q)
  {
    hide OnlyChanged, ContextOf, Supported;
    if queue < l.queueMax {
      forall k, q: nat | q < l.queueMax && (k, q) != (kind, queue)
        ensures ContextOf(l, m', k, q) == ContextOf(l, m, k, q)
      {
        OtherContextKept(l, m, m', kind, queue, k, q);
      }
    }
  }

  lemma {:induction false} RowsAreGood(kind: Kind, host: seq<bv8>, size: nat)
    requires |host| == 48 && size >= match kind case Tx => 128 case Rx => 32
    ensures var t := TableOf(kind);
            |t| > 0 && t[|t| - 1].width == 0 && t[..|t| - 1] == RowsOf(kind)
    ensures GoodTable(RowsOf(kind)) && InTarget(RowsOf(kind), size) && InHost(RowsOf(kind), host)
  {
    hide RxRow, TxRow, GoodTable;
    match kind
    case Tx => TxTableIsGood(host);
    case Rx => RxTableIsGood(host);
  }

  /** Writing inside one page of the memory. */
  lemma {:induction false} OnePageChanged(l: Layout, kind: Kind, queue: nat, m: seq<seq<bv8>>, m': seq<seq<bv8>>)
    requires |m| == |m'| && Va(l, kind, queue).At? && Va(l, kind, queue).page < |m|
    requires forall p: nat | p < |m| && p != Va(l, kind, queue).page :: m'[p] == m[p]
    requires var page, page' := m[Va(l, kind, queue).page], m'[Va(l, kind, queue).page];
             |page| == |page'| && forall n: nat | n < |page| ::
               Occupies(l, kind, Va(l, kind, queue), Va(l, kind, queue).page, n) || page[n] == page'[n]
    ensures OnlyChanged(l, kind, queue, m, m')
  {
    hide Va, Layout.Size, Occupies;
  }

  /** Programs the context of a queue. It fails, and writes nothing, exactly when the context
      does not resolve; else the context holds every field and nothing more, and the contexts
      of all other queues are as before. */
  method SetContextOf(l: Layout, pages: seq<array<bv8>>, kind: Kind, queue: nat, host: seq<bv8>, bigEndian: bool)
    returns (ok: bool)
    requires Supported(l) && Roomy(l) && Pages(l, pages)
    requires |host| == 48 && AllFitWidth(RowsOf(kind), host, bigEndian)
    modifies pages
    ensures ok <==> Va(l, kind, queue).At?
    ensures !ok ==> Memory(pages) == old(Memory(pages))
    ensures ok ==> |ContextOf(l, Memory(pages), kind, queue)| == l.Size(kind)
    ensures ok ==> GoodTable(RowsOf(kind)) &&
                   HoldsContext(ContextOf(l, Memory(pages), kind, queue), RowsOf(kind), host, bigEndian)
    ensures ok && queue < l.queueMax ==>
      forall k, q: nat | q < l.queueMax && (k, q) != (kind, queue) ::
        ContextOf(l, Memory(pages), k, q) == ContextOf(l, old(Memory(pages)), k, q)
  {
    var place := Va(l, kind, queue);
    if place.Nowhere? {
      return false;
    }
    PlaceInPages(l, kind, queue);
    RowsAreGood(kind, host, l.Size(kind));
    hide TableOf, RowsOf, GoodTable, HoldsContext, AllFitWidth, InHost, InTarget, Layout.Size, Supported, Va,
        Layout.SegmentCount;
    ghost var m := Memory(pages);
    SetContext(pages[place.page], place.offset, l.Size(kind), TableOf(kind), host, bigEndian);
    ghost var m' := Memory(pages);
    assert ContextOf(l, m', kind, queue) == pages[place.page][place.offset..place.offset + l.Size(kind)];
    OnePageChanged(l, kind, queue, m, m');
    OthersKept(l, m, m', kind, queue);
    ok := true;
  }
}
