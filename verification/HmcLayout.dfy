/** Where queue contexts lie: the private memory space of the device and the pages behind it. */
module HmcLayout {
  import opened Arith

  const PAGE := 4096
  const PAGES_PER_SEGMENT := 512
  const SEGMENT := 0x200000
  const BASE_ALIGNMENT := 512

  datatype Kind = Tx | Rx

  /** The two object areas, as the registers of the device describe them. */
  datatype Layout = Layout(queueMax: nat, txBits: nat, rxBits: nat) {

    function Size(kind: Kind): nat {
      match kind
      case Tx => Pow2(txBits)
      case Rx => Pow2(rxBits)
    }

    /** The receive objects start at the next 512-byte boundary after the transmit objects. */
    function Base(kind: Kind): nat {
      match kind
      case Tx => 0
      case Rx => (queueMax * Pow2(txBits) + (BASE_ALIGNMENT - 1)) / BASE_ALIGNMENT * BASE_ALIGNMENT
    }

    /** Segments are counted for one object of each kind only. */
    function SegmentCount(): nat {
      (Pow2(txBits) + Pow2(rxBits) + SEGMENT - 1) / SEGMENT
    }

    function Address(kind: Kind, queue: nat): nat {
      queue * Size(kind) + Base(kind)
    }
  }

  datatype Place = Nowhere | At(page: nat, offset: nat)

  function Va(l: Layout, kind: Kind, queue: nat): (place: Place) {
    var address := l.Address(kind, queue);
    var page := address / PAGE;
    if page / PAGES_PER_SEGMENT >= l.SegmentCount() then Nowhere else At(page, address % PAGE)
  }

  // ----- where the registers put the objects -----

  /** The objects of a kind are as large as their register says. The transmit objects start at
      address zero, the receive objects at the first multiple of 512 behind them. */
  lemma {:induction false} BaseIs(l: Layout)
    ensures l.Size(Tx) == Pow2(l.txBits) && l.Size(Rx) == Pow2(l.rxBits)
    ensures l.Base(Tx) == 0 && l.Base(Rx) % 512 == 0
    ensures l.queueMax * Pow2(l.txBits) <= l.Base(Rx) < l.queueMax * Pow2(l.txBits) + 512
  {
    hide Pow2;
    RoundedUp(l.queueMax * Pow2(l.txBits));
  }

  lemma {:induction false} RoundedUp(x: nat)
    ensures var y := (x + (BASE_ALIGNMENT - 1)) / BASE_ALIGNMENT * BASE_ALIGNMENT;
            y % 512 == 0 && x <= y < x + 512
  {
  }

  /** The segments counted are the fewest that hold one object of each kind. */
  lemma {:induction false} SegmentCountIs(l: Layout)
    ensures 0x200000 * (l.SegmentCount() - 1) < l.Size(Tx) + l.Size(Rx) <= 0x200000 * l.SegmentCount()
  {
    hide Pow2;
    var x := Pow2(l.txBits) + Pow2(l.rxBits);
    assert x + SEGMENT - 1 == SEGMENT * ((x + SEGMENT - 1) / SEGMENT) + (x + SEGMENT - 1) % SEGMENT;
  }

  /** A context that resolves lies at the address of its queue: as many objects behind the base
      as its number says. */
  lemma {:induction false} PlaceIs(l: Layout, kind: Kind, queue: nat)
    ensures Va(l, kind, queue).At? ==>
              var place := Va(l, kind, queue);
              place.offset < 4096 && 4096 * place.page + place.offset == queue * l.Size(kind) + l.Base(kind)
  {
    hide Layout.Size, Layout.Base;
    var a := l.Address(kind, queue);
    assert a == PAGE * (a / PAGE) + a % PAGE;
  }

  // ----- contexts and pages -----

  /** Objects of at most a page, and receive objects that start at a multiple of their size. */
  predicate Supported(l: Layout) {
    l.txBits <= 12 && l.rxBits <= 12 && l.Base(Rx) % l.Size(Rx) == 0
  }

  predicate InOnePage(l: Layout, kind: Kind, queue: nat) {
    l.Address(kind, queue) % PAGE + l.Size(kind) <= PAGE
  }

  /** The number of objects of size 2^n in a page. */
  lemma {:induction false} SizeDivides(n: nat)
    requires n <= 12
    ensures Pow2(n) * Pow2(12 - n) == PAGE
  {
    Pow2Add(n, 12 - n);
    assert Pow2(12) == 4096;
  }

  /** Objects of at most 512 bytes, such as the device reports, always qualify. */
  lemma {:induction false} SmallIsSupported(l: Layout)
    requires l.txBits <= 9 && l.rxBits <= 9
    ensures Supported(l)
  {
    hide Pow2;
    var s, m := l.Size(Rx), Pow2(9 - l.rxBits);
    assert s * m == BASE_ALIGNMENT by {
      Pow2Add(l.rxBits, 9 - l.rxBits);
      Pow2Nine();
    }
    var b := (l.queueMax * Pow2(l.txBits) + (BASE_ALIGNMENT - 1)) / BASE_ALIGNMENT;
    assert l.Base(Rx) == s * (b * m) + 0 by {
      assert b * (s * m) == s * (b * m);
    }
    ModUnique(l.Base(Rx), s, b * m, 0);
  }

  lemma {:induction false} Pow2Nine()
    ensures Pow2(9) == BASE_ALIGNMENT
  {
    assert Pow2(8) == 256;
  }

  lemma {:induction false} ModUnique(x: nat, m: nat, q: nat, r: nat)
    requires m >= 1 && x == m * q + r && r < m
    ensures x % m == r
  {
    DivUnique(x, m, q, r);
    assert x == m * (x / m) + x % m;
  }

  /** Every object address is a multiple of the object size. */
  lemma {:induction false} AddressIsMultiple(l: Layout, kind: Kind, queue: nat) returns (c: nat)
    requires Supported(l)
    ensures l.Address(kind, queue) == l.Size(kind) * c
  {
    hide Pow2;
    match kind
    case Tx =>
      c := queue;
    case Rx =>
      var s, base := l.Size(Rx), l.Base(Rx);
      assert base == s * (base / s) + base % s;
      c := queue + base / s;
      assert s * (queue + base / s) == s * queue + s * (base / s);
  }

  /** A block of `s` bytes at a multiple of `s` does not cross a page when `s * d` is the page size. */
  lemma {:induction false} MultipleStaysInPage(a: nat, s: nat, c: nat, d: nat)
    requires a == s * c && s * d == PAGE && s >= 1 && d >= 1
    ensures a % PAGE + s <= PAGE
  {
    var q, r := c / d, c % d;
    assert c == d * q + r;
    assert a == PAGE * q + s * r by {
      assert s * (d * q + r) == s * (d * q) + s * r;
      assert s * (d * q) == s * d * q;
    }
    MulStep(s, r, d);
    DivUnique(a, PAGE, q, s * r);
  }

  /** Each context lies inside one page. */
  lemma {:induction false} ContextInOnePage(l: Layout, kind: Kind, queue: nat)
    requires Supported(l)
    ensures InOnePage(l, kind, queue)
  {
    hide Pow2;
    var c := AddressIsMultiple(l, kind, queue);
    var n := match kind case Tx => l.txBits case Rx => l.rxBits;
    SizeDivides(n);
    MultipleStaysInPage(l.Address(kind, queue), l.Size(kind), c, Pow2(12 - n));
  }

  /** A queue among the first `d` whose context crosses a page, `d` being the number of objects
      in a page, when the objects do not start at a multiple of their size `s`. */
  lemma {:induction false} CrossingQueue(s: nat, d: nat, base: nat) returns (q: nat)
    requires s >= 1 && d >= 1 && s * d == PAGE && base % s != 0
    ensures q < d && (q * s + base) % PAGE + s > PAGE
  {
    var b, r := base / s, base % s;
    assert base == s * b + r && b == d * (b / d) + b % d;
    q := d - 1 - b % d;
    var a := q * s + base;
    assert a == PAGE * (b / d) + (s * (d - 1) + r) by {
      assert a == s * (q + b) + r;
      assert q + b == d * (b / d) + (d - 1);
      assert s * (d * (b / d) + (d - 1)) == s * d * (b / d) + s * (d - 1);
    }
    assert s * (d - 1) == PAGE - s;
    ModUnique(a, PAGE, b / d, s * (d - 1) + r);
  }

  lemma {:induction false} LargeCrosses(l: Layout, kind: Kind, queue: nat)
    requires (match kind case Tx => l.txBits case Rx => l.rxBits) > 12
    ensures !InOnePage(l, kind, queue)
  {
    var n := match kind case Tx => l.txBits case Rx => l.rxBits;
    Pow2Add(13, n - 13);
    assert Pow2(13) == 8192;
    MulStep(8192, 0, Pow2(n - 13));
  }

  /** When the receive contexts fill at least a page, all contexts below the limit lie inside
      one page each if and only if the layout is supported. */
  lemma {:induction false} AllInOnePageIff(l: Layout)
    requires l.queueMax * l.Size(Rx) >= PAGE
    ensures Supported(l) <==> forall kind, q: nat | q < l.queueMax :: InOnePage(l, kind, q)
  {
    hide InOnePage, Pow2;
    if Supported(l) {
      forall kind, q: nat | q < l.queueMax ensures InOnePage(l, kind, q) {
        ContextInOnePage(l, kind, q);
      }
    } else if l.txBits > 12 {
      LargeCrosses(l, Tx, 0);
    } else if l.rxBits > 12 {
      LargeCrosses(l, Rx, 0);
    } else {
      Misaligned(l);
    }
  }

  lemma {:induction false} Misaligned(l: Layout)
    requires l.rxBits <= 12 && l.Base(Rx) % l.Size(Rx) != 0 && l.queueMax * l.Size(Rx) >= PAGE
    ensures exists q: nat :: q < l.queueMax && !InOnePage(l, Rx, q)
  {
    hide Pow2, Layout.Base;
    var s, d := l.Size(Rx), Pow2(12 - l.rxBits);
    SizeDivides(l.rxBits);
    MulStep(s, l.queueMax, d);
    var q := CrossingQueue(s, d, l.Base(Rx));
    assert !InOnePage(l, Rx, q);
  }

  /** The receive objects start behind the transmit objects. */
  lemma {:induction false} TxBeforeRx(l: Layout)
    ensures l.Base(Tx) == 0 && l.Base(Rx) >= l.queueMax * l.Size(Tx)
  {
    hide Pow2, Layout.Base, Layout.Size;
    BaseIs(l);
  }

  lemma {:induction false} NextObject(s: nat, q1: nat, q2: nat)
    requires q1 < q2
    ensures q1 * s + s <= q2 * s
  {
    MulStep(s, q1, q2);
  }

  lemma {:induction false} AddressesApart(l: Layout, k1: Kind, q1: nat, k2: Kind, q2: nat)
    requires q1 < l.queueMax && q2 < l.queueMax && (k1, q1) != (k2, q2)
    ensures l.Address(k1, q1) + l.Size(k1) <= l.Address(k2, q2) || l.Address(k2, q2) + l.Size(k2) <= l.Address(k1, q1)
  {
    hide Layout.Size, Layout.Base;
    if k1 == k2 && q1 < q2 {
      NextObject(l.Size(k1), q1, q2);
    } else if k1 == k2 {
      NextObject(l.Size(k1), q2, q1);
    } else {
      TxBeforeRx(l);
      NextObject(l.Size(Tx), if k1 == Tx then q1 else q2, l.queueMax);
    }
  }

  /** The byte `byte` of page `page` belongs to the context at a place. */
  predicate Occupies(l: Layout, kind: Kind, place: Place, page: nat, byte: nat) {
    place.At? && place.page == page && place.offset <= byte < place.offset + l.Size(kind)
  }

  /** The contexts that resolve for different queues occupy disjoint memory, each inside one
      page: programming one cannot disturb another. */
  lemma {:induction false} ContextsDisjoint(l: Layout, k1: Kind, q1: nat, k2: Kind, q2: nat, page: nat, byte: nat)
    requires Supported(l) && q1 < l.queueMax && q2 < l.queueMax
    requires Occupies(l, k1, Va(l, k1, q1), page, byte) && Occupies(l, k2, Va(l, k2, q2), page, byte)
    ensures k1 == k2 && q1 == q2 && byte < PAGE
  {
    ContextInOnePage(l, k1, q1);
    ContextInOnePage(l, k2, q2);
    var a1, a2 := l.Address(k1, q1), l.Address(k2, q2);
    assert a1 == PAGE * page + a1 % PAGE && a2 == PAGE * page + a2 % PAGE;
    if (k1, q1) != (k2, q2) {
      AddressesApart(l, k1, q1, k2, q2);
    }
  }

  // ----- which contexts resolve -----

  /** With register values within their fields, and a 16-bit queue number, addresses stay far below
      what the 32-bit page and segment indices of the driver can hold. */
  lemma {:induction false} IndicesFit(l: Layout, kind: Kind, queue: nat)
    requires l.queueMax <= 0x7FF && l.txBits <= 0xF && l.rxBits <= 0xF && queue < 0x10000
    ensures l.Address(kind, queue) < 0x1_0000_0000
  {
    hide Pow2;
    var t, s := Pow2(l.txBits), l.Size(kind);
    assert t <= 0x8000 && s <= 0x8000 by {
      AtMost32768(l.txBits);
      AtMost32768(l.rxBits);
    }
    BoundedProduct(queue, s, 0xFFFF, 0x8000);
    BoundedProduct(l.queueMax, t, 0x7FF, 0x8000);
    RoundedUp(l.queueMax * t);
  }

  lemma {:induction false} AtMost32768(n: nat)
    requires n <= 15
    ensures Pow2(n) <= 0x8000
  {
    Pow2Add(n, 15 - n);
    assert Pow2(15) == 0x8000;
    MulStep(Pow2(n), 0, Pow2(15 - n));
  }

  /** A context resolves exactly when it lies in the segments that are counted. */
  lemma {:induction false} ResolvesIff(l: Layout, kind: Kind, queue: nat)
    ensures Va(l, kind, queue).At? <==> l.Address(kind, queue) < SEGMENT * l.SegmentCount()
  {
    hide Layout.Address, Layout.SegmentCount;
    var a, n := l.Address(kind, queue), l.SegmentCount();
    DivDiv(a, PAGE, PAGES_PER_SEGMENT);
    assert a == SEGMENT * (a / SEGMENT) + a % SEGMENT;
  }

  /** The last receive context is the last of all. */
  lemma {:induction false} LastContext(l: Layout, kind: Kind, queue: nat)
    requires queue < l.queueMax
    ensures l.Address(kind, queue) <= l.Address(Rx, l.queueMax - 1)
  {
    hide Layout.Size, Layout.Base;
    match kind
    case Tx =>
      NextObject(l.Size(Tx), queue, l.queueMax);
      TxBeforeRx(l);
    case Rx =>
      if queue < l.queueMax - 1 {
        NextObject(l.Size(Rx), queue, l.queueMax - 1);
      }
  }

  /** Every queue below the limit resolves if and only if the last receive context lies in the
      segments that are counted. */
  lemma {:induction false} AllResolveIff(l: Layout)
    ensures (forall kind, q: nat | q < l.queueMax :: Va(l, kind, q).At?)
            <==> l.queueMax == 0 || l.Address(Rx, l.queueMax - 1) < SEGMENT * l.SegmentCount()
  {
    hide Va, Layout.Address, Layout.SegmentCount;
    if l.queueMax > 0 {
      ResolvesIff(l, Rx, l.queueMax - 1);
      forall kind, q: nat | q < l.queueMax
        ensures l.Address(Rx, l.queueMax - 1) < SEGMENT * l.SegmentCount() ==> Va(l, kind, q).At?
      {
        ResolvesIff(l, kind, q);
        LastContext(l, kind, q);
      }
    }
  }

  /** With objects of at most 512 bytes, every queue below a limit of at most 2048 resolves. */
  lemma {:induction false} SmallAllResolve(l: Layout)
    requires l.txBits <= 9 && l.rxBits <= 9 && l.queueMax <= 2048
    ensures forall kind, q: nat | q < l.queueMax :: Va(l, kind, q).At?
  {
    hide Pow2, Va;
    AllResolveIff(l);
    if l.queueMax > 0 {
      AtMost512(l.txBits);
      AtMost512(l.rxBits);
      SmallFits(l.queueMax, Pow2(l.txBits), Pow2(l.rxBits));
    }
  }

  lemma {:induction false} SmallFits(n: nat, t: nat, r: nat)
    requires 1 <= n <= 2048 && 1 <= t <= 512 && 1 <= r <= 512
    ensures (n - 1) * r + (n * t + 511) / 512 * 512 < SEGMENT && (t + r + SEGMENT - 1) / SEGMENT == 1
  {
    assert (t + r + SEGMENT - 1) / SEGMENT == 1;
    var x, y := (n - 1) * r, n * t;
    assert x <= 2047 * 512 by {
      BoundedProduct(n - 1, r, 2047, 512);
    }
    assert y <= 2048 * 512 by {
      BoundedProduct(n, t, 2048, 512);
    }
    SumFits(x, y);
  }

  lemma {:induction false} BoundedProduct(x: nat, y: nat, x': nat, y': nat)
    requires x <= x' && y <= y'
    ensures x * y <= x' * y'
  {
    MulStep(x, y, y');
    MulStep(y', x, x');
    assert x * y' == y' * x && x' * y' == y' * x';
  }

  lemma {:induction false} SumFits(x: nat, y: nat)
    requires x <= 512 * 2047 && y <= 512 * 2048
    ensures x + (y + 511) / 512 * 512 < SEGMENT
  {
  }

  lemma {:induction false} AtMost512(n: nat)
    requires n <= 9
    ensures 1 <= Pow2(n) <= 512
  {
    Pow2Add(n, 9 - n);
    Pow2Nine();
    MulStep(Pow2(n), 0, Pow2(9 - n));
  }

  /** The bound is sharp: one queue more, or objects of the next size with a limit that the
      register can hold, and a queue below the limit does not resolve. */
  lemma {:induction false} UnresolvedExamples()
    ensures !Va(Layout(2049, 9, 9), Rx, 2048).At?
    ensures !Va(Layout(2047, 10, 10), Rx, 2).At?
  {
    Pow2Nine();
    assert Pow2(10) == 1024;
    ResolvesIff(Layout(2049, 9, 9), Rx, 2048);
    ResolvesIff(Layout(2047, 10, 10), Rx, 2);
  }
}
