/** Whole runs of the packet interface: a client that receives, sends, drops and injects packets
    in any order, with the device at work between and during the operations. */
module PlaneRuns {
  import opened DescRing
  import opened Outcomes
  import opened Plane
  import opened SlotMachine
  import opened SlotSearch

  /** The operations. `device` says what the device completes before each turn of a loop. */
  datatype Op =
    | Fill(port: nat, device: nat -> seq<nat>)
    | Receive(port: nat, budget: nat, device: nat -> seq<nat>)
    | Send(port: nat, slot: nat)
    | Transmit(port: nat)
    | Reclaim(port: nat, budget: nat, device: nat -> seq<nat>)
    | Discard(slot: nat)
    | Inject(port: nat, fits: bool)
    | Work(ring: nat)

  /** The counters of a plane. */
  datatype Books = Books(next: seq<nat>, suspended: seq<nat>, rxFailed: seq<int>, txFailed: seq<int>,
    rxTotal: seq<int>, txTotal: seq<int>)

  /** All there is to know of a plane: who holds the slots, and the counters. */
  datatype View = View(st: State, books: Books)

  ghost function ViewOf(plane: IoPlane): View
    reads plane, plane.slots, plane.rings
  {
    View(plane.Model(), Books(plane.rxSlotNext, plane.txSuspended, plane.rxAllocFailed, plane.txXmitFailed,
                              plane.rxCleanTotal, plane.txCleanTotal))
  }

  /** An operation on a port or ring that is not there, or with a slot that the client does not
      hold, is one that nobody can ask for. */
  ghost predicate Possible(op: Op, v: View) {
    var ports := |v.books.next|;
    |v.books.suspended| == ports && |v.st.rings| == 2 * ports &&
    match op
    case Fill(p, _) => p < ports
    case Receive(p, _, _) => p < ports
    case Send(p, s) => p < ports && s in v.st.held
    case Transmit(p) => p < ports
    case Reclaim(p, _, _) => p < ports
    case Discard(s) => s in v.st.held
    case Inject(p, _) => p < ports
    case Work(r) => r < 2 * ports
  }

  /** The books after a slot has been handed to the transmit ring of a port. */
  ghost function Sent(v: View, p: nat): Books
    requires p < |v.books.suspended| && TxRing(p) < |v.st.rings|
  {
    if FreeCount(v.st.rings[TxRing(p)]) > 0 then
      v.books.(suspended := v.books.suspended[p := v.books.suspended[p] + 1])
    else
      v.books.(txFailed := Counted(v.books.txFailed, p, 1))
  }

  /** What an operation does to a plane of `n` slots for each port. `moved` are the slots that it
      puts into a ring or takes out of one. */
  ghost predicate Did(op: Op, n: nat, moved: seq<nat>, v: View, v': View)
    requires Possible(op, v)
  {
    var st, st', books := v.st, v'.st, v.books;
    match op
    case Fill(p, _) =>
      FilledAndPublished(st, RxRing(p), moved, st') && RxRing(p) < |st'.rings| &&
      InTurn(st.flag, p * n, n, books.next[p], moved) &&
      (FreeCount(st'.rings[RxRing(p)]) == 0 || RangeFull(st'.flag, p * n, n)) &&
      v'.books == books.(next := books.next[p := PositionAfter(p * n, n, books.next[p], moved)],
                         rxFailed := Counted(books.rxFailed, p, FreeCount(st'.rings[RxRing(p)])))
    case Receive(p, budget, _) =>
      Cleaned(st, RxRing(p), budget, moved, st') &&
      v'.books == books.(rxTotal := Counted(books.rxTotal, p, |moved|))
    case Send(p, s) =>
      moved == [s] && Enabled(st, SendStep(st, TxRing(p), s)) && st' == Apply(st, SendStep(st, TxRing(p), s)) &&
      v'.books == Sent(v, p)
    case Transmit(p) =>
      moved == [] && st' == Apply(st, Publish(TxRing(p))) &&
      v'.books == books.(suspended := books.suspended[p := 0])
    case Reclaim(p, budget, _) =>
      Freed(st, TxRing(p), budget, moved, st') && v'.books == books.(txTotal := Counted(books.txTotal, p, |moved|))
    case Discard(s) =>
      moved == [] && Enabled(st, Release(s)) && v' == v.(st := Apply(st, Release(s)))
    case Inject(p, fits) =>
      if !fits || RangeFull(st.flag, p * n, n) then moved == [] && v' == v
      else
        |moved| == 1 && var s := moved[0];
        NextFree(st.flag, p * n, n, books.next[p], s) &&
        Reaches(st, [Take(s), SendStep(st, TxRing(p), s)], st') &&
        v'.books == Sent(v, p).(next := books.next[p := Behind(p * n, n, s)])
    case Work(r) =>
      moved == [] && v' == if Enabled(st, Complete(r)) then v.(st := Apply(st, Complete(r))) else v
  }

  ghost predicate Does(op: Op, n: nat, moved: seq<nat>, v: View, v': View) {
    if Possible(op, v) then Did(op, n, moved, v, v') else v' == v
  }

  lemma {:induction false} FilledHeld(st: State, r: nat, added: seq<nat>, st': State)
    requires FilledAndPublished(st, r, added, st')
    ensures st'.held == st.held
  {
  }

  lemma {:induction false} CleanedHeld(st: State, r: nat, budget: nat, packets: seq<nat>, st': State)
    requires Cleaned(st, r, budget, packets, st')
    ensures st'.held == st.held + set s | s in packets
  {
  }

  lemma {:induction false} FreedHeld(st: State, r: nat, budget: nat, freed: seq<nat>, st': State)
    requires Freed(st, r, budget, freed, st')
    ensures st'.held == st.held
  {
  }

  lemma {:induction false} HeldAfter(st: State, step: Step)
    requires Enabled(st, step) && !step.Take? && !step.Detach?
    ensures Apply(st, step).held == match step
                                    case Attach(_, s) => st.held - {s}
                                    case Release(s) => st.held - {s}
                                    case _ => st.held
  {
  }

  lemma {:induction false} NoSteps(st: State, steps: seq<Step>, st': State)
    requires Reaches(st, steps, st')
    ensures steps == [] ==> st' == st
  {
  }

  /** The operations on the receive ring of a port. */
  method Receiving(plane: IoPlane, op: Op, mine: set<nat>)
    returns (mine': set<nat>, ghost steps: seq<Step>, ghost moved: seq<nat>)
    requires plane.Valid() && mine == plane.held && (op.Fill? || op.Receive?)
    modifies plane, plane.slots, plane.rings
    modifies set r | r in plane.rings :: r.slotIndex
    modifies set r | r in plane.rings :: r.desc
    ensures plane.Valid() && mine' == plane.held && Reaches(old(plane.Model()), steps, plane.Model())
    ensures Does(op, plane.count, moved, old(ViewOf(plane)), ViewOf(plane))
  {
    hide IoPlane.Core, IoPlane.Model, Reaches, Booked, FilledAndPublished, Cleaned, InTurn, PositionAfter, RangeFull,
        FreeCount, Counted;
    plane.Sizes();
    ghost var st := plane.Model();
    mine', steps, moved := mine, [], [];
    ReachesNone(st);
    if op.port < plane.numPorts {
      var p := op.port;
      match op
      case Fill(_, device) =>
        moved, steps := plane.RxAssign(p, device);
        FilledHeld(st, RxRing(p), moved, plane.Model());
      case Receive(_, budget, device) =>
        var packets;
        packets, steps := plane.RxClean(p, budget, device);
        moved := packets;
        mine' := mine + set s | s in packets;
        CleanedHeld(st, RxRing(p), budget, packets, plane.Model());
    }
    plane.Sizes();
  }

  /** The client sends a packet, or has the descriptors of a port published. */
  method Sending(plane: IoPlane, op: Op, mine: set<nat>)
    returns (mine': set<nat>, ghost steps: seq<Step>, ghost moved: seq<nat>)
    requires plane.Valid() && mine == plane.held && (op.Send? || op.Transmit?)
    modifies plane, plane.slots, plane.rings
    modifies set r | r in plane.rings :: r.slotIndex
    modifies set r | r in plane.rings :: r.desc
    ensures plane.Valid() && mine' == plane.held && Reaches(old(plane.Model()), steps, plane.Model())
    ensures Does(op, plane.count, moved, old(ViewOf(plane)), ViewOf(plane))
  {
    hide IoPlane.Core, IoPlane.Model, Reaches, Booked, Freed, FreeCount, Counted, Enabled, Apply;
    plane.Sizes();
    ghost var st := plane.Model();
    mine', steps, moved := mine, [], [];
    ReachesNone(st);
    if op.port < plane.numPorts {
      var p := op.port;
      match op
      case Send(_, s) =>
        if s in mine {
          ghost var step := SendStep(st, TxRing(p), s);
          CountedNone(plane.txXmitFailed, p);
          plane.TxAssign(p, s);
          steps, moved := [step], [s];
          HeldAfter(st, step);
          ReachesOne(st, step);
          mine' := mine - {s};
        }
      case Transmit(_) =>
        plane.TxXmit(p);
        HeldAfter(st, Publish(TxRing(p)));
        steps := [Publish(TxRing(p))];
        ReachesOne(st, Publish(TxRing(p)));
    }
    plane.Sizes();
  }

  /** The slots of packets that have been sent become free. */
  method Reclaiming(plane: IoPlane, op: Op, mine: set<nat>)
    returns (mine': set<nat>, ghost steps: seq<Step>, ghost moved: seq<nat>)
    requires plane.Valid() && mine == plane.held && op.Reclaim?
    modifies plane, plane.slots, plane.rings
    modifies set r | r in plane.rings :: r.slotIndex
    modifies set r | r in plane.rings :: r.desc
    ensures plane.Valid() && mine' == plane.held && Reaches(old(plane.Model()), steps, plane.Model())
    ensures Does(op, plane.count, moved, old(ViewOf(plane)), ViewOf(plane))
  {
    hide IoPlane.Core, IoPlane.Model, Reaches, Booked, Freed, Counted;
    plane.Sizes();
    ghost var st := plane.Model();
    mine', steps, moved := mine, [], [];
    ReachesNone(st);
    var p := op.port;
    if p < plane.numPorts {
      moved, steps := plane.TxClean(p, op.budget, op.device);
      FreedHeld(st, TxRing(p), op.budget, moved, plane.Model());
    }
    plane.Sizes();
  }

  /** A packet comes in from the kernel. */
  method Injecting(plane: IoPlane, op: Op, mine: set<nat>)
    returns (mine': set<nat>, ghost steps: seq<Step>, ghost moved: seq<nat>)
    requires plane.Valid() && mine == plane.held && op.Inject?
    modifies plane, plane.slots, plane.rings
    modifies set r | r in plane.rings :: r.slotIndex
    modifies set r | r in plane.rings :: r.desc
    ensures plane.Valid() && mine' == plane.held && Reaches(old(plane.Model()), steps, plane.Model())
    ensures Does(op, plane.count, moved, old(ViewOf(plane)), ViewOf(plane))
  {
    hide IoPlane.Core, IoPlane.Model, Reaches, Booked, NextFree, Behind, RangeFull, FreeCount, Counted, Enabled, Apply;
    plane.Sizes();
    ghost var st := plane.Model();
    mine', steps, moved := mine, [], [];
    ReachesNone(st);
    var p := op.port;
    if p < plane.numPorts {
      CountedNone(plane.txXmitFailed, p);
      steps := plane.ForwardTun(p, op.fits);
      NoSteps(st, steps, plane.Model());
      moved := if steps == [] then [] else [steps[0].s];
      assert steps != [] ==> steps == [Take(moved[0]), SendStep(st, TxRing(p), moved[0])];
    }
    plane.Sizes();
  }

  /** The client drops a packet, or the device works. */
  method Otherwise(plane: IoPlane, op: Op, mine: set<nat>)
    returns (mine': set<nat>, ghost steps: seq<Step>, ghost moved: seq<nat>)
    requires plane.Valid() && mine == plane.held && (op.Discard? || op.Work?)
    modifies plane, plane.slots, plane.rings
    modifies set r | r in plane.rings :: r.slotIndex
    modifies set r | r in plane.rings :: r.desc
    ensures plane.Valid() && mine' == plane.held && Reaches(old(plane.Model()), steps, plane.Model())
    ensures Does(op, plane.count, moved, old(ViewOf(plane)), ViewOf(plane))
  {
    hide IoPlane.Core, IoPlane.Model, Reaches, Booked, Enabled, Apply;
    plane.Sizes();
    ghost var st := plane.Model();
    mine', steps, moved := mine, [], [];
    ReachesNone(st);
    match op {
      case Discard(s) =>
        if s in mine {
          plane.Drop(s);
          HeldAfter(st, Release(s));
          steps := [Release(s)];
          ReachesOne(st, Release(s));
          mine' := mine - {s};
        }
      case Work(r) =>
        if r < |plane.rings| {
          var done := plane.Device(r);
          if done {
            HeldAfter(st, Complete(r));
            steps := [Complete(r)];
            ReachesOne(st, Complete(r));
          }
        }
    }
    plane.Sizes();
  }

  /** Performs an operation that can be asked for, and no other. */
  method Perform(plane: IoPlane, op: Op, mine: set<nat>)
    returns (mine': set<nat>, ghost steps: seq<Step>, ghost moved: seq<nat>)
    requires plane.Valid() && mine == plane.held
    modifies plane, plane.slots, plane.rings
    modifies set r | r in plane.rings :: r.slotIndex
    modifies set r | r in plane.rings :: r.desc
    ensures plane.Valid() && mine' == plane.held && Reaches(old(plane.Model()), steps, plane.Model())
    ensures Does(op, plane.count, moved, old(ViewOf(plane)), ViewOf(plane))
  {
    hide IoPlane.Core, IoPlane.Model, Reaches, Booked, Does;
    if op.Fill? || op.Receive? {
      mine', steps, moved := Receiving(plane, op, mine);
    } else if op.Send? || op.Transmit? {
      mine', steps, moved := Sending(plane, op, mine);
    } else if op.Reclaim? {
      mine', steps, moved := Reclaiming(plane, op, mine);
    } else if op.Inject? {
      mine', steps, moved := Injecting(plane, op, mine);
    } else {
      mine', steps, moved := Otherwise(plane, op, mine);
    }
  }

  /** The descriptors in use of a ring: each holds a slot of the queue and the DMA address of that
      slot, and is marked done as far as the device has come. */
  ghost predicate RingHolds(ring: Ring, dma: nat -> nat)
    reads ring, ring.slotIndex, ring.desc
  {
    1 <= ring.num == ring.slotIndex.Length == ring.desc.Length
    && forall k: nat | ring.fifo.cleaned <= k < |ring.fifo.log| ::
         ring.slotIndex[k % ring.num] == ring.fifo.log[k] &&
         ring.desc[k % ring.num] == Desc(dma(ring.fifo.log[k]), k < ring.fifo.completed)
  }

  lemma {:induction false} RingsHold(plane: IoPlane)
    requires plane.Core()
    ensures forall r | r in plane.rings :: RingHolds(r, plane.dma)
  {
    hide IoPlane.Core, Ring.Valid;
    forall r | r in plane.rings ensures RingHolds(r, plane.dma) {
      var i: nat :| i < |plane.rings| && plane.rings[i] == r;
      RingValid(plane, i);
      forall k: nat | r.fifo.cleaned <= k < |r.fifo.log|
        ensures r.slotIndex[k % r.num] == r.fifo.log[k]
        ensures r.desc[k % r.num] == Desc(plane.dma(r.fifo.log[k]), k < r.fifo.completed)
      {
        r.InUse(plane.dma, k);
      }
    }
  }

  lemma {:induction false} RingValid(plane: IoPlane, i: nat)
    requires plane.Core() && i < |plane.rings|
    ensures plane.rings[i].Valid(plane.dma)
    ensures 1 <= plane.rings[i].num == plane.rings[i].slotIndex.Length == plane.rings[i].desc.Length
  {
  }

  /** The views of a plane before the first operation, between operations and after the last. */
  ghost predicate Trace(views: seq<View>, ops: seq<Op>, n: nat, moved: seq<seq<nat>>) {
    |views| == |ops| + 1 && |moved| == |ops|
    && forall i | 0 <= i < |ops| :: Does(ops[i], n, moved[i], views[i], views[i + 1])
  }

  lemma {:induction false} TraceMore(views: seq<View>, ops: seq<Op>, n: nat, moved: seq<seq<nat>>, op: Op,
      more: seq<nat>, v: View)
    requires Trace(views, ops, n, moved) && Does(op, n, more, views[|ops|], v)
    ensures Trace(views + [v], ops + [op], n, moved + [more])
  {
    hide Does;
  }

  /** Any run of operations from the start does what each operation is for, and is a run of the slot
      machine from its initial state. So after it each slot is in exactly one place, the client knows
      which ones it holds, and the descriptors hold the DMA addresses of their slots. */
  method RunAll(numPorts: nat, count: nat, rxDescs: seq<nat>, txDescs: seq<nat>, dma: nat -> nat, ops: seq<Op>)
    returns (plane: IoPlane, mine: set<nat>, ghost steps: seq<Step>, ghost views: seq<View>, ghost moved: seq<seq<nat>>)
    requires |rxDescs| == |txDescs| == numPorts
    requires forall p | 0 <= p < numPorts :: 1 <= rxDescs[p] < 0x10000 && 1 <= txDescs[p] < 0x10000
    ensures fresh(plane) && plane.Valid() && mine == plane.held
    ensures Trace(views, ops, count, moved) && views[|ops|] == ViewOf(plane)
    ensures Init(views[0].st) && |views[0].st.flag| == numPorts * count && |views[0].st.rings| == 2 * numPorts
    ensures forall p: nat | p < numPorts ::
      views[0].st.rings[RxRing(p)].cap == rxDescs[p] && views[0].st.rings[TxRing(p)].cap == txDescs[p]
    ensures var zeros := seq(numPorts, _ => 0);
            views[0].books == Books(zeros, zeros, zeros, zeros, zeros, zeros)
    ensures Reaches(views[0].st, steps, plane.Model())
    ensures Conserved(plane.Model(), plane.owner)
    ensures forall s: nat, o | s < |plane.Model().flag| :: Found(plane.Model(), s, o) <==> o == plane.owner[s]
    ensures forall r | r in plane.rings :: RingHolds(r, dma)
  {
    hide IoPlane.Core, Reaches, Booked, Init, Does, Conserved, RingHolds;
    plane := new IoPlane(numPorts, count, rxDescs, txDescs, dma);
    plane.Sizes();
    assert plane.slots[..] == plane.Model().flag;
    mine, steps, views, moved := {}, [], [ViewOf(plane)], [];
    Capacities(plane);
    ghost var start, init := ViewOf(plane), plane.Model();
    ReachesNone(init);
    hide IoPlane.Model;
    for i := 0 to |ops|
      invariant plane.Valid() && mine == plane.held && Reaches(init, steps, plane.Model())
      invariant Trace(views, ops[..i], count, moved) && views[0] == start && views[i] == ViewOf(plane)
    {
      ghost var st, more, slots := plane.Model(), [], [];
      mine, more, slots := Perform(plane, ops[i], mine);
      TraceMore(views, ops[..i], count, moved, ops[i], slots, ViewOf(plane));
      assert ops[..i] + [ops[i]] == ops[..i + 1];
      views, moved := views + [ViewOf(plane)], moved + [slots];
      ReachesTrans(init, steps, st, more, plane.Model());
      steps := steps + more;
    }
    assert ops[..|ops|] == ops;
    plane.Sizes();
    OnePlaceEach(plane.Model(), plane.owner);
    RingsHold(plane);
  }

  lemma {:induction false} Capacities(plane: IoPlane)
    requires plane.Core()
    ensures |plane.Model().rings| == |plane.rings|
    ensures forall i | 0 <= i < |plane.rings| :: plane.Model().rings[i].cap == plane.rings[i].num
  {
    hide Conserved;
    forall i | 0 <= i < |plane.rings|
      ensures plane.Model().rings[i].cap == plane.rings[i].num
    {
      assert plane.rings[i].Valid(plane.dma);
    }
  }

  lemma {:induction false} OnePlaceEach(st: State, owner: seq<Owner>)
    requires Conserved(st, owner)
    ensures forall s: nat, o | s < |st.flag| :: Found(st, s, o) <==> o == owner[s]
  {
    hide Found;
    forall s: nat, o | s < |st.flag|
      ensures Found(st, s, o) <==> o == owner[s]
    {
      ExactlyOnePlace(st, owner, s, o);
    }
  }
}
