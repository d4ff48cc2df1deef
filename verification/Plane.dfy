/** The packet interface of one thread: every port has a receive and a transmit ring, and all
    ports share one array of packet slots. Each operation is a run of the slot machine. */
module Plane {
  import opened Arith
  import opened DescRing
  import opened Outcomes
  import opened SlotMachine
  import opened SlotSearch

  /** Empty rings of the given sizes, none sharing memory with another. */
  method NewRings(descs: seq<nat>, ghost dma: nat -> nat) returns (rs: seq<Ring>)
    requires forall i | 0 <= i < |descs| :: 1 <= descs[i] < 0x10000
    ensures |rs| == |descs|
    ensures forall k | 0 <= k < |rs| :: fresh(rs[k]) && fresh(rs[k].slotIndex) && fresh(rs[k].desc)
    ensures forall k | 0 <= k < |rs| ::
      rs[k].num == descs[k] && rs[k].Valid(dma) && rs[k].fifo == Fifo(descs[k], [], 0, 0, 0)
    ensures forall k, l | 0 <= k < l < |rs| ::
      rs[k] != rs[l] && rs[k].slotIndex != rs[l].slotIndex && rs[k].desc != rs[l].desc
  {
    hide Ring.Valid;
    rs := [];
    for i := 0 to |descs|
      invariant |rs| == i
      invariant forall k | 0 <= k < i :: fresh(rs[k]) && fresh(rs[k].slotIndex) && fresh(rs[k].desc)
      invariant forall k | 0 <= k < i ::
        rs[k].num == descs[k] && rs[k].Valid(dma) && rs[k].fifo == Fifo(descs[k], [], 0, 0, 0)
      invariant forall k, l | 0 <= k < l < i ::
        rs[k] != rs[l] && rs[k].slotIndex != rs[l].slotIndex && rs[k].desc != rs[l].desc
    {
      var r := new Ring(descs[i], dma);
      rs := rs + [r];
    }
  }

  /** The sizes of the rings: receive ring 2p and transmit ring 2p + 1 for port p. */
  function Interleaved(rx: seq<nat>, tx: seq<nat>): (descs: seq<nat>)
    requires |rx| == |tx|
    ensures |descs| == 2 * |rx|
    ensures forall p: nat | p < |rx| :: descs[RxRing(p)] == rx[p] && descs[TxRing(p)] == tx[p]
    ensures forall i | 0 <= i < |descs| :: descs[i] in rx || descs[i] in tx
  {
    seq(2 * |rx|, i requires 0 <= i < 2 * |rx| => if i % 2 == 0 then rx[i / 2] else tx[i / 2])
  }

  class IoPlane {
    /** The rings: receive ring 2p and transmit ring 2p + 1 for port p. */
    const rings: seq<Ring>
    /** The in-flight flags: `count` slots for each port. */
    const slots: array<bool>
    const count: nat
    const numPorts: nat
    /** The DMA address of a slot. */
    const dma: nat -> nat

    var rxSlotNext: seq<nat>
    var txSuspended: seq<nat>
    /** How often each port found no free slot for a descriptor, and no free descriptor for a slot. */
    var rxAllocFailed: seq<int>
    var txXmitFailed: seq<int>
    /** How many packets each port has received and sent. */
    var rxCleanTotal: seq<int>
    var txCleanTotal: seq<int>

    ghost var held: set<nat>
    ghost var owner: seq<Owner>
    /** The successful searches of each port, from the start. */
    ghost var history: seq<seq<Search>>

    /** All slots free and all rings empty. `rxDescs` and `txDescs` give the sizes of the rings of
        each port. */
    constructor (numPorts: nat, count: nat, rxDescs: seq<nat>, txDescs: seq<nat>, dma: nat -> nat)
      requires |rxDescs| == |txDescs| == numPorts
      requires forall p | 0 <= p < numPorts :: 1 <= rxDescs[p] < 0x10000 && 1 <= txDescs[p] < 0x10000
      ensures Valid() && Init(Model()) && this.numPorts == numPorts && this.count == count && this.dma == dma
      ensures |rings| == 2 * numPorts
      ensures forall p: nat | p < numPorts :: rings[RxRing(p)].num == rxDescs[p] && rings[TxRing(p)].num == txDescs[p]
      ensures rxSlotNext == txSuspended == seq(numPorts, _ => 0)
      ensures rxAllocFailed == txXmitFailed == rxCleanTotal == txCleanTotal == seq(numPorts, _ => 0)
      ensures fresh(slots) && held == {}
      ensures forall i | 0 <= i < |rings| :: fresh(rings[i]) && fresh(rings[i].slotIndex) && fresh(rings[i].desc)
    {
      hide Ring.Valid, Interleaved, Core, Booked, Model, Init;
      var descs := Interleaved(rxDescs, txDescs);
      var rs := NewRings(descs, dma);
      rings := rs;
      this.numPorts, this.count, this.dma := numPorts, count, dma;
      slots := new bool[numPorts * count](_ => false);
      rxSlotNext := seq(numPorts, _ => 0);
      txSuspended := seq(numPorts, _ => 0);
      rxAllocFailed := seq(numPorts, _ => 0);
      txXmitFailed := seq(numPorts, _ => 0);
      rxCleanTotal := seq(numPorts, _ => 0);
      txCleanTotal := seq(numPorts, _ => 0);
      held := {};
      owner := seq(numPorts * count, _ => Free);
      history := seq(numPorts, _ => []);
      new;
      Starts();
    }

    /** The books of a new plane. */
    lemma {:induction false} Starts()
      requires |rings| == 2 * numPorts && slots.Length == numPorts * count && Separate()
      requires rxSlotNext == txSuspended == seq(numPorts, _ => 0)
      requires rxAllocFailed == txXmitFailed == rxCleanTotal == txCleanTotal == seq(numPorts, _ => 0)
      requires forall i | 0 <= i < |rings| ::
        rings[i].num >= 1 && rings[i].Valid(dma) && rings[i].fifo == Fifo(rings[i].num, [], 0, 0, 0)
      requires (forall s | 0 <= s < slots.Length :: !slots[s]) && held == {}
      requires owner == seq(numPorts * count, _ => Free) && history == seq(numPorts, _ => [])
      ensures Valid() && Init(Model())
    {
      hide Ring.Valid, Conserved;
      InitConserved(Model());
      assert owner == seq(|Model().flag|, _ => Free);
    }

    ghost function Model(): State
      reads this, slots, rings
    {
      State(slots[..], seq(|rings|, i requires 0 <= i < |rings| reads rings => rings[i].fifo), held)
    }

    /** No two rings share memory. */
    ghost predicate Separate() {
      forall i, j | 0 <= i < j < |rings| ::
        rings[i] != rings[j] && rings[i].slotIndex != rings[j].slotIndex && rings[i].desc != rings[j].desc
    }

    ghost predicate Core()
      reads this, slots, rings, (set r | r in rings :: r.slotIndex), (set r | r in rings :: r.desc)
    {
      |rings| == 2 * numPorts && slots.Length == numPorts * count && Separate()
      && |rxSlotNext| == |txSuspended| == |rxAllocFailed| == |txXmitFailed| == numPorts
      && |rxCleanTotal| == |txCleanTotal| == numPorts
      && (forall p | 0 <= p < numPorts :: count > 0 ==> rxSlotNext[p] < count)
      && (forall i | 0 <= i < |rings| :: rings[i].Valid(dma))
      && Conserved(Model(), owner) && Logs(history, rxSlotNext, count)
    }

    ghost predicate Valid()
      reads this, slots, rings, (set r | r in rings :: r.slotIndex), (set r | r in rings :: r.desc)
    {
      Core() && Booked(Model(), txSuspended)
    }

    // ----- single steps -----

    /** Fills and attaches: the slot goes from the client into the ring. */
    method Attach(r: nat, s: nat)
      requires Core() && r < |rings| && Enabled(Model(), SlotMachine.Attach(r, s))
      modifies rings[r], rings[r].slotIndex, rings[r].desc, this`held, this`owner
      ensures Core() && Model() == Apply(old(Model()), SlotMachine.Attach(r, s))
    {
      hide Conserved, Exactly, Ring.Valid, Wrap, Logs;
      ghost var st := Model();
      rings[r].Push(s, dma, dma(s));
      held := held - {s};
      AttachKeeps(st, owner, r, s);
      owner := owner[s := InRing(r)];
      assert Model().rings == Apply(st, SlotMachine.Attach(r, s)).rings;
    }

    /** Writes the tail register of a ring. */
    method PublishRing(r: nat)
      requires Core() && r < |rings|
      modifies rings[r]
      ensures Core() && Model() == Apply(old(Model()), Publish(r))
    {
      hide Conserved, Exactly, Ring.Valid, Wrap, Logs;
      ghost var st := Model();
      rings[r].Publish(dma);
      QuietKeeps(st, owner, Publish(r));
      assert Model().rings == Apply(st, Publish(r)).rings;
    }

    /** The device completes a descriptor of a ring. */
    method Hardware(r: nat) returns (done: bool)
      requires Core() && r < |rings|
      modifies rings[r], rings[r].desc
      ensures Core() && (done <==> Enabled(old(Model()), Complete(r)))
      ensures Model() == if done then Apply(old(Model()), Complete(r)) else old(Model())
    {
      hide Conserved, Exactly, Ring.Valid, Wrap, Logs;
      ghost var st := Model();
      done := rings[r].Complete(dma);
      if done {
        QuietKeeps(st, owner, Complete(r));
        assert Model().rings == Apply(st, Complete(r)).rings;
      } else {
        assert Model().rings == st.rings;
      }
    }

    /** The device works on while software does: it completes descriptors of the given rings. */
    method Meanwhile(device: seq<nat>) returns (ghost steps: seq<Step>)
      requires Core()
      modifies rings, set r | r in rings :: r.desc
      ensures Core() && OnlyDevice(old(Model()), Model()) && Reaches(old(Model()), steps, Model())
    {
      hide Core, Model, Reaches, OnlyDevice, Enabled;
      ghost var st := Model();
      steps := [];
      ReachesNone(st);
      DeviceNone(st);
      for i := 0 to |device|
        invariant Core() && OnlyDevice(st, Model()) && Reaches(st, steps, Model())
      {
        if device[i] < |rings| {
          ghost var st1 := Model();
          var done := Hardware(device[i]);
          if done {
            DeviceMore(st, st1, device[i]);
            ReachesOne(st1, Complete(device[i]));
            ReachesTrans(st, steps, st1, [Complete(device[i])], Model());
            steps := steps + [Complete(device[i])];
          }
        }
      }
    }

    /** Takes the oldest slot out of a ring, if the device is done with it. */
    method DetachSlot(r: nat) returns (ok: bool, s: nat)
      requires Core() && r < |rings|
      modifies rings[r], this`held, this`owner
      ensures Core() && (ok <==> Enabled(old(Model()), Detach(r)))
      ensures ok ==> Enabled(old(Model()), Detach(r)) && s in held
      ensures ok ==> s == old(Model()).rings[r].log[old(Model()).rings[r].cleaned]
      ensures Model() == if ok then Apply(old(Model()), Detach(r)) else old(Model())
    {
      hide Conserved, Exactly, Ring.Valid, Wrap, Logs;
      ghost var st := Model();
      RingOk(st, owner, r);
      ok, s := rings[r].Pop(dma);
      if ok {
        DetachKeeps(st, owner, r);
        owner := NewOwner(st, owner, Detach(r));
        held := held + {s};
        assert Model().rings == Apply(st, Detach(r)).rings;
      } else {
        assert Model().rings == st.rings;
      }
    }

    /** Clears the flag of a slot the client holds. */
    method SlotRelease(s: nat)
      requires Core() && s in held
      modifies slots, this`held, this`owner
      ensures Core() && Enabled(old(Model()), Release(s)) && Model() == Apply(old(Model()), Release(s))
    {
      hide Exactly;
      ghost var st := Model();
      assert s < |owner| == slots.Length;
      hide Conserved;
      ReleaseKeeps(st, owner, s);
      slots[s] := false;
      held := held - {s};
      owner := owner[s := Free];
      assert Model().rings == st.rings && Model().flag == st.flag[s := false];
    }

    /** Marks a free slot and gives it to the client. */
    method SlotTake(s: nat)
      requires Core() && s < slots.Length && !slots[s]
      modifies slots, this`held, this`owner
      ensures Core() && Enabled(old(Model()), Take(s)) && Model() == Apply(old(Model()), Take(s))
    {
      hide Conserved, Exactly, Ring.Valid, Wrap, Logs;
      ghost var st := Model();
      TakeKeeps(st, owner, s);
      slots[s] := true;
      held := held + {s};
      owner := owner[s := Client];
      assert Model().rings == st.rings && Model().flag == st.flag[s := true];
    }

    /** The first slot of a port. */
    function Offset(p: nat): nat {
      p * count
    }

    lemma {:induction false} PortRange(p: nat)
      requires p < numPorts
      ensures Offset(p) + count <= numPorts * count
    {
      MulStep(count, p, numPorts);
    }

    // ----- the operations -----

    /** Searches the range of a port onwards from where the last search ended. */
    method FindFree(p: nat) returns (found: bool, next: nat, ghost turn: nat)
      requires p < numPorts && slots.Length == numPorts * count && |rxSlotNext| == numPorts
      requires count > 0 ==> rxSlotNext[p] < count
      ensures found <==> !RangeFull(slots[..], Offset(p), count)
      ensures found ==> FirstFree(slots[..], Offset(p), count, rxSlotNext[p], turn) && next < count
      ensures found ==> Offset(p) + next == Turn(Offset(p), count, rxSlotNext[p], turn)
      ensures found ==> Offset(p) + next < slots.Length && !slots[Offset(p) + next]
    {
      hide Wrap, Offset;
      PortRange(p);
      turn := 0;
      next := rxSlotNext[p];
      ghost var start := next;
      if count > 0 {
        ModByTurn(start, count);
      }
      for i := 0 to count
        invariant count > 0 ==> next == Wrap(start + i, count)
        invariant forall j: nat | j < i :: slots[Turn(Offset(p), count, start, j)]
      {
        if !slots[Offset(p) + next] {
          return true, next, i;
        }
        ModNext(start + i, count);
        next := next + 1;
        if next == count {
          next := 0;
        }
      }
      if count > 0 {
        FullTurn(slots[..], Offset(p), count, start);
      }
      found := false;
    }

    /** Gives the client the first free slot of the port's range. It fails exactly when the
        whole range is in flight. */
    method SlotAssign(p: nat) returns (slot: int, ghost turn: nat)
      requires Core() && p < numPorts
      modifies slots, this`rxSlotNext, this`held, this`owner, this`history
      ensures Core() && (slot < 0 <==> RangeFull(old(slots[..]), Offset(p), count))
      ensures slot < 0 ==> Model() == old(Model()) && rxSlotNext == old(rxSlotNext) && history == old(history)
      ensures p < |old(history)| && slot >= 0 ==>
        history == old(history)[p := old(history)[p] + [Search(old(slots[..]), old(rxSlotNext)[p], turn)]]
      ensures slot >= 0 ==>
        FirstFree(old(slots[..]), Offset(p), count, old(rxSlotNext)[p], turn) &&
        slot == Turn(Offset(p), count, old(rxSlotNext)[p], turn) &&
        rxSlotNext == old(rxSlotNext)[p := Wrap(old(rxSlotNext)[p] + turn + 1, count)]
      ensures slot >= 0 ==>
        NextFree(old(slots[..]), p * count, count, old(rxSlotNext)[p], slot) &&
        rxSlotNext == old(rxSlotNext)[p := Behind(p * count, count, slot)]
      ensures slot >= 0 ==> Enabled(old(Model()), Take(slot)) && Model() == Apply(old(Model()), Take(slot))
    {
      hide Core, Model, Conserved, FirstFree, RangeFull, Wrap, Offset, NextFree, Behind;
      PortFacts(p);
      var found, next;
      found, next, turn := FindFree(p);
      if !found {
        return -1, turn;
      }
      slot := Offset(p) + next;
      ghost var start := rxSlotNext[p];
      SlotTake(slot);
      PortFacts(p);
      ModNext(start + turn, count);
      FirstFreeIsNext(old(slots[..]), Offset(p), count, start, turn);
      Move(p, if next + 1 == count then 0 else next + 1, old(slots[..]), turn);
    }

    /** Takes slots of a port until a given free one comes up, which it does within as many
        assigns as the port has slots. */
    method AssignUntil(p: nat, s: nat) returns (taken: seq<nat>)
      requires Core() && p < numPorts && Offset(p) <= s < Offset(p) + count && s < slots.Length && !slots[s]
      modifies slots, this`rxSlotNext, this`held, this`owner, this`history
      ensures Core() && 1 <= |taken| <= count && taken[|taken| - 1] == s && s in held
    {
      hide Core, Model, Conserved, FirstFree, RangeFull, Wrap, Offset, Distance;
      taken := [];
      PortFacts(p);
      DistanceBelow(Offset(p), count, rxSlotNext[p], s);
      while true
        invariant Core() && s < slots.Length && !slots[s]
        invariant |rxSlotNext| == numPorts && rxSlotNext[p] < count
        invariant |taken| + Distance(Offset(p), count, rxSlotNext[p], s) < count
        decreases Distance(Offset(p), count, rxSlotNext[p], s)
      {
        ghost var st, flags, start := Model(), slots[..], rxSlotNext[p];
        NotFull(flags, Offset(p), count, s);
        PortFacts(p);
        var slot, turn := SlotAssign(p);
        NearerOrTaken(Search(flags, start, turn), Offset(p), count, s);
        taken := taken + [slot];
        PortFacts(p);
        TakenFacts(st, slot);
        if slot == s {
          return;
        }
      }
    }

    /** Among any `count` successive searches of a port, a slot of its range that is free until
        it is handed out is handed out, whatever else happened in between. */
    lemma {:induction false} AssignsAreFair(p: nat, s: nat, from: nat)
      requires Core() && p < numPorts && Offset(p) <= s < Offset(p) + count
      requires p < |history| && from + count <= |history[p]|
      requires forall t | from <= t < from + count ::
        FoundFree(history[p][t], s) || exists u | from <= u < t :: Took(history[p][u], Offset(p), count, s)
      ensures exists t | from <= t < from + count :: Took(history[p][t], Offset(p), count, s)
    {
      hide Conserved, Ring.Valid, FirstFree, Wrap, Took, FoundFree;
      assert Logged(history[p], rxSlotNext[p], p * count, count);
      var runs := history[p][from..from + count];
      Stretch(history[p], Offset(p), count, from, from + count);
      hide Searches, Core, Offset;
      forall t | 0 <= t < count
        ensures FoundFree(runs[t], s) || exists u | 0 <= u < t :: Took(runs[u], Offset(p), count, s)
      {
        assert runs[t] == history[p][from + t];
        if u :| from <= u < from + t && Took(history[p][u], Offset(p), count, s) {
          assert runs[u - from] == history[p][u];
        }
      }
      TakenWithin(runs, Offset(p), count, s);
      var t :| 0 <= t < count && Took(runs[t], Offset(p), count, s);
      assert history[p][from + t] == runs[t];
    }

    /** What the flags and the client hold after a slot has been taken. */
    lemma {:induction false} TakenFacts(st: State, slot: nat)
      requires Core() && Enabled(st, Take(slot)) && Model() == Apply(st, Take(slot))
      ensures slots.Length == |st.flag| && slot in held
      ensures forall i | 0 <= i < slots.Length && i != slot :: slots[i] == st.flag[i]
    {
      hide Core, Conserved;
      assert Model().flag == slots[..];
      assert Model().flag == st.flag[slot := true] && Model().held == st.held + {slot};
      assert |Model().flag| == |st.flag|;
    }

    lemma {:induction false} PortFacts(p: nat)
      requires Core() && p < numPorts
      ensures |rxSlotNext| == |history| == numPorts && slots.Length == numPorts * count
      ensures count > 0 ==> rxSlotNext[p] < count
      ensures Model().flag == slots[..] && Offset(p) == p * count
    {
    }

    /** Notes where the next search of a port starts. */
    method Move(p: nat, next: nat, ghost flags: seq<bool>, ghost turn: nat)
      requires Core() && p < numPorts == |rxSlotNext| == |history| && rxSlotNext[p] < count
      requires FirstFree(flags, p * count, count, rxSlotNext[p], turn) && next == Wrap(rxSlotNext[p] + turn + 1, count)
      modifies this`rxSlotNext, this`history
      ensures Core() && Model() == old(Model()) && rxSlotNext == old(rxSlotNext)[p := next]
      ensures history == old(history)[p := old(history)[p] + [Search(flags, old(rxSlotNext)[p], turn)]]
    {
      hide Conserved, FirstFree, Ring.Valid, Wrap, Logs;
      ghost var st := Model();
      LogsMore(history, rxSlotNext, count, p, flags, turn);
      history := history[p := history[p] + [Search(flags, rxSlotNext[p], turn)]];
      rxSlotNext := rxSlotNext[p := next];
      assert Model().rings == st.rings;
    }

    // ----- bookkeeping -----

    method FreeDescs(r: nat) returns (n: nat)
      requires Core() && r < |rings|
      ensures |Model().rings| == |rings| && n == FreeCount(Model().rings[r])
    {
      n := rings[r].Unused(dma);
    }

    method CountRxFailed(p: nat, n: nat)
      requires Core() && p < numPorts == |rxAllocFailed|
      modifies this`rxAllocFailed
      ensures Core() && Model() == old(Model()) && rxAllocFailed == Counted(old(rxAllocFailed), p, n)
    {
      hide Conserved;
      ghost var st := Model();
      rxAllocFailed := rxAllocFailed[p := rxAllocFailed[p] + n];
      assert Model().rings == st.rings;
    }

    method CountTxFailed(p: nat)
      requires Core() && p < numPorts == |txXmitFailed|
      modifies this`txXmitFailed
      ensures Core() && Model() == old(Model()) && txXmitFailed == Counted(old(txXmitFailed), p, 1)
    {
      hide Conserved;
      ghost var st := Model();
      txXmitFailed := txXmitFailed[p := txXmitFailed[p] + 1];
      assert Model().rings == st.rings;
    }

    method CountRxClean(p: nat, n: nat)
      requires Core() && p < numPorts == |rxCleanTotal|
      modifies this`rxCleanTotal
      ensures Core() && Model() == old(Model()) && rxCleanTotal == Counted(old(rxCleanTotal), p, n)
    {
      hide Conserved, Ring.Valid, Logs;
      ghost var st := Model();
      rxCleanTotal := rxCleanTotal[p := rxCleanTotal[p] + n];
      assert Model().rings == st.rings;
    }

    method CountTxClean(p: nat, n: nat)
      requires Core() && p < numPorts == |txCleanTotal|
      modifies this`txCleanTotal
      ensures Core() && Model() == old(Model()) && txCleanTotal == Counted(old(txCleanTotal), p, n)
    {
      hide Conserved, Ring.Valid, Logs;
      ghost var st := Model();
      txCleanTotal := txCleanTotal[p := txCleanTotal[p] + n];
      assert Model().rings == st.rings;
    }

    method SetSuspended(p: nat, n: nat)
      requires Core() && p < numPorts && |txSuspended| == numPorts
      modifies this`txSuspended
      ensures Core() && Model() == old(Model()) && txSuspended == old(txSuspended)[p := n]
    {
      hide Conserved;
      ghost var st := Model();
      txSuspended := txSuspended[p := n];
      assert Model().rings == st.rings;
    }

    lemma {:induction false} Sizes()
      requires Core()
      ensures |rings| == |Model().rings| == 2 * numPorts
      ensures |txSuspended| == |rxAllocFailed| == |txXmitFailed| == |rxCleanTotal| == |txCleanTotal| == numPorts
      ensures |rxSlotNext| == numPorts && slots.Length == numPorts * count
      ensures slots[..] == Model().flag && held == Model().held && Conserved(Model(), owner)
    {
    }

    // ----- receive -----

    /** Puts one free slot of the port into its receive ring, if there is one. */
    method RxFillOne(p: nat) returns (ok: bool, ghost slot: nat)
      requires Core() && p < numPorts && RxRing(p) < |rings| == |Model().rings| &&
               FreeCount(Model().rings[RxRing(p)]) > 0
      modifies this`rxSlotNext, this`held, this`owner, this`history, slots
      modifies rings[RxRing(p)], rings[RxRing(p)].slotIndex, rings[RxRing(p)].desc
      ensures Core()
      ensures ok <==> !RangeFull(old(Model()).flag, Offset(p), count)
      ensures !ok ==> Model() == old(Model())
      ensures ok ==> Added(old(Model()), RxRing(p), slot, Model())
      ensures |old(rxSlotNext)| == numPorts && (!ok ==> rxSlotNext == old(rxSlotNext))
      ensures ok ==>
        NextFree(old(Model()).flag, Offset(p), count, old(rxSlotNext)[p], slot) &&
        rxSlotNext == old(rxSlotNext)[p := Behind(Offset(p), count, slot)]
      ensures Grown(old(history), history)
    {
      hide Core, Model, Conserved, RangeFull, FirstFree, Offset, Grown, NextFree, Behind;
      Sizes();
      PortFacts(p);
      GrownOne(history, p, Search([], 0, 0));
      slot := 0;
      ghost var st := Model();
      var s, turn := SlotAssign(p);
      GrownOne(old(history), p, Search(old(slots[..]), old(rxSlotNext)[p], turn));
      if s < 0 {
        return false, slot;
      }
      HeldIsFlagged(st, old(owner), s);
      Attach(RxRing(p), s);
      return true, s;
    }

    /** Fills the receive ring of a port until it is full or no slot of the port is free. Before
        each turn `t` the device completes descriptors of the rings `device(t)`. */
    method RxFill(p: nat, device: nat -> seq<nat>)
      returns (total: nat, left: nat, ghost added: seq<nat>, ghost steps: seq<Step>)
      requires Core() && p < numPorts && RxRing(p) < |rings|
      modifies this`rxSlotNext, this`held, this`owner, this`history, slots
      modifies rings, rings[RxRing(p)].slotIndex, set r | r in rings :: r.desc
      ensures Core() && total == |added|
      ensures Filled(old(Model()), RxRing(p), added, Model()) && Reaches(old(Model()), steps, Model())
      ensures |Model().rings| == |rings|
      ensures left == FreeCount(Model().rings[RxRing(p)]) && (left == 0 || RangeFull(Model().flag, Offset(p), count))
      ensures |old(rxSlotNext)| == numPorts && InTurn(old(Model()).flag, Offset(p), count, old(rxSlotNext)[p], added)
      ensures rxSlotNext == old(rxSlotNext)[p := PositionAfter(Offset(p), count, old(rxSlotNext)[p], added)]
      ensures Grown(old(history), history)
    {
      hide Core, Model, Conserved, RangeFull, Offset, Added, Reaches, Filled, FreeCount, Grown, OnlyDevice, NextFree,
          Behind, InTurn, FlagsAfter;
      Sizes();
      var r := RxRing(p);
      ghost var st := Model();
      added, steps := [], [];
      ReachesNone(st);
      var max := FreeDescs(r);
      total := 0;
      FilledNone(st, r);
      PortFacts(p);
      NoTurn(st.flag, Offset(p), count, rxSlotNext[p]);
      GrownOne(history, p, Search([], 0, 0));
      while total < max
        invariant Core() && |added| == total <= max
        invariant InTurn(st.flag, Offset(p), count, old(rxSlotNext)[p], added)
        invariant rxSlotNext == old(rxSlotNext)[p := PositionAfter(Offset(p), count, old(rxSlotNext)[p], added)]
        invariant Filled(st, r, added, Model()) && Reaches(st, steps, Model())
        invariant Grown(old(history), history)
      {
        ghost var st0 := Model();
        ghost var work := Meanwhile(device(total));
        ghost var st1, history1 := Model(), history;
        FilledDevice(st, r, added, st0, st1);
        ReachesTrans(st, steps, st0, work, st1);
        steps := steps + work;
        FilledCount(st, r, added, st1);
        Sizes();
        var ok, slot := RxFillOne(p);
        GrownTrans(old(history), history1, history);
        if !ok {
          return total, max - total, added, steps;
        }
        FilledFlags(st, r, added, st1);
        InTurnMore(st.flag, Offset(p), count, old(rxSlotNext)[p], added, slot);
        FilledMore(st, r, added, st1, slot, Model());
        AddedReaches(st1, r, slot, Model());
        ReachesTrans(st, steps, st1, [Take(slot), SlotMachine.Attach(r, slot)], Model());
        added := added + [slot];
        steps := steps + [Take(slot), SlotMachine.Attach(r, slot)];
        total := total + 1;
      }
      FilledCount(st, r, added, Model());
      left := 0;
    }

    /** Fills the receive ring of a port with free slots and publishes them. It stops when the
        ring is full or no slot of the port is free, and counts the descriptors left empty. */
    method RxAssign(p: nat, device: nat -> seq<nat>) returns (ghost added: seq<nat>, ghost steps: seq<Step>)
      requires Valid() && p < numPorts && RxRing(p) < |rings|
      modifies this`rxSlotNext, this`held, this`owner, this`history, this`rxAllocFailed, slots
      modifies rings, rings[RxRing(p)].slotIndex, set r | r in rings :: r.desc
      ensures Valid() && Reaches(old(Model()), steps, Model())
      ensures FilledAndPublished(old(Model()), RxRing(p), added, Model())
      ensures |Model().rings| == |rings|
      ensures FreeCount(Model().rings[RxRing(p)]) == 0 || RangeFull(Model().flag, Offset(p), count)
      ensures rxAllocFailed == Counted(old(rxAllocFailed), p, FreeCount(Model().rings[RxRing(p)]))
      ensures |old(rxSlotNext)| == numPorts && InTurn(old(Model()).flag, Offset(p), count, old(rxSlotNext)[p], added)
      ensures rxSlotNext == old(rxSlotNext)[p := PositionAfter(Offset(p), count, old(rxSlotNext)[p], added)]
      ensures Grown(old(history), history)
    {
      hide Core, Model, Conserved, RangeFull, Offset, Reaches, Booked, Filled, FilledAndPublished, FreeCount, Counted,
          Grown, InTurn, PositionAfter;
      Sizes();
      ghost var st := Model();
      var total, left;
      total, left, added, steps := RxFill(p, device);
      CountedNone(rxAllocFailed, p);
      Sizes();
      if left > 0 {
        CountRxFailed(p, left);
      }
      ghost var st1 := Model();
      if total > 0 {
        PublishRing(RxRing(p));
        ReachesOne(st1, Publish(RxRing(p)));
        ReachesTrans(st, steps, st1, [Publish(RxRing(p))], Model());
        steps := steps + [Publish(RxRing(p))];
      }
      BookedRx(st, txSuspended, p, added, st1, Model());
    }

    // ----- transmit -----

    /** Sends a slot the client holds: it is attached, or released when the ring is full. */
    method TxAssign(p: nat, s: nat)
      requires Valid() && p < numPorts && TxRing(p) < |rings| == |Model().rings| && s in held
      modifies this`held, this`owner, this`txSuspended, this`txXmitFailed, slots
      modifies rings[TxRing(p)], rings[TxRing(p)].slotIndex, rings[TxRing(p)].desc
      ensures Valid()
      ensures var step := SendStep(old(Model()), TxRing(p), s);
              Enabled(old(Model()), step) && Model() == Apply(old(Model()), step)
      ensures txXmitFailed == Counted(old(txXmitFailed), p,
              if FreeCount(old(Model()).rings[TxRing(p)]) > 0 then 0 else 1)
      ensures p < |old(txSuspended)|
      ensures txSuspended == if FreeCount(old(Model()).rings[TxRing(p)]) > 0
                             then old(txSuspended)[p := old(txSuspended)[p] + 1] else old(txSuspended)
    {
      hide Core, Model, Conserved, Booked, Counted;
      Sizes();
      HeldInRange(Model(), owner, s);
      CountedNone(txXmitFailed, p);
      ghost var st := Model();
      var unused := FreeDescs(TxRing(p));
      if unused == 0 {
        BookedClean(st, txSuspended, Release(s));
        CountTxFailed(p);
        SlotRelease(s);
        return;
      }
      BookedTx(st, txSuspended, p, s);
      Attach(TxRing(p), s);
      SetSuspended(p, txSuspended[p] + 1);
    }

    /** Publishes the suspended transmit descriptors of a port. */
    method TxXmit(p: nat)
      requires Valid() && p < numPorts && TxRing(p) < |rings|
      modifies rings[TxRing(p)], this`txSuspended
      ensures Valid() && |txSuspended| == numPorts && txSuspended == old(txSuspended)[p := 0]
      ensures Enabled(old(Model()), Publish(TxRing(p))) && Model() == Apply(old(Model()), Publish(TxRing(p)))
    {
      hide Core, Model, Conserved, Booked;
      Sizes();
      BookedXmit(Model(), txSuspended, p);
      if txSuspended[p] > 0 {
        PublishRing(TxRing(p));
        SetSuspended(p, 0);
      }
    }

    // ----- cleaning -----

    /** Takes received packets out of the receive ring of a port, oldest first, up to a budget.
        Before each turn `t` the device completes descriptors of the rings `device(t)`. */
    method RxClean(p: nat, budget: nat, device: nat -> seq<nat>) returns (packets: seq<nat>, ghost steps: seq<Step>)
      requires Valid() && p < numPorts && RxRing(p) < |rings|
      modifies rings, set r | r in rings :: r.desc
      modifies this`held, this`owner, this`rxCleanTotal
      ensures Valid() && Reaches(old(Model()), steps, Model())
      ensures Cleaned(old(Model()), RxRing(p), budget, packets, Model())
      ensures rxCleanTotal == Counted(old(rxCleanTotal), p, |packets|)
    {
      hide Core, Model, Conserved, Booked, Reaches, Cleaned, CleanedSome, Counted, OnlyDevice;
      Sizes();
      var r := RxRing(p);
      ghost var st := Model();
      packets, steps := [], [];
      ReachesNone(st);
      RingOk(st, owner, r);
      DrainedNone(st, r);
      while |packets| < budget
        invariant Core() && Booked(Model(), txSuspended) && Reaches(st, steps, Model())
        invariant |packets| <= budget && CleanedSome(st, r, packets, Model())
        invariant rxCleanTotal == old(rxCleanTotal)
      {
        ghost var st0 := Model();
        ghost var work := Meanwhile(device(|packets|));
        ghost var st1 := Model();
        AfterDevice(st, steps, st0, work, st1, txSuspended);
        CleanedDevice(st, r, packets, st0, st1);
        steps := steps + work;
        var ok, s := DetachSlot(r);
        if !ok {
          break;
        }
        BookedClean(st1, txSuspended, Detach(r));
        ReachesOne(st1, Detach(r));
        ReachesTrans(st, steps, st1, [Detach(r)], Model());
        steps := steps + [Detach(r)];
        CleanedMore(st, r, packets, st1);
        packets := packets + [s];
      }
      Sizes();
      RingOk(Model(), owner, r);
      CleanedStops(st, r, budget, packets, Model());
      CountRxClean(p, |packets|);
    }

    /** Frees the slots of completed transmit descriptors, oldest first, up to a budget. */
    method TxClean(p: nat, budget: nat, device: nat -> seq<nat>) returns (ghost freed: seq<nat>, ghost steps: seq<Step>)
      requires Valid() && p < numPorts && TxRing(p) < |rings|
      modifies rings, set r | r in rings :: r.desc
      modifies slots, this`held, this`owner, this`txCleanTotal
      ensures Valid() && Reaches(old(Model()), steps, Model())
      ensures Freed(old(Model()), TxRing(p), budget, freed, Model())
      ensures txCleanTotal == Counted(old(txCleanTotal), p, |freed|)
    {
      hide Core, Model, Conserved, Booked, Reaches, Freed, FreedSome, Counted, OnlyDevice;
      Sizes();
      var r := TxRing(p);
      ghost var st := Model();
      freed, steps := [], [];
      var total := 0;
      ReachesNone(st);
      RingOk(st, owner, r);
      DrainedNone(st, r);
      while total < budget
        invariant Core() && Booked(Model(), txSuspended) && Reaches(st, steps, Model())
        invariant |freed| == total <= budget && FreedSome(st, r, freed, Model())
        invariant txCleanTotal == old(txCleanTotal)
      {
        ghost var st0 := Model();
        ghost var work := Meanwhile(device(total));
        ghost var st1, owner1 := Model(), owner;
        AfterDevice(st, steps, st0, work, st1, txSuspended);
        FreedDevice(st, r, freed, st0, st1);
        steps := steps + work;
        Sizes();
        var ok, s := DetachSlot(r);
        if !ok {
          break;
        }
        Sizes();
        HeldInRange(Model(), owner, s);
        SlotRelease(s);
        FreedMore(st, r, freed, st1, owner1);
        DetachAndRelease(st, steps, st1, r, s, txSuspended);
        steps := steps + [Detach(r), Release(s)];
        freed := freed + [s];
        total := total + 1;
      }
      Sizes();
      RingOk(Model(), owner, r);
      FreedStops(st, r, budget, freed, Model());
      CountTxClean(p, total);
    }

    // ----- clients and the device -----

    /** The client drops a packet. */
    method Drop(s: nat)
      requires Valid() && s in held
      modifies slots, this`held, this`owner
      ensures Valid() && Enabled(old(Model()), Release(s)) && Model() == Apply(old(Model()), Release(s))
    {
      hide Core, Model, Conserved, Booked;
      Sizes();
      HeldInRange(Model(), owner, s);
      BookedClean(Model(), txSuspended, Release(s));
      SlotRelease(s);
    }

    /** The device completes a descriptor of any ring. */
    method Device(r: nat) returns (done: bool)
      requires Valid() && r < |rings|
      modifies rings[r], rings[r].desc
      ensures Valid() && (done <==> Enabled(old(Model()), Complete(r)))
      ensures Model() == if done then Apply(old(Model()), Complete(r)) else old(Model())
    {
      hide Core, Model, Conserved, Booked;
      ghost var st := Model();
      done := Hardware(r);
      if done {
        BookedClean(st, txSuspended, Complete(r));
      }
    }

    /** Injects a packet that came from the kernel: a slot is taken and sent. */
    method ForwardTun(p: nat, fits: bool) returns (ghost steps: seq<Step>)
      requires Valid() && p < numPorts && TxRing(p) < |rings| == |Model().rings|
      modifies this`held, this`owner, this`txSuspended, this`txXmitFailed, this`rxSlotNext, this`history, slots
      modifies rings[TxRing(p)], rings[TxRing(p)].slotIndex, rings[TxRing(p)].desc
      ensures Valid() && Reaches(old(Model()), steps, Model()) && Model().held == old(Model()).held
      ensures !fits || RangeFull(old(Model()).flag, Offset(p), count) ==>
        steps == [] && rxSlotNext == old(rxSlotNext) && txXmitFailed == old(txXmitFailed) &&
        txSuspended == old(txSuspended)
      ensures |old(rxSlotNext)| == |old(txSuspended)| == numPorts
      ensures fits && !RangeFull(old(Model()).flag, Offset(p), count) ==>
        |steps| == 2 && steps[0].Take? && steps[1] == SendStep(old(Model()), TxRing(p), steps[0].s) &&
        NextFree(old(Model()).flag, Offset(p), count, old(rxSlotNext)[p], steps[0].s) &&
        rxSlotNext == old(rxSlotNext)[p := Behind(Offset(p), count, steps[0].s)]
      ensures fits && !RangeFull(old(Model()).flag, Offset(p), count) ==>
        var sent := FreeCount(old(Model()).rings[TxRing(p)]) > 0;
        txXmitFailed == Counted(old(txXmitFailed), p, if sent then 0 else 1) &&
        txSuspended == if sent then old(txSuspended)[p := old(txSuspended)[p] + 1] else old(txSuspended)
      ensures Grown(old(history), history)
    {
      hide Core, Model, Conserved, Booked, Reaches, RangeFull, FirstFree, Offset, FreeCount, Grown, NextFree, Behind,
          Counted;
      Sizes();
      ghost var st, owner0 := Model(), owner;
      steps := [];
      ReachesNone(st);
      PortFacts(p);
      GrownOne(history, p, Search([], 0, 0));
      if !fits {
        return;
      }
      var s, turn := SlotAssign(p);
      GrownOne(old(history), p, Search(old(slots[..]), old(rxSlotNext)[p], turn));
      if s < 0 {
        return;
      }
      HeldIsFlagged(st, owner0, s);
      BookedClean(st, txSuspended, Take(s));
      ghost var st1 := Model();
      Sizes();
      TxAssign(p, s);
      ghost var step := SendStep(st, TxRing(p), s);
      ReachesOne(st, Take(s));
      ReachesOne(st1, step);
      ReachesTrans(st, [Take(s)], st1, [step], Model());
      steps := [Take(s)] + [step];
    }
  }
}
