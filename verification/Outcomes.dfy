/** What the operations of the packet interface do to the rings, the flags and the client, while
    the device goes on completing descriptors. */
module Outcomes {
  import opened DescRing
  import opened SlotMachine
  import opened SlotSearch

  // ----- the device at work -----

  /** The device has completed some more descriptors of a ring, and nothing else has changed. */
  ghost predicate Advanced(f: Fifo, f': Fifo) {
    f.completed <= f'.completed && f' == f.(completed := f'.completed)
  }

  ghost predicate AllAdvanced(rs: seq<Fifo>, rs': seq<Fifo>) {
    |rs| == |rs'| && forall i | 0 <= i < |rs| :: Advanced(rs[i], rs'[i])
  }

  /** Only the device has done something. */
  ghost predicate OnlyDevice(st: State, st': State) {
    st'.flag == st.flag && st'.held == st.held && AllAdvanced(st.rings, st'.rings)
  }

  lemma {:induction false} DeviceNone(st: State)
    ensures OnlyDevice(st, st)
  {
  }

  lemma {:induction false} DeviceMore(st: State, st1: State, r: nat)
    requires OnlyDevice(st, st1) && Enabled(st1, Complete(r))
    ensures OnlyDevice(st, Apply(st1, Complete(r)))
  {
  }

  lemma {:induction false} AdvancedTrans(a: seq<Fifo>, b: seq<Fifo>, c: seq<Fifo>)
    requires AllAdvanced(a, b) && AllAdvanced(b, c)
    ensures AllAdvanced(a, c)
  {
  }

  // ----- books -----

  /** Between operations every receive descriptor is published, and the transmit descriptors
      that are not are counted as suspended. */
  ghost predicate Booked(st: State, suspended: seq<nat>) {
    |st.rings| == 2 * |suspended|
    && (forall p: nat | p < |suspended| :: st.rings[RxRing(p)].published == |st.rings[RxRing(p)].log|)
    && forall p: nat | p < |suspended| :: st.rings[TxRing(p)].published + suspended[p] == |st.rings[TxRing(p)].log|
  }

  lemma {:induction false} BookedDevice(st: State, suspended: seq<nat>, st': State)
    requires Booked(st, suspended) && AllAdvanced(st.rings, st'.rings)
    ensures Booked(st', suspended)
  {
    forall p: nat | p < |suspended|
      ensures st'.rings[RxRing(p)].published == |st'.rings[RxRing(p)].log|
      ensures st'.rings[TxRing(p)].published + suspended[p] == |st'.rings[TxRing(p)].log|
    {
      assert Advanced(st.rings[RxRing(p)], st'.rings[RxRing(p)]);
      assert Advanced(st.rings[TxRing(p)], st'.rings[TxRing(p)]);
    }
  }

  lemma {:induction false} BookedTx(st: State, suspended: seq<nat>, p: nat, s: nat)
    requires Booked(st, suspended) && p < |suspended| && Enabled(st, Attach(TxRing(p), s))
    ensures Booked(Apply(st, Attach(TxRing(p), s)), suspended[p := suspended[p] + 1])
  {
  }

  lemma {:induction false} BookedXmit(st: State, suspended: seq<nat>, p: nat)
    requires Booked(st, suspended) && p < |suspended|
    ensures TxRing(p) < |st.rings| && Booked(Apply(st, Publish(TxRing(p))), suspended[p := 0])
    ensures suspended[p] == 0 ==> Apply(st, Publish(TxRing(p))) == st && suspended[p := 0] == suspended
  {
    if suspended[p] == 0 {
      var r := TxRing(p);
      assert st.rings[r].(published := |st.rings[r].log|) == st.rings[r];
      assert st.rings[r := st.rings[r]] == st.rings;
    }
  }

  lemma {:induction false} BookedClean(st: State, suspended: seq<nat>, step: Step)
    requires Booked(st, suspended) && Enabled(st, step) &&
             (step.Detach? || step.Release? || step.Complete? || step.Take?)
    ensures Booked(Apply(st, step), suspended)
  {
  }

  lemma {:induction false} ReachesNone(st: State)
    ensures Reaches(st, [], st)
  {
  }

  /** The counters of all ports after `n` more events on port `p`. */
  ghost function Counted(counts: seq<int>, p: nat, n: int): seq<int> {
    if p < |counts| then counts[p := counts[p] + n] else counts
  }

  lemma {:induction false} CountedNone(counts: seq<int>, p: nat)
    ensures Counted(counts, p, 0) == counts
  {
  }

  // ----- slots leave a ring -----

  /** Ring `r` has lost its oldest slots, in order, all of them completed by the device. */
  ghost predicate Drained(st: State, r: nat, gone: seq<nat>, st': State) {
    r < |st.rings| &&
    var f := st.rings[r];
    f.cleaned + |gone| <= |f.log| && gone == f.log[f.cleaned..f.cleaned + |gone|]
    && AllAdvanced(st.rings[r := f.(cleaned := f.cleaned + |gone|)], st'.rings)
    && f.cleaned + |gone| <= st'.rings[r].completed
  }

  /** No completed slot is left behind, unless the budget is used up. */
  ghost predicate Exhausted(r: nat, budget: nat, gone: seq<nat>, st': State) {
    r < |st'.rings| && |gone| <= budget && (|gone| == budget || st'.rings[r].cleaned == st'.rings[r].completed)
  }

  /** The slots have gone to the client. */
  ghost predicate CleanedSome(st: State, r: nat, packets: seq<nat>, st': State) {
    Drained(st, r, packets, st') && st'.flag == st.flag && st'.held == st.held + (set s | s in packets)
  }

  /** All that the device has completed by the end, up to the budget, has gone to the client. */
  ghost predicate Cleaned(st: State, r: nat, budget: nat, packets: seq<nat>, st': State) {
    CleanedSome(st, r, packets, st') && Exhausted(r, budget, packets, st')
  }

  /** The slots have become free. */
  ghost predicate FreedSome(st: State, r: nat, freed: seq<nat>, st': State) {
    Drained(st, r, freed, st') && |st'.flag| == |st.flag| && st'.held == st.held
    && forall s: nat | s < |st.flag| :: st'.flag[s] <==> st.flag[s] && s !in freed
  }

  ghost predicate Freed(st: State, r: nat, budget: nat, freed: seq<nat>, st': State) {
    FreedSome(st, r, freed, st') && Exhausted(r, budget, freed, st')
  }

  lemma {:induction false} DrainedNone(st: State, r: nat)
    requires r < |st.rings| && st.rings[r].Ok()
    ensures Drained(st, r, [], st) && CleanedSome(st, r, [], st) && FreedSome(st, r, [], st)
  {
    assert st.rings[r].(cleaned := st.rings[r].cleaned + 0) == st.rings[r];
    assert st.rings[r := st.rings[r]] == st.rings;
  }

  lemma {:induction false} DrainedDevice(st: State, r: nat, gone: seq<nat>, st1: State, st2: State)
    requires Drained(st, r, gone, st1) && AllAdvanced(st1.rings, st2.rings)
    ensures Drained(st, r, gone, st2)
  {
    hide Advanced;
    var f := st.rings[r];
    AdvancedTrans(st.rings[r := f.(cleaned := f.cleaned + |gone|)], st1.rings, st2.rings);
    assert st1.rings[r].completed <= st2.rings[r].completed by {
      CompletedGrows(st1.rings, st2.rings, r);
    }
  }

  lemma {:induction false} CompletedGrows(rs: seq<Fifo>, rs': seq<Fifo>, r: nat)
    requires AllAdvanced(rs, rs') && r < |rs|
    ensures rs[r].completed <= rs'[r].completed
  {
  }

  lemma {:induction false} DrainedMore(st: State, r: nat, gone: seq<nat>, st1: State, st2: State)
    requires Drained(st, r, gone, st1) && Enabled(st1, Detach(r))
    requires st2.rings == st1.rings[r := st1.rings[r].(cleaned := st1.rings[r].cleaned + 1)]
    ensures Drained(st, r, gone + [st1.rings[r].log[st1.rings[r].cleaned]], st2)
  {
    var f := st.rings[r];
    var n := |gone|;
    var rs := st.rings[r := f.(cleaned := f.cleaned + n)];
    assert Advanced(rs[r], st1.rings[r]);
    assert f.log[f.cleaned..f.cleaned + n] + [f.log[f.cleaned + n]] == f.log[f.cleaned..f.cleaned + n + 1];
    var rs' := st.rings[r := f.(cleaned := f.cleaned + n + 1)];
    forall i | 0 <= i < |rs'|
      ensures Advanced(rs'[i], st2.rings[i])
    {
      assert Advanced(rs[i], st1.rings[i]);
    }
  }

  lemma {:induction false} CleanedDevice(st: State, r: nat, packets: seq<nat>, st1: State, st2: State)
    requires CleanedSome(st, r, packets, st1) && OnlyDevice(st1, st2)
    ensures CleanedSome(st, r, packets, st2)
  {
    hide Drained, AllAdvanced;
    DrainedDevice(st, r, packets, st1, st2);
  }

  lemma {:induction false} CleanedMore(st: State, r: nat, packets: seq<nat>, st1: State)
    requires CleanedSome(st, r, packets, st1) && Enabled(st1, Detach(r))
    ensures CleanedSome(st, r, packets + [st1.rings[r].log[st1.rings[r].cleaned]], Apply(st1, Detach(r)))
  {
    hide Drained;
    DrainedMore(st, r, packets, st1, Apply(st1, Detach(r)));
  }

  lemma {:induction false} CleanedStops(st: State, r: nat, budget: nat, packets: seq<nat>, st1: State)
    requires CleanedSome(st, r, packets, st1) && |packets| <= budget && r < |st1.rings| && st1.rings[r].Ok()
    requires |packets| == budget || !Enabled(st1, Detach(r))
    ensures Cleaned(st, r, budget, packets, st1)
  {
    hide Drained;
  }

  lemma {:induction false} FreedDevice(st: State, r: nat, freed: seq<nat>, st1: State, st2: State)
    requires FreedSome(st, r, freed, st1) && OnlyDevice(st1, st2)
    ensures FreedSome(st, r, freed, st2)
  {
    hide Drained, AllAdvanced;
    DrainedDevice(st, r, freed, st1, st2);
  }

  lemma {:induction false} FreedMore(st: State, r: nat, freed: seq<nat>, st1: State, owner: seq<Owner>)
    requires FreedSome(st, r, freed, st1) && Enabled(st1, Detach(r)) && Conserved(st1, owner)
    ensures var s := st1.rings[r].log[st1.rings[r].cleaned];
            var st2 := Apply(st1, Detach(r));
            Enabled(st2, Release(s)) && FreedSome(st, r, freed + [s], Apply(st2, Release(s)))
  {
    hide Drained, Exactly;
    var s := st1.rings[r].log[st1.rings[r].cleaned];
    HeadInRange(st1, owner, r);
    assert s !in st1.held;
    hide Conserved;
    DrainedMore(st, r, freed, st1, Apply(Apply(st1, Detach(r)), Release(s)));
  }

  lemma {:induction false} FreedStops(st: State, r: nat, budget: nat, freed: seq<nat>, st1: State)
    requires FreedSome(st, r, freed, st1) && |freed| <= budget && r < |st1.rings| && st1.rings[r].Ok()
    requires |freed| == budget || !Enabled(st1, Detach(r))
    ensures Freed(st, r, budget, freed, st1)
  {
    hide Drained;
  }

  // ----- slots enter a ring -----

  /** Sending a slot attaches it to the ring, or releases it when the ring is full. */
  ghost function SendStep(st: State, r: nat, s: nat): Step
    requires r < |st.rings|
  {
    if FreeCount(st.rings[r]) > 0 then Attach(r, s) else Release(s)
  }

  /** A free slot has gone straight into ring `r`. */
  ghost predicate Added(st: State, r: nat, s: nat, st': State) {
    r < |st.rings| && Enabled(st, Take(s)) && s !in st.held
    && Enabled(Apply(st, Take(s)), Attach(r, s)) && st' == Apply(Apply(st, Take(s)), Attach(r, s))
  }

  /** Ring `r` has gained the slots `added`, which are now in flight; the client holds what it
      held before. */
  ghost predicate Filled(st: State, r: nat, added: seq<nat>, st': State) {
    r < |st.rings| && st'.held == st.held && |st'.flag| == |st.flag|
    && (forall s: nat | s < |st.flag| :: st'.flag[s] <==> st.flag[s] || s in added)
    && AllAdvanced(st.rings[r := st.rings[r].(log := st.rings[r].log + added)], st'.rings)
  }

  lemma {:induction false} FilledNone(st: State, r: nat)
    requires r < |st.rings|
    ensures Filled(st, r, [], st)
  {
    assert st.rings[r].(log := st.rings[r].log + []) == st.rings[r];
    assert st.rings[r := st.rings[r]] == st.rings;
  }

  lemma {:induction false} FilledFlags(st: State, r: nat, added: seq<nat>, st': State)
    requires Filled(st, r, added, st')
    ensures st'.flag == FlagsAfter(st.flag, added)
  {
  }

  lemma {:induction false} FilledCount(st: State, r: nat, added: seq<nat>, st': State)
    requires Filled(st, r, added, st')
    ensures r < |st.rings| == |st'.rings| && FreeCount(st'.rings[r]) == FreeCount(st.rings[r]) - |added|
  {
    assert Advanced(st.rings[r].(log := st.rings[r].log + added), st'.rings[r]);
  }

  lemma {:induction false} FilledDevice(st: State, r: nat, added: seq<nat>, st1: State, st2: State)
    requires Filled(st, r, added, st1) && OnlyDevice(st1, st2)
    ensures Filled(st, r, added, st2)
  {
    hide AllAdvanced;
    AdvancedTrans(st.rings[r := st.rings[r].(log := st.rings[r].log + added)], st1.rings, st2.rings);
  }

  lemma {:induction false} FilledMore(st: State, r: nat, added: seq<nat>, st1: State, s: nat, st2: State)
    requires Filled(st, r, added, st1) && Added(st1, r, s, st2)
    ensures Filled(st, r, added + [s], st2)
  {
    var rs := st.rings[r := st.rings[r].(log := st.rings[r].log + added)];
    var rs' := st.rings[r := st.rings[r].(log := st.rings[r].log + (added + [s]))];
    assert st.rings[r].log + added + [s] == st.rings[r].log + (added + [s]);
    forall i | 0 <= i < |rs'|
      ensures Advanced(rs'[i], st2.rings[i])
    {
      assert Advanced(rs[i], st1.rings[i]);
    }
  }

  lemma {:induction false} AddedReaches(st: State, r: nat, s: nat, st': State)
    requires Added(st, r, s, st')
    ensures Reaches(st, [Take(s), Attach(r, s)], st')
  {
    assert [Take(s), Attach(r, s)][1..] == [Attach(r, s)] && [Attach(r, s)][1..] == [];
  }

  /** Ring `r` has gained the slots `added`, all published; the client holds what it held before. */
  ghost predicate FilledAndPublished(st: State, r: nat, added: seq<nat>, st': State) {
    r < |st.rings| && st'.held == st.held && |st'.flag| == |st.flag|
    && (forall s: nat | s < |st.flag| :: st'.flag[s] <==> st.flag[s] || s in added)
    && var f := st.rings[r];
       AllAdvanced(st.rings[r := f.(log := f.log + added, published := |f.log| + |added|)], st'.rings)
  }

  /** Publishing what has been added settles the books of a port. */
  lemma {:induction false} BookedRx(st: State, suspended: seq<nat>, p: nat, added: seq<nat>, st1: State, st2: State)
    requires Booked(st, suspended) && p < |suspended| && Filled(st, RxRing(p), added, st1)
    requires st2 == if added == [] then st1 else Apply(st1, Publish(RxRing(p)))
    ensures Booked(st2, suspended) && FilledAndPublished(st, RxRing(p), added, st2)
    ensures st2.flag == st1.flag && |st1.rings| == |st2.rings| == |st.rings|
    ensures FreeCount(st2.rings[RxRing(p)]) == FreeCount(st1.rings[RxRing(p)])
  {
    PublishedRx(st, suspended, p, added, st1, st2);
    var r := RxRing(p);
    var f := st.rings[r];
    var rs := st.rings[r := f.(log := f.log + added, published := |f.log| + |added|)];
    forall q: nat | q < |suspended|
      ensures rs[RxRing(q)].published == |rs[RxRing(q)].log|
      ensures rs[TxRing(q)].published + suspended[q] == |rs[TxRing(q)].log|
    {
    }
    BookedDevice(State(st.flag, rs, st.held), suspended, st2);
  }

  lemma {:induction false} PublishedRx(st: State, suspended: seq<nat>, p: nat, added: seq<nat>, st1: State, st2: State)
    requires Booked(st, suspended) && p < |suspended| && Filled(st, RxRing(p), added, st1)
    requires st2 == if added == [] then st1 else Apply(st1, Publish(RxRing(p)))
    ensures FilledAndPublished(st, RxRing(p), added, st2)
    ensures st2.flag == st1.flag && |st1.rings| == |st2.rings| == |st.rings|
    ensures FreeCount(st2.rings[RxRing(p)]) == FreeCount(st1.rings[RxRing(p)])
  {
    var r := RxRing(p);
    var f := st.rings[r];
    var rs := st.rings[r := f.(log := f.log + added)];
    var rs' := st.rings[r := f.(log := f.log + added, published := |f.log| + |added|)];
    assert f.log + [] == f.log;
    forall i | 0 <= i < |rs'|
      ensures Advanced(rs'[i], st2.rings[i])
    {
      assert Advanced(rs[i], st1.rings[i]);
    }
  }

  // ----- runs of the slot machine -----

  lemma {:induction false} AfterDevice(st: State, steps: seq<Step>, st0: State, work: seq<Step>, st1: State,
      suspended: seq<nat>)
    requires Reaches(st, steps, st0) && Reaches(st0, work, st1) && OnlyDevice(st0, st1) && Booked(st0, suspended)
    ensures Reaches(st, steps + work, st1) && Booked(st1, suspended)
  {
    hide Reaches, Booked, AllAdvanced;
    ReachesTrans(st, steps, st0, work, st1);
    BookedDevice(st0, suspended, st1);
  }

  lemma {:induction false} DetachAndRelease(st: State, steps: seq<Step>, st1: State, r: nat, s: nat,
      suspended: seq<nat>)
    requires Reaches(st, steps, st1) && Booked(st1, suspended) && Enabled(st1, Detach(r))
    requires Enabled(Apply(st1, Detach(r)), Release(s))
    ensures var st3 := Apply(Apply(st1, Detach(r)), Release(s));
            Booked(st3, suspended) && Reaches(st, steps + [Detach(r), Release(s)], st3)
  {
    var st2 := Apply(st1, Detach(r));
    var st3 := Apply(st2, Release(s));
    BookedClean(st1, suspended, Detach(r));
    BookedClean(st2, suspended, Release(s));
    ReachesOne(st1, Detach(r));
    ReachesOne(st2, Release(s));
    hide Reaches, Booked, Enabled, Apply;
    ReachesTrans(st1, [Detach(r)], st2, [Release(s)], st3);
    assert [Detach(r)] + [Release(s)] == [Detach(r), Release(s)];
    ReachesTrans(st, steps, st1, [Detach(r), Release(s)], st3);
  }
}
