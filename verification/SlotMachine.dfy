/** Who holds a packet slot: the rings of all ports, the client and the hardware as one step
    machine over a shared slot array. */
module SlotMachine {
  import opened DescRing
  import opened Sequences

  /** The in-flight flags, the rings, and the slots in the hands of the client. */
  datatype State = State(flag: seq<bool>, rings: seq<Fifo>, held: set<nat>)

  datatype Owner = Free | InRing(r: nat) | Client

  /** The receive ring and the transmit ring of port `p`. */
  function RxRing(p: nat): nat { 2 * p }
  function TxRing(p: nat): nat { 2 * p + 1 }

  /** The number of descriptors of a ring that are not in use. */
  ghost function FreeCount(f: Fifo): int {
    f.cap - 1 - (|f.log| - f.cleaned)
  }

  /** The window `w` holds each slot of `o` once and no other slot. */
  ghost predicate Exactly(w: seq<nat>, owner: seq<Owner>, o: Owner) {
    NoRepeats(w) && forall s: nat :: s in w <==> s < |owner| && owner[s] == o
  }

  /** Every slot has the one owner that `owner` names, and is flagged unless it is free. */
  ghost predicate Conserved(st: State, owner: seq<Owner>) {
    |owner| == |st.flag|
    && (forall s: nat | s < |owner| :: st.flag[s] <==> owner[s] != Free)
    && (forall r: nat | r < |st.rings| :: st.rings[r].Ok() && Exactly(st.rings[r].Window(), owner, InRing(r)))
    && (forall s: nat | s < |owner| && owner[s].InRing? :: owner[s].r < |st.rings|)
    && forall s: nat :: s in st.held <==> s < |owner| && owner[s] == Client
  }

  /** Slot `s` is found in the place that `o` names. */
  ghost predicate Found(st: State, s: nat, o: Owner)
    requires s < |st.flag| && forall r: nat | r < |st.rings| :: st.rings[r].Ok()
  {
    match o
    case Free => !st.flag[s]
    case InRing(r) => r < |st.rings| && s in st.rings[r].Window()
    case Client => s in st.held
  }

  /** Conservation says just what it should: each slot is found in exactly one place. */
  lemma {:induction false} ExactlyOnePlace(st: State, owner: seq<Owner>, s: nat, o: Owner)
    requires Conserved(st, owner) && s < |st.flag|
    ensures Found(st, s, o) <==> o == owner[s]
  {
    if o.InRing? && o.r < |st.rings| {
      assert Exactly(st.rings[o.r].Window(), owner, InRing(o.r));
    }
  }

  // ----- the steps -----

  datatype Step =
    | Take(s: nat)              // a free slot goes to the client
    | Attach(r: nat, s: nat)    // the client puts a slot into a ring
    | Publish(r: nat)           // the tail register is written
    | Complete(r: nat)          // the device is done with a descriptor
    | Detach(r: nat)            // the oldest slot of a ring goes to the client
    | Release(s: nat)           // the client gives a slot back

  ghost predicate Enabled(st: State, step: Step) {
    match step
    case Take(s) => s < |st.flag| && !st.flag[s]
    case Attach(r, s) => r < |st.rings| && s in st.held && |st.rings[r].log| + 1 < st.rings[r].cleaned + st.rings[r].cap
    case Publish(r) => r < |st.rings|
    case Complete(r) => r < |st.rings| && st.rings[r].completed < st.rings[r].published
    case Detach(r) => r < |st.rings| && st.rings[r].cleaned < st.rings[r].completed && st.rings[r].Ok()
    case Release(s) => s < |st.flag| && s in st.held
  }

  ghost function Apply(st: State, step: Step): State
    requires Enabled(st, step)
  {
    match step
    case Take(s) => st.(flag := st.flag[s := true], held := st.held + {s})
    case Attach(r, s) =>
      st.(rings := st.rings[r := st.rings[r].(log := st.rings[r].log + [s])], held := st.held - {s})
    case Publish(r) => st.(rings := st.rings[r := st.rings[r].(published := |st.rings[r].log|)])
    case Complete(r) => st.(rings := st.rings[r := st.rings[r].(completed := st.rings[r].completed + 1)])
    case Detach(r) =>
      st.(rings := st.rings[r := st.rings[r].(cleaned := st.rings[r].cleaned + 1)],
          held := st.held + {st.rings[r].log[st.rings[r].cleaned]})
    case Release(s) => st.(flag := st.flag[s := false], held := st.held - {s})
  }

  ghost function NewOwner(st: State, owner: seq<Owner>, step: Step): seq<Owner>
    requires Enabled(st, step) && Conserved(st, owner)
  {
    match step
    case Take(s) => owner[s := Client]
    case Attach(r, s) => owner[s := InRing(r)]
    case Publish(_) => owner
    case Complete(_) => owner
    case Detach(r) =>
      HeadInRange(st, owner, r);
      owner[st.rings[r].log[st.rings[r].cleaned] := Client]
    case Release(s) => owner[s := Free]
  }

  /** A free slot is not in the client's hands. */
  lemma {:induction false} HeldIsFlagged(st: State, owner: seq<Owner>, s: nat)
    requires Conserved(st, owner) && Enabled(st, Take(s))
    ensures s !in st.held
  {
  }

  lemma {:induction false} HeldInRange(st: State, owner: seq<Owner>, s: nat)
    requires Conserved(st, owner) && s in st.held
    ensures s < |st.flag|
  {
  }

  lemma {:induction false} RingOk(st: State, owner: seq<Owner>, r: nat)
    requires Conserved(st, owner) && r < |st.rings|
    ensures st.rings[r].Ok()
  {
  }

  lemma {:induction false} HeadInRange(st: State, owner: seq<Owner>, r: nat)
    requires Conserved(st, owner) && Enabled(st, Detach(r))
    ensures var s := st.rings[r].log[st.rings[r].cleaned]; s < |owner| && owner[s] == InRing(r)
  {
    var f := st.rings[r];
    assert Exactly(f.Window(), owner, InRing(r));
    assert f.Window()[0] == f.log[f.cleaned] && f.Window()[0] in f.Window();
  }

  // ----- every step keeps every slot in one place -----

  /** Moving a slot between two other owners does not concern a window. */
  lemma {:induction false} ExactlyElsewhere(w: seq<nat>, owner: seq<Owner>, o: Owner, s: nat, to: Owner)
    requires Exactly(w, owner, o) && s < |owner| && owner[s] != o && to != o
    ensures Exactly(w, owner[s := to], o)
  {
  }

  lemma {:induction false} ExactlyPush(w: seq<nat>, owner: seq<Owner>, o: Owner, s: nat)
    requires Exactly(w, owner, o) && s < |owner| && owner[s] != o
    ensures Exactly(w + [s], owner[s := o], o)
  {
    assert forall i | 0 <= i < |w| :: w[i] in w;
  }

  lemma {:induction false} ExactlyPop(w: seq<nat>, owner: seq<Owner>, o: Owner, to: Owner)
    requires Exactly(w, owner, o) && w != [] && to != o
    ensures w[0] in w && w[0] < |owner| && Exactly(w[1..], owner[w[0] := to], o)
  {
    var rest := w[1..];
    assert w == [w[0]] + rest;
    forall i, j | 0 <= i < j < |rest| ensures rest[i] != rest[j] {
      assert rest[i] == w[i + 1] && rest[j] == w[j + 1];
    }
    assert w[0] in w;
    forall s: nat
      ensures s in rest <==> s < |owner| && owner[w[0] := to][s] == o
    {
      if s in rest {
        var i :| 0 <= i < |rest| && rest[i] == s;
        assert w[0] != w[i + 1] == s;
      }
      assert s in w <==> s == w[0] || s in rest;
    }
  }

  lemma {:induction false} TakeKeeps(st: State, owner: seq<Owner>, s: nat)
    requires Conserved(st, owner) && Enabled(st, Take(s))
    ensures s < |owner| && Conserved(Apply(st, Take(s)), owner[s := Client])
  {
    forall r: nat | r < |st.rings| {
      ExactlyElsewhere(st.rings[r].Window(), owner, InRing(r), s, Client);
    }
  }

  lemma {:induction false} ReleaseKeeps(st: State, owner: seq<Owner>, s: nat)
    requires Conserved(st, owner) && Enabled(st, Release(s))
    ensures s < |owner| && Conserved(Apply(st, Release(s)), owner[s := Free])
  {
    forall r: nat | r < |st.rings| {
      ExactlyElsewhere(st.rings[r].Window(), owner, InRing(r), s, Free);
    }
  }

  lemma {:induction false} AttachKeeps(st: State, owner: seq<Owner>, r: nat, s: nat)
    requires Conserved(st, owner) && Enabled(st, Attach(r, s))
    ensures s < |owner| && Conserved(Apply(st, Attach(r, s)), owner[s := InRing(r)])
  {
    var st' := Apply(st, Attach(r, s));
    var owner' := owner[s := InRing(r)];
    forall q: nat | q < |st'.rings|
      ensures st'.rings[q].Ok() && Exactly(st'.rings[q].Window(), owner', InRing(q))
    {
      var f := st.rings[q];
      assert f.Ok() && Exactly(f.Window(), owner, InRing(q));
      if q == r {
        ExactlyPush(f.Window(), owner, InRing(r), s);
        assert (f.log + [s])[f.cleaned..] == f.log[f.cleaned..] + [s];
      } else {
        ExactlyElsewhere(f.Window(), owner, InRing(q), s, InRing(r));
      }
    }
  }

  lemma {:induction false} DetachKeeps(st: State, owner: seq<Owner>, r: nat)
    requires Conserved(st, owner) && Enabled(st, Detach(r))
    ensures Conserved(Apply(st, Detach(r)), NewOwner(st, owner, Detach(r)))
  {
    var st' := Apply(st, Detach(r));
    var s := st.rings[r].log[st.rings[r].cleaned];
    HeadInRange(st, owner, r);
    var owner' := owner[s := Client];
    forall q: nat | q < |st'.rings|
      ensures st'.rings[q].Ok() && Exactly(st'.rings[q].Window(), owner', InRing(q))
    {
      var f := st.rings[q];
      assert f.Ok() && Exactly(f.Window(), owner, InRing(q));
      if q == r {
        ExactlyPop(f.Window(), owner, InRing(r), Client);
        assert f.log[f.cleaned..][1..] == f.log[f.cleaned + 1..];
      } else {
        ExactlyElsewhere(f.Window(), owner, InRing(q), s, Client);
      }
    }
  }

  lemma {:induction false} QuietKeeps(st: State, owner: seq<Owner>, step: Step)
    requires Conserved(st, owner) && Enabled(st, step) && (step.Publish? || step.Complete?)
    ensures Conserved(Apply(st, step), owner)
  {
    var st' := Apply(st, step);
    forall q: nat | q < |st'.rings|
      ensures st'.rings[q].Ok() && Exactly(st'.rings[q].Window(), owner, InRing(q))
    {
      assert st.rings[q].Ok() && Exactly(st.rings[q].Window(), owner, InRing(q));
      assert st'.rings[q].log == st.rings[q].log && st'.rings[q].cleaned == st.rings[q].cleaned;
    }
  }

  lemma {:induction false} StepKeeps(st: State, owner: seq<Owner>, step: Step)
    requires Conserved(st, owner) && Enabled(st, step)
    ensures Conserved(Apply(st, step), NewOwner(st, owner, step))
  {
    hide Conserved;
    match step
    case Take(s) => TakeKeeps(st, owner, s);
    case Attach(r, s) => AttachKeeps(st, owner, r, s);
    case Publish(_) => QuietKeeps(st, owner, step);
    case Complete(_) => QuietKeeps(st, owner, step);
    case Detach(r) => DetachKeeps(st, owner, r);
    case Release(s) => ReleaseKeeps(st, owner, s);
  }

  // ----- whole runs -----

  /** All slots free, all rings empty. */
  ghost predicate Init(st: State) {
    (forall s | 0 <= s < |st.flag| :: !st.flag[s]) && st.held == {}
    && forall r | 0 <= r < |st.rings| :: st.rings[r].cap >= 1 && st.rings[r] == Fifo(st.rings[r].cap, [], 0, 0, 0)
  }

  lemma {:induction false} InitConserved(st: State)
    requires Init(st)
    ensures Conserved(st, seq(|st.flag|, _ => Free))
  {
  }

  /** `st'` is reached from `st` by the given steps, each enabled when it is taken. */
  ghost predicate Reaches(st: State, steps: seq<Step>, st': State)
    decreases |steps|
  {
    if steps == [] then st == st'
    else Enabled(st, steps[0]) && Reaches(Apply(st, steps[0]), steps[1..], st')
  }

  lemma {:induction false} ReachesTrans(a: State, s1: seq<Step>, b: State, s2: seq<Step>, c: State)
    requires Reaches(a, s1, b) && Reaches(b, s2, c)
    ensures Reaches(a, s1 + s2, c)
    decreases |s1|
  {
    if s1 == [] {
      assert s1 + s2 == s2;
    } else {
      ReachesTrans(Apply(a, s1[0]), s1[1..], b, s2, c);
      assert (s1 + s2)[1..] == s1[1..] + s2;
    }
  }

  lemma {:induction false} ReachesOne(st: State, step: Step)
    requires Enabled(st, step)
    ensures Reaches(st, [step], Apply(st, step))
  {
    assert [step][1..] == [];
  }

  lemma {:induction false} RunKeeps(st: State, owner: seq<Owner>, steps: seq<Step>, st': State)
    returns (owner': seq<Owner>)
    requires Conserved(st, owner) && Reaches(st, steps, st')
    ensures Conserved(st', owner')
    decreases steps
  {
    if steps == [] {
      owner' := owner;
    } else {
      StepKeeps(st, owner, steps[0]);
      owner' := RunKeeps(Apply(st, steps[0]), NewOwner(st, owner, steps[0]), steps[1..], st');
    }
  }

  /** In every run from the initial state, over any number of rings sharing one slot array, each
      slot is in exactly one of: free, one ring, the client's hands; and it is flagged in
      flight exactly when it is not free. */
  lemma {:induction false} SlotsConserved(st: State, steps: seq<Step>, st': State) returns (owner: seq<Owner>)
    requires Init(st) && Reaches(st, steps, st')
    ensures Conserved(st', owner)
    ensures forall s: nat, o | s < |st'.flag| :: Found(st', s, o) <==> o == owner[s]
  {
    var free := seq(|st.flag|, _ => Free);
    InitConserved(st);
    owner := RunKeeps(st, free, steps, st');
    forall s: nat, o | s < |st'.flag| ensures Found(st', s, o) <==> o == owner[s] {
      ExactlyOnePlace(st', owner, s, o);
    }
  }
}
