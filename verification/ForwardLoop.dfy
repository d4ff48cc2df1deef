/** The packet loop of the forwarder. Every packet is released at the end of its turn, also
    after it has been handed to a transmit ring, so the loop keeps slots in one place only
    when no packet gets into a ring. */
module ForwardLoop {
  import opened Options
  import opened DescRing
  import opened SlotMachine

  /** A received packet: its slot, and the port it is to leave by, if any. */
  datatype Packet = Packet(slot: nat, port: Option<nat>)

  ghost predicate Full(f: Fifo) {
    FreeCount(f) <= 0
  }

  /** One turn of the loop. */
  ghost function Forward(st: State, k: Packet): State
    requires k.slot < |st.flag| && (k.port.Some? ==> TxRing(k.port.value) < |st.rings|)
  {
    var sent := if k.port.None? then st
                else
                  var r := TxRing(k.port.value);
                  if Full(st.rings[r]) then st.(flag := st.flag[k.slot := false])
                  else st.(rings := st.rings[r := st.rings[r].(log := st.rings[r].log + [k.slot])]);
    sent.(flag := sent.flag[k.slot := false], held := sent.held - {k.slot})
  }

  ghost predicate CanForward(st: State, ks: seq<Packet>) {
    forall i | 0 <= i < |ks| :: ks[i].slot < |st.flag| && (ks[i].port.Some? ==> TxRing(ks[i].port.value) < |st.rings|)
  }

  ghost function ForwardAll(st: State, ks: seq<Packet>): State
    requires CanForward(st, ks)
    decreases |ks|
  {
    if ks == [] then st
    else
      assert forall i | 0 <= i < |ks[1..]| :: ks[1..][i] == ks[i + 1];
      ForwardAll(Forward(st, ks[0]), ks[1..])
  }

  /** The packets are in the client's hands, each once. */
  ghost predicate Batch(st: State, ks: seq<Packet>) {
    CanForward(st, ks)
    && (forall i | 0 <= i < |ks| :: ks[i].slot in st.held)
    && forall i, j | 0 <= i < j < |ks| :: ks[i].slot != ks[j].slot
  }

  /** The packet does not get into a transmit ring. */
  ghost predicate Stays(st: State, k: Packet)
    requires k.port.Some? ==> TxRing(k.port.value) < |st.rings|
  {
    k.port.None? || Full(st.rings[TxRing(k.port.value)])
  }

  /** A slot sits in a ring but is flagged free, so it can be handed out a second time. */
  ghost predicate Leaked(st: State) {
    exists r: nat, s: nat :: InRingButFree(st, r, s)
  }

  ghost predicate InRingButFree(st: State, r: nat, s: nat) {
    r < |st.rings| && st.rings[r].Ok() && s in st.rings[r].Window() && s < |st.flag| && !st.flag[s]
  }

  lemma {:induction false} LeakedIsNotConserved(st: State, owner: seq<Owner>)
    requires Leaked(st)
    ensures !Conserved(st, owner)
  {
    var r: nat, s: nat :| InRingButFree(st, r, s);
    assert Conserved(st, owner) ==> Exactly(st.rings[r].Window(), owner, InRing(r));
  }

  /** A dropped packet is an ordinary release. */
  lemma {:induction false} StaysIsRelease(st: State, k: Packet)
    requires CanForward(st, [k]) && k.slot < |st.flag| && (k.port.Some? ==> TxRing(k.port.value) < |st.rings|)
    requires Stays(st, k) && k.slot in st.held
    ensures Enabled(st, Release(k.slot)) && Forward(st, k) == Apply(st, Release(k.slot))
  {
    assert st.flag[k.slot := false][k.slot := false] == st.flag[k.slot := false];
  }

  /** A packet that gets into a ring takes the step of the hand-over, and then loses its flag. */
  lemma {:induction false} SentIsAttach(st: State, k: Packet)
    requires k.slot < |st.flag| && k.port.Some? && TxRing(k.port.value) < |st.rings|
    requires !Stays(st, k) && k.slot in st.held && st.rings[TxRing(k.port.value)].Ok()
    ensures Enabled(st, Attach(TxRing(k.port.value), k.slot))
    ensures var sent := Apply(st, Attach(TxRing(k.port.value), k.slot));
            Forward(st, k) == sent.(flag := sent.flag[k.slot := false])
  {
  }

  /** A packet that gets into a ring leaks: its slot is in the ring, flagged free, and may be
      taken again at once. */
  lemma {:induction false} SentLeaks(st: State, owner: seq<Owner>, k: Packet)
    requires Conserved(st, owner) && k.slot in st.held && k.slot < |st.flag|
    requires k.port.Some? && TxRing(k.port.value) < |st.rings| && !Stays(st, k)
    ensures Leaked(Forward(st, k)) && Enabled(Forward(st, k), Take(k.slot))
  {
    var r := TxRing(k.port.value);
    var f := st.rings[r];
    assert f.Ok();
    var st' := Forward(st, k);
    var f' := st'.rings[r];
    assert f'.Window() == f.Window() + [k.slot];
    assert InRingButFree(st', r, k.slot);
  }

  /** What has leaked stays leaked for the rest of the loop. */
  lemma {:induction false} LeakStays(st: State, k: Packet)
    requires Leaked(st) && k.slot < |st.flag| && (k.port.Some? ==> TxRing(k.port.value) < |st.rings|)
    ensures Leaked(Forward(st, k))
  {
    var r: nat, s: nat :| InRingButFree(st, r, s);
    var st' := Forward(st, k);
    var f, f' := st.rings[r], st'.rings[r];
    assert f' == f || (f' == f.(log := f.log + [k.slot]) && f'.Window() == f.Window() + [k.slot]);
    assert InRingButFree(st', r, s);
  }

  lemma {:induction false} LeakStaysAll(st: State, ks: seq<Packet>)
    requires Leaked(st) && CanForward(st, ks)
    ensures Leaked(ForwardAll(st, ks))
    decreases |ks|
  {
    if ks == [] {
    } else {
      LeakStays(st, ks[0]);
      assert forall i | 0 <= i < |ks[1..]| :: ks[1..][i] == ks[i + 1];
      LeakStaysAll(Forward(st, ks[0]), ks[1..]);
    }
  }

  /** Every slot is in exactly one place. */
  ghost predicate Conservable(st: State) {
    exists owner :: Conserved(st, owner)
  }

  /** None of the packets gets into a ring. */
  ghost predicate AllStay(st: State, ks: seq<Packet>)
    requires CanForward(st, ks)
  {
    forall i | 0 <= i < |ks| :: Stays(st, ks[i])
  }

  /** The loop keeps every slot in exactly one place if and only if, before it starts, each of
      its packets is to be dropped or goes to a port whose transmit ring is full. */
  lemma {:induction false} ForwardConservesIff(st: State, owner: seq<Owner>, ks: seq<Packet>)
    requires Conserved(st, owner) && Batch(st, ks)
    ensures Conservable(ForwardAll(st, ks)) <==> AllStay(st, ks)
    decreases |ks|
  {
    if ks == [] {
    } else {
      var st1 := Forward(st, ks[0]);
      BatchStep(st, ks);
      if Stays(st, ks[0]) {
        StaysIsRelease(st, ks[0]);
        ReleaseKeeps(st, owner, ks[0].slot);
        ForwardConservesIff(st1, owner[ks[0].slot := Free], ks[1..]);
      } else {
        SentLeaks(st, owner, ks[0]);
        LeakStaysAll(st1, ks[1..]);
        forall owner' ensures !Conserved(ForwardAll(st, ks), owner') {
          LeakedIsNotConserved(ForwardAll(st, ks), owner');
        }
      }
    }
  }

  lemma {:induction false} BatchStep(st: State, ks: seq<Packet>)
    requires Batch(st, ks) && ks != []
    ensures CanForward(Forward(st, ks[0]), ks[1..]) && ForwardAll(st, ks) == ForwardAll(Forward(st, ks[0]), ks[1..])
    ensures !Stays(st, ks[0]) ==> !AllStay(st, ks)
    ensures Stays(st, ks[0]) ==>
      Batch(Forward(st, ks[0]), ks[1..]) && (AllStay(st, ks) <==> AllStay(Forward(st, ks[0]), ks[1..]))
  {
    var st1, rest := Forward(st, ks[0]), ks[1..];
    assert forall i | 0 <= i < |rest| :: rest[i] == ks[i + 1];
    if Stays(st, ks[0]) {
      assert st1.rings == st.rings;
      if AllStay(st1, rest) {
        forall i | 0 <= i < |ks| ensures Stays(st, ks[i]) {
          assert i > 0 ==> Stays(st1, rest[i - 1]);
        }
      }
    }
  }

  /** The packets take their turns in order. */
  lemma {:induction false} ForwardInOrder(st: State, ks: seq<Packet>, k: Packet)
    requires CanForward(st, ks + [k])
    ensures CanForward(st, ks) && CanForward(ForwardAll(st, ks), [k])
    ensures k.slot < |ForwardAll(st, ks).flag| &&
            (k.port.Some? ==> TxRing(k.port.value) < |ForwardAll(st, ks).rings|)
    ensures ForwardAll(st, ks + [k]) == Forward(ForwardAll(st, ks), k)
    decreases |ks|
  {
    var all := ks + [k];
    assert forall i | 0 <= i < |ks| :: all[i] == ks[i];
    assert all[|ks|] == k;
    if ks == [] {
      assert all == [k] && [k][1..] == [];
    } else {
      assert all[1..] == ks[1..] + [k];
      assert forall i | 0 <= i < |all| - 1 :: all[1..][i] == all[i + 1];
      ForwardInOrder(Forward(st, all[0]), ks[1..], k);
    }
  }

  /** The slots of the packets, in order. */
  ghost function Releases(ks: seq<Packet>): seq<Step> {
    seq(|ks|, i requires 0 <= i < |ks| => Release(ks[i].slot))
  }

  /** When no packet gets into a ring, the loop is a run of the slot machine that releases the slot
      of each packet, in order. */
  lemma {:induction false} StayingIsReleasing(st: State, ks: seq<Packet>)
    requires Batch(st, ks) && AllStay(st, ks)
    ensures Reaches(st, Releases(ks), ForwardAll(st, ks))
    decreases |ks|
  {
    hide Forward, Batch, AllStay;
    if ks == [] {
    } else {
      FirstOfBatch(st, ks);
      BatchStep(st, ks);
      StaysIsRelease(st, ks[0]);
      StayingIsReleasing(Forward(st, ks[0]), ks[1..]);
      assert Releases(ks)[1..] == Releases(ks[1..]);
    }
  }

  lemma {:induction false} FirstOfBatch(st: State, ks: seq<Packet>)
    requires Batch(st, ks) && AllStay(st, ks) && ks != []
    ensures ks[0].slot < |st.flag| && (ks[0].port.Some? ==> TxRing(ks[0].port.value) < |st.rings|)
    ensures CanForward(st, [ks[0]]) && Stays(st, ks[0]) && ks[0].slot in st.held
  {
  }

  /** The smallest case: one slot, one port, an empty transmit ring, and one packet to forward that
      has come in through the receive ring. */
  lemma {:induction false} ForwardLeaksExample()
    ensures var empty := Fifo(2, [], 0, 0, 0);
            var init := State([false], [empty, empty], {});
            var st := State([true], [Fifo(2, [0], 1, 1, 1), empty], {0});
            var ks := [Packet(0, Some(0))];
            Init(init) && Reaches(init, [Take(0), Attach(0, 0), Publish(0), Complete(0), Detach(0)], st) &&
            Conserved(st, [Client]) && CanForward(st, ks) && !Conservable(ForwardAll(st, ks))
  {
    var empty := Fifo(2, [], 0, 0, 0);
    ReceivedExample(empty);
    var st := State([true], [Fifo(2, [0], 1, 1, 1), empty], {0});
    var ks := [Packet(0, Some(0))];
    assert Conserved(st, [Client]);
    assert Batch(st, ks) && !Stays(st, ks[0]);
    ForwardConservesIff(st, [Client], ks);
  }

  lemma {:induction false} ReceivedExample(empty: Fifo)
    requires empty == Fifo(2, [], 0, 0, 0)
    ensures var init := State([false], [empty, empty], {});
            var st := State([true], [Fifo(2, [0], 1, 1, 1), empty], {0});
            Init(init) && Reaches(init, [Take(0), Attach(0, 0), Publish(0), Complete(0), Detach(0)], st)
  {
    hide Reaches, Apply, Enabled;
    var init := State([false], [empty, empty], {});
    var full := State([true], [Fifo(2, [0], 0, 0, 0), empty], {});
    var st := State([true], [Fifo(2, [0], 1, 1, 1), empty], {0});
    TakenAndAttached(empty);
    PublishedToDetached(empty);
    ReachesTrans(init, [Take(0), Attach(0, 0)], full, [Publish(0), Complete(0), Detach(0)], st);
    assert [Take(0), Attach(0, 0)] + [Publish(0), Complete(0), Detach(0)]
        == [Take(0), Attach(0, 0), Publish(0), Complete(0), Detach(0)];
  }

  lemma {:induction false} TakenAndAttached(empty: Fifo)
    requires empty == Fifo(2, [], 0, 0, 0)
    ensures Reaches(State([false], [empty, empty], {}), [Take(0), Attach(0, 0)],
                    State([true], [Fifo(2, [0], 0, 0, 0), empty], {}))
  {
    var init := State([false], [empty, empty], {});
    var mid := State([true], [empty, empty], {0});
    assert Apply(init, Take(0)) == mid;
    ReachesOne(init, Take(0));
    assert Apply(mid, Attach(0, 0)) == State([true], [Fifo(2, [0], 0, 0, 0), empty], {}) by {
      assert mid.held - {0} == {} && empty.log + [0] == [0];
    }
    ReachesOne(mid, Attach(0, 0));
    ReachesTrans(init, [Take(0)], mid, [Attach(0, 0)], Apply(mid, Attach(0, 0)));
    assert [Take(0)] + [Attach(0, 0)] == [Take(0), Attach(0, 0)];
  }

  lemma {:induction false} PublishedToDetached(empty: Fifo)
    requires empty == Fifo(2, [], 0, 0, 0)
    ensures Reaches(State([true], [Fifo(2, [0], 0, 0, 0), empty], {}), [Publish(0), Complete(0), Detach(0)],
                    State([true], [Fifo(2, [0], 1, 1, 1), empty], {0}))
  {
    var s2 := State([true], [Fifo(2, [0], 0, 0, 0), empty], {});
    var s3 := State([true], [Fifo(2, [0], 0, 0, 1), empty], {});
    var s4 := State([true], [Fifo(2, [0], 0, 1, 1), empty], {});
    assert Apply(s2, Publish(0)) == s3 && Apply(s3, Complete(0)) == s4;
    ReachesOne(s2, Publish(0));
    ReachesOne(s3, Complete(0));
    ReachesOne(s4, Detach(0));
    ReachesTrans(s2, [Publish(0)], s3, [Complete(0)], s4);
    ReachesTrans(s2, [Publish(0)] + [Complete(0)], s4, [Detach(0)], Apply(s4, Detach(0)));
    assert [Publish(0)] + [Complete(0)] + [Detach(0)] == [Publish(0), Complete(0), Detach(0)];
  }
}
