/** A descriptor ring: sixteen-bit indices that wrap, standing for an unbounded queue. */
module DescRing {
  import opened Arith

  /** Everything that ever went through a ring: the slots in the order they were attached, and
      how many of them have been published to the hardware, completed by it, and cleaned. */
  datatype Fifo = Fifo(cap: nat, log: seq<nat>, cleaned: nat, completed: nat, published: nat) {

    /** At most `cap - 1` descriptors are in use at any time. */
    predicate Ok() {
      1 <= cap && cleaned <= completed <= published <= |log| < cleaned + cap
    }

    /** The slots in the ring, oldest first. */
    function Window(): seq<nat>
      requires Ok()
    {
      log[cleaned..]
    }
  }

  /** A descriptor: the DMA address it was filled with, and the done mark of the hardware
      (the DD status bit of a receive descriptor, the type DESC_DONE of a transmit one). */
  datatype Desc = Desc(addr: nat, done: bool)

  // ----- wrapped counters -----

  /** The index that a running counter has in a ring of `n` descriptors. */
  ghost function Wrap(k: nat, n: nat): (i: nat)
    requires n >= 1
    ensures i < n
  {
    k % n
  }

  lemma {:induction false} ModNext(k: nat, n: nat)
    requires n >= 1
    ensures Wrap(k + 1, n) == if Wrap(k, n) + 1 < n then Wrap(k, n) + 1 else 0
  {
    assert k == n * (k / n) + k % n;
    if k % n + 1 < n {
      DivUnique(k + 1, n, k / n, k % n + 1);
      assert k + 1 == n * ((k + 1) / n) + (k + 1) % n;
    } else {
      assert k + 1 == n * (k / n + 1) + 0;
      DivUnique(k + 1, n, k / n + 1, 0);
      assert k + 1 == n * ((k + 1) / n) + (k + 1) % n;
    }
  }

  /** How often a running counter has gone around the ring. */
  ghost function Turns(k: nat, n: nat): (q: nat)
    requires n >= 1
    ensures k == n * q + Wrap(k, n)
  {
    k / n
  }

  /** Counters less than one turn apart are told apart by their wrapped values. */
  lemma {:induction false} ModDistance(a: nat, b: nat, n: nat)
    requires n >= 1 && a <= b < a + n
    ensures b - a == if Wrap(a, n) <= Wrap(b, n) then Wrap(b, n) - Wrap(a, n) else n - Wrap(a, n) + Wrap(b, n)
  {
    hide Wrap, Turns;
    var q, q' := Turns(a, n), Turns(b, n);
    TurnsApart(n, q, Wrap(a, n), q', Wrap(b, n));
  }

  lemma {:induction false} TurnsApart(n: nat, q: nat, r: nat, q': nat, r': nat)
    requires r < n && r' < n && n * q + r <= n * q' + r' < n * q + r + n
    ensures n * q' + r' - (n * q + r) == if r <= r' then r' - r else n - r + r'
  {
    MulStep(n, q + 1, q');
    MulStep(n, q', q);
    assert n * (q + 1) == n * q + n;
  }

  class Ring {
    const num: nat
    const slotIndex: array<nat>
    const desc: array<Desc>
    var nextToUse: nat
    var nextToClean: nat
    /** The tail register of the device, and the descriptor the device completes next. */
    var tail: nat
    var head: nat
    ghost var fifo: Fifo

    /** The descriptors from the cleaned to the used one hold the slots of the queue, and are
        marked done as far as the hardware has come. `dma` gives the address of a slot. */
    ghost predicate Holds(k: nat, dma: nat -> nat)
      reads this, slotIndex, desc
    {
      num >= 1 && slotIndex.Length == num && desc.Length == num && k < |fifo.log| &&
      slotIndex[Wrap(k, num)] == fifo.log[k] &&
      desc[Wrap(k, num)] == Desc(dma(fifo.log[k]), k < fifo.completed)
    }

    ghost predicate Valid(dma: nat -> nat)
      reads this, slotIndex, desc
    {
      1 <= num < 0x10000 && slotIndex.Length == num && desc.Length == num && fifo.Ok() && fifo.cap == num
      && nextToUse == Wrap(|fifo.log|, num) && nextToClean == Wrap(fifo.cleaned, num)
      && tail == Wrap(fifo.published, num) && head == Wrap(fifo.completed, num)
      && forall k | fifo.cleaned <= k < |fifo.log| :: Holds(k, dma)
    }

    constructor (num: nat, ghost dma: nat -> nat)
      requires 1 <= num < 0x10000
      ensures Valid(dma) && fifo == Fifo(num, [], 0, 0, 0) && fresh(slotIndex) && fresh(desc) && this.num == num
    {
      this.num := num;
      slotIndex := new nat[num];
      desc := new Desc[num](_ => Desc(0, false));
      nextToUse, nextToClean, tail, head := 0, 0, 0, 0;
      fifo := Fifo(num, [], 0, 0, 0);
    }

    /** What a descriptor in use holds. */
    lemma {:induction false} InUse(dma: nat -> nat, k: nat)
      requires Valid(dma) && fifo.cleaned <= k < |fifo.log|
      ensures 1 <= num == slotIndex.Length == desc.Length && slotIndex[k % num] == fifo.log[k]
      ensures desc[k % num] == Desc(dma(fifo.log[k]), k < fifo.completed)
    {
      assert Holds(k, dma);
    }

    /** The number of free descriptors, computed from the wrapped indices in sixteen bits. */
    function Unused(ghost dma: nat -> nat): (n: nat)
      requires Valid(dma)
      reads this, slotIndex, desc
      ensures n == fifo.cap - 1 - (|fifo.log| - fifo.cleaned)
    {
      ModDistance(fifo.cleaned, |fifo.log|, num);
      (if nextToClean > nextToUse then nextToClean - nextToUse - 1
       else num - nextToUse + nextToClean - 1) % 0x10000
    }

    /** Fills the next descriptor and attaches a slot to it. No descriptor in use is overwritten. */
    method Push(slot: nat, ghost dma: nat -> nat, addr: nat)
      requires Valid(dma) && Unused(dma) > 0 && addr == dma(slot)
      modifies this`nextToUse, this`fifo, slotIndex, desc
      ensures Valid(dma) && fifo == old(fifo).(log := old(fifo).log + [slot])
    {
      hide Wrap;
      var i := nextToUse;
      desc[i] := Desc(addr, false);
      slotIndex[i] := slot;
      nextToUse := (i + 1) % 0x10000;
      if nextToUse >= num {
        nextToUse := 0;
      }
      ghost var f := fifo;
      fifo := f.(log := f.log + [slot]);
      ModNext(|f.log|, num);
      forall k | f.cleaned <= k < |fifo.log| ensures Holds(k, dma) {
        if k < |f.log| {
          assert old(Holds(k, dma));
          ModDistance(k, |f.log|, num);
        }
      }
    }

    /** Tells the device about all attached descriptors: one write of the tail register. */
    method Publish(ghost dma: nat -> nat)
      requires Valid(dma)
      modifies this`tail, this`fifo
      ensures Valid(dma) && fifo == old(fifo).(published := |old(fifo).log|)
    {
      hide Wrap;
      tail := nextToUse;
      ghost var f := fifo;
      fifo := f.(published := |f.log|);
      forall k | fifo.cleaned <= k < |fifo.log| ensures Holds(k, dma) {
        assert old(Holds(k, dma));
      }
    }

    /** The device completes the next published descriptor, if there is one. */
    method Complete(ghost dma: nat -> nat) returns (done: bool)
      requires Valid(dma)
      modifies this`head, this`fifo, desc
      ensures Valid(dma)
      ensures done <==> old(fifo).completed < old(fifo).published
      ensures fifo == if done then old(fifo).(completed := old(fifo).completed + 1) else old(fifo)
    {
      hide Wrap;
      ghost var f := fifo;
      ModDistance(f.completed, f.published, num);
      if head == tail {
        return false;
      }
      assert Holds(f.completed, dma);
      desc[head] := desc[head].(done := true);
      head := (head + 1) % 0x10000;
      if head >= num {
        head := 0;
      }
      ModNext(f.completed, num);
      fifo := f.(completed := f.completed + 1);
      forall k | fifo.cleaned <= k < |fifo.log| ensures Holds(k, dma) {
        assert old(Holds(k, dma));
        if k < f.completed {
          ModDistance(k, f.completed, num);
        } else {
          ModDistance(f.completed, k, num);
        }
      }
      done := true;
    }

    /** Takes the oldest slot out of the ring if the device is done with it. */
    method Pop(ghost dma: nat -> nat) returns (ok: bool, slot: nat)
      requires Valid(dma)
      modifies this`nextToClean, this`fifo
      ensures Valid(dma)
      ensures ok <==> old(fifo).cleaned < old(fifo).completed
      ensures ok ==> slot == old(fifo).log[old(fifo).cleaned] && fifo == old(fifo).(cleaned := old(fifo).cleaned + 1)
      ensures !ok ==> fifo == old(fifo)
    {
      hide Wrap;
      ghost var f := fifo;
      ModDistance(f.cleaned, |f.log|, num);
      if nextToClean == nextToUse {
        return false, 0;
      }
      assert Holds(f.cleaned, dma);
      if !desc[nextToClean].done {
        return false, 0;
      }
      slot := slotIndex[nextToClean];
      nextToClean := (nextToClean + 1) % 0x10000;
      if nextToClean >= num {
        nextToClean := 0;
      }
      ModNext(f.cleaned, num);
      fifo := f.(cleaned := f.cleaned + 1);
      forall k | fifo.cleaned <= k < |fifo.log| ensures Holds(k, dma) {
        assert old(Holds(k, dma));
      }
      ok := true;
    }
  }
}
