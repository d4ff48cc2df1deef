/** The search for a free slot: around the range of a port, onwards from where the last search
    ended. Whatever happens in between, no free slot is passed over for long. */
module SlotSearch {
  import opened Arith
  import opened DescRing

  /** The slot that step `j` of a turn around a range looks at. */
  ghost function Turn(offset: nat, n: nat, next: nat, j: nat): nat
    requires n >= 1
  {
    offset + Wrap(next + j, n)
  }

  /** Step `i` of the turn is the first to meet a free slot. */
  ghost predicate FirstFree(flags: seq<bool>, offset: nat, n: nat, next: nat, i: nat) {
    i < n && offset + n <= |flags| && !flags[Turn(offset, n, next, i)]
    && forall j: nat | j < i :: flags[Turn(offset, n, next, j)]
  }

  /** `s` is the first free slot of the range from position `next` on: all slots from there up to it
      are in flight, around the end of the range if need be. */
  ghost predicate NextFree(flags: seq<bool>, offset: nat, n: nat, next: nat, s: nat) {
    offset <= s < offset + n <= |flags| && !flags[s]
    && if s >= offset + next then forall u | offset + next <= u < s :: flags[u]
       else (forall u | offset + next <= u < offset + n :: flags[u]) && forall u | offset <= u < s :: flags[u]
  }

  /** The position behind slot `s` of the range, around its end. */
  ghost function Behind(offset: nat, n: nat, s: nat): nat {
    if offset <= s && s + 1 < offset + n then s + 1 - offset else 0
  }

  /** The turn around the range does that. */
  lemma {:induction false} FirstFreeIsNext(flags: seq<bool>, offset: nat, n: nat, next: nat, i: nat)
    requires next < n && FirstFree(flags, offset, n, next, i)
    ensures var s := Turn(offset, n, next, i);
            NextFree(flags, offset, n, next, s) && Wrap(next + i + 1, n) == Behind(offset, n, s)
  {
    hide Wrap;
    var s := Turn(offset, n, next, i);
    if next + i < n {
      ModByTurn(next + i, n);
      forall u | offset + next <= u < s ensures flags[u] {
        ModByTurn(u - offset, n);
        assert u == Turn(offset, n, next, u - offset - next);
      }
    } else {
      ModByTurn(next + i - n, n);
      forall u | offset + next <= u < offset + n ensures flags[u] {
        ModByTurn(u - offset, n);
        assert u == Turn(offset, n, next, u - offset - next);
      }
      forall u | offset <= u < s ensures flags[u] {
        ModByTurn(u - offset, n);
        assert u == Turn(offset, n, next, u - offset + n - next);
      }
    }
    ModNext(next + i, n);
  }

  /** The flags after some slots have been taken. */
  ghost function FlagsAfter(flags: seq<bool>, taken: seq<nat>): seq<bool> {
    seq(|flags|, i requires 0 <= i < |flags| => flags[i] || i in taken)
  }

  ghost function PositionAfter(offset: nat, n: nat, next: nat, taken: seq<nat>): nat {
    if taken == [] then next else Behind(offset, n, taken[|taken| - 1])
  }

  /** Each slot is the first free one from the position behind the one before. */
  ghost predicate InTurn(flags: seq<bool>, offset: nat, n: nat, next: nat, taken: seq<nat>) {
    taken == [] ||
    var before := taken[..|taken| - 1];
    InTurn(flags, offset, n, next, before) &&
    NextFree(FlagsAfter(flags, before), offset, n, PositionAfter(offset, n, next, before), taken[|taken| - 1])
  }

  lemma {:induction false} NoTurn(flags: seq<bool>, offset: nat, n: nat, next: nat)
    ensures InTurn(flags, offset, n, next, []) && PositionAfter(offset, n, next, []) == next
  {
  }

  lemma {:induction false} InTurnMore(flags: seq<bool>, offset: nat, n: nat, next: nat, taken: seq<nat>, s: nat)
    requires InTurn(flags, offset, n, next, taken)
    requires NextFree(FlagsAfter(flags, taken), offset, n, PositionAfter(offset, n, next, taken), s)
    ensures InTurn(flags, offset, n, next, taken + [s])
    ensures PositionAfter(offset, n, next, taken + [s]) == Behind(offset, n, s)
  {
    hide NextFree;
    assert (taken + [s])[..|taken + [s]| - 1] == taken;
  }

  /** All slots of the range are in flight. */
  ghost predicate RangeFull(flags: seq<bool>, offset: nat, n: nat) {
    offset + n <= |flags| && forall s: nat | offset <= s < offset + n :: flags[s]
  }

  lemma {:induction false} TurnReaches(offset: nat, n: nat, next: nat, s: nat) returns (j: nat)
    requires next < n && offset <= s < offset + n
    ensures j < n && Turn(offset, n, next, j) == s
  {
    hide Wrap;
    var k := s - offset;
    if k >= next {
      j := k - next;
      ModByTurn(k, n);
    } else {
      j := k + n - next;
      ModByTurn(k, n);
    }
  }

  lemma {:induction false} ModByTurn(k: nat, n: nat)
    requires k < n
    ensures Wrap(k, n) == k && Wrap(k + n, n) == k
  {
    DivUnique(k + n, n, 1, k);
    assert k + n == n * ((k + n) / n) + (k + n) % n;
  }

  lemma {:induction false} FullTurn(flags: seq<bool>, offset: nat, n: nat, next: nat)
    requires next < n && offset + n <= |flags| && forall j: nat | j < n :: flags[Turn(offset, n, next, j)]
    ensures RangeFull(flags, offset, n)
  {
    forall s: nat | offset <= s < offset + n ensures flags[s] {
      var j := TurnReaches(offset, n, next, s);
    }
  }

  /** One successful search: the flags it saw, where it started, and the step that ended it. */
  datatype Search = Search(flags: seq<bool>, next: nat, turn: nat)

  /** Successive searches of one range, whatever happens to the flags in between. */
  ghost predicate Searches(runs: seq<Search>, offset: nat, n: nat) {
    (forall t | 0 <= t < |runs| :: runs[t].next < n && FirstFree(runs[t].flags, offset, n, runs[t].next, runs[t].turn))
    && forall t | 0 < t < |runs| :: runs[t].next == Wrap(runs[t - 1].next + runs[t - 1].turn + 1, n)
  }

  /** The number of steps from `next` to the slot `s`. */
  ghost function Distance(offset: nat, n: nat, next: nat, s: nat): nat
    requires next < n && offset <= s < offset + n
  {
    if s - offset >= next then s - offset - next else s - offset + n - next
  }

  lemma {:induction false} DistanceBelow(offset: nat, n: nat, next: nat, s: nat)
    requires next < n && offset <= s < offset + n
    ensures Distance(offset, n, next, s) < n
  {
  }

  lemma {:induction false} NotFull(flags: seq<bool>, offset: nat, n: nat, s: nat)
    requires offset <= s < offset + n && s < |flags| && !flags[s]
    ensures !RangeFull(flags, offset, n)
  {
  }

  /** A search that meets a free slot `s` takes it, or ends nearer to it. */
  lemma {:induction false} NearerOrTaken(run: Search, offset: nat, n: nat, s: nat)
    requires run.next < n && FirstFree(run.flags, offset, n, run.next, run.turn)
    requires offset <= s < offset + n && !run.flags[s]
    ensures var next' := Wrap(run.next + run.turn + 1, n);
            Turn(offset, n, run.next, run.turn) == s ||
            (next' < n && Distance(offset, n, next', s) < Distance(offset, n, run.next, s))
  {
    hide Wrap;
    var d := Distance(offset, n, run.next, s);
    assert Turn(offset, n, run.next, d) == s by {
      ModByTurn(s - offset, n);
    }
    assert run.turn <= d;
    if run.turn < d {
      var x := run.next + run.turn + 1;
      if x < n {
        ModByTurn(x, n);
      } else {
        ModByTurn(x - n, n);
      }
    }
  }

  /** A slot that is free whenever its range is searched is handed out within `n` searches. */
  lemma {:induction false} FreeSlotIsTaken(runs: seq<Search>, offset: nat, n: nat, s: nat) returns (t: nat)
    requires Searches(runs, offset, n) && runs != [] && offset <= s < offset + n
    requires forall t | 0 <= t < |runs| :: !runs[t].flags[s]
    requires |runs| > Distance(offset, n, runs[0].next, s)
    ensures t <= Distance(offset, n, runs[0].next, s) < n && Turn(offset, n, runs[t].next, runs[t].turn) == s
    decreases |runs|
  {
    hide Wrap;
    NearerOrTaken(runs[0], offset, n, s);
    if Turn(offset, n, runs[0].next, runs[0].turn) == s {
      t := 0;
    } else {
      var rest := runs[1..];
      assert forall k | 0 <= k < |rest| :: rest[k] == runs[k + 1];
      var u := FreeSlotIsTaken(rest, offset, n, s);
      t := u + 1;
    }
  }

  // ----- the searches of all ports -----

  /** `runs` are successive searches of one range, and the next one starts at `next`. */
  ghost predicate Logged(runs: seq<Search>, next: nat, offset: nat, n: nat) {
    Searches(runs, offset, n)
    && (runs != [] ==>
          n >= 1 && var last := runs[|runs| - 1]; next == Wrap(last.next + last.turn + 1, n))
  }

  /** What every plane keeps: the searches of each port are successive searches of its range. */
  ghost predicate Logs(history: seq<seq<Search>>, next: seq<nat>, n: nat) {
    |history| == |next| && forall p: nat | p < |next| :: Logged(history[p], next[p], p * n, n)
  }

  lemma {:induction false} LoggedMore(runs: seq<Search>, next: nat, offset: nat, n: nat, flags: seq<bool>, turn: nat)
    requires Logged(runs, next, offset, n) && next < n && FirstFree(flags, offset, n, next, turn)
    ensures Logged(runs + [Search(flags, next, turn)], Wrap(next + turn + 1, n), offset, n)
  {
    hide FirstFree, Wrap;
  }

  lemma {:induction false} LogsMore(history: seq<seq<Search>>, next: seq<nat>, n: nat, p: nat, flags: seq<bool>,
      turn: nat)
    requires Logs(history, next, n) && p < |next| && next[p] < n && FirstFree(flags, p * n, n, next[p], turn)
    ensures Logs(history[p := history[p] + [Search(flags, next[p], turn)]], next[p := Wrap(next[p] + turn + 1, n)], n)
  {
    hide Logged, FirstFree, Wrap;
    LoggedMore(history[p], next[p], p * n, n, flags, turn);
  }

  /** The search handed out slot `s`. */
  ghost predicate Took(run: Search, offset: nat, n: nat, s: nat) {
    n >= 1 && Turn(offset, n, run.next, run.turn) == s
  }

  ghost predicate FoundFree(run: Search, s: nat) {
    s < |run.flags| && !run.flags[s]
  }

  /** Among any `n` successive searches of a range of `n` slots, a slot that is free until it is
      handed out is handed out. */
  lemma {:induction false} TakenWithin(runs: seq<Search>, offset: nat, n: nat, s: nat)
    requires Searches(runs, offset, n) && offset <= s < offset + n && |runs| == n
    requires forall t | 0 <= t < n :: FoundFree(runs[t], s) || exists u | 0 <= u < t :: Took(runs[u], offset, n, s)
    ensures exists t | 0 <= t < n :: Took(runs[t], offset, n, s)
  {
    if forall t | 0 <= t < n :: !Took(runs[t], offset, n, s) {
      assert forall t | 0 <= t < n :: FoundFree(runs[t], s);
      var t := FreeSlotIsTaken(runs, offset, n, s);
      assert Took(runs[t], offset, n, s);
    }
  }

  /** Any stretch of the searches of a range. */
  lemma {:induction false} Stretch(runs: seq<Search>, offset: nat, n: nat, from: nat, to: nat)
    requires Searches(runs, offset, n) && from <= to <= |runs|
    ensures Searches(runs[from..to], offset, n)
  {
    hide FirstFree, Wrap;
    var part := runs[from..to];
    assert forall t | 0 <= t < |part| :: part[t] == runs[from + t];
    forall t | 0 < t < |part|
      ensures part[t].next == Wrap(part[t - 1].next + part[t - 1].turn + 1, n)
    {
      assert part[t] == runs[from + t] && part[t - 1] == runs[from + t - 1];
    }
  }

  /** Searches are added to the histories of the ports and never forgotten. */
  ghost predicate Grown(was: seq<seq<Search>>, now: seq<seq<Search>>) {
    |was| == |now| && forall p | 0 <= p < |was| :: was[p] <= now[p]
  }

  lemma {:induction false} GrownTrans(a: seq<seq<Search>>, b: seq<seq<Search>>, c: seq<seq<Search>>)
    requires Grown(a, b) && Grown(b, c)
    ensures Grown(a, c)
  {
  }

  lemma {:induction false} GrownOne(a: seq<seq<Search>>, p: nat, run: Search)
    requires p < |a|
    ensures Grown(a, a) && Grown(a, a[p := a[p] + [run]])
  {
  }
}
