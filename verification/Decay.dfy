/**
  The decay of unused pages in arena.c: a backlog of the pages that became unused in
  each of the last 200 steps, weighted by the smoothstep curve, gives the number of
  pages that may stay.
 */
module Decay {
  import opened Smoothstep

  /** The backlog moved on by `n` steps, with the pages of the last. */
  function Shift(s: seq<nat>, n: nat, last: nat): (r: seq<nat>)
    requires |s| == NSTEPS
    ensures |r| == NSTEPS
  {
    seq(NSTEPS, i requires 0 <= i < NSTEPS => if i == NSTEPS - 1 then last else if i + n < NSTEPS then s[i + n] else 0)
  }

  lemma ShiftIs(s: seq<nat>, n: nat, r: seq<nat>)
    requires |s| == |r| == NSTEPS && forall i :: 0 <= i < NSTEPS - 1 ==> r[i] == if i + n < NSTEPS then s[i + n] else 0
    ensures r == Shift(s, n, r[NSTEPS - 1])
  {
  }

  function Weighted(s: seq<nat>, k: nat): nat
    requires k <= |s| == NSTEPS
  {
    if k == 0 then 0 else Weighted(s, k - 1) + Times(s[k - 1], H(k - 1))
  }

  function Times(x: nat, y: nat): nat {
    x * y
  }

  function Pages(s: seq<nat>, k: nat): nat
    requires k <= |s|
  {
    if k == 0 then 0 else Pages(s, k - 1) + s[k - 1]
  }

  /** arena_decay_backlog_npages_limit. */
  function Limit(s: seq<nat>): nat
    requires |s| == NSTEPS
  {
    Weighted(s, NSTEPS) / ONE
  }

  // ------------------------------------------------------------------ moving on

  /** Moving on by `a` and then by `b` is moving on by both, except that the pages of the first step, if any, are `b` steps old. */
  lemma ShiftTwice(s: seq<nat>, a: nat, x: nat, b: nat, y: nat)
    requires |s| == NSTEPS && a > 0 && b > 0
    ensures Shift(Shift(s, a, x), b, y) == if b < NSTEPS then Shift(s, a + b, y)[NSTEPS - 1 - b := x] else Shift(s, a + b, y)
  {
    var l := Shift(Shift(s, a, x), b, y);
    var r := if b < NSTEPS then Shift(s, a + b, y)[NSTEPS - 1 - b := x] else Shift(s, a + b, y);
    forall i | 0 <= i < NSTEPS ensures l[i] == r[i] { }
  }

  /** Without new pages it is moving on by both. */
  lemma ShiftAdds(s: seq<nat>, a: nat, b: nat)
    requires |s| == NSTEPS && a > 0 && b > 0
    ensures Shift(Shift(s, a, 0), b, 0) == Shift(s, a + b, 0)
  {
    ShiftTwice(s, a, 0, b, 0);
    assert b < NSTEPS ==> Shift(s, a + b, 0)[NSTEPS - 1 - b] == 0;
  }

  lemma MulUp(x: nat, a: nat, b: nat)
    requires a <= b
    ensures x * a <= x * b
  {
  }

  /** What is left after moving on by `n` weighs no more than before. */
  lemma {:induction false} ShiftLighter(s: seq<nat>, n: nat, k: nat)
    requires |s| == NSTEPS && n > 0 && k <= NSTEPS
    ensures Weighted(Shift(s, n, 0), k) <= Weighted(s, if k + n < NSTEPS then k + n else NSTEPS)
    decreases k
  {
    hide H;
    if k > 0 {
      ShiftLighter(s, n, k - 1);
      var t := Shift(s, n, 0);
      if k - 1 + n < NSTEPS && k - 1 < NSTEPS - 1 {
        Rises(k - 1, k - 1 + n);
        MulUp(t[k - 1], H(k - 1), H(k - 1 + n));
      } else {
        assert t[k - 1] == 0;
      }
    } else {
      NotNegative(s, n);
    }
  }

  lemma NotNegative(s: seq<nat>, n: nat)
    requires |s| == NSTEPS
    ensures Weighted(Shift(s, n, 0), 0) <= Weighted(s, if n < NSTEPS then n else NSTEPS)
  {
  }

  /** Without new pages the limit never rises. */
  lemma LimitFalls(s: seq<nat>, n: nat)
    requires |s| == NSTEPS && n > 0
    ensures Limit(Shift(s, n, 0)) <= Limit(s)
  {
    ShiftLighter(s, n, NSTEPS);
    DivUp(Weighted(Shift(s, n, 0), NSTEPS), Weighted(s, NSTEPS));
  }

  lemma DivUp(x: nat, y: nat)
    requires x <= y
    ensures x / ONE <= y / ONE
  {
  }

  lemma {:induction false} NoneWeighs(s: seq<nat>, k: nat)
    requires |s| == NSTEPS && k <= NSTEPS && forall i :: 0 <= i < k ==> s[i] == 0
    ensures Weighted(s, k) == 0
  {
    hide H;
    if k > 0 { NoneWeighs(s, k - 1); }
  }

  /** After 200 steps without new pages nothing may stay. */
  lemma LimitDrains(s: seq<nat>, n: nat)
    requires |s| == NSTEPS && n >= NSTEPS
    ensures Limit(Shift(s, n, 0)) == 0
  {
    NoneWeighs(Shift(s, n, 0), NSTEPS);
  }

  lemma {:induction false} WeighsAtMost(s: seq<nat>, k: nat)
    requires |s| == NSTEPS && k <= NSTEPS
    ensures Weighted(s, k) <= Pages(s, k) * ONE
  {
    hide H;
    if k > 0 {
      WeighsAtMost(s, k - 1);
      AtMostOne(k - 1);
      MulUp(s[k - 1], H(k - 1), ONE);
      assert Pages(s, k) * ONE == Pages(s, k - 1) * ONE + s[k - 1] * ONE;
    }
  }

  /** The limit is at most the pages of the backlog, and pages of the last step may all stay. */
  lemma LimitBelowPages(s: seq<nat>)
    requires |s| == NSTEPS
    ensures s[NSTEPS - 1] <= Limit(s) <= Pages(s, NSTEPS)
  {
    hide H;
    WeighsAtMost(s, NSTEPS);
    DivUp(Weighted(s, NSTEPS), Pages(s, NSTEPS) * ONE);
    AtMostOne(0);
    assert Weighted(s, NSTEPS) >= s[NSTEPS - 1] * ONE;
    DivUp(s[NSTEPS - 1] * ONE, Weighted(s, NSTEPS));
  }

  // ------------------------------------------------------------------ the curve

  function Sum(s: seq<nat>, t: seq<nat>): (r: seq<nat>)
    requires |s| == |t|
    ensures |r| == |s|
  {
    seq(|s|, i requires 0 <= i < |s| => s[i] + t[i])
  }

  /** The weights of backlogs add up. */
  lemma {:induction false} WeightsAdd(s: seq<nat>, t: seq<nat>, k: nat)
    requires |s| == |t| == NSTEPS && k <= NSTEPS
    ensures Weighted(Sum(s, t), k) == Weighted(s, k) + Weighted(t, k)
  {
    hide H;
    if k > 0 {
      WeightsAdd(s, t, k - 1);
      TimesAdds(s[k - 1], t[k - 1], H(k - 1));
    }
  }

  lemma TimesAdds(x: nat, y: nat, z: nat)
    ensures Times(x + y, z) == Times(x, z) + Times(y, z)
  {
  }

  /** Pages of one step only, `x` at step `i`. */
  function Single(i: nat, x: nat): (r: seq<nat>)
    requires i < NSTEPS
    ensures |r| == NSTEPS
  {
    seq(NSTEPS, k => if k == i then x else 0)
  }

  lemma {:induction false} SingleWeight(i: nat, x: nat, k: nat)
    requires i < NSTEPS && k <= NSTEPS
    ensures Weighted(Single(i, x), k) == if i < k then x * H(i) else 0
  {
    hide H;
    if k > 0 { SingleWeight(i, x, k - 1); }
  }

  /** Of the pages of one step the curve's part for their age may stay. */
  lemma LimitIsCurve(i: nat, x: nat)
    requires i < NSTEPS
    ensures Limit(Single(i, x)) == x * H(i) / ONE
  {
    hide H;
    SingleWeight(i, x, NSTEPS);
  }

  // ------------------------------------------------------------------ runs

  datatype State = State(backlog: seq<nat>, nunpurged: nat)

  /** One advance by `n` steps when `current` pages are unused. */
  function Advance(d: State, n: nat, current: nat): (r: State)
    requires |d.backlog| == NSTEPS
    ensures |r.backlog| == NSTEPS
  {
    var b := Shift(d.backlog, n, Above(current, d.nunpurged));
    State(b, Larger(current, Limit(b)))
  }

  function Above(x: nat, y: nat): nat {
    if x > y then x - y else 0
  }

  function Larger(x: nat, y: nat): nat {
    if y > x then y else x
  }

  /** What the last advance left behind: no fewer pages are known of than may stay. */
  ghost predicate Settled(d: State) {
    |d.backlog| == NSTEPS && Limit(d.backlog) <= d.nunpurged
  }

  /** Pages count as new exactly as far as they pass both what was unused at the last advance and what might stay then. */
  lemma NewPages(d: State, n: nat, c1: nat, m: nat, c2: nat)
    requires |d.backlog| == NSTEPS
    ensures var e := Advance(d, n, c1); var kept := if c1 < Limit(e.backlog) then Limit(e.backlog) else c1;
      && Settled(e) && c1 <= e.nunpurged
      && (Advance(e, m, c2).backlog[NSTEPS - 1] == 0 <==> c2 <= kept)
      && (c2 > kept ==> Advance(e, m, c2).backlog[NSTEPS - 1] == c2 - kept)
  {
    hide Limit;
  }

  /** Two advances are one when no pages became unused, though pages may have come back up to what might stay. */
  lemma AdvanceAdds(d: State, a: nat, c1: nat, b: nat, c2: nat)
    requires Settled(d) && a > 0 && b > 0 && c1 <= d.nunpurged
    requires c2 <= c1 || c2 <= Limit(Advance(d, a, c1).backlog)
    ensures Advance(Advance(d, a, c1), b, c2) == Advance(d, a + b, c2) && c2 <= d.nunpurged
  {
    LimitFalls(d.backlog, a);
    ShiftAdds(d.backlog, a, b);
    hide Limit, Shift;
  }

  /** An advance: how many steps, and the unused pages at the time. */
  datatype Turn = Turn(steps: nat, current: nat)

  function Steps(run: seq<Turn>): nat {
    if run == [] then 0 else Steps(run[..|run| - 1]) + run[|run| - 1].steps
  }

  function After(d: State, run: seq<Turn>): (r: State)
    requires |d.backlog| == NSTEPS
    ensures |r.backlog| == NSTEPS
  {
    if run == [] then d else Advance(After(d, run[..|run| - 1]), run[|run| - 1].steps, run[|run| - 1].current)
  }

  /** No turn finds more unused pages than the one before it did, or than might stay after that one. */
  ghost predicate NoNewPages(d: State, run: seq<Turn>)
    requires |d.backlog| == NSTEPS
  {
    && (forall i :: 0 <= i < |run| ==> run[i].steps > 0)
    && (run != [] ==> run[0].current <= d.nunpurged)
    && (forall i :: 0 < i < |run| ==> run[i].current <= run[i - 1].current || run[i].current <= Limit(After(d, run[..i]).backlog))
  }

  lemma NoneInPart(d: State, run: seq<Turn>)
    requires |d.backlog| == NSTEPS && NoNewPages(d, run) && |run| > 1
    ensures NoNewPages(d, run[..|run| - 1])
  {
    hide Limit;
    var part := run[..|run| - 1];
    forall i | 0 < i < |part| ensures part[i].current <= part[i - 1].current || part[i].current <= Limit(After(d, part[..i]).backlog) {
      assert part[..i] == run[..i];
    }
  }

  /**
    A run of advances during which no pages become unused: however it is cut into
    advances it ends as one advance by all its steps, the limit has not risen, and
    after 200 steps it is zero.
   */
  lemma {:induction false} RunIsOneAdvance(d: State, run: seq<Turn>)
    requires Settled(d) && NoNewPages(d, run) && run != []
    ensures After(d, run) == Advance(d, Steps(run), run[|run| - 1].current)
    ensures run[|run| - 1].current <= d.nunpurged && Steps(run) > 0
    ensures Limit(After(d, run).backlog) <= Limit(d.backlog)
    ensures Steps(run) >= NSTEPS ==> Limit(After(d, run).backlog) == 0
    decreases |run|
  {
    hide Limit, Shift;
    var n := |run| - 1;
    if n > 0 {
      NoneInPart(d, run);
      RunIsOneAdvance(d, run[..n]);
      AdvanceAdds(d, Steps(run[..n]), run[n - 1].current, run[n].steps, run[n].current);
    } else {
      assert run[..0] == [];
    }
    LimitFalls(d.backlog, Steps(run));
    if Steps(run) >= NSTEPS { LimitDrains(d.backlog, Steps(run)); }
  }

  /** The new pages of each turn stand in the backlog at the place of their age, and after 200 steps nowhere. */
  lemma {:induction false} RunRemembers(d: State, run: seq<Turn>, j: nat)
    requires |d.backlog| == NSTEPS && j < |run| && forall i :: 0 <= i < |run| ==> run[i].steps > 0
    ensures Steps(run[j + 1..]) < NSTEPS ==>
      After(d, run).backlog[NSTEPS - 1 - Steps(run[j + 1..])] == Above(run[j].current, After(d, run[..j]).nunpurged)
    decreases |run|
  {
    hide Limit;
    var n := |run| - 1;
    if j < n {
      var part := run[..n];
      RunRemembers(d, part, j);
      assert part[..j] == run[..j];
      assert run[j + 1..][..n - j - 1] == part[j + 1..];
    } else {
      assert run[j + 1..] == [];
    }
  }

  // ------------------------------------------------------------------ arena_decay_t

  /** How many whole steps lie between two times. */
  function Elapsed(epoch: nat, time: nat, interval: nat): nat
    requires interval > 0
  {
    if time < epoch then 0 else (time - epoch) / interval
  }

  lemma ElapsedIs(epoch: nat, time: nat, interval: nat)
    requires interval > 0 && epoch <= time
    ensures epoch + Elapsed(epoch, time, interval) * interval <= time < epoch + Elapsed(epoch, time, interval) * interval + interval
    ensures epoch + interval <= time ==> Elapsed(epoch, time, interval) > 0
  {
    var x := time - epoch;
    assert x / interval * interval + x % interval == x;
  }

  class ArenaDecay {
    var timeMs: int
    var interval: nat
    var epoch: nat
    var deadline: nat
    var nunpurged: nat
    const backlog: array<nat>

    ghost predicate Timed()
      reads this
    {
      backlog.Length == NSTEPS && (timeMs > 0 ==> interval > 0 && epoch + interval <= deadline < epoch + 2 * interval)
    }

    ghost predicate Valid()
      reads this, backlog
    {
      Timed() && Settled(View())
    }

    ghost function View(): State
      reads this, backlog
    {
      State(backlog[..], nunpurged)
    }

    /** arena_decay_init. */
    constructor (decayMs: int, now: nat, jitter: nat)
      requires decayMs > 0 ==> jitter < decayMs * 1000000 / NSTEPS
      ensures Valid() && fresh(backlog) && timeMs == decayMs && epoch == now && View() == State(seq(NSTEPS, _ => 0), 0)
    {
      timeMs := decayMs;
      interval := if decayMs > 0 then decayMs * 1000000 / NSTEPS else 0;
      epoch := now;
      deadline := now + (if decayMs > 0 then decayMs * 1000000 / NSTEPS else 0) + if decayMs > 0 then jitter else 0;
      nunpurged := 0;
      backlog := new nat[NSTEPS](_ => 0);
      new;
      NoneWeighs(backlog[..], NSTEPS);
    }

    /** arena_decay_deadline_init; `jitter` is what the generator gives below the interval. */
    method DeadlineInit(jitter: nat)
      requires timeMs > 0 ==> jitter < interval
      modifies `deadline
      ensures deadline == epoch + interval + if timeMs > 0 then jitter else 0
    {
      deadline := epoch;
      deadline := deadline + interval;
      if timeMs > 0 {
        deadline := deadline + jitter;
      }
    }

    /** arena_decay_backlog_update. */
    method BacklogUpdate(n: nat, current: nat)
      requires backlog.Length == NSTEPS && n > 0
      modifies backlog
      ensures backlog[..] == Shift(old(backlog[..]), n, Above(current, nunpurged))
    {
      hide H, Weighted, Limit, Pages;
      ghost var was := backlog[..];
      if n >= NSTEPS {
        forall i | 0 <= i < NSTEPS - 1 {
          backlog[i] := 0;
        }
      } else {
        forall i | 0 <= i < NSTEPS - n {
          backlog[i] := backlog[i + n];
        }
        if n > 1 {
          forall i | NSTEPS - n <= i < NSTEPS - 1 {
            backlog[i] := 0;
          }
        }
      }
      assert forall i :: 0 <= i < NSTEPS - 1 ==> backlog[i] == if i + n < NSTEPS then was[i + n] else 0;
      backlog[NSTEPS - 1] := Above(current, nunpurged);
      ShiftIs(was, n, backlog[..]);
    }

    /** arena_decay_epoch_advance_helper. */
    method EpochAdvanceHelper(time: nat, current: nat, jitter: nat)
      requires Timed() && timeMs > 0 && deadline <= time && jitter < interval
      modifies `epoch, `deadline, backlog
      ensures Timed() && epoch <= time < epoch + interval && deadline == epoch + interval + jitter > time
      ensures epoch == old(epoch) + Elapsed(old(epoch), time, interval) * interval
      ensures Elapsed(old(epoch), time, interval) > 0
      ensures View() == State(Shift(old(backlog[..]), Elapsed(old(epoch), time, interval), Above(current, nunpurged)), nunpurged)
    {
      hide Elapsed, Shift;
      var n := Elapsed(epoch, time, interval);
      ElapsedIs(epoch, time, interval);
      epoch := epoch + n * interval;
      DeadlineInit(jitter);
      BacklogUpdate(n, current);
    }

    /** arena_decay_backlog_npages_limit. */
    method NpagesLimit() returns (limit: nat)
      requires backlog.Length == NSTEPS
      ensures limit == Limit(backlog[..]) && backlog[NSTEPS - 1] <= limit <= Pages(backlog[..], NSTEPS)
    {
      hide H;
      var sum: nat := 0;
      for i: nat := 0 to NSTEPS
        invariant sum == Weighted(backlog[..], i)
      {
        sum := sum + Times(backlog[i], H(i));
      }
      limit := sum / ONE;
      LimitBelowPages(backlog[..]);
    }

    /** arena_decay_epoch_advance: how many pages have to go, down to which limit. */
    method EpochAdvance(time: nat, current: nat, jitter: nat) returns (limit: nat, purge: nat)
      requires Valid() && timeMs > 0 && deadline <= time && jitter < interval
      modifies `epoch, `deadline, `nunpurged, backlog
      ensures Valid() && epoch <= time < epoch + interval && deadline == epoch + interval + jitter > time && Elapsed(old(epoch), time, interval) > 0
      ensures epoch == old(epoch) + Elapsed(old(epoch), time, interval) * interval
      ensures View() == Advance(old(View()), Elapsed(old(epoch), time, interval), current) && limit == Limit(backlog[..])
      ensures purge == if current > limit then current - limit else 0
    {
      hide Limit, Shift, Elapsed;
      EpochAdvanceHelper(time, current, jitter);
      limit := NpagesLimit();
      nunpurged := Larger(current, limit);
      purge := Above(current, limit);
    }

    /** arena_maybe_decay: nothing is done before the deadline, and a clock that has gone back starts the epoch again. */
    method MaybeDecay(time: nat, current: nat, jitter: nat) returns (advanced: bool, limit: nat, purge: nat)
      requires Valid() && (timeMs > 0 ==> jitter < interval)
      modifies `epoch, `deadline, `nunpurged, backlog
      ensures Valid()
      ensures advanced <==> timeMs > 0 && old(deadline) <= time && old(epoch) <= time
      ensures advanced ==> epoch <= time < epoch + interval && View() == Advance(old(View()), Elapsed(old(epoch), time, interval), current)
      ensures advanced ==> limit == Limit(backlog[..]) && purge == if current > limit then current - limit else 0
      ensures !advanced ==> View() == old(View()) && purge == if timeMs == 0 then current else 0
      ensures timeMs > 0 ==> epoch <= time < deadline
      ensures advanced ==> epoch == old(epoch) + Elapsed(old(epoch), time, interval) * interval && deadline == epoch + interval + jitter
      ensures timeMs > 0 && old(epoch) > time ==> epoch == time && deadline == time + interval + jitter
      ensures timeMs <= 0 || (!advanced && old(epoch) <= time) ==> epoch == old(epoch) && deadline == old(deadline)
    {
      hide Limit, Shift, Elapsed, Advance;
      advanced, limit, purge := false, 0, 0;
      if timeMs <= 0 {
        if timeMs == 0 {
          purge := current;
        }
        return;
      }
      if epoch > time {
        epoch := time;
        DeadlineInit(jitter);
      }
      if deadline <= time {
        advanced := true;
        limit, purge := EpochAdvance(time, current, jitter);
      }
    }
  }
}
