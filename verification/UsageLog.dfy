/** What usage counters mean: sums over the log of everything that was recorded. */
module UsageLog {

  datatype Counts = Counts(read: nat, written: nat) {
    function Plus(other: Counts): Counts { Counts(read + other.read, written + other.written) }

    function Sum(): nat { read + written }
  }

  const ZERO: Counts := Counts(0, 0)

  /** One recording: the clock is read once for the moment and once more for the minute; "" is no source. */
  datatype Event = Event(at: int, minute: int, counts: Counts, source: string) {
    predicate Positive() { counts.Sum() > 0 }
  }

  datatype Op = Op(at: int, count: nat)

  datatype Scope = Everything | Source(id: string)

  predicate Concerns(e: Event, scope: Scope) { scope.Everything? || (e.source != "" && e.source == scope.id) }

  // ---------------------------------------------------------------- sums over the log

  function Total(log: seq<Event>, scope: Scope): Counts {
    if log == [] then ZERO
    else
      var before, e := Total(log[..|log| - 1], scope), log[|log| - 1];
      if Concerns(e, scope) then before.Plus(e.counts) else before
  }

  /** The recording belongs to the minutes from lo up to, not including, hi. */
  predicate Within(e: Event, scope: Scope, lo: int, hi: int) { Concerns(e, scope) && lo <= e.minute < hi }

  /** What was recorded in the minutes from lo up to, not including, hi. */
  function InSpan(log: seq<Event>, scope: Scope, lo: int, hi: int): Counts {
    if log == [] then ZERO
    else
      var before, e := InSpan(log[..|log| - 1], scope, lo, hi), log[|log| - 1];
      if Within(e, scope, lo, hi) then before.Plus(e.counts) else before
  }

  /** The recordings that concern a scope, with their moments. */
  function Ops(log: seq<Event>, scope: Scope): seq<Op> {
    if log == [] then []
    else
      var e := log[|log| - 1];
      Ops(log[..|log| - 1], scope) + (if Concerns(e, scope) then [Op(e.at, e.counts.Sum())] else [])
  }

  lemma LogGrows(log: seq<Event>, e: Event, scope: Scope)
    ensures Total(log + [e], scope) ==
              if Concerns(e, scope) then Total(log, scope).Plus(e.counts) else Total(log, scope)
    ensures forall lo, hi :: InSpan(log + [e], scope, lo, hi) ==
              var before := InSpan(log, scope, lo, hi);
              if Within(e, scope, lo, hi) then before.Plus(e.counts) else before
    ensures Ops(log + [e], scope) == Ops(log, scope) + if Concerns(e, scope) then [Op(e.at, e.counts.Sum())] else []
  {
    assert (log + [e])[..|log|] == log;
  }

  /** Adjacent spans add up. */
  lemma {:induction false} SpanAdds(log: seq<Event>, scope: Scope, lo: int, mid: int, hi: int)
    requires lo <= mid <= hi
    ensures InSpan(log, scope, lo, mid).Plus(InSpan(log, scope, mid, hi)) == InSpan(log, scope, lo, hi)
  {
    hide InSpan, Within, Counts.Plus;
    if log == [] {
      SpanOfNothing(log, scope, lo, mid);
      SpanOfNothing(log, scope, mid, hi);
      SpanOfNothing(log, scope, lo, hi);
      PlusZero(InSpan(log, scope, lo, mid));
    } else {
      var front, e := log[..|log| - 1], log[|log| - 1];
      SpanAdds(front, scope, lo, mid, hi);
      SpanOfLast(log, scope, lo, mid);
      SpanOfLast(log, scope, mid, hi);
      SpanOfLast(log, scope, lo, hi);
      WithinOne(e, scope, lo, mid, hi);
      PlusMoves(InSpan(front, scope, lo, mid), InSpan(front, scope, mid, hi), e.counts);
    }
  }

  lemma SpanOfNothing(log: seq<Event>, scope: Scope, lo: int, hi: int)
    requires log == []
    ensures InSpan(log, scope, lo, hi) == ZERO
  {
  }

  lemma SpanOfLast(log: seq<Event>, scope: Scope, lo: int, hi: int)
    requires log != []
    ensures var before := InSpan(log[..|log| - 1], scope, lo, hi);
            InSpan(log, scope, lo, hi)
            == if Within(log[|log| - 1], scope, lo, hi) then before.Plus(log[|log| - 1].counts) else before
  {
    hide Within, Counts.Plus;
  }

  lemma WithinOne(e: Event, scope: Scope, lo: int, mid: int, hi: int)
    requires lo <= mid <= hi
    ensures Within(e, scope, lo, hi) <==> Within(e, scope, lo, mid) || Within(e, scope, mid, hi)
    ensures !(Within(e, scope, lo, mid) && Within(e, scope, mid, hi))
  {
  }

  lemma PlusZero(a: Counts)
    ensures a.Plus(ZERO) == a
  {
  }

  lemma PlusMoves(a: Counts, b: Counts, x: Counts)
    ensures a.Plus(x).Plus(b) == a.Plus(b.Plus(x)) == a.Plus(b).Plus(x)
  {
  }

  lemma {:induction false} SpanEmpty(log: seq<Event>, scope: Scope, lo: int)
    ensures InSpan(log, scope, lo, lo) == ZERO
  {
    hide Concerns;
    if log != [] { SpanEmpty(log[..|log| - 1], scope, lo); }
  }

  // ---------------------------------------------------------------- the series of a window

  /** How many steps of how many minutes a window shows. */
  datatype Window = HalfHour | Hour | Day | Week {
    function Steps(): nat { match this case HalfHour => 30 case Hour => 60 case Day => 24 case Week => 7 }

    function Width(): nat { match this case HalfHour => 1 case Hour => 1 case Day => 60 case Week => 1440 }

    function Minutes(): nat { match this case HalfHour => 30 case Hour => 60 case Day => 1440 case Week => 10080 }

    /** The minutes up to the current one that the steps cover. */
    function Shown(): nat { Minutes() - (Width() - 1) }

    /** The minutes of the first step, for a window that ends with the step that begins at minute end. */
    function Start(end: int): int { end - Width() * (Steps() - 1) }
  }

  function SeriesSum(series: seq<Counts>): Counts {
    if series == [] then ZERO else SeriesSum(series[..|series| - 1]).Plus(series[|series| - 1])
  }

  /** The first minute of step i. */
  function StepStart(start: int, width: nat, i: int): int { start + width * i }

  lemma StepStarts(start: int, width: nat, i: nat)
    ensures StepStart(start, width, 0) == start <= StepStart(start, width, i)
    ensures StepStart(start, width, i + 1) == StepStart(start, width, i) + width
  {
  }

  /** Each step of the series holds what was recorded in its own minutes. */
  predicate IsSeries(series: seq<Counts>, log: seq<Event>, scope: Scope, start: int, width: nat) {
    forall i :: 0 <= i < |series| ==>
      series[i] == InSpan(log, scope, StepStart(start, width, i), StepStart(start, width, i) + width)
  }

  lemma {:induction false} SeriesAddsUp(series: seq<Counts>, log: seq<Event>, scope: Scope, start: int, width: nat)
    requires IsSeries(series, log, scope, start, width)
    ensures SeriesSum(series) == InSpan(log, scope, start, StepStart(start, width, |series|))
  {
    hide InSpan, StepStart;
    if series == [] {
      StepStarts(start, width, 0);
      SpanEmpty(log, scope, start);
    } else {
      var n := |series| - 1;
      SeriesAddsUp(series[..n], log, scope, start, width);
      StepStarts(start, width, n);
      StepAdds(SeriesSum(series[..n]), series[n], log, scope, start, StepStart(start, width, n), width);
    }
  }

  lemma StepAdds(sum: Counts, step: Counts, log: seq<Event>, scope: Scope, start: int, last: int, width: nat)
    requires start <= last && sum == InSpan(log, scope, start, last) && step == InSpan(log, scope, last, last + width)
    ensures sum.Plus(step) == InSpan(log, scope, start, last + width)
  {
    SpanAdds(log, scope, start, last, last + width);
  }

  /** Every minute from the start on lies in exactly one step, given by division. */
  lemma StepOfMinute(start: int, width: nat, steps: nat, minute: int) returns (i: nat)
    requires width > 0 && start <= minute < StepStart(start, width, steps)
    ensures i < steps && StepStart(start, width, i) <= minute < StepStart(start, width, i) + width
    ensures forall k: nat :: StepStart(start, width, k) <= minute < StepStart(start, width, k) + width ==> k == i
  {
    i := (minute - start) / width;
    assert width * i <= minute - start < width * i + width;
    if i >= steps { Monotone(width, steps, i); }
    forall k: nat | StepStart(start, width, k) <= minute < StepStart(start, width, k) + width
      ensures k == i
    {
      if k < i { Monotone(width, k + 1, i); }
      if i < k { Monotone(width, i + 1, k); }
    }
  }

  lemma Monotone(width: nat, a: nat, b: nat)
    requires a <= b
    ensures width * a <= width * b
  {
    assert width * (b - a) >= 0;
  }

  /**
   The last step begins now, so that of a window of n steps only n - 1 lie in the past: when nothing is recorded
   ahead of the clock, the series shows the last minutes of the window less all but one minute of a step.
   */
  lemma WindowShowsLess(series: seq<Counts>, log: seq<Event>, scope: Scope, window: Window, now: int)
    requires |series| == window.Steps() && IsSeries(series, log, scope, window.Start(now), window.Width())
    requires forall i :: 0 <= i < |log| ==> log[i].minute <= now
    ensures SeriesSum(series) == InSpan(log, scope, now + 1 - window.Shown(), now + 1)
    ensures window.Shown() == window.Minutes() <==> window.Width() == 1
  {
    hide InSpan, SeriesSum, IsSeries, StepStart;
    var start, end := window.Start(now), now + window.Width();
    SeriesAddsUp(series, log, scope, start, window.Width());
    WindowEnds(window, now);
    SpanAdds(log, scope, start, now + 1, end);
    NothingAhead(log, scope, now + 1, end);
  }

  /** For example, what was recorded 23 hours and two minutes ago is missing in the window of a day. */
  lemma DayShowsLess(series: seq<Counts>, log: seq<Event>, now: int)
    requires |log| == 1 && log[0].Positive() && log[0].minute == now - 23 * 60 - 2
    requires |series| == Day.Steps() && IsSeries(series, log, Everything, Day.Start(now), Day.Width())
    ensures now + 1 - Day.Minutes() <= log[0].minute <= now
    ensures SeriesSum(series).Sum() == 0 < InSpan(log, Everything, now + 1 - Day.Minutes(), now + 1).Sum()
  {
    hide SeriesSum, IsSeries, StepStart, InSpan;
    WindowShowsLess(series, log, Everything, Day, now);
    assert Day.Shown() == 1381 && Day.Minutes() == 1440;
    SpanOfOne(log, now - 1380, now + 1);
    SpanOfOne(log, now - 1439, now + 1);
  }

  lemma SpanOfOne(log: seq<Event>, lo: int, hi: int)
    requires |log| == 1
    ensures InSpan(log, Everything, lo, hi).Sum() == if lo <= log[0].minute < hi then log[0].counts.Sum() else 0
  {
    assert log[..0] == [];
  }

  lemma WindowEnds(window: Window, now: int)
    ensures StepStart(window.Start(now), window.Width(), window.Steps()) == now + window.Width()
  {
  }

  lemma {:induction false} NothingAhead(log: seq<Event>, scope: Scope, lo: int, hi: int)
    requires forall i :: 0 <= i < |log| ==> log[i].minute < lo
    ensures InSpan(log, scope, lo, hi) == ZERO
  {
    if log != [] {
      NothingAhead(log[..|log| - 1], scope, lo, hi);
      assert log[|log| - 1].minute < lo;
    }
  }

  // ---------------------------------------------------------------- the sliding window

  function CountOf(ops: seq<Op>): nat {
    if ops == [] then 0 else ops[0].count + CountOf(ops[1..])
  }

  /** The operations at or after the cutoff, wherever they stand. */
  function FreshCount(ops: seq<Op>, cutoff: int): nat {
    if ops == [] then 0 else (if ops[0].at >= cutoff then ops[0].count else 0) + FreshCount(ops[1..], cutoff)
  }

  /** What is left when old operations are removed from the front only. */
  function Pruned(ops: seq<Op>, cutoff: int): (r: seq<Op>)
    ensures |r| <= |ops| && r == ops[|ops| - |r|..]
    ensures forall i :: 0 <= i < |ops| - |r| ==> ops[i].at < cutoff
    ensures r == [] || r[0].at >= cutoff
  {
    if ops != [] && ops[0].at < cutoff then Pruned(ops[1..], cutoff) else ops
  }

  /** No operation older than the cutoff stands behind one that is not. */
  predicate FreshStaysFresh(ops: seq<Op>, cutoff: int) {
    forall i, j :: 0 <= i < j < |ops| && ops[i].at >= cutoff ==> ops[j].at >= cutoff
  }

  lemma {:induction false} FreshCountAll(ops: seq<Op>, cutoff: int)
    requires forall i :: 0 <= i < |ops| ==> ops[i].count > 0
    ensures FreshCount(ops, cutoff) <= CountOf(ops)
    ensures FreshCount(ops, cutoff) == CountOf(ops) <==> forall i :: 0 <= i < |ops| ==> ops[i].at >= cutoff
  {
    if ops != [] {
      FreshCountAll(ops[1..], cutoff);
      assert forall i :: 1 <= i < |ops| ==> ops[i] == ops[1..][i - 1];
    }
  }

  /** The pruned queue counts the last minute, exactly if no older operation hides behind a fresh one. */
  lemma {:induction false} PrunedCountExactly(ops: seq<Op>, cutoff: int)
    requires forall i :: 0 <= i < |ops| ==> ops[i].count > 0
    ensures CountOf(Pruned(ops, cutoff)) >= FreshCount(ops, cutoff)
    ensures CountOf(Pruned(ops, cutoff)) == FreshCount(ops, cutoff) <==> FreshStaysFresh(ops, cutoff)
    ensures CountOf(Pruned(ops, cutoff)) == 0 <==> FreshCount(ops, cutoff) == 0
  {
    hide FreshStaysFresh;
    if ops != [] && ops[0].at < cutoff {
      PrunedCountExactly(ops[1..], cutoff);
      OldInFront(ops, cutoff);
    } else {
      FreshCountAll(ops, cutoff);
      if ops != [] { FreshInFront(ops, cutoff); } else { assert FreshStaysFresh(ops, cutoff) by { NoneAtAll(cutoff); } }
    }
  }

  lemma NoneAtAll(cutoff: int)
    ensures FreshStaysFresh([], cutoff)
  {
  }

  lemma OldInFront(ops: seq<Op>, cutoff: int)
    requires ops != [] && ops[0].at < cutoff
    ensures FreshStaysFresh(ops, cutoff) <==> FreshStaysFresh(ops[1..], cutoff)
  {
    if FreshStaysFresh(ops[1..], cutoff) {
      forall i, j | 0 <= i < j < |ops| && ops[i].at >= cutoff ensures ops[j].at >= cutoff {
        assert ops[1..][i - 1] == ops[i] && ops[1..][j - 1] == ops[j];
      }
    }
  }

  lemma FreshInFront(ops: seq<Op>, cutoff: int)
    requires ops != [] && ops[0].at >= cutoff
    ensures FreshStaysFresh(ops, cutoff) <==> forall i :: 0 <= i < |ops| ==> ops[i].at >= cutoff
  {
  }

  predicate Nondecreasing(ops: seq<Op>) { forall i, j :: 0 <= i < j < |ops| ==> ops[i].at <= ops[j].at }

  /** With clocks that do not run back, the pruned queue is exact at every cutoff, and only then at every one. */
  lemma ExactWhenOrdered(ops: seq<Op>)
    requires forall i :: 0 <= i < |ops| ==> ops[i].count > 0
    ensures Nondecreasing(ops) <==> forall cutoff :: CountOf(Pruned(ops, cutoff)) == FreshCount(ops, cutoff)
  {
    hide CountOf, Pruned, FreshCount, FreshStaysFresh;
    forall cutoff ensures CountOf(Pruned(ops, cutoff)) == FreshCount(ops, cutoff) <==> FreshStaysFresh(ops, cutoff) {
      PrunedCountExactly(ops, cutoff);
    }
    if Nondecreasing(ops) {
      forall cutoff ensures FreshStaysFresh(ops, cutoff) { OrderedStaysFresh(ops, cutoff); }
    } else {
      var i, j :| 0 <= i < j < |ops| && ops[i].at > ops[j].at;
      OldBehindFresh(ops, i, j);
      assert CountOf(Pruned(ops, ops[i].at)) != FreshCount(ops, ops[i].at);
    }
  }

  lemma OrderedStaysFresh(ops: seq<Op>, cutoff: int)
    requires Nondecreasing(ops)
    ensures FreshStaysFresh(ops, cutoff)
  {
  }

  lemma OldBehindFresh(ops: seq<Op>, i: nat, j: nat)
    requires i < j < |ops| && ops[i].at > ops[j].at
    ensures !FreshStaysFresh(ops, ops[i].at)
  {
  }

  /** What was recorded for a scope at or after the cutoff. */
  function Since(log: seq<Event>, scope: Scope, cutoff: int): nat {
    if log == [] then 0
    else
      var e := log[|log| - 1];
      Since(log[..|log| - 1], scope, cutoff) + (if Concerns(e, scope) && e.at >= cutoff then e.counts.Sum() else 0)
  }

  lemma {:induction false} FreshCountMore(ops: seq<Op>, op: Op, cutoff: int)
    ensures FreshCount(ops + [op], cutoff) == FreshCount(ops, cutoff) + if op.at >= cutoff then op.count else 0
  {
    if ops != [] {
      assert (ops + [op])[1..] == ops[1..] + [op];
      FreshCountMore(ops[1..], op, cutoff);
    } else {
      assert ops + [op] == [op];
    }
  }

  lemma {:induction false} FreshIsSince(log: seq<Event>, scope: Scope, cutoff: int)
    ensures FreshCount(Ops(log, scope), cutoff) == Since(log, scope, cutoff)
  {
    hide FreshCount;
    if log == [] {
      NoneFresh(Ops(log, scope), cutoff);
    } else {
      var front, e := log[..|log| - 1], log[|log| - 1];
      FreshIsSince(front, scope, cutoff);
      FreshCountMore(Ops(front, scope), Op(e.at, e.counts.Sum()), cutoff);
      assert Ops(front, scope) + [] == Ops(front, scope);
    }
  }

  lemma NoneFresh(ops: seq<Op>, cutoff: int)
    requires ops == []
    ensures FreshCount(ops, cutoff) == 0
  {
  }

  lemma {:induction false} OpsOfLog(log: seq<Event>, scope: Scope)
    requires forall i :: 0 <= i < |log| ==> log[i].Positive()
    requires forall i, j :: 0 <= i < j < |log| ==> log[i].at <= log[j].at
    ensures Nondecreasing(Ops(log, scope))
    ensures forall k :: 0 <= k < |Ops(log, scope)| ==>
              Ops(log, scope)[k].count > 0 && Ops(log, scope)[k].at <= log[|log| - 1].at
  {
    if log != [] {
      var front, e := log[..|log| - 1], log[|log| - 1];
      OpsOfLog(front, scope);
      assert front != [] ==> front[|front| - 1].at <= e.at;
      assert e.Positive();
    }
  }

  lemma {:induction false} OpsArePositive(log: seq<Event>, scope: Scope)
    requires forall i :: 0 <= i < |log| ==> log[i].Positive()
    ensures forall k :: 0 <= k < |Ops(log, scope)| ==> Ops(log, scope)[k].count > 0
  {
    if log != [] {
      OpsArePositive(log[..|log| - 1], scope);
      assert log[|log| - 1].Positive();
    }
  }

  /** When recordings arrive in order, the pruned queue counts what the log has since the cutoff. */
  lemma PrunedCountsLastMinute(log: seq<Event>, scope: Scope, cutoff: int)
    requires forall i :: 0 <= i < |log| ==> log[i].Positive()
    requires forall i, j :: 0 <= i < j < |log| ==> log[i].at <= log[j].at
    ensures CountOf(Pruned(Ops(log, scope), cutoff)) == Since(log, scope, cutoff)
  {
    hide Ops, CountOf, Pruned, Since;
    OpsOfLog(log, scope);
    ExactWhenOrdered(Ops(log, scope));
    FreshIsSince(log, scope, cutoff);
  }

  /** Pruning again at a later cutoff is pruning once; what was dropped before makes no difference. */
  lemma {:induction false} PrunedLater(ops: seq<Op>, kept: seq<Op>, earlier: int, cutoff: int)
    requires earlier <= cutoff && |kept| <= |ops| && kept == ops[|ops| - |kept|..]
    requires forall i :: 0 <= i < |ops| - |kept| ==> ops[i].at < earlier
    ensures Pruned(kept, cutoff) == Pruned(ops, cutoff)
  {
    if |kept| < |ops| {
      assert ops[1..][|ops[1..]| - |kept|..] == kept;
      PrunedLater(ops[1..], kept, earlier, cutoff);
    }
  }
}
