/** The usage tracker: totals, minute buckets and recent operations, globally and per source, beside one log. */
module Usage {
  import opened Text
  import opened UsageLog

  const TICKS_PER_MINUTE := 60_000_000

  type Buckets = map<int, Counts>

  function At(buckets: Buckets, minute: int): Counts { if minute in buckets then buckets[minute] else ZERO }

  /** A queue holds the operations of the log, apart from some at its front that are older than the horizon. */
  predicate Keeps(kept: seq<Op>, all: seq<Op>, horizon: int) {
    && |kept| <= |all| && kept == all[|all| - |kept|..]
    && forall i :: 0 <= i < |all| - |kept| ==> all[i].at < horizon
  }

  /** Buckets agree with the log on every minute. */
  ghost predicate Agree(buckets: Buckets, log: seq<Event>, scope: Scope) {
    forall minute :: At(buckets, minute) == InSpan(log, scope, minute, minute + 1)
  }

  /** The indexes of one scope, and what recording an event does to them. */
  datatype Index = Index(total: Counts, buckets: Buckets, recent: seq<Op>) {
    ghost predicate Exact(log: seq<Event>, scope: Scope, horizon: int) {
      && total == Total(log, scope)
      && Agree(buckets, log, scope)
      && Keeps(recent, Ops(log, scope), horizon)
    }

    function With(e: Event): Index {
      Index(total.Plus(e.counts), buckets[e.minute := At(buckets, e.minute).Plus(e.counts)],
            recent + [Op(e.at, e.counts.Sum())])
    }
  }

  const NO_INDEX: Index := Index(ZERO, map[], [])

  lemma OtherStaysExact(index: Index, log: seq<Event>, e: Event, scope: Scope, horizon: int)
    requires index.Exact(log, scope, horizon) && !Concerns(e, scope)
    ensures index.Exact(log + [e], scope, horizon)
  {
    hide Total, InSpan, Ops, Keeps, Counts.Plus, Concerns;
    LogGrows(log, e, scope);
    assert Ops(log, scope) + [] == Ops(log, scope);
  }

  lemma ConcernedStaysExact(index: Index, log: seq<Event>, e: Event, scope: Scope, horizon: int)
    requires index.Exact(log, scope, horizon) && Concerns(e, scope)
    ensures index.With(e).Exact(log + [e], scope, horizon)
  {
    hide Total, InSpan, Ops, Counts.Plus, Concerns, Counts.Sum;
    LogGrows(log, e, scope);
    BucketGrows(index.buckets, log, e, scope);
  }

  lemma StaysExact(before: Index, after: Index, log: seq<Event>, e: Event, scope: Scope, horizon: int)
    requires before.Exact(log, scope, horizon) && after == if Concerns(e, scope) then before.With(e) else before
    ensures after.Exact(log + [e], scope, horizon)
  {
    hide Index.Exact, Index.With, Concerns;
    if Concerns(e, scope) {
      ConcernedStaysExact(before, log, e, scope, horizon);
    } else {
      OtherStaysExact(before, log, e, scope, horizon);
    }
  }

  lemma BucketGrows(buckets: Buckets, log: seq<Event>, e: Event, scope: Scope)
    requires Agree(buckets, log, scope) && Concerns(e, scope)
    ensures Agree(buckets[e.minute := At(buckets, e.minute).Plus(e.counts)], log + [e], scope)
  {
    hide Total, InSpan, Ops, Counts.Plus;
    LogGrows(log, e, scope);
    var more := buckets[e.minute := At(buckets, e.minute).Plus(e.counts)];
    forall minute ensures At(more, minute) == InSpan(log + [e], scope, minute, minute + 1) {
      assert At(buckets, minute) == InSpan(log, scope, minute, minute + 1);
    }
  }

  lemma KeepsLonger(kept: seq<Op>, all: seq<Op>, horizon: int, later: int)
    requires Keeps(kept, all, horizon) && horizon <= later
    ensures Keeps(kept, all, later)
  {
  }

  lemma SuffixOfSuffix<T>(all: seq<T>, kept: seq<T>, r: seq<T>)
    requires |r| <= |kept| <= |all| && kept == all[|all| - |kept|..] && r == kept[|kept| - |r|..]
    ensures r == all[|all| - |r|..]
  {
  }

  lemma QueuePruned(kept: seq<Op>, all: seq<Op>, horizon: int, cutoff: int, later: int)
    requires Keeps(kept, all, horizon) && horizon <= later && cutoff <= later
    ensures Keeps(Pruned(kept, cutoff), all, later)
    ensures horizon <= cutoff ==> Pruned(kept, cutoff) == Pruned(all, cutoff)
  {
    hide Pruned;
    if horizon <= cutoff { PrunedLater(all, kept, horizon, cutoff); }
    var d, r := |all| - |kept|, Pruned(kept, cutoff);
    SuffixOfSuffix(all, kept, r);
    forall i | 0 <= i < |all| - |r| ensures all[i].at < later {
      if i >= d { assert all[i] == kept[i - d]; }
    }
  }

  lemma StaysExactPruned(
    before: Index, after: Index, log: seq<Event>, scope: Scope, horizon: int, cutoff: int, later: int)
    requires before.Exact(log, scope, horizon) && horizon <= later && cutoff <= later
    requires after == before || after == before.(recent := Pruned(before.recent, cutoff))
    ensures after.Exact(log, scope, later)
    ensures horizon <= cutoff && after.recent == Pruned(before.recent, cutoff) ==>
              after.recent == Pruned(Ops(log, scope), cutoff)
  {
    hide Total, Ops, Agree, Pruned, Keeps;
    KeepsLonger(before.recent, Ops(log, scope), horizon, later);
    QueuePruned(before.recent, Ops(log, scope), horizon, cutoff, later);
  }

  lemma NothingPruned(cutoff: int)
    ensures Pruned([], cutoff) == []
  {
  }

  lemma NoSteps(log: seq<Event>, scope: Scope, start: int, width: nat)
    ensures IsSeries([], log, scope, start, width)
  {
  }

  lemma SeriesExtends(series: seq<Counts>, step: Counts, log: seq<Event>, scope: Scope, start: int, width: nat)
    requires IsSeries(series, log, scope, start, width)
    requires var first := StepStart(start, width, |series|); step == InSpan(log, scope, first, first + width)
    ensures IsSeries(series + [step], log, scope, start, width)
  {
    hide InSpan, StepStart;
  }

  /** What get_metrics reports, without rounding to percentages and chart coordinates. */
  datatype Metrics = Metrics(total: Counts, series: seq<Counts>, operations: nat)

  function Throughput(log: seq<Event>, scope: Scope, now: int, minute: int): nat {
    var recent := CountOf(Pruned(Ops(log, scope), now - TICKS_PER_MINUTE));
    if recent == 0 then InSpan(log, scope, minute, minute + 1).Sum() else recent
  }

  /**
   If nothing was recorded in the last sixty seconds, the throughput is what the current minute has so far. Otherwise
   it is what was recorded in these seconds, exactly if no older recording stands behind a fresh one.
   */
  lemma ThroughputExactly(log: seq<Event>, scope: Scope, now: int, minute: int)
    requires forall i :: 0 <= i < |log| ==> log[i].Positive()
    ensures var recent := Since(log, scope, now - 60_000_000);
            if recent == 0 then Throughput(log, scope, now, minute) == InSpan(log, scope, minute, minute + 1).Sum()
            else
              Throughput(log, scope, now, minute) >= recent
              && (Throughput(log, scope, now, minute) == recent <==>
                    FreshStaysFresh(Ops(log, scope), now - 60_000_000))
  {
    hide Ops, InSpan, CountOf, Pruned, FreshCount, Since, FreshStaysFresh;
    FreshIsSince(log, scope, now - TICKS_PER_MINUTE);
    OpsArePositive(log, scope);
    PrunedCountExactly(Ops(log, scope), now - TICKS_PER_MINUTE);
  }

  class UsageTracker {
    var totals: Counts
    var minuteBuckets: Buckets
    var sourceTotals: map<string, Counts>
    var sourceMinuteBuckets: map<string, Buckets>
    var recentOps: seq<Op>
    var sourceRecentOps: map<string, seq<Op>>
    ghost var log: seq<Event>
    ghost var horizon: int           // the latest moment that queues were pruned at

    /** Everything that is kept for one scope. */
    function IndexOf(scope: Scope): Index reads this {
      match scope
      case Everything => Index(totals, minuteBuckets, recentOps)
      case Source(id) =>
        Index(if id in sourceTotals then sourceTotals[id] else ZERO,
              if id in sourceMinuteBuckets then sourceMinuteBuckets[id] else map[],
              if id in sourceRecentOps then sourceRecentOps[id] else [])
    }

    ghost predicate Valid() reads this {
      && (forall scope: Scope :: IndexOf(scope).Exact(log, scope, horizon))
      && forall i :: 0 <= i < |log| ==> log[i].Positive()
    }

    constructor ()
      ensures Valid() && log == []
    {
      totals, minuteBuckets, sourceTotals, sourceMinuteBuckets := ZERO, map[], map[], map[];
      recentOps, sourceRecentOps, log := [], map[], [];
      new;
      forall scope: Scope ensures IndexOf(scope).Exact(log, scope, horizon) {
      }
    }

    /** Everything is forgotten. */
    method Reset()
      requires Valid()
      modifies this
      ensures Valid() && log == []
    {
      totals, minuteBuckets, sourceTotals, sourceMinuteBuckets := ZERO, map[], map[], map[];
      recentOps, sourceRecentOps, log := [], map[], [];
      forall scope: Scope ensures IndexOf(scope).Exact(log, scope, horizon) {
      }
    }

    method RecordRead(count: int, source: string, at: int, minute: int)
      requires Valid()
      modifies this
      ensures Valid() && horizon == old(horizon)
      ensures log == old(log) + if count <= 0 then [] else [Event(at, minute, Counts(count, 0), source)]
    {
      if count <= 0 {
        assert log + [] == log;
        return;
      }
      Record(Event(at, minute, Counts(count, 0), source));
    }

    method RecordWrite(count: int, source: string, at: int, minute: int)
      requires Valid()
      modifies this
      ensures Valid() && horizon == old(horizon)
      ensures log == old(log) + if count <= 0 then [] else [Event(at, minute, Counts(0, count), source)]
    {
      if count <= 0 {
        assert log + [] == log;
        return;
      }
      Record(Event(at, minute, Counts(0, count), source));
    }

    /** All indexes are brought up to date with one more recording. */
    method Record(e: Event)
      requires Valid() && e.Positive()
      modifies this
      ensures Valid() && horizon == old(horizon) && log == old(log) + [e]
    {
      hide Counts.Plus, Counts.Sum, Index.Exact, Index.With, At;
      RecordGlobal(e);
      if e.source != "" { RecordSource(e); }
      log := log + [e];
      forall scope: Scope ensures IndexOf(scope).Exact(log, scope, horizon) {
        StaysExact(old(IndexOf(scope)), IndexOf(scope), old(log), e, scope, horizon);
      }
    }

    method RecordGlobal(e: Event)
      modifies this`totals, this`minuteBuckets, this`recentOps
      ensures IndexOf(Everything) == old(IndexOf(Everything)).With(e)
    {
      totals := totals.Plus(e.counts);
      minuteBuckets := minuteBuckets[e.minute := At(minuteBuckets, e.minute).Plus(e.counts)];
      recentOps := recentOps + [Op(e.at, e.counts.Sum())];
    }

    method RecordSource(e: Event)
      modifies this`sourceTotals, this`sourceMinuteBuckets, this`sourceRecentOps
      ensures IndexOf(Source(e.source)) == old(IndexOf(Source(e.source))).With(e)
      ensures forall id: string :: id != e.source ==> IndexOf(Source(id)) == old(IndexOf(Source(id)))
    {
      hide Counts.Plus, Counts.Sum, At;
      var index := IndexOf(Source(e.source));
      sourceTotals := sourceTotals[e.source := index.total.Plus(e.counts)];
      sourceMinuteBuckets :=
        sourceMinuteBuckets[e.source := index.buckets[e.minute := At(index.buckets, e.minute).Plus(e.counts)]];
      sourceRecentOps := sourceRecentOps[e.source := index.recent + [Op(e.at, e.counts.Sum())]];
    }

    /** What the buckets hold for the minutes of one step. */
    static method StepCounts(buckets: Buckets, first: int, width: nat, ghost log: seq<Event>, ghost scope: Scope)
      returns (step: Counts)
      requires Agree(buckets, log, scope)
      ensures step == InSpan(log, scope, first, first + width)
    {
      hide InSpan, Counts.Plus;
      step := ZERO;
      SpanEmpty(log, scope, first);
      for m := 0 to width
        invariant step == InSpan(log, scope, first, first + m)
      {
        SpanAdds(log, scope, first, first + m, first + m + 1);
        step := step.Plus(At(buckets, first + m));
      }
    }

    /** The chart of a window that ends with the current minute. */
    method Series(window: Window, scope: Scope, minute: int) returns (series: seq<Counts>)
      requires Valid()
      ensures |series| == window.Steps() && IsSeries(series, log, scope, window.Start(minute), window.Width())
    {
      hide InSpan, StepStart, IsSeries, Window.Start, Window.Width, Window.Steps;
      var start, width := window.Start(minute), window.Width();
      var first := start;
      series := [];
      StepStarts(start, width, 0);
      NoSteps(log, scope, start, width);
      for i := 0 to window.Steps()
        invariant |series| == i && first == StepStart(start, width, i)
        invariant IsSeries(series, log, scope, start, width)
      {
        var step := StepCounts(IndexOf(scope).buckets, first, width, log, scope);
        StepStarts(start, width, i);
        SeriesExtends(series, step, log, scope, start, width);
        series, first := series + [step], first + width;
      }
    }

    /** Old operations are removed from the front of the global queue. */
    method PruneGlobal(cutoff: int)
      requires Valid()
      modifies this`recentOps, this`horizon
      ensures Valid() && horizon == if cutoff <= old(horizon) then old(horizon) else cutoff
      ensures old(horizon) <= cutoff ==> recentOps == Pruned(Ops(log, Everything), cutoff)
    {
      hide Ops, Pruned, Keeps, Agree, Total, Index.Exact;
      ghost var before, earlier := IndexOf(Everything), horizon;
      ghost var later := if cutoff <= earlier then earlier else cutoff;
      recentOps := DropOld(recentOps, cutoff);
      horizon := later;
      StaysExactPruned(before, IndexOf(Everything), log, Everything, earlier, cutoff, later);
      forall id: string ensures IndexOf(Source(id)).Exact(log, Source(id), later) {
        assert IndexOf(Source(id)) == old(IndexOf(Source(id)));
        StaysExactPruned(IndexOf(Source(id)), IndexOf(Source(id)), log, Source(id), earlier, cutoff, later);
      }
      forall scope: Scope ensures IndexOf(scope).Exact(log, scope, later) {
        if scope.Source? { assert scope == Source(scope.id); }
      }
    }

    /** The same for the queue of one source, if there is one. */
    method PruneSource(id: string, cutoff: int)
      requires Valid() && horizon >= cutoff
      modifies this`sourceRecentOps
      ensures Valid()
      ensures horizon == cutoff ==> IndexOf(Source(id)).recent == Pruned(Ops(log, Source(id)), cutoff)
    {
      hide Ops, Pruned, Keeps, Agree, Total, Index.Exact;
      NothingPruned(cutoff);
      if id in sourceRecentOps {
        var recent := DropOld(sourceRecentOps[id], cutoff);
        sourceRecentOps := sourceRecentOps[id := recent];
      }
      var scope := Source(id);
      ghost var before := old(IndexOf(scope));
      assert IndexOf(scope) == before.(recent := Pruned(before.recent, cutoff));
      StaysExactPruned(before, IndexOf(scope), log, scope, horizon, cutoff, horizon);
      forall other: Scope ensures IndexOf(other).Exact(log, other, horizon) {
        if other != scope { assert IndexOf(other) == old(IndexOf(other)); }
      }
    }

    static method DropOld(ops: seq<Op>, cutoff: int) returns (r: seq<Op>)
      ensures r == Pruned(ops, cutoff)
    {
      r := ops;
      while r != [] && r[0].at < cutoff
        invariant Pruned(r, cutoff) == Pruned(ops, cutoff)
        decreases |r|
      {
        r := r[1..];
      }
    }

    static method CountAll(ops: seq<Op>) returns (sum: nat)
      ensures sum == CountOf(ops)
    {
      sum := 0;
      for i := 0 to |ops|
        invariant sum + CountOf(ops[i..]) == CountOf(ops)
      {
        assert ops[i..][1..] == ops[i + 1..];
        sum := sum + ops[i].count;
      }
    }

    /** Totals, chart and throughput as the log has them; the throughput if clocks do not run back between calls. */
    method GetMetrics(window: Window, source: string, minute: int, now: int) returns (m: Metrics)
      requires Valid()
      modifies this`recentOps, this`sourceRecentOps, this`horizon
      ensures Valid() && horizon >= now - TICKS_PER_MINUTE
      ensures horizon == old(horizon) || horizon == now - TICKS_PER_MINUTE
      ensures var scope := if source == "" then Everything else Source(source);
              && m.total == Total(log, scope)
              && |m.series| == window.Steps()
              && IsSeries(m.series, log, scope, window.Start(minute), window.Width())
              && (old(horizon) <= now - TICKS_PER_MINUTE ==> m.operations == Throughput(log, scope, now, minute))
    {
      hide InSpan, Total, Ops, Pruned, IsSeries, Counts.Sum, Keeps;
      var scope := if source == "" then Everything else Source(source);
      var series := Series(window, scope, minute);
      var total := IndexOf(scope).total;
      PruneGlobal(now - TICKS_PER_MINUTE);
      if source != "" { PruneSource(source, now - TICKS_PER_MINUTE); }
      var operations := CountAll(IndexOf(scope).recent);
      if operations == 0 { operations := At(IndexOf(scope).buckets, minute).Sum(); }
      m := Metrics(total, series, operations);
    }
  }
}
