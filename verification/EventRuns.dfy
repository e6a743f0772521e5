/** Runs of recorded events: what the totals are after any number of calls, and runs after which they are
    not what they should be. */
module EventRuns {
  import opened Types
  import opened Ordered
  import opened Codec
  import opened EventStats
  import opened EventWindows

  type Calls = seq<(EventKey, Event)>

  /** Call `i` of a run; the counter in the keys goes up by one per call and wraps around. */
  ghost predicate Call(ws: seq<World>, calls: Calls, firstCounter: u16, i: nat)
    requires i < |calls| && |ws| == |calls| + 1
  {
    && Next(ws[i], calls[i].0, calls[i].1, ws[i + 1])
    && calls[i].0.counter == (firstCounter + i) % TWO_16
  }

  ghost predicate Run(ws: seq<World>, calls: Calls, firstCounter: u16) {
    && |ws| == |calls| + 1
    && ws[0].stats == Stats(map[], map[], None) && ws[0].latest == map[] && RETENTION_NS <= ws[0].clock
    && (forall i :: 0 <= i < |calls| ==> Call(ws, calls, firstCounter, i))
  }

  // ----- Totals along any run -----

  /** The weight of the events that were overwritten in the first `n` calls. */
  function Excess(ws: seq<World>, calls: Calls, n: nat, x: AggregationKey): nat
    requires n <= |calls| && |ws| == |calls| + 1
  {
    if n == 0 then 0 else Excess(ws, calls, n - 1, x) + Overwritten(ws[n - 1], calls[n - 1].0, x)
  }

  lemma EmptyStatsAgree(w: World, x: AggregationKey)
    requires w.stats == Stats(map[], map[], None) && w.latest == map[] && RETENTION_NS <= w.clock
    ensures Timely(w) && Exceeds(w.stats, x, 0)
  {
  }

  /** In every run, after every call: each total is the plain sum over the stored events it counts plus the
      weight of all events ever overwritten, which no later call takes away again. */
  lemma {:induction false} TotalsAlongRun(ws: seq<World>, calls: Calls, firstCounter: u16, n: nat, x: AggregationKey)
    requires Run(ws, calls, firstCounter) && n <= |calls|
    ensures Timely(ws[n]) && Exceeds(ws[n].stats, x, Excess(ws, calls, n, x))
  {
    hide Next, Timely, Exceeds, Overwritten;
    if n == 0 {
      EmptyStatsAgree(ws[0], x);
    } else {
      TotalsAlongRun(ws, calls, firstCounter, n - 1, x);
      assert Call(ws, calls, firstCounter, n - 1);
      TotalAfterCall(ws[n - 1], calls[n - 1].0, calls[n - 1].1, ws[n], x, Excess(ws, calls, n - 1, x));
      CallKeepsTimely(ws[n - 1], calls[n - 1].0, calls[n - 1].1, ws[n]);
    }
  }

  ghost predicate FreshKey(ws: seq<World>, calls: Calls, i: nat)
    requires i < |calls| && |ws| == |calls| + 1
  {
    calls[i].0 !in ws[i].stats.events
  }

  ghost predicate AllFresh(ws: seq<World>, calls: Calls, n: nat)
    requires n <= |calls| && |ws| == |calls| + 1
  {
    forall i: nat :: i < n ==> FreshKey(ws, calls, i)
  }

  lemma {:induction false} FreshMeansNoExcess(ws: seq<World>, calls: Calls, n: nat, x: AggregationKey)
    requires n <= |calls| && |ws| == |calls| + 1 && AllFresh(ws, calls, n)
    ensures Excess(ws, calls, n, x) == 0
  {
    if n > 0 {
      FreshMeansNoExcess(ws, calls, n - 1, x);
      assert FreshKey(ws, calls, n - 1);
    }
  }

  lemma {:induction false} OverwritingLeavesExcess(ws: seq<World>, calls: Calls, n: nat, i: nat,
                                                   window: Window) returns (x: AggregationKey)
    requires i < n <= |calls| && |ws| == |calls| + 1 && !FreshKey(ws, calls, i)
    ensures x.window == window && Excess(ws, calls, n, x) > 0
  {
    hide Weight;
    x := CountKey(ws[i].stats.events[calls[i].0], window);
    CountKeyWeighs(ws[i].stats.events[calls[i].0], window);
    ExcessGrows(ws, calls, i + 1, n, x);
  }

  lemma CountKeyWeighs(e: Event, window: Window)
    ensures CountKey(e, window).window == window && Weight(CountKey(e, window), e) == 1
  {
  }

  lemma {:induction false} ExcessGrows(ws: seq<World>, calls: Calls, i: nat, n: nat, x: AggregationKey)
    requires i <= n <= |calls| && |ws| == |calls| + 1
    ensures Excess(ws, calls, i, x) <= Excess(ws, calls, n, x)
  {
    if i < n {
      ExcessGrows(ws, calls, i, n - 1, x);
    }
  }

  /** The totals agree with the stored events after a run exactly if no event key was ever taken. */
  lemma RunAgreesIff(ws: seq<World>, calls: Calls, firstCounter: u16, n: nat)
    requires Run(ws, calls, firstCounter) && n <= |calls|
    ensures Timely(ws[n]) && (Agrees(ws[n].stats) <==> AllFresh(ws, calls, n))
  {
    hide Call, Timely, Total, CountedBy, FreshKey, Excess;
    forall x
      ensures Timely(ws[n]) && Value(Get(ws[n].stats.totals, x))
                == Total(x, CountedBy(ws[n].stats, x)) + Excess(ws, calls, n, x)
      ensures Get(ws[n].stats.totals, x) != Some(0)
      ensures AllFresh(ws, calls, n) ==> Excess(ws, calls, n, x) == 0
    {
      TotalsAlongRun(ws, calls, firstCounter, n, x);
      if AllFresh(ws, calls, n) {
        FreshMeansNoExcess(ws, calls, n, x);
      }
    }
    TotalsAlongRun(ws, calls, firstCounter, n, AggregationKey(PruneEventCount, Day, None, []));
    if i: nat :| i < n && !FreshKey(ws, calls, i) {
      var x := OverwritingLeavesExcess(ws, calls, n, i, Day);
      assert Value(Get(ws[n].stats.totals, x)) != Total(x, CountedBy(ws[n].stats, x));
    }
  }

  // ----- Exactness along any run -----

  /** The weight of the events that were recorded by the first `n` calls and lie after a point in time. */
  function Recorded(calls: Calls, n: nat, horizon: u64, x: AggregationKey): nat
    requires n <= |calls|
  {
    if n == 0 then 0
    else Recorded(calls, n - 1, horizon, x) + if calls[n - 1].0.time > horizon then Weight(x, calls[n - 1].1) else 0
  }

  predicate IsDelegation(e: Event, domain: Option<IIDomain>, frontend: Bytes) {
    e.PrepareDelegation? && e.iiDomain == domain && e.frontend == frontend
  }

  /** The delegations that the first `n` calls recorded for a domain and frontend after a point in time. */
  function Delegations(calls: Calls, n: nat, horizon: u64, domain: Option<IIDomain>, frontend: Bytes): seq<Event>
    requires n <= |calls|
  {
    if n == 0 then []
    else
      Delegations(calls, n - 1, horizon, domain, frontend) +
      if IsDelegation(calls[n - 1].1, domain, frontend) && calls[n - 1].0.time > horizon then [calls[n - 1].1] else []
  }

  /** Whole seconds of each session, added up. */
  function SessionSeconds(delegations: seq<Event>): nat
    requires forall e :: e in delegations ==> e.PrepareDelegation?
  {
    if delegations == [] then 0
    else
      SessionSeconds(delegations[..|delegations| - 1]) + delegations[|delegations| - 1].sessionDurationNs / 1_000_000_000
  }

  function Prunes(calls: Calls, n: nat, horizon: u64): nat
    requires n <= |calls|
  {
    if n == 0 then 0
    else Prunes(calls, n - 1, horizon) + if calls[n - 1].1.PruneEvent? && calls[n - 1].0.time > horizon then 1 else 0
  }

  /** What the three kinds of totals sum up: how many delegations a domain and frontend got, the seconds of their
      sessions, and how many events were injected to prune. */
  lemma RecordedIsCounted(calls: Calls, n: nat, horizon: u64, window: Window, domain: Option<IIDomain>, data: Bytes)
    requires n <= |calls|
    ensures var ds := Delegations(calls, n, horizon, domain, data);
            && (forall e :: e in ds ==> e.PrepareDelegation?)
            && Recorded(calls, n, horizon, AggregationKey(PrepareDelegationCount, window, domain, data)) == |ds|
            && Recorded(calls, n, horizon, AggregationKey(PrepareDelegationSessionSeconds, window, domain, data))
                 == SessionSeconds(ds)
            && Recorded(calls, n, horizon, AggregationKey(PruneEventCount, window, domain, data))
                 == if domain == None && data == [] then Prunes(calls, n, horizon) else 0
  {
    hide Recorded, Delegations, SessionSeconds, Prunes;
    DelegationsAreCounted(calls, n, horizon, window, domain, data);
    SessionsAreSummed(calls, n, horizon, window, domain, data);
    PrunesAreCounted(calls, n, horizon, window, domain, data);
  }

  lemma {:induction false} DelegationsAreCounted(calls: Calls, n: nat, horizon: u64, window: Window,
                                                 domain: Option<IIDomain>, data: Bytes)
    requires n <= |calls|
    ensures forall e :: e in Delegations(calls, n, horizon, domain, data) ==> e.PrepareDelegation?
    ensures Recorded(calls, n, horizon, AggregationKey(PrepareDelegationCount, window, domain, data))
         == |Delegations(calls, n, horizon, domain, data)|
  {
    hide Weight;
    if n > 0 {
      DelegationsAreCounted(calls, n - 1, horizon, window, domain, data);
      WeightCounts(calls[n - 1].1, window, domain, data);
    }
  }

  lemma {:induction false} SessionsAreSummed(calls: Calls, n: nat, horizon: u64, window: Window,
                                             domain: Option<IIDomain>, data: Bytes)
    requires n <= |calls| && forall e :: e in Delegations(calls, n, horizon, domain, data) ==> e.PrepareDelegation?
    ensures Recorded(calls, n, horizon, AggregationKey(PrepareDelegationSessionSeconds, window, domain, data))
         == SessionSeconds(Delegations(calls, n, horizon, domain, data))
  {
    hide Weight, SessionSeconds;
    if n == 0 {
      NoSessions();
    } else {
      DelegationsAreCounted(calls, n - 1, horizon, window, domain, data);
      SessionsAreSummed(calls, n - 1, horizon, window, domain, data);
      var before, e := Delegations(calls, n - 1, horizon, domain, data), calls[n - 1].1;
      WeightCounts(e, window, domain, data);
      if IsDelegation(e, domain, data) {
        OneMoreSession(before, e);
      }
      assert before + [] == before;
    }
  }

  lemma NoSessions()
    ensures SessionSeconds([]) == 0
  {
  }

  lemma {:induction false} PrunesAreCounted(calls: Calls, n: nat, horizon: u64, window: Window,
                                            domain: Option<IIDomain>, data: Bytes)
    requires n <= |calls|
    ensures Recorded(calls, n, horizon, AggregationKey(PruneEventCount, window, domain, data))
         == if domain == None && data == [] then Prunes(calls, n, horizon) else 0
  {
    hide Weight;
    if n > 0 {
      PrunesAreCounted(calls, n - 1, horizon, window, domain, data);
      WeightCounts(calls[n - 1].1, window, domain, data);
    }
  }

  lemma WeightCounts(e: Event, window: Window, domain: Option<IIDomain>, data: Bytes)
    ensures Weight(AggregationKey(PrepareDelegationCount, window, domain, data), e)
         == if IsDelegation(e, domain, data) then 1 else 0
    ensures Weight(AggregationKey(PrepareDelegationSessionSeconds, window, domain, data), e)
         == if IsDelegation(e, domain, data) then e.sessionDurationNs / 1_000_000_000 else 0
    ensures Weight(AggregationKey(PruneEventCount, window, domain, data), e)
         == if e.PruneEvent? && domain == None && data == [] then 1 else 0
  {
  }

  lemma OneMoreSession(before: seq<Event>, e: Event)
    requires e.PrepareDelegation? && forall d :: d in before ==> d.PrepareDelegation?
    ensures SessionSeconds(before + [e]) == SessionSeconds(before) + e.sessionDurationNs / 1_000_000_000
  {
    assert (before + [e])[..|before|] == before;
  }

  /** The totals of a window are the plain sums over all events recorded in that window of time. */
  ghost predicate Exact(ws: seq<World>, calls: Calls, n: nat, window: Window)
    requires n <= |calls| && |ws| == |calls| + 1 && RETENTION_NS <= ws[n].clock
  {
    forall x: AggregationKey :: x.window == window ==>
      Value(Get(ws[n].stats.totals, x)) == Recorded(calls, n, ws[n].clock - Span(window), x)
  }

  /** Call `i` overwrote an event, and the time of both events is not after the given one. */
  ghost predicate TakenBefore(ws: seq<World>, calls: Calls, horizon: u64, i: nat)
    requires i < |calls| && |ws| == |calls| + 1
  {
    !FreshKey(ws, calls, i) && calls[i].0.time <= horizon
  }

  /** An event that was overwritten in the first `n` calls has left the window of time. */
  ghost predicate TakenKeyLeft(ws: seq<World>, calls: Calls, n: nat, horizon: u64)
    requires n <= |calls| && |ws| == |calls| + 1
  {
    exists i: nat :: i < n && TakenBefore(ws, calls, horizon, i)
  }

  /** The weight of the events that were overwritten in the first `n` calls and do not lie after a point in time. */
  function StaleExcess(ws: seq<World>, calls: Calls, n: nat, horizon: u64, x: AggregationKey): nat
    requires n <= |calls| && |ws| == |calls| + 1
  {
    if n == 0 then 0
    else
      StaleExcess(ws, calls, n - 1, horizon, x) +
      if calls[n - 1].0.time <= horizon then Overwritten(ws[n - 1], calls[n - 1].0, x) else 0
  }

  lemma TakenIsLatest(w: World, current: EventKey)
    requires Timely(w) && w.clock <= current.time
    ensures current in w.stats.events <==> current in w.latest
    ensures current in w.latest ==> w.stats.events[current] == w.latest[current]
  {
  }

  lemma CallRecords(w: World, current: EventKey, e: Event, horizon: u64, x: AggregationKey)
    requires Timely(w) && w.clock <= current.time
    ensures Total(x, Recent(w.latest[current := e], horizon))
              + (if current.time > horizon then Overwritten(w, current, x) else 0)
         == Total(x, Recent(w.latest, horizon)) + (if current.time > horizon then Weight(x, e) else 0)
  {
    hide Timely, Weight;
    TakenIsLatest(w, current);
    var before, after := Recent(w.latest, horizon), Recent(w.latest[current := e], horizon);
    if current.time <= horizon {
      assert after == before;
    } else if current in before {
      TotalTakesOut(x, before, current);
      TotalTakesOut(x, after, current);
      assert before - {current} == after - {current};
    } else {
      assert after == before[current := e];
      TotalInserts(x, before, current, e);
    }
  }

  /** What was recorded after a point in time is what the latest events hold, and the overwritten ones. */
  lemma {:induction false} RecordedIsLatest(ws: seq<World>, calls: Calls, firstCounter: u16, n: nat, horizon: u64,
                                            x: AggregationKey)
    requires Run(ws, calls, firstCounter) && n <= |calls|
    ensures Recorded(calls, n, horizon, x) + StaleExcess(ws, calls, n, horizon, x)
         == Total(x, Recent(ws[n].latest, horizon)) + Excess(ws, calls, n, x)
  {
    hide Updates, Timely, Total, Overwritten, Weight, Recent;
    if n == 0 {
      NothingRecorded(ws[0], horizon, x);
    } else {
      RecordedIsLatest(ws, calls, firstCounter, n - 1, horizon, x);
      TotalsAlongRun(ws, calls, firstCounter, n - 1, x);
      assert Call(ws, calls, firstCounter, n - 1);
      CallRecords(ws[n - 1], calls[n - 1].0, calls[n - 1].1, horizon, x);
    }
  }

  lemma NothingRecorded(w: World, horizon: u64, x: AggregationKey)
    requires w.latest == map[]
    ensures Total(x, Recent(w.latest, horizon)) == 0
  {
    assert Recent(w.latest, horizon) == map[];
  }

  lemma {:induction false} StaleExcessGrows(ws: seq<World>, calls: Calls, i: nat, n: nat, horizon: u64, x: AggregationKey)
    requires i <= n <= |calls| && |ws| == |calls| + 1
    ensures StaleExcess(ws, calls, i, horizon, x) <= StaleExcess(ws, calls, n, horizon, x)
  {
    if i < n {
      StaleExcessGrows(ws, calls, i, n - 1, horizon, x);
    }
  }

  lemma {:induction false} NoneTakenNoStaleExcess(ws: seq<World>, calls: Calls, n: nat, horizon: u64, x: AggregationKey)
    requires n <= |calls| && |ws| == |calls| + 1
    requires !TakenKeyLeft(ws, calls, n, horizon)
    ensures StaleExcess(ws, calls, n, horizon, x) == 0
  {
    if n > 0 {
      NoneTakenNoStaleExcess(ws, calls, n - 1, horizon, x);
      assert !TakenBefore(ws, calls, horizon, n - 1);
    }
  }

  lemma {:induction false} TakingLeavesStaleExcess(ws: seq<World>, calls: Calls, n: nat, horizon: u64, i: nat,
                                                   window: Window) returns (x: AggregationKey)
    requires i < n <= |calls| && |ws| == |calls| + 1 && TakenBefore(ws, calls, horizon, i)
    ensures x.window == window && StaleExcess(ws, calls, n, horizon, x) > 0
  {
    hide Weight;
    x := CountKey(ws[i].stats.events[calls[i].0], window);
    CountKeyWeighs(ws[i].stats.events[calls[i].0], window);
    StaleExcessGrows(ws, calls, i + 1, n, horizon, x);
  }

  /** In every run, after every call: a total of a window is what was recorded in that window of time, plus
      what the clean-up still owes, plus the overwritten events that have left it. */
  lemma TotalIsRecorded(ws: seq<World>, calls: Calls, firstCounter: u16, n: nat, x: AggregationKey)
    requires Run(ws, calls, firstCounter) && n < |calls|
    ensures RETENTION_NS <= ws[n + 1].clock
    ensures var horizon := ws[n + 1].clock - Span(x.window);
            Value(Get(ws[n + 1].stats.totals, x)) == Recorded(calls, n + 1, horizon, x)
              + Total(x, Restrict(CountedBy(ws[n + 1].stats, x), LeftOver(ws[n], calls[n].0, calls[n].1, x)))
              + StaleExcess(ws, calls, n + 1, horizon, x)
  {
    hide Timely, Total, Get, CountedBy, LeftOver, Recent, Excess, Recorded, StaleExcess, Next, Restrict;
    var w, current, e, t := ws[n], calls[n].0, calls[n].1, ws[n + 1];
    assert Call(ws, calls, firstCounter, n);
    TotalsAlongRun(ws, calls, firstCounter, n, x);
    TotalsAlongRun(ws, calls, firstCounter, n + 1, x);
    ClockIsLate(t);
    WindowIsRecentAndLeftOver(w, current, e, t, x);
    TotalSplits(x, CountedBy(t.stats, x), LeftOver(w, current, e, x));
    RecordedIsLatest(ws, calls, firstCounter, n + 1, t.clock - Span(x.window), x);
  }

  /** In every run, the totals of a window are exact after a call exactly if the clean-up of that window keeps
      up in this call and no event that was overwritten has left the window of time. */
  lemma RunIsExactIff(ws: seq<World>, calls: Calls, firstCounter: u16, n: nat, window: Window)
    requires Run(ws, calls, firstCounter) && n < |calls|
    ensures RETENTION_NS <= ws[n + 1].clock
    ensures Exact(ws, calls, n + 1, window) <==>
              && |DueFor(ws[n], calls[n].0, calls[n].1, window)| <= MAX_EVENTS_TO_PROCESS
              && !TakenKeyLeft(ws, calls, n + 1, ws[n + 1].clock - Span(window))
  {
    hide Timely, Total, Get, CountedBy, DueFor, LeftOver, Restrict, Recorded, StaleExcess, TakenBefore, Next;
    var w, current, e, t := ws[n], calls[n].0, calls[n].1, ws[n + 1];
    assert Call(ws, calls, firstCounter, n);
    RunIsTimely(ws, calls, firstCounter, n);
    TotalIsRecorded(ws, calls, firstCounter, n, CountKey(e, window));
    var horizon := t.clock - Span(window);
    forall x: AggregationKey | x.window == window
      ensures Value(Get(t.stats.totals, x)) == Recorded(calls, n + 1, horizon, x)
                 + Total(x, Restrict(CountedBy(t.stats, x), LeftOver(w, current, e, x)))
                 + StaleExcess(ws, calls, n + 1, horizon, x)
    {
      TotalIsRecorded(ws, calls, firstCounter, n, x);
    }
    if TakenKeyLeft(ws, calls, n + 1, horizon) {
      var i: nat :| i < n + 1 && TakenBefore(ws, calls, horizon, i);
      var x := TakingLeavesStaleExcess(ws, calls, n + 1, horizon, i, window);
    } else if |DueFor(w, current, e, window)| > MAX_EVENTS_TO_PROCESS {
      var x := LeftOverWeighs(w, current, e, t, window);
    } else {
      forall x: AggregationKey | x.window == window
        ensures Total(x, Restrict(CountedBy(t.stats, x), LeftOver(w, current, e, x))) == 0
        ensures StaleExcess(ws, calls, n + 1, horizon, x) == 0
      {
        TakesAllIffFew(w, current, e, x);
        NothingTotalsZero(x, CountedBy(t.stats, x));
        NoneTakenNoStaleExcess(ws, calls, n + 1, horizon, x);
      }
    }
  }

  lemma RunIsTimely(ws: seq<World>, calls: Calls, firstCounter: u16, n: nat)
    requires Run(ws, calls, firstCounter) && n <= |calls|
    ensures Timely(ws[n]) && RETENTION_NS <= ws[n].clock
    ensures n > 0 ==> ws[n].clock == calls[n - 1].0.time
  {
    hide Updates;
    TotalsAlongRun(ws, calls, firstCounter, n, AggregationKey(PruneEventCount, Day, None, []));
    ClockIsLate(ws[n]);
    assert n > 0 ==> Call(ws, calls, firstCounter, n - 1);
  }

  lemma FreshMeansNoneLeft(ws: seq<World>, calls: Calls, n: nat, horizon: u64)
    requires n <= |calls| && |ws| == |calls| + 1 && AllFresh(ws, calls, n)
    ensures !TakenKeyLeft(ws, calls, n, horizon)
  {
    hide FreshKey;
  }

  // ----- Runs without a burst -----

  /** Calls that carry the same timestamp are fewer than 2^16 calls apart. */
  ghost predicate NoBurst(calls: Calls) {
    forall i, j :: 0 <= i < j < |calls| && calls[i].0.time == calls[j].0.time ==> j - i < TWO_16
  }

  ghost predicate KeysFromCalls(w: World, calls: Calls, n: nat)
    requires n <= |calls|
  {
    forall k :: k in w.stats.events ==> exists j :: 0 <= j < n && calls[j].0 == k
  }

  /** Every stored event was recorded by an earlier call. */
  lemma {:induction false} RunKeepsKeys(ws: seq<World>, calls: Calls, firstCounter: u16, n: nat)
    requires Run(ws, calls, firstCounter) && n <= |calls|
    ensures KeysFromCalls(ws[n], calls, n)
  {
    hide Updates, EventRank, First, Due24h, Due30d;
    if n > 0 {
      RunKeepsKeys(ws, calls, firstCounter, n - 1);
      assert Call(ws, calls, firstCounter, n - 1);
      CallChangesEvents(ws[n - 1], calls[n - 1].0, calls[n - 1].1, ws[n]);
      forall k | k in ws[n].stats.events
        ensures exists j :: 0 <= j < n && calls[j].0 == k
      {
        if k in ws[n - 1].stats.events {
          var j :| 0 <= j < n - 1 && calls[j].0 == k;
        } else {
          assert calls[n - 1].0 == k;
        }
      }
    }
  }

  lemma CountersDiffer(first: u16, j: nat, n: nat)
    requires j < n < j + TWO_16
    ensures (first + j) % TWO_16 != (first + n) % TWO_16
  {
  }

  lemma KeysDiffer(ws: seq<World>, calls: Calls, firstCounter: u16, j: nat, n: nat)
    requires Run(ws, calls, firstCounter) && j < n < |calls| && (calls[j].0.time == calls[n].0.time ==> n - j < TWO_16)
    ensures calls[j].0 != calls[n].0
  {
    hide Next;
    assert Call(ws, calls, firstCounter, j) && Call(ws, calls, firstCounter, n);
    if calls[j].0.time == calls[n].0.time {
      CountersDiffer(firstCounter, j, n);
    }
  }

  lemma BurstsAloneCollide(ws: seq<World>, calls: Calls, firstCounter: u16, n: nat)
    requires Run(ws, calls, firstCounter) && NoBurst(calls) && n <= |calls|
    ensures AllFresh(ws, calls, n)
  {
    hide Next;
    forall i: nat | i < n
      ensures FreshKey(ws, calls, i)
    {
      RunKeepsKeys(ws, calls, firstCounter, i);
      forall j | 0 <= j < i
        ensures calls[j].0 != calls[i].0
      {
        KeysDiffer(ws, calls, firstCounter, j, i);
      }
    }
  }

  /** In every run without a burst, after every call: each total is the plain sum over the stored events
      it counts and is present iff positive, no subtraction saturated or missed its key, and the totals of
      each window are exact iff the clean-up kept up. */
  lemma RunningTotalsAreNaiveSums(ws: seq<World>, calls: Calls, firstCounter: u16, n: nat, x: AggregationKey)
    requires Run(ws, calls, firstCounter) && NoBurst(calls) && n < |calls|
    ensures var w, current, e, t := ws[n], calls[n].0, calls[n].1, ws[n + 1];
            && Value(Get(t.stats.totals, x)) == Total(x, CountedBy(t.stats, x))
            && (x in t.stats.totals <==> Total(x, CountedBy(t.stats, x)) > 0)
            && AllIn(Incoming(w, current, e), RemovedFor(w, current, e, x))
            && (var removed := ListWeight(x, At(Incoming(w, current, e), RemovedFor(w, current, e, x)));
                removed > Weight(x, e) ==> x in w.stats.totals && w.stats.totals[x] >= removed - Weight(x, e))
            && RETENTION_NS <= t.clock
            && (Exact(ws, calls, n + 1, x.window) <==> |DueFor(w, current, e, x.window)| <= MAX_EVENTS_TO_PROCESS)
  {
    hide Updates, Timely, NoBurst, Total, CountedBy, DueFor, RemovedFor, Weight, ListWeight, Exact, AllFresh, Excess;
    var w, current, e, t := ws[n], calls[n].0, calls[n].1, ws[n + 1];
    BurstsAloneCollide(ws, calls, firstCounter, n);
    BurstsAloneCollide(ws, calls, firstCounter, n + 1);
    FreshMeansNoExcess(ws, calls, n, x);
    FreshMeansNoExcess(ws, calls, n + 1, x);
    TotalsAlongRun(ws, calls, firstCounter, n, x);
    TotalsAlongRun(ws, calls, firstCounter, n + 1, x);
    assert Call(ws, calls, firstCounter, n);
    TotalChanges(w, current, e, t, x);
    TotalAfterCall(w, current, e, t, x, 0);
    RunIsExactIff(ws, calls, firstCounter, n, x.window);
    FreshMeansNoneLeft(ws, calls, n + 1, t.clock - Span(x.window));
  }

  // ----- Runs exist -----

  /** What a call leaves of the statistics, as a function of what it finds. */
  ghost function Updated(s: Stats, current: EventKey, e: Event, now: u64): Stats {
    var events := s.events[current := e];
    var removed := First(Due24h(events, s.start24h, current, now), EventRank, MAX_EVENTS_TO_PROCESS);
    var pruned := First(Due30d(events, now), EventRank, MAX_EVENTS_TO_PROCESS);
    TakenIsStored(events, s.start24h, current, now);
    Stats(events - Elements(pruned), NewTotals(s.totals, e, At(events, removed), At(events, pruned)),
          if removed == [] then s.start24h else Some(NextKey(removed[|removed| - 1])))
  }

  function NewTotal(totals: map<AggregationKey, nat>, e: Event, removed: seq<Event>, pruned: seq<Event>,
                    x: AggregationKey): Option<nat> {
    Netted(Get(totals, x), Weight(x, e), ListWeight(x, if x.window.Day? then removed else pruned))
  }

  function NewTotals(totals: map<AggregationKey, nat>, e: Event, removed: seq<Event>,
                     pruned: seq<Event>): map<AggregationKey, nat> {
    map x | x in totals.Keys + WeighedKeys(e) && NewTotal(totals, e, removed, pruned, x) != None
      :: NewTotal(totals, e, removed, pruned, x).value
  }

  /** The keys under which an event has weight. */
  function WeighedKeys(e: Event): set<AggregationKey> {
    set kind: Kind, window: Window | ProcessEvent(kind, window, e) != None :: ProcessEvent(kind, window, e).value.key
  }

  lemma WeighedKeysAreAll(x: AggregationKey, e: Event)
    ensures Weight(x, e) > 0 ==> x in WeighedKeys(e)
  {
  }

  lemma NewTotalsAreAll(totals: map<AggregationKey, nat>, e: Event, removed: seq<Event>, pruned: seq<Event>,
                        x: AggregationKey)
    ensures Get(NewTotals(totals, e, removed, pruned), x) == NewTotal(totals, e, removed, pruned, x)
  {
    WeighedKeysAreAll(x, e);
  }

  lemma TakenIsStored(events: map<EventKey, Event>, start24h: Option<EventKey>, current: EventKey, now: u64)
    ensures AllIn(events, First(Due24h(events, start24h, current, now), EventRank, MAX_EVENTS_TO_PROCESS))
    ensures AllIn(events, First(Due30d(events, now), EventRank, MAX_EVENTS_TO_PROCESS))
  {
    FirstAreStored(events, Due24h(events, start24h, current, now));
    FirstAreStored(events, Due30d(events, now));
  }

  /** The statistics after a call are determined, in whatever order the removed weights are subtracted. */
  lemma UpdatesExactlyTo(s: Stats, current: EventKey, e: Event, now: u64, t: Stats)
    ensures Updates(s, current, e, now, t) <==> t == Updated(s, current, e, now)
  {
    hide First, Due24h, Due30d, Weight, ListWeight, Netted, NewTotals, NextKey;
    var events := s.events[current := e];
    var removed := First(Due24h(events, s.start24h, current, now), EventRank, MAX_EVENTS_TO_PROCESS);
    var pruned := First(Due30d(events, now), EventRank, MAX_EVENTS_TO_PROCESS);
    TakenIsStored(events, s.start24h, current, now);
    var totals := NewTotals(s.totals, e, At(events, removed), At(events, pruned));
    forall x
      ensures Get(totals, x) == Netted(Get(s.totals, x), Weight(x, e), ListWeight(x, At(events,
                if x.window.Day? then removed else pruned)))
    {
      NewTotalsAreAll(s.totals, e, At(events, removed), At(events, pruned), x);
    }
    if Updates(s, current, e, now, t) {
      SameTotals(t.totals, totals);
    }
  }

  lemma SameTotals(a: map<AggregationKey, nat>, b: map<AggregationKey, nat>)
    requires forall x :: Get(a, x) == Get(b, x)
    ensures a == b
  {
    forall x
      ensures x in a <==> x in b
      ensures x in a ==> a[x] == b[x]
    {
      assert Get(a, x) == Get(b, x);
    }
  }

  // ----- Making runs -----

  predicate OnTime(calls: Calls, firstCounter: u16, clock: u64, i: nat)
    requires i < |calls|
  {
    calls[i].0.counter == (firstCounter + i) % TWO_16 && (if i == 0 then clock else calls[i - 1].0.time) <= calls[i].0.time
  }

  /** Calls can happen at any times that do not run backwards. */
  predicate Scheduled(calls: Calls, firstCounter: u16, clock: u64) {
    forall i: nat :: i < |calls| ==> OnTime(calls, firstCounter, clock, i)
  }

  ghost function NextWorld(w: World, current: EventKey, e: Event): World {
    World(Updated(w.stats, current, e, current.time), w.latest[current := e], current.time)
  }

  ghost function Worlds(calls: Calls, clock: u64): (ws: seq<World>)
    ensures |ws| == |calls| + 1
  {
    if calls == [] then [World(Stats(map[], map[], None), map[], clock)]
    else
      var init, last := calls[..|calls| - 1], calls[|calls| - 1];
      Worlds(init, clock) + [NextWorld(Worlds(init, clock)[|init|], last.0, last.1)]
  }

  lemma NextWorldIsNext(w: World, current: EventKey, e: Event)
    requires w.clock <= current.time
    ensures Next(w, current, e, NextWorld(w, current, e))
  {
    hide Updates, Updated;
    UpdatesExactlyTo(w.stats, current, e, current.time, NextWorld(w, current, e).stats);
  }

  lemma RunExtends(ws: seq<World>, calls: Calls, firstCounter: u16, c: (EventKey, Event), t: World)
    requires Run(ws, calls, firstCounter)
    requires Next(ws[|calls|], c.0, c.1, t) && c.0.counter == (firstCounter + |calls|) % TWO_16
    ensures Run(ws + [t], calls + [c], firstCounter)
  {
    hide Next;
    forall i | 0 <= i < |calls + [c]|
      ensures Call(ws + [t], calls + [c], firstCounter, i)
    {
      if i < |calls| {
        assert Call(ws, calls, firstCounter, i);
      }
    }
  }

  lemma ScheduledPrefix(calls: Calls, firstCounter: u16, clock: u64, n: nat)
    requires Scheduled(calls, firstCounter, clock) && |calls| == n + 1
    ensures Scheduled(calls[..n], firstCounter, clock)
    ensures calls[n].0.counter == (firstCounter + n) % TWO_16
    ensures (if n == 0 then clock else calls[n - 1].0.time) <= calls[n].0.time
  {
    var init := calls[..n];
    forall i: nat | i < n
      ensures OnTime(init, firstCounter, clock, i)
    {
      assert OnTime(calls, firstCounter, clock, i);
    }
    assert OnTime(calls, firstCounter, clock, n);
  }

  lemma {:induction false} RunsExist(calls: Calls, firstCounter: u16, clock: u64)
    requires Scheduled(calls, firstCounter, clock) && RETENTION_NS <= clock
    ensures Run(Worlds(calls, clock), calls, firstCounter)
    ensures Worlds(calls, clock)[|calls|].clock == if calls == [] then clock else calls[|calls| - 1].0.time
    decreases |calls|
  {
    hide Next, Updated, Scheduled;
    if calls != [] {
      var n := |calls| - 1;
      var init, last := calls[..n], calls[n];
      ScheduledPrefix(calls, firstCounter, clock, n);
      RunsExist(init, firstCounter, clock);
      var w := Worlds(init, clock)[n];
      NextWorldIsNext(w, last.0, last.1);
      RunExtends(Worlds(init, clock), init, firstCounter, last, NextWorld(w, last.0, last.1));
      assert init + [last] == calls;
    }
  }

  // ----- Runs that go wrong -----

  /** While all events carry one timestamp nothing is removed. */
  lemma {:induction false} NothingDueAtOnce(ws: seq<World>, calls: Calls, firstCounter: u16, n: nat, time: u64)
    requires Run(ws, calls, firstCounter) && n <= |calls|
    requires forall i :: 0 <= i < n ==> calls[i].0.time == time
    ensures n > 0 ==> RETENTION_NS <= time == ws[n].clock
    ensures ws[n].stats.start24h == None
    ensures forall k :: k in ws[n].stats.events <==> exists i :: 0 <= i < n && calls[i].0 == k
  {
    hide Next, Timely;
    if n > 0 {
      NothingDueAtOnce(ws, calls, firstCounter, n - 1, time);
      assert Call(ws, calls, firstCounter, n - 1);
      TotalsAlongRun(ws, calls, firstCounter, n - 1, AggregationKey(PruneEventCount, Day, None, []));
      CallAtOnce(ws[n - 1], calls[n - 1].0, calls[n - 1].1, ws[n]);
      forall k
        ensures k in ws[n].stats.events <==> exists i :: 0 <= i < n && calls[i].0 == k
      {
        if k == calls[n - 1].0 {
        } else if k in ws[n].stats.events {
          var i :| 0 <= i < n - 1 && calls[i].0 == k;
        }
      }
    }
  }

  lemma CallAtOnce(w: World, current: EventKey, e: Event, t: World)
    requires Timely(w) && Next(w, current, e, t) && w.stats.start24h == None
    requires forall k :: k in w.stats.events ==> k.time == current.time
    ensures RETENTION_NS <= current.time == t.clock
    ensures t.stats.start24h == None && t.stats.events.Keys == w.stats.events.Keys + {current}
  {
    hide Updates, First, Due24h, Due30d, EventRank, NextKey;
    CallMovesWindows(w, current, e, t);
    CallChangesEvents(w, current, e, t);
    assert Expired(Counted(Incoming(w, current, e), None), current.time - DAY_NS) == {};
    assert Expired(Incoming(w, current, e), current.time - RETENTION_NS) == {};
    DueIsExpired(w, current, e);
    CleanUpTakesOldest(Due24h(Incoming(w, current, e), None, current, current.time), Removed24h(w, current, e));
  }

  /** In any run, 65536 calls after one with the same timestamp the key comes back, and the totals stop
      agreeing with the stored events for good. */
  lemma BurstCollides(ws: seq<World>, calls: Calls, firstCounter: u16, n: nat)
    requires Run(ws, calls, firstCounter) && TWO_16 < n <= |calls|
    requires forall i :: 0 <= i <= TWO_16 ==> calls[i].0.time == calls[0].0.time
    ensures calls[TWO_16].0 in ws[TWO_16].stats.events
    ensures !Agrees(ws[n].stats)
  {
    hide Next, Agrees;
    NothingDueAtOnce(ws, calls, firstCounter, TWO_16, calls[0].0.time);
    assert Call(ws, calls, firstCounter, 0) && Call(ws, calls, firstCounter, TWO_16);
    assert calls[0].0 == calls[TWO_16].0;
    assert !FreshKey(ws, calls, TWO_16);
    RunAgreesIff(ws, calls, firstCounter, n);
  }

  /** As long as all events carry that timestamp, both windows are exact nevertheless. */
  lemma AtOnceIsExact(ws: seq<World>, calls: Calls, firstCounter: u16, n: nat, window: Window)
    requires Run(ws, calls, firstCounter) && n < |calls|
    requires forall i :: 0 <= i <= n ==> calls[i].0.time == calls[0].0.time
    ensures RETENTION_NS <= ws[n + 1].clock && Exact(ws, calls, n + 1, window)
  {
    hide Next, Timely, DueFor, Exact, FreshKey;
    NothingDueAtOnce(ws, calls, firstCounter, n, calls[0].0.time);
    assert Call(ws, calls, firstCounter, n);
    RunIsTimely(ws, calls, firstCounter, n);
    RunIsTimely(ws, calls, firstCounter, n + 1);
    NothingDueFor(ws[n], calls[n].0, calls[n].1, CountKey(calls[n].1, window), ws[n + 1]);
    RunIsExactIff(ws, calls, firstCounter, n, window);
  }

  lemma NothingDueFor(w: World, current: EventKey, e: Event, x: AggregationKey, t: World)
    requires Timely(w) && Next(w, current, e, t)
    requires forall k :: k in w.stats.events ==> k.time == current.time
    ensures DueFor(w, current, e, x.window) == {}
  {
    hide Updates, Timely, DueFor;
    ClockIsLate(w);
    DueForIsExpired(w, current, e, x);
  }

  /** And once the events of that time have left a window, its totals are wrong for good. */
  lemma BurstOutlives(ws: seq<World>, calls: Calls, firstCounter: u16, n: nat, window: Window)
    requires Run(ws, calls, firstCounter) && TWO_16 < n < |calls|
    requires forall i :: 0 <= i <= TWO_16 ==> calls[i].0.time == calls[0].0.time
    requires calls[0].0.time + Span(window) <= calls[n].0.time
    ensures RETENTION_NS <= ws[n + 1].clock && !Exact(ws, calls, n + 1, window)
  {
    hide Next, Agrees, DueFor, Exact;
    BurstCollides(ws, calls, firstCounter, n);
    RunIsTimely(ws, calls, firstCounter, n + 1);
    assert calls[n].0.time == ws[n + 1].clock;
    assert TakenBefore(ws, calls, ws[n + 1].clock - Span(window), TWO_16);
    RunIsExactIff(ws, calls, firstCounter, n, window);
  }

  /** Such runs exist. Right after the burst both windows count every event. */
  lemma BurstHappens(time: u64, window: Window) returns (ws: seq<World>, calls: Calls)
    requires RETENTION_NS <= time
    ensures Run(ws, calls, 0) && |calls| == TWO_16 + 1
    ensures calls[TWO_16].0 in ws[TWO_16].stats.events && !Agrees(ws[TWO_16 + 1].stats)
    ensures RETENTION_NS <= ws[TWO_16 + 1].clock && Exact(ws, calls, TWO_16 + 1, window)
  {
    hide Run, Worlds, Agrees, Exact;
    calls := seq(TWO_16 + 1, i requires 0 <= i <= TWO_16 => (EventKey(time, i % TWO_16), PruneEvent));
    ws := Worlds(calls, time);
    RunsExist(calls, 0, time);
    BurstCollides(ws, calls, 0, TWO_16 + 1);
    AtOnceIsExact(ws, calls, 0, TWO_16, window);
  }

  /** A month later they do not any more. */
  lemma MiscountHappens(time: u64, window: Window) returns (ws: seq<World>, calls: Calls)
    requires RETENTION_NS <= time && time + RETENTION_NS < TWO_64
    ensures Run(ws, calls, 0) && |calls| == TWO_16 + 2
    ensures RETENTION_NS <= ws[TWO_16 + 2].clock && !Exact(ws, calls, TWO_16 + 2, window)
  {
    hide Run, Worlds, Exact;
    calls := seq(TWO_16 + 2, i requires 0 <= i < TWO_16 + 2 =>
      (EventKey(if i <= TWO_16 then time else time + RETENTION_NS, i % TWO_16), PruneEvent));
    ws := Worlds(calls, time);
    RunsExist(calls, 0, time);
    BurstOutlives(ws, calls, 0, TWO_16 + 1, window);
  }

  /** After more than 100 events at once and then a month without any, neither clean-up keeps up. */
  lemma LullOverloads(ws: seq<World>, calls: Calls, firstCounter: u16, n: nat, window: Window)
    requires Run(ws, calls, firstCounter) && MAX_EVENTS_TO_PROCESS < n < |calls| && n < TWO_16
    requires forall i :: 0 <= i < n ==> calls[i].0.time == calls[0].0.time
    requires calls[n].0.time == calls[0].0.time + RETENTION_NS
    ensures |DueFor(ws[n], calls[n].0, calls[n].1, window)| == n
    ensures RETENTION_NS <= ws[n + 1].clock && !Exact(ws, calls, n + 1, window)
  {
    hide Next, DueFor, Exact, Timely;
    var w, current, e := ws[n], calls[n].0, calls[n].1;
    NothingDueAtOnce(ws, calls, firstCounter, n, calls[0].0.time);
    assert Call(ws, calls, firstCounter, n);
    TotalsAlongRun(ws, calls, firstCounter, n, CountKey(e, window));
    AllDueAfterLull(w, current, e, CountKey(e, window), calls[0].0.time);
    DistinctKeysOfCalls(ws, calls, firstCounter, n, w.stats.events.Keys);
    RunIsExactIff(ws, calls, firstCounter, n, window);
  }

  lemma AllDueAfterLull(w: World, current: EventKey, e: Event, x: AggregationKey, time: u64)
    requires Timely(w) && w.stats.start24h == None && w.clock <= current.time == time + RETENTION_NS
    requires forall k :: k in w.stats.events ==> k.time == time
    ensures DueFor(w, current, e, x.window) == w.stats.events.Keys
  {
    DueForIsExpired(w, current, e, x);
  }

  lemma {:induction false} DistinctKeysOfCalls(ws: seq<World>, calls: Calls, firstCounter: u16, n: nat, keys: set<EventKey>)
    requires Run(ws, calls, firstCounter) && n < |calls| && n < TWO_16
    requires forall k :: k in keys <==> exists i :: 0 <= i < n && calls[i].0 == k
    ensures |keys| == n
    decreases n
  {
    hide Run;
    if n == 0 {
      assert keys == {};
    } else {
      var last := calls[n - 1].0;
      forall i | 0 <= i < n - 1
        ensures calls[i].0 != last
      {
        KeysDiffer(ws, calls, firstCounter, i, n - 1);
      }
      assert last in keys;
      forall k
        ensures k in keys - {last} <==> exists i :: 0 <= i < n - 1 && calls[i].0 == k
      {
        if k in keys - {last} {
          var i :| 0 <= i < n && calls[i].0 == k;
        }
      }
      DistinctKeysOfCalls(ws, calls, firstCounter, n - 1, keys - {last});
    }
  }

  /** And there are such runs, too. */
  lemma LullHappens(time: u64, window: Window) returns (ws: seq<World>, calls: Calls)
    requires RETENTION_NS <= time && time + RETENTION_NS < TWO_64
    ensures var n := MAX_EVENTS_TO_PROCESS + 1;
            && Run(ws, calls, 0) && |calls| == n + 1
            && |DueFor(ws[n], calls[n].0, calls[n].1, window)| > MAX_EVENTS_TO_PROCESS
            && RETENTION_NS <= ws[n + 1].clock && !Exact(ws, calls, n + 1, window)
  {
    hide Run, Worlds, DueFor, Exact;
    var n := MAX_EVENTS_TO_PROCESS + 1;
    calls := seq(n + 1, i requires 0 <= i <= n => (EventKey(if i < n then time else time + RETENTION_NS, i), PruneEvent));
    ws := Worlds(calls, time);
    RunsExist(calls, 0, time);
    LullOverloads(ws, calls, 0, n, window);
  }
}
