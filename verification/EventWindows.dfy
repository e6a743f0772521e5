/** What the running totals of the event statistics mean: over any run they equal a plain sum over the
    stored events, and as long as the clean-up keeps up, over the events of the window. */
module EventWindows {
  import opened Types
  import opened Ordered
  import opened Codec
  import opened EventStats

  type Events = map<EventKey, Event>

  // ----- Sums -----

  function Restrict(events: Events, ks: set<EventKey>): Events {
    map k | k in events && k in ks :: events[k]
  }

  lemma {:induction false} TotalTakesOut(x: AggregationKey, events: Events, k: EventKey)
    requires k in events
    ensures Total(x, events) == Weight(x, events[k]) + Total(x, events - {k})
    decreases |events|
  {
    var j :| j in events && Total(x, events) == Weight(x, events[j]) + Total(x, events - {j});
    if j != k {
      RemovalShrinks(events, j);
      RemovalShrinks(events, k);
      TotalTakesOut(x, events - {j}, k);
      TotalTakesOut(x, events - {k}, j);
      assert events - {j} - {k} == events - {k} - {j};
    }
  }

  lemma RemovalShrinks(events: Events, k: EventKey)
    requires k in events
    ensures |events - {k}| < |events|
  {
    assert (events - {k}).Keys == events.Keys - {k};
    assert |events.Keys| == |events| && |(events - {k}).Keys| == |events - {k}|;
  }

  lemma TotalInserts(x: AggregationKey, events: Events, k: EventKey, e: Event)
    requires k !in events
    ensures Total(x, events[k := e]) == Total(x, events) + Weight(x, e)
  {
    TotalTakesOut(x, events[k := e], k);
    assert events[k := e] - {k} == events;
  }

  lemma {:induction false} TotalSplits(x: AggregationKey, events: Events, ks: set<EventKey>)
    ensures Total(x, events) == Total(x, events - ks) + Total(x, Restrict(events, ks))
    decreases |events|
  {
    if events == map[] {
      assert events - ks == map[] && Restrict(events, ks) == map[];
    } else {
      var k :| k in events;
      RemovalShrinks(events, k);
      TotalSplits(x, events - {k}, ks);
      TotalTakesOut(x, events, k);
      if k in ks {
        TotalTakesOut(x, Restrict(events, ks), k);
        assert Restrict(events, ks) - {k} == Restrict(events - {k}, ks);
        assert events - ks == (events - {k}) - ks;
      } else {
        TotalTakesOut(x, events - ks, k);
        assert events - ks - {k} == (events - {k}) - ks;
        assert Restrict(events, ks) == Restrict(events - {k}, ks);
      }
    }
  }

  lemma {:induction false} ListWeightIsTotal(x: AggregationKey, events: Events, ks: seq<EventKey>)
    requires AllIn(events, ks) && Increasing(ks, EventRank)
    ensures ListWeight(x, At(events, ks)) == Total(x, Restrict(events, Elements(ks)))
    decreases |ks|
  {
    if ks == [] {
      assert Restrict(events, Elements(ks)) == map[];
    } else {
      var init, last := ks[..|ks| - 1], ks[|ks| - 1];
      ListWeightIsTotal(x, events, init);
      assert At(events, ks)[..|ks| - 1] == At(events, init);
      RestrictGrows(events, init, last);
      assert ks == init + [last];
      assert last !in init;
      TotalInserts(x, Restrict(events, Elements(init)), last, events[last]);
    }
  }

  lemma RestrictGrows(events: Events, ks: seq<EventKey>, k: EventKey)
    requires k in events
    ensures Restrict(events, Elements(ks + [k])) == Restrict(events, Elements(ks))[k := events[k]]
  {
  }

  // ----- Agreement -----

  function Value(total: Option<nat>): nat {
    match total case None => 0 case Some(n) => n
  }

  /** The events that the 24h totals still count: those from the cursor on. */
  function Counted(events: Events, start24h: Option<EventKey>): Events {
    match start24h
    case None => events
    case Some(start) => map k | k in events && EventRank(start) <= EventRank(k) :: events[k]
  }

  function CountedBy(s: Stats, x: AggregationKey): Events {
    if x.window.Day? then Counted(s.events, s.start24h) else s.events
  }

  /** Every total is the plain sum over the stored events it counts, and is stored iff it is positive. */
  ghost predicate Agrees(s: Stats) {
    forall x :: Value(Get(s.totals, x)) == Total(x, CountedBy(s, x)) && Get(s.totals, x) != Some(0)
  }

  /** `latest` holds the last event ever recorded under each key, `clock` the time of the last one of all. */
  datatype World = World(stats: Stats, latest: Events, clock: u64)

  /** What is known of the times of the events: those deleted were old enough. */
  ghost predicate EventsTimely(w: World) {
    && (forall k :: k in w.stats.events ==> RETENTION_NS <= k.time <= w.clock)
    && (forall k :: k in w.stats.events ==> k in w.latest && w.latest[k] == w.stats.events[k])
    && (forall k :: k in w.latest ==> k.time <= w.clock)
    && (forall k :: k in w.latest && k !in w.stats.events ==> k.time + RETENTION_NS <= w.clock)
  }

  /** The cursor has not passed the start of the window; without one nothing was due yet. */
  ghost predicate CursorTimely(w: World)
    requires RETENTION_NS <= w.clock
  {
    match w.stats.start24h
    case None => forall k :: k in w.stats.events ==> k.time + DAY_NS > w.clock
    case Some(start) => EventRank(start) <= EventRank(MaxKey(w.clock - DAY_NS)) + 1
  }

  ghost predicate Timely(w: World) {
    RETENTION_NS <= w.clock && EventsTimely(w) && CursorTimely(w)
  }

  /** One recorded event; time does not run backwards. */
  ghost predicate Next(w: World, current: EventKey, e: Event, t: World) {
    && w.clock <= current.time == t.clock
    && t.latest == w.latest[current := e]
    && Updates(w.stats, current, e, current.time, t.stats)
  }

  function Expired(events: Events, horizon: u64): set<EventKey> {
    set k | k in events && k.time <= horizon
  }

  lemma RanksAreTimes()
    ensures forall k, t: u64 :: EventRank(k) <= EventRank(MaxKey(t)) <==> k.time <= t
    ensures forall k, t: u64 :: EventRank(MinKey(t)) <= EventRank(k) <==> t <= k.time
    ensures forall j: EventKey, k: EventKey :: j.time < k.time ==> EventRank(j) < EventRank(k)
  {
  }

  lemma SubtractionIsExact(a: u64, b: u64)
    requires b <= a
    ensures Sub64(a, b) == a - b
  {
  }

  lemma PredecessorIsEarlier(keys: set<EventKey>, current: EventKey)
    ensures match Predecessor(keys, current)
            case None => forall k :: k in keys ==> current.time <= k.time
            case Some(last) => last in keys && last != current
  {
    RankIsInjective();
    var earlier := Below(keys, EventRank, current);
    if earlier == {} {
      forall k | k in keys
        ensures current.time <= k.time
      {
        assert k !in earlier;
      }
    } else {
      GreatestExists(earlier, EventRank);
    }
  }

  lemma BetweenTimes(keys: set<EventKey>, lo: u64, hi: u64)
    ensures forall k :: k in Between(keys, MinKey(lo), MaxKey(hi)) <==> k in keys && lo <= k.time <= hi
  {
    RanksAreTimes();
  }

  lemma DueWithoutCursor(events: Events, current: EventKey, clock: u64)
    requires RETENTION_NS <= clock <= current.time
    requires forall k :: k in events && k != current ==> RETENTION_NS <= k.time <= clock < k.time + DAY_NS
    ensures Due24h(events, None, current, current.time) == Expired(events, current.time - DAY_NS)
  {
    hide EventRank, Predecessor, Sub64;
    PredecessorIsEarlier(events.Keys, current);
    SubtractionIsExact(current.time, DAY_NS);
    match Predecessor(events.Keys, current)
    case None =>
    case Some(last) =>
      SubtractionIsExact(last.time, DAY_NS);
      BetweenTimes(events.Keys, last.time - DAY_NS, current.time - DAY_NS);
  }

  lemma DueWithCursor(events: Events, start: EventKey, current: EventKey)
    requires RETENTION_NS <= current.time
    ensures Due24h(events, Some(start), current, current.time)
         == Expired(Counted(events, Some(start)), current.time - DAY_NS)
  {
    RanksAreTimes();
    hide EventRank;
    assert Sub64(current.time, DAY_NS) == current.time - DAY_NS;
  }

  /** The cursor covers exactly what is due: the counted events at least 24h old. */
  lemma DueIsExpired(w: World, current: EventKey, e: Event)
    requires Timely(w) && w.clock <= current.time
    ensures var events := w.stats.events[current := e];
            Due24h(events, w.stats.start24h, current, current.time)
              == Expired(Counted(events, w.stats.start24h), current.time - DAY_NS)
  {
    hide EventRank, Due24h;
    match w.stats.start24h
    case None => DueWithoutCursor(w.stats.events[current := e], current, w.clock);
    case Some(start) => DueWithCursor(w.stats.events[current := e], start, current);
  }

  lemma Due30dIsExpired(events: Events, now: u64)
    requires RETENTION_NS <= now
    ensures Due30d(events, now) == Expired(events, now - RETENTION_NS)
  {
    RanksAreTimes();
  }

  // ----- The two clean-ups -----

  /** What a clean-up takes: the oldest expired events, at most `MAX_EVENTS_TO_PROCESS`. */
  lemma CleanUpTakesOldest(due: set<EventKey>, taken: seq<EventKey>)
    requires taken == First(due, EventRank, MAX_EVENTS_TO_PROCESS)
    ensures Elements(taken) <= due && Increasing(taken, EventRank)
    ensures |Elements(taken)| == |taken| == Min(MAX_EVENTS_TO_PROCESS, |due|)
    ensures |due| <= MAX_EVENTS_TO_PROCESS <==> Elements(taken) == due
    ensures forall x, y :: x in Elements(taken) && y in due - Elements(taken) ==> EventRank(x) < EventRank(y)
  {
    hide EventRank, Ascending, Injective;
    RankIsInjective();
    FirstAreSmallest(due, EventRank, MAX_EVENTS_TO_PROCESS);
  }

  predicate IsCounted(start: Option<EventKey>, k: EventKey) {
    start == None || EventRank(start.value) <= EventRank(k)
  }

  lemma LastTakenSeparates(start: Option<EventKey>, due: set<EventKey>, taken: seq<EventKey>, horizon: u64, k: EventKey)
    requires taken == First(due, EventRank, MAX_EVENTS_TO_PROCESS) && taken != []
    requires forall j :: j in due ==> IsCounted(start, j) && j.time <= horizon
    requires IsCounted(start, k) && k.time <= horizon ==> k in due
    ensures EventRank(taken[|taken| - 1]) < EventRank(k) <==> IsCounted(start, k) && k !in Elements(taken)
  {
    hide EventRank, First;
    CleanUpTakesOldest(due, taken);
    var last := taken[|taken| - 1];
    assert last in Elements(taken);
    RanksAreTimes();
    if k in Elements(taken) {
      var i :| 0 <= i < |taken| && taken[i] == k;
      assert EventRank(k) <= EventRank(last);
    }
  }

  lemma NextRank(k: EventKey)
    requires k.time < TWO_64 - 1
    ensures EventRank(NextKey(k)) == EventRank(k) + 1
  {
  }

  /** The cursor moves past exactly the events taken. */
  lemma CursorSkipsTaken(events: Events, start: Option<EventKey>, taken: seq<EventKey>, horizon: u64)
    requires horizon < TWO_64 - 1
    requires taken == First(Expired(Counted(events, start), horizon), EventRank, MAX_EVENTS_TO_PROCESS) && taken != []
    ensures Counted(events, Some(NextKey(taken[|taken| - 1]))) == Counted(events, start) - Elements(taken)
    ensures taken[|taken| - 1].time <= horizon
  {
    hide EventRank, First, NextKey, Increasing, Injective, Ascending;
    var due, last := Expired(Counted(events, start), horizon), taken[|taken| - 1];
    CleanUpTakesOldest(due, taken);
    assert last in Elements(taken);
    NextRank(last);
    forall k | k in events
      ensures EventRank(last) < EventRank(k) <==> IsCounted(start, k) && k !in Elements(taken)
    {
      LastTakenSeparates(start, due, taken, horizon, k);
    }
  }

  /** The 30d pruning deletes no event that the 24h totals still count. Both take the oldest events up to
      the same limit, so an event that the first one left behind has as many older ones before it. */
  lemma PruningSparesCounted(counted: Events, events: Events, removed: seq<EventKey>, pruned: seq<EventKey>, now: u64)
    requires RETENTION_NS <= now && counted.Keys <= events.Keys
    requires removed == First(Expired(counted, now - DAY_NS), EventRank, MAX_EVENTS_TO_PROCESS)
    requires pruned == First(Expired(events, now - RETENTION_NS), EventRank, MAX_EVENTS_TO_PROCESS)
    ensures Elements(pruned) !! (counted.Keys - Elements(removed))
  {
    hide EventRank, First;
    var due24, due30 := Expired(counted, now - DAY_NS), Expired(events, now - RETENTION_NS);
    var R, P := Elements(removed), Elements(pruned);
    CleanUpTakesOldest(due24, removed);
    CleanUpTakesOldest(due30, pruned);
    RanksAreTimes();
    forall p | p in P && p in counted && p !in R
      ensures false
    {
      assert p in due24 - R;
      assert R <= P by {
        forall r | r in R
          ensures r in P
        {
          assert EventRank(r) < EventRank(p);
          assert r in due30;
        }
      }
      assert R < P;
      ProperSubsetIsSmaller(R, P);
    }
  }

  // ----- One call -----

  function Incoming(w: World, current: EventKey, e: Event): Events {
    w.stats.events[current := e]
  }

  ghost function Removed24h(w: World, current: EventKey, e: Event): seq<EventKey> {
    First(Due24h(Incoming(w, current, e), w.stats.start24h, current, current.time), EventRank, MAX_EVENTS_TO_PROCESS)
  }

  ghost function Pruned30d(w: World, current: EventKey, e: Event): seq<EventKey> {
    First(Due30d(Incoming(w, current, e), current.time), EventRank, MAX_EVENTS_TO_PROCESS)
  }

  lemma CallChangesEvents(w: World, current: EventKey, e: Event, t: World)
    requires Next(w, current, e, t)
    ensures t.stats.events == Incoming(w, current, e) - Elements(Pruned30d(w, current, e))
    ensures var removed := Removed24h(w, current, e);
            t.stats.start24h == if removed == [] then w.stats.start24h else Some(NextKey(removed[|removed| - 1]))
  {
    hide First, Due24h, Due30d;
  }

  lemma CleanUpsMoveWindows(events: Events, start: Option<EventKey>, removed: seq<EventKey>, pruned: seq<EventKey>,
                            later: Option<EventKey>, now: u64)
    requires RETENTION_NS <= now
    requires removed == First(Expired(Counted(events, start), now - DAY_NS), EventRank, MAX_EVENTS_TO_PROCESS)
    requires pruned == First(Expired(events, now - RETENTION_NS), EventRank, MAX_EVENTS_TO_PROCESS)
    requires later == if removed == [] then start else Some(NextKey(removed[|removed| - 1]))
    ensures Elements(pruned) <= Expired(events, now - RETENTION_NS)
    ensures Elements(removed) <= Expired(Counted(events, start), now - DAY_NS)
    ensures Counted(events, later) == Counted(events, start) - Elements(removed)
    ensures Counted(events - Elements(pruned), later) == Counted(events, later)
  {
    hide EventRank, First, NextKey, Increasing, Expired;
    CleanUpTakesOldest(Expired(Counted(events, start), now - DAY_NS), removed);
    CleanUpTakesOldest(Expired(events, now - RETENTION_NS), pruned);
    PruningSparesCounted(Counted(events, start), events, removed, pruned, now);
    if removed != [] {
      CursorSkipsTaken(events, start, removed, now - DAY_NS);
    } else {
      NothingRemoved(Counted(events, start));
    }
    CountedSurvives(events, later, Elements(pruned));
  }

  /** After a call the 24h totals count what they counted before, with the new event and without the
      events removed, although events were deleted in between. */
  lemma CallMovesWindows(w: World, current: EventKey, e: Event, t: World)
    requires Timely(w) && Next(w, current, e, t)
    ensures var events := Incoming(w, current, e);
            && Elements(Pruned30d(w, current, e)) <= Expired(events, current.time - RETENTION_NS)
            && Elements(Removed24h(w, current, e)) <= Expired(Counted(events, w.stats.start24h), current.time - DAY_NS)
            && t.stats.events == events - Elements(Pruned30d(w, current, e))
            && Counted(events, t.stats.start24h) == Counted(events, w.stats.start24h) - Elements(Removed24h(w, current, e))
            && Counted(t.stats.events, t.stats.start24h) == Counted(events, t.stats.start24h)
  {
    hide Updates, EventRank, First, Due24h, Due30d, NextKey, Expired, Counted, IsCounted;
    CallChangesEvents(w, current, e, t);
    DueIsExpired(w, current, e);
    Due30dIsExpired(Incoming(w, current, e), current.time);
    CleanUpsMoveWindows(Incoming(w, current, e), w.stats.start24h, Removed24h(w, current, e), Pruned30d(w, current, e),
                        t.stats.start24h, current.time);
  }

  lemma NothingRemoved(events: Events)
    ensures events - Elements([]) == events
  {
  }

  lemma CountedSurvives(events: Events, start: Option<EventKey>, pruned: set<EventKey>)
    requires pruned !! Counted(events, start).Keys
    ensures Counted(events - pruned, start) == Counted(events, start)
  {
  }

  lemma CursorStaysBounded(events: Events, start: Option<EventKey>, removed: seq<EventKey>, clock: u64, now: u64)
    requires RETENTION_NS <= clock <= now
    requires removed == First(Expired(Counted(events, start), now - DAY_NS), EventRank, MAX_EVENTS_TO_PROCESS)
    requires start != None ==> EventRank(start.value) <= EventRank(MaxKey(clock - DAY_NS)) + 1
    ensures removed != [] ==> EventRank(NextKey(removed[|removed| - 1])) <= EventRank(MaxKey(now - DAY_NS)) + 1
    ensures start != None ==> EventRank(start.value) <= EventRank(MaxKey(now - DAY_NS)) + 1
    ensures start == None && removed == [] ==> forall k :: k in events ==> k.time + DAY_NS > now
  {
    hide EventRank, First, Increasing, NextKey;
    CleanUpTakesOldest(Expired(Counted(events, start), now - DAY_NS), removed);
    RanksAreTimes();
    if removed != [] {
      CursorSkipsTaken(events, start, removed, now - DAY_NS);
      NextRank(removed[|removed| - 1]);
    } else if start == None {
      assert Expired(events, now - DAY_NS) == {};
      forall k | k in events
        ensures k.time + DAY_NS > now
      {
        assert k !in Expired(events, now - DAY_NS);
      }
    }
  }

  lemma CallKeepsEventsTimely(w: World, current: EventKey, e: Event, t: World)
    requires Timely(w) && Next(w, current, e, t)
    ensures EventsTimely(t)
  {
    hide Updates, First, Due24h, Due30d, EventRank, NextKey, Counted, CursorTimely;
    CallMovesWindows(w, current, e, t);
  }

  lemma CallKeepsCursorTimely(w: World, current: EventKey, e: Event, t: World)
    requires Timely(w) && Next(w, current, e, t)
    ensures RETENTION_NS <= t.clock && CursorTimely(t)
  {
    hide Updates, First, Due24h, Due30d, EventRank, NextKey, Counted, EventsTimely, Expired;
    CallChangesEvents(w, current, e, t);
    DueIsExpired(w, current, e);
    CursorStaysBounded(Incoming(w, current, e), w.stats.start24h, Removed24h(w, current, e), w.clock, current.time);
  }

  lemma CallKeepsTimely(w: World, current: EventKey, e: Event, t: World)
    requires Timely(w) && Next(w, current, e, t)
    ensures Timely(t)
  {
    hide Updates, EventsTimely, CursorTimely;
    CallKeepsEventsTimely(w, current, e, t);
    CallKeepsCursorTimely(w, current, e, t);
  }

  /** The netted update is addition followed by subtraction, and the subtraction never saturates. */
  lemma NettedIsDifference(current: Option<nat>, added: nat, removed: nat)
    requires current != Some(0) && removed <= Value(current) + added
    ensures Value(Netted(current, added, removed)) == Value(current) + added - removed
    ensures Netted(current, added, removed) != Some(0)
    ensures removed > added ==> current != None && current.value >= removed - added
  {
  }

  /** The part of the incoming events that a total counts. */
  function WindowOf(events: Events, start: Option<EventKey>, x: AggregationKey): Events {
    if x.window.Day? then Counted(events, start) else events
  }

  ghost function RemovedFor(w: World, current: EventKey, e: Event, x: AggregationKey): seq<EventKey> {
    if x.window.Day? then Removed24h(w, current, e) else Pruned30d(w, current, e)
  }

  /** The weight of an event that the new one overwrites, if its key is not fresh. */
  function Overwritten(w: World, current: EventKey, x: AggregationKey): nat {
    if current in w.stats.events then Weight(x, w.stats.events[current]) else 0
  }

  lemma CurrentIsCounted(w: World, current: EventKey)
    requires Timely(w) && w.clock <= current.time
    ensures IsCounted(w.stats.start24h, current)
  {
  }

  lemma IncomingWindow(w: World, current: EventKey, e: Event, x: AggregationKey)
    requires Timely(w) && w.clock <= current.time
    ensures Total(x, WindowOf(Incoming(w, current, e), w.stats.start24h, x)) + Overwritten(w, current, x)
         == Total(x, CountedBy(w.stats, x)) + Weight(x, e)
  {
    hide Timely, Weight, EventRank;
    CurrentIsCounted(w, current);
    var before := CountedBy(w.stats, x);
    var after := WindowOf(Incoming(w, current, e), w.stats.start24h, x);
    assert after == before[current := e];
    if current in before {
      TotalTakesOut(x, before, current);
      TotalTakesOut(x, after, current);
      assert before - {current} == after - {current};
    } else {
      TotalInserts(x, before, current, e);
    }
  }

  lemma TotalChanges(w: World, current: EventKey, e: Event, t: World, x: AggregationKey)
    requires Next(w, current, e, t)
    ensures AllIn(Incoming(w, current, e), RemovedFor(w, current, e, x))
    ensures Get(t.stats.totals, x) == Netted(Get(w.stats.totals, x), Weight(x, e),
                                             ListWeight(x, At(Incoming(w, current, e), RemovedFor(w, current, e, x))))
  {
    hide First, Due24h, Due30d, Netted, Weight, ListWeight;
  }

  lemma WindowMoves(w: World, current: EventKey, e: Event, t: World, x: AggregationKey)
    requires Timely(w) && Next(w, current, e, t)
    ensures var window := WindowOf(Incoming(w, current, e), w.stats.start24h, x);
            && Elements(RemovedFor(w, current, e, x)) <= window.Keys
            && CountedBy(t.stats, x) == window - Elements(RemovedFor(w, current, e, x))
  {
    hide Updates, First, Due24h, Due30d, Counted, Timely, EventRank;
    CallMovesWindows(w, current, e, t);
  }

  lemma RemovedIncreases(w: World, current: EventKey, e: Event, x: AggregationKey)
    ensures Increasing(RemovedFor(w, current, e, x), EventRank)
  {
    hide EventRank, First, Due24h, Due30d, Increasing;
    CleanUpTakesOldest(Due24h(Incoming(w, current, e), w.stats.start24h, current, current.time), Removed24h(w, current, e));
    CleanUpTakesOldest(Due30d(Incoming(w, current, e), current.time), Pruned30d(w, current, e));
  }

  /** A total exceeds the plain sum over what it counts by some weight. */
  ghost predicate Exceeds(s: Stats, x: AggregationKey, excess: nat) {
    Value(Get(s.totals, x)) == Total(x, CountedBy(s, x)) + excess && Get(s.totals, x) != Some(0)
  }

  /** One total after a call: what it exceeded the plain sum by is carried over unchanged, and the weight of
      an overwritten event is added to it. The subtraction finds its key and does not saturate. */
  lemma TotalAfterCall(w: World, current: EventKey, e: Event, t: World, x: AggregationKey, excess: nat)
    requires Timely(w) && Exceeds(w.stats, x, excess) && Next(w, current, e, t)
    ensures Exceeds(t.stats, x, excess + Overwritten(w, current, x))
    ensures var added := Weight(x, e);
            var removed := ListWeight(x, At(Incoming(w, current, e), RemovedFor(w, current, e, x)));
            removed > added ==> Get(w.stats.totals, x) != None && w.stats.totals[x] >= removed - added
  {
    hide Updates, Timely, EventRank, First, Due24h, Due30d, Weight, Netted, Counted, Increasing, RemovedFor, WindowOf,
         CountedBy, Incoming;
    var events, taken := Incoming(w, current, e), RemovedFor(w, current, e, x);
    var window := WindowOf(events, w.stats.start24h, x);
    TotalChanges(w, current, e, t, x);
    IncomingWindow(w, current, e, x);
    WindowMoves(w, current, e, t, x);
    RemovedIncreases(w, current, e, x);
    ListWeightIsTotal(x, events, taken);
    TotalSplits(x, window, Elements(taken));
    SameRestriction(events, w.stats.start24h, x, Elements(taken));
    NettedIsDifference(Get(w.stats.totals, x), Weight(x, e), ListWeight(x, At(events, taken)));
  }

  lemma SameRestriction(events: Events, start: Option<EventKey>, x: AggregationKey, ks: set<EventKey>)
    requires ks <= WindowOf(events, start, x).Keys
    ensures Restrict(WindowOf(events, start, x), ks) == Restrict(events, ks)
  {
  }

  /** Every event has a key under which it weighs something. */
  function CountKey(e: Event, window: Window): AggregationKey {
    match e
    case PrepareDelegation(domain, frontend, _) => AggregationKey(PrepareDelegationCount, window, domain, frontend)
    case PruneEvent => AggregationKey(PruneEventCount, window, None, [])
  }

  /** A call keeps all totals in agreement with the stored events exactly if its event key is fresh: an
      event stored under a key that is taken would stay counted although it is gone. */
  lemma CallKeepsAgreementIffFresh(w: World, current: EventKey, e: Event, t: World)
    requires Timely(w) && Agrees(w.stats) && Next(w, current, e, t)
    ensures Agrees(t.stats) <==> current !in w.stats.events
  {
    hide Updates, Timely, Total, Get, CountedBy;
    forall x
      ensures Value(Get(t.stats.totals, x)) == Total(x, CountedBy(t.stats, x)) + Overwritten(w, current, x)
      ensures Get(t.stats.totals, x) != Some(0)
    {
      TotalAfterCall(w, current, e, t, x, 0);
    }
    if current in w.stats.events {
      assert Overwritten(w, current, CountKey(w.stats.events[current], Month)) == 1;
    }
  }

  // ----- Exactness of the windows -----

  function Span(window: Window): u64 {
    if window.Day? then DAY_NS else RETENTION_NS
  }

  /** The events that lie after a point in time. */
  function Recent(events: Events, horizon: u64): Events {
    map k | k in events && k.time > horizon :: events[k]
  }

  /** The totals of a window are the plain sums over the latest events of that window of time. */
  ghost predicate CountsLatest(t: World, window: Window)
    requires RETENTION_NS <= t.clock
  {
    forall x: AggregationKey :: x.window == window ==>
      Value(Get(t.stats.totals, x)) == Total(x, Recent(t.latest, t.clock - Span(window)))
  }

  ghost function DueFor(w: World, current: EventKey, e: Event, window: Window): set<EventKey> {
    if window.Day? then Due24h(Incoming(w, current, e), w.stats.start24h, current, current.time)
    else Due30d(Incoming(w, current, e), current.time)
  }

  /** The due events that the clean-up did not get to. */
  ghost function LeftOver(w: World, current: EventKey, e: Event, x: AggregationKey): set<EventKey> {
    DueFor(w, current, e, x.window) - Elements(RemovedFor(w, current, e, x))
  }

  lemma DueForIsExpired(w: World, current: EventKey, e: Event, x: AggregationKey)
    requires Timely(w) && w.clock <= current.time
    ensures DueFor(w, current, e, x.window)
         == Expired(WindowOf(Incoming(w, current, e), w.stats.start24h, x), current.time - Span(x.window))
  {
    hide Due24h, Due30d, Counted, Expired;
    DueIsExpired(w, current, e);
    Due30dIsExpired(Incoming(w, current, e), current.time);
  }

  lemma RecentIsStored(t: World, x: AggregationKey, k: EventKey)
    requires Timely(t) && k in t.latest && k.time > t.clock - Span(x.window)
    ensures k in CountedBy(t.stats, x)
  {
    RanksAreTimes();
  }

  lemma StoredIsLatest(t: World, x: AggregationKey, k: EventKey)
    requires Timely(t) && k in CountedBy(t.stats, x)
    ensures k in t.latest && t.latest[k] == CountedBy(t.stats, x)[k]
  {
  }

  /** A total counts the events of its window of time and those the clean-up still owes. */
  lemma WindowIsRecentAndLeftOver(w: World, current: EventKey, e: Event, t: World, x: AggregationKey)
    requires Timely(w) && Next(w, current, e, t)
    ensures RETENTION_NS <= t.clock
    ensures LeftOver(w, current, e, x) <= CountedBy(t.stats, x).Keys
    ensures CountedBy(t.stats, x) - LeftOver(w, current, e, x) == Recent(t.latest, t.clock - Span(x.window))
  {
    hide Updates, Due24h, Due30d, Counted, Timely, EventRank, RemovedFor, WindowOf, CountedBy, Incoming, DueFor;
    assert RETENTION_NS <= t.clock by {
      ClockIsLate(w);
    }
    CallKeepsTimely(w, current, e, t);
    WindowMoves(w, current, e, t, x);
    DueForIsExpired(w, current, e, x);
    var window, horizon := CountedBy(t.stats, x), t.clock - Span(x.window);
    forall k
      ensures k in window && k !in LeftOver(w, current, e, x) <==> k in t.latest && k.time > horizon
      ensures k in window ==> k in t.latest && window[k] == t.latest[k]
    {
      if k in window {
        StoredIsLatest(t, x, k);
      }
      if k in t.latest && k.time > horizon {
        RecentIsStored(t, x, k);
      }
    }
  }

  lemma ClockIsLate(w: World)
    requires Timely(w)
    ensures RETENTION_NS <= w.clock
  {
  }

  lemma TakesAllIffFew(w: World, current: EventKey, e: Event, x: AggregationKey)
    ensures LeftOver(w, current, e, x) == {} <==> |DueFor(w, current, e, x.window)| <= MAX_EVENTS_TO_PROCESS
  {
    hide First, Due24h, Due30d, EventRank, Increasing;
    CleanUpTakesOldest(DueFor(w, current, e, x.window), RemovedFor(w, current, e, x));
    if LeftOver(w, current, e, x) == {} {
      forall k | k in DueFor(w, current, e, x.window)
        ensures k in Elements(RemovedFor(w, current, e, x))
      {
        assert k !in LeftOver(w, current, e, x);
      }
    }
  }

  /** After a call with a fresh key the totals of a window are these sums exactly if at most
      `MAX_EVENTS_TO_PROCESS` events were due for removal from it. */
  lemma WindowIsExactIffCleanUpKeepsUp(w: World, current: EventKey, e: Event, t: World, window: Window)
    requires Timely(w) && Agrees(w.stats) && Next(w, current, e, t) && current !in w.stats.events
    ensures RETENTION_NS <= t.clock
    ensures CountsLatest(t, window) <==> |DueFor(w, current, e, window)| <= MAX_EVENTS_TO_PROCESS
  {
    hide Updates, Timely, Total, Get, CountedBy, DueFor, LeftOver, EventRank, Recent, RemovedFor, Weight;
    CallKeepsAgreementIffFresh(w, current, e, t);
    ClockIsLate(w);
    forall x: AggregationKey | x.window == window
      ensures Value(Get(t.stats.totals, x)) == Total(x, Recent(t.latest, t.clock - Span(window)))
                                             + Total(x, Restrict(CountedBy(t.stats, x), LeftOver(w, current, e, x)))
    {
      WindowIsRecentAndLeftOver(w, current, e, t, x);
      TotalSplits(x, CountedBy(t.stats, x), LeftOver(w, current, e, x));
    }
    if |DueFor(w, current, e, window)| <= MAX_EVENTS_TO_PROCESS {
      forall x: AggregationKey | x.window == window
        ensures Total(x, Restrict(CountedBy(t.stats, x), LeftOver(w, current, e, x))) == 0
      {
        TakesAllIffFew(w, current, e, x);
        NothingTotalsZero(x, CountedBy(t.stats, x));
      }
    } else {
      var x := LeftOverWeighs(w, current, e, t, window);
    }
  }

  lemma NothingTotalsZero(x: AggregationKey, events: Events)
    ensures Total(x, Restrict(events, {})) == 0
  {
    assert Restrict(events, {}) == map[];
  }

  lemma LeftOverWeighs(w: World, current: EventKey, e: Event, t: World, window: Window) returns (x: AggregationKey)
    requires Timely(w) && Next(w, current, e, t)
    requires |DueFor(w, current, e, window)| > MAX_EVENTS_TO_PROCESS
    ensures x.window == window
    ensures Total(x, Restrict(CountedBy(t.stats, x), LeftOver(w, current, e, x))) > 0
  {
    hide Updates, Timely, Total, DueFor, EventRank, Recent, RemovedFor;
    var y := CountKey(e, window);
    TakesAllIffFew(w, current, e, y);
    WindowIsRecentAndLeftOver(w, current, e, t, y);
    var k :| k in LeftOver(w, current, e, y);
    x := CountKey(CountedBy(t.stats, y)[k], window);
    SameWindow(w, current, e, t, x, y);
    TotalTakesOut(x, Restrict(CountedBy(t.stats, x), LeftOver(w, current, e, x)), k);
  }

  lemma SameWindow(w: World, current: EventKey, e: Event, t: World, x: AggregationKey, y: AggregationKey)
    requires x.window == y.window
    ensures CountedBy(t.stats, x) == CountedBy(t.stats, y) && LeftOver(w, current, e, x) == LeftOver(w, current, e, y)
  {
  }
}
