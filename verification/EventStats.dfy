/** Event statistics over sliding windows. Totals per aggregation key are kept up to date in place: the
    24h totals forget events through a cursor into the event map, the 30d totals when old events are
    deleted. Both clean-ups handle at most `MAX_EVENTS_TO_PROCESS` events per call. */
module EventStats {
  import opened Types
  import opened Ordered
  import opened Codec

  const DAY_NS: u64 := 24 * 60 * 60 * 1_000_000_000
  const RETENTION_NS: u64 := 30 * DAY_NS
  const MAX_EVENTS_TO_PROCESS: nat := 100

  datatype IIDomain = Ic0App | InternetComputerOrg | IdAi

  datatype Event =
    | PrepareDelegation(iiDomain: Option<IIDomain>, frontend: Bytes, sessionDurationNs: u64)
    | PruneEvent

  datatype Window = Day | Month

  datatype Kind = PrepareDelegationCount | PrepareDelegationSessionSeconds | PruneEventCount

  datatype AggregationKey = AggregationKey(kind: Kind, window: Window, iiDomain: Option<IIDomain>, data: Bytes)

  datatype AggregationEvent = AggregationEvent(key: AggregationKey, weight: nat)

  const AGGREGATIONS: seq<Kind> := [PrepareDelegationCount, PrepareDelegationSessionSeconds, PruneEventCount]

  /** What an event contributes to the aggregation of one kind over one window. */
  function ProcessEvent(kind: Kind, window: Window, e: Event): (a: Option<AggregationEvent>)
    ensures a != None ==> a.value.key.kind == kind && a.value.key.window == window
  {
    match (kind, e)
    case (PrepareDelegationCount, PrepareDelegation(domain, frontend, _)) =>
      Some(AggregationEvent(AggregationKey(kind, window, domain, frontend), 1))
    case (PrepareDelegationSessionSeconds, PrepareDelegation(domain, frontend, ns)) =>
      Some(AggregationEvent(AggregationKey(kind, window, domain, frontend), ns / 1_000_000_000))
    case (PruneEventCount, PruneEvent) =>
      Some(AggregationEvent(AggregationKey(kind, window, None, []), 1))
    case _ => None
  }

  /** The weight of an event in the total of one aggregation key. */
  function Weight(x: AggregationKey, e: Event): nat {
    match ProcessEvent(x.kind, x.window, e)
    case Some(a) => if a.key == x then a.weight else 0
    case None => 0
  }

  /** The naive sum the running totals stand for. */
  ghost function Total(x: AggregationKey, events: map<EventKey, Event>): nat
    decreases |events|
  {
    if events == map[] then 0
    else
      var k :| k in events;
      assert |events - {k}| < |events| by {
        assert (events - {k}).Keys == events.Keys - {k};
        assert |events.Keys| == |events| && |(events - {k}).Keys| == |events - {k}|;
      }
      Weight(x, events[k]) + Total(x, events - {k})
  }

  function ListWeight(x: AggregationKey, events: seq<Event>): nat {
    if events == [] then 0 else ListWeight(x, events[..|events| - 1]) + Weight(x, events[|events| - 1])
  }

  // ----- Keys -----

  function MinKey(time: u64): EventKey {
    EventKey(time, 0)
  }

  function MaxKey(time: u64): EventKey {
    EventKey(time, TWO_16 - 1)
  }

  function NextKey(k: EventKey): EventKey {
    if k.counter == TWO_16 - 1 then EventKey(Add64(k.time, 1), 0) else EventKey(k.time, k.counter + 1)
  }

  function Sub64(a: u64, b: u64): u64 {
    (a - b) % TWO_64
  }

  lemma RankIsInjective()
    ensures Injective(EventRank)
  {
  }

  /** Nothing lies between a key and its next key; only the very last key has none. */
  lemma NextKeyIsSuccessor(k: EventKey)
    requires k != MaxKey(TWO_64 - 1)
    ensures EventKeyLess(k, NextKey(k))
    ensures forall j :: EventKeyLess(k, j) ==> j == NextKey(k) || EventKeyLess(NextKey(k), j)
    ensures EventRank(NextKey(k)) == EventRank(k) + 1
  {
  }

  // ----- One call -----

  datatype Stats = Stats(events: map<EventKey, Event>, totals: map<AggregationKey, nat>, start24h: Option<EventKey>)

  function Between(keys: set<EventKey>, lo: EventKey, hi: EventKey): set<EventKey> {
    set k | k in keys && EventRank(lo) <= EventRank(k) <= EventRank(hi)
  }

  /** Where the 24h window starts: at the stored cursor or, before there is one, 24h before the event
      that precedes the current one. */
  ghost function WindowStart(events: map<EventKey, Event>, start24h: Option<EventKey>, current: EventKey): Option<EventKey> {
    match start24h
    case Some(k) => Some(k)
    case None =>
      (match Predecessor(events.Keys, current)
       case None => None
       case Some(k) => Some(MinKey(Sub64(k.time, DAY_NS))))
  }

  /** The last key before a key. */
  ghost function Predecessor(keys: set<EventKey>, k: EventKey): Option<EventKey> {
    var earlier := Below(keys, EventRank, k);
    if earlier == {} then None else Some(Ascending(earlier, EventRank)[|earlier| - 1])
  }

  /** The events that are due for removal from the 24h totals. */
  ghost function Due24h(events: map<EventKey, Event>, start24h: Option<EventKey>, current: EventKey,
                        now: u64): set<EventKey> {
    match WindowStart(events, start24h, current)
    case None => {}
    case Some(start) => Between(events.Keys, start, MaxKey(Sub64(now, DAY_NS)))
  }

  function Due30d(events: map<EventKey, Event>, now: u64): set<EventKey> {
    Between(events.Keys, MinKey(0), MaxKey(Sub64(now, RETENTION_NS)))
  }

  function At(events: map<EventKey, Event>, ks: seq<EventKey>): seq<Event>
    requires forall k :: k in ks ==> k in events
  {
    seq(|ks|, i requires 0 <= i < |ks| => events[ks[i]])
  }

  function Get<K, V>(m: map<K, V>, k: K): Option<V> {
    if k in m then Some(m[k]) else None
  }

  /** The effect of one event and some removed events on one total. Added and removed weight are netted
      first; a total that would drop to zero or below disappears. */
  function Netted(current: Option<nat>, added: nat, removed: nat): Option<nat> {
    if removed <= added then
      if added > removed then Some((match current case None => 0 case Some(c) => c) + (added - removed)) else current
    else
      match current
      case None => None
      case Some(c) => if c <= removed - added then None else Some(c - (removed - added))
  }

  ghost predicate Nets(before: map<AggregationKey, nat>, after: map<AggregationKey, nat>, kinds: set<Kind>,
                       window: Window, e: Event, removed: seq<Event>) {
    forall x :: Get(after, x) ==
                if x.window == window && x.kind in kinds then Netted(Get(before, x), Weight(x, e), ListWeight(x, removed))
                else Get(before, x)
  }

  /** Everything `update_events_internal` does to the stored statistics. */
  ghost predicate Updates(s: Stats, current: EventKey, e: Event, now: u64, t: Stats) {
    var events := s.events[current := e];
    var removed := First(Due24h(events, s.start24h, current, now), EventRank, MAX_EVENTS_TO_PROCESS);
    var pruned := First(Due30d(events, now), EventRank, MAX_EVENTS_TO_PROCESS);
    && AllIn(events, removed) && AllIn(events, pruned)
    && t.events == events - Elements(pruned)
    && t.start24h == (if removed == [] then s.start24h else Some(NextKey(removed[|removed| - 1])))
    && (forall x :: Get(t.totals, x) ==
                    Netted(Get(s.totals, x), Weight(x, e), ListWeight(x, At(events,
                        if x.window.Day? then removed else pruned))))
  }

  predicate AllIn(events: map<EventKey, Event>, ks: seq<EventKey>) {
    forall k :: k in ks ==> k in events
  }

  lemma FirstAreStored(events: map<EventKey, Event>, due: set<EventKey>)
    requires due <= events.Keys
    ensures AllIn(events, First(due, EventRank, MAX_EVENTS_TO_PROCESS))
  {
    hide EventRank, Injective;
    RankIsInjective();
    FirstAreSmallest(due, EventRank, MAX_EVENTS_TO_PROCESS);
    var ks := First(due, EventRank, MAX_EVENTS_TO_PROCESS);
    assert forall k :: k in ks ==> k in Elements(ks);
  }

  lemma EveryKindIsAggregated()
    ensures forall kind :: kind in Elements(AGGREGATIONS)
  {
    forall kind: Kind
      ensures kind in Elements(AGGREGATIONS)
    {
      match kind
      case PrepareDelegationCount => assert AGGREGATIONS[0] == kind;
      case PrepareDelegationSessionSeconds => assert AGGREGATIONS[1] == kind;
      case PruneEventCount => assert AGGREGATIONS[2] == kind;
    }
  }

  lemma NettedNothing(current: Option<nat>)
    ensures Netted(current, 0, 0) == current
  {
  }

  class EventStatistics {
    var events: map<EventKey, Event>
    var totals: map<AggregationKey, nat>
    var start24h: Option<EventKey>
    var counter: u16

    function State(): Stats
      reads this
    {
      Stats(events, totals, start24h)
    }

    constructor ()
      ensures State() == Stats(map[], map[], None) && counter == 0
    {
      events, totals, start24h, counter := map[], map[], None, 0;
    }

    method UpdateEventBasedStats(e: Event, now: u64)
      modifies this
      ensures Updates(old(State()), EventKey(now, old(counter)), e, now, State())
      ensures counter == (old(counter) + 1) % TWO_16
    {
      hide First, Due24h, Due30d, Weight, ListWeight, Netted, At;
      var current := EventKey(now, counter);
      counter := (counter + 1) % TWO_16;
      events := events[current := e];
      var removed := EventsToRemoveFrom24h(current, now);
      UpdateAggregations(e, At(events, removed), Day);
      ghost var dayTotals := totals;
      var pruned, prunedEvents := PruneEvents(now);
      UpdateAggregations(e, prunedEvents, Month);
      EveryKindIsAggregated();
      assert forall x :: Get(totals, x) == if x.window.Day? then Get(dayTotals, x) else Get(totals, x);
    }

    method FindWindowStart(current: EventKey) returns (start: Option<EventKey>)
      ensures start == WindowStart(events, start24h, current)
    {
      if start24h != None {
        return start24h;
      }
      var earlier := Below(events.Keys, EventRank, current);
      if earlier == {} {
        return None;
      }
      RankIsInjective();
      hide EventRank, Below;
      GreatestExists(earlier, EventRank);
      var k :| k in earlier && forall x :: x in earlier ==> EventRank(x) <= EventRank(k);
      GreatestIsLast(earlier, EventRank, k);
      start := Some(MinKey(Sub64(k.time, DAY_NS)));
    }

    /** Collects the events to remove from the 24h totals and moves the cursor behind the last one. */
    method EventsToRemoveFrom24h(current: EventKey, now: u64) returns (removed: seq<EventKey>)
      modifies this`start24h
      ensures removed == First(Due24h(events, old(start24h), current, now), EventRank, MAX_EVENTS_TO_PROCESS)
      ensures AllIn(events, removed)
      ensures start24h == if removed == [] then old(start24h) else Some(NextKey(removed[|removed| - 1]))
    {
      hide EventRank, WindowStart, Ascending;
      RankIsInjective();
      var windowStart := FindWindowStart(current);
      if windowStart == None {
        assert Due24h(events, start24h, current, now) == {};
        return [];
      }
      var due := Between(events.Keys, windowStart.value, MaxKey(Sub64(now, DAY_NS)));
      removed := CollectFirst(due, EventRank, MAX_EVENTS_TO_PROCESS);
      FirstAreStored(events, due);
      if removed != [] {
        start24h := Some(NextKey(removed[|removed| - 1]));
      }
    }

    method PruneEvents(now: u64) returns (ghost pruned: seq<EventKey>, prunedEvents: seq<Event>)
      modifies this`events
      ensures pruned == First(Due30d(old(events), now), EventRank, MAX_EVENTS_TO_PROCESS)
      ensures AllIn(old(events), pruned) && prunedEvents == At(old(events), pruned)
      ensures events == old(events) - Elements(pruned)
    {
      hide EventRank, Ascending, Injective;
      RankIsInjective();
      var due := Due30d(events, now);
      var keys := CollectFirst(due, EventRank, MAX_EVENTS_TO_PROCESS);
      FirstAreStored(events, due);
      pruned := keys;
      hide First, Between;
      prunedEvents := At(events, keys);
      RemoveAll(keys);
    }

    method RemoveAll(keys: seq<EventKey>)
      modifies this`events
      ensures events == old(events) - Elements(keys)
    {
      for i := 0 to |keys|
        invariant events == old(events) - Elements(keys[..i])
      {
        assert Elements(keys[..i + 1]) == Elements(keys[..i]) + {keys[i]};
        events := events - {keys[i]};
      }
      assert keys[..|keys|] == keys;
    }

    method UpdateAggregations(e: Event, removed: seq<Event>, window: Window)
      modifies this`totals
      ensures Nets(old(totals), totals, Elements(AGGREGATIONS), window, e, removed)
    {
      for i := 0 to |AGGREGATIONS|
        invariant Nets(old(totals), totals, Elements(AGGREGATIONS[..i]), window, e, removed)
      {
        var kind := AGGREGATIONS[i];
        assert kind !in Elements(AGGREGATIONS[..i]);
        assert Elements(AGGREGATIONS[..i + 1]) == Elements(AGGREGATIONS[..i]) + {kind};
        UpdateAggregation(kind, window, e, removed);
      }
      assert AGGREGATIONS[..|AGGREGATIONS|] == AGGREGATIONS;
    }

    method UpdateAggregation(kind: Kind, window: Window, e: Event, removed: seq<Event>)
      modifies this`totals
      ensures Nets(old(totals), totals, {kind}, window, e, removed)
    {
      hide ListWeight, ProcessEvent, Reduced, Netted;
      var sums := SumByKey(kind, window, removed);
      var pending := AddEvent(kind, window, e, sums);
      SubtractAll(pending);
      forall x
        ensures Get(totals, x) == if x.window == window && x.kind in {kind}
                                  then Netted(Get(old(totals), x), Weight(x, e), ListWeight(x, removed))
                                  else Get(old(totals), x)
      {
        NettedNothing(Get(old(totals), x));
      }
    }

    /** Adds the weight of the new event, less what is pending for removal under the same key. */
    method AddEvent(kind: Kind, window: Window, e: Event, sums: map<AggregationKey, nat>)
      returns (pending: map<AggregationKey, nat>)
      requires forall x :: x in sums ==> sums[x] > 0
      modifies this`totals
      ensures forall x :: Reduced(totals, pending, x) ==
                          Netted(Get(old(totals), x), if x.window == window && x.kind == kind then Weight(x, e) else 0,
                                 if x in sums then sums[x] else 0)
    {
      pending := sums;
      hide ProcessEvent;
      match ProcessEvent(kind, window, e) {
        case None =>
        case Some(AggregationEvent(key, w)) =>
          var weight := w;
          if key in pending {
            if pending[key] <= weight {
              weight := weight - pending[key];
              pending := pending - {key};
            } else {
              pending := pending[key := pending[key] - weight];
              weight := 0;
            }
          }
          if weight > 0 {
            totals := totals[key := (if key in totals then totals[key] else 0) + weight];
          }
          assert Reduced(totals, pending, key) ==
                 Netted(Get(old(totals), key), w, if key in sums then sums[key] else 0);
          hide Netted;
          forall x | x != key
            ensures Reduced(totals, pending, x) == Reduced(old(totals), sums, x)
            ensures x.window == window && x.kind == kind ==> Weight(x, e) == 0
          {
          }
      }
      forall x
        ensures Reduced(old(totals), sums, x) == Netted(Get(old(totals), x), 0, if x in sums then sums[x] else 0)
      {
        ReducedIsNetted(old(totals), sums, x);
      }
    }

    /** Subtracts the pending weights in whatever order the hash map yields them. */
    method SubtractAll(weights: map<AggregationKey, nat>)
      modifies this`totals
      ensures forall x :: Get(totals, x) == Reduced(old(totals), weights, x)
    {
      var pending := weights;
      while pending != map[]
        invariant pending.Keys <= weights.Keys
        invariant forall x :: x in pending ==> pending[x] == weights[x]
        invariant forall x :: Get(totals, x) ==
                              if x in pending then Get(old(totals), x) else Reduced(old(totals), weights, x)
        decreases pending.Keys
      {
        var key :| key in pending;
        if key in totals {
          var newWeight := if totals[key] >= pending[key] then totals[key] - pending[key] else 0;
          if newWeight == 0 {
            totals := totals - {key};
          } else {
            totals := totals[key := newWeight];
          }
        }
        pending := pending - {key};
      }
    }
  }

  /** What subtracting a weight, saturating at zero, leaves of one total. */
  function Reduced(totals: map<AggregationKey, nat>, weights: map<AggregationKey, nat>, x: AggregationKey): Option<nat> {
    if x !in totals then None
    else if x !in weights then Some(totals[x])
    else if totals[x] <= weights[x] then None
    else Some(totals[x] - weights[x])
  }

  lemma ReducedIsNetted(totals: map<AggregationKey, nat>, weights: map<AggregationKey, nat>, x: AggregationKey)
    requires x in weights ==> weights[x] > 0
    ensures Reduced(totals, weights, x) == Netted(Get(totals, x), 0, if x in weights then weights[x] else 0)
  {
  }

  method SumByKey(kind: Kind, window: Window, events: seq<Event>) returns (sums: map<AggregationKey, nat>)
    ensures forall x :: x in sums ==> x.kind == kind && x.window == window && sums[x] > 0
    ensures forall x: AggregationKey :: x.kind == kind && x.window == window ==>
                          ListWeight(x, events) == if x in sums then sums[x] else 0
  {
    sums := map[];
    for i := 0 to |events|
      invariant forall x :: x in sums ==> x.kind == kind && x.window == window && sums[x] > 0
      invariant forall x: AggregationKey :: x.kind == kind && x.window == window ==>
                              ListWeight(x, events[..i]) == if x in sums then sums[x] else 0
    {
      assert events[..i + 1] == events[..i] + [events[i]];
      match ProcessEvent(kind, window, events[i]) {
        case None =>
        case Some(AggregationEvent(key, weight)) =>
          if weight > 0 {
            sums := sums[key := (if key in sums then sums[key] else 0) + weight];
          }
      }
    }
    assert events[..|events|] == events;
  }
}
