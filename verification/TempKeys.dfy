/** Temporary keys: for ten minutes a freshly registered device may be represented by a temporary
    principal. A map holds the keys, a queue of expirations drives an amortized clean-up that stops at
    the first entry that is not due. */
module TempKeys {
  import opened Types

  const TEMP_KEY_EXPIRATION_NS: u64 := 10 * 60 * 1_000_000_000
  const MAX_TO_PRUNE: nat := 100

  type Principal = Bytes
  type Key = (u64, Bytes)

  datatype TempKey = TempKey(principal: Principal, expiration: u64)

  datatype TempKeyExpiration = TempKeyExpiration(key: Key, expiration: u64)

  datatype State = State(keys: map<Key, TempKey>, expirations: seq<TempKeyExpiration>)

  function AddKey(s: State, key: Key, principal: Principal, now: u64): State {
    var expiration := Add64(now, TEMP_KEY_EXPIRATION_NS);
    State(s.keys[key := TempKey(principal, expiration)], s.expirations + [TempKeyExpiration(key, expiration)])
  }

  function RemoveKey(s: State, key: Key): State {
    s.(keys := s.keys - {key})
  }

  /** How many entries a clean-up takes off the front of the queue. */
  function DueCount(queue: seq<TempKeyExpiration>, now: u64, limit: nat): (n: nat)
    ensures n <= |queue| && n <= limit
    ensures forall i :: 0 <= i < n ==> queue[i].expiration <= now
    ensures n < |queue| && n < limit ==> queue[n].expiration > now
  {
    if limit == 0 || queue == [] || queue[0].expiration > now then 0 else 1 + DueCount(queue[1..], now, limit - 1)
  }

  function KeysIn(queue: seq<TempKeyExpiration>): set<Key> {
    set e | e in queue :: e.key
  }

  function Prune(s: State, now: u64): State {
    var n := DueCount(s.expirations, now, MAX_TO_PRUNE);
    State(s.keys - KeysIn(s.expirations[..n]), s.expirations[n..])
  }

  function Accepts(s: State, key: Key, caller: Principal, now: u64): bool {
    key in s.keys && s.keys[key].expiration >= now && s.keys[key].principal == caller
  }

  class TempKeyStore {
    var keys: map<Key, TempKey>
    var expirations: seq<TempKeyExpiration>

    function Contents(): State
      reads this
    {
      State(keys, expirations)
    }

    constructor ()
      ensures Contents() == State(map[], [])
    {
      keys, expirations := map[], [];
    }

    method Add(deviceKey: Bytes, anchor: u64, principal: Principal, now: u64)
      modifies this
      ensures Contents() == AddKey(old(Contents()), (anchor, deviceKey), principal, now)
    {
      var key := TempKey(principal, Add64(now, TEMP_KEY_EXPIRATION_NS));
      expirations := expirations + [TempKeyExpiration((anchor, deviceKey), key.expiration)];
      keys := keys[(anchor, deviceKey) := key];
    }

    method Remove(anchor: u64, deviceKey: Bytes)
      modifies this`keys
      ensures Contents() == RemoveKey(old(Contents()), (anchor, deviceKey))
    {
      keys := keys - {(anchor, deviceKey)};
    }

    method Check(caller: Principal, deviceKey: Bytes, anchor: u64, now: u64) returns (ok: bool)
      modifies this
      ensures Contents() == Prune(old(Contents()), now)
      ensures ok == Accepts(Contents(), (anchor, deviceKey), caller, now)
    {
      PruneExpired(now);
      if (anchor, deviceKey) !in keys {
        return false;
      }
      var key := keys[(anchor, deviceKey)];
      if key.expiration < now {
        return false;
      }
      if key.principal != caller {
        return false;
      }
      ok := true;
    }

    method PruneExpired(now: u64)
      modifies this
      ensures Contents() == Prune(old(Contents()), now)
    {
      ghost var queue, due := expirations, DueCount(expirations, now, MAX_TO_PRUNE);
      var i := 0;
      while i < MAX_TO_PRUNE && expirations != [] && expirations[0].expiration <= now
        invariant i <= due && expirations == queue[i..]
        invariant keys == old(keys) - KeysIn(queue[..i])
        decreases due - i
      {
        assert queue[i] == expirations[0];
        assert KeysIn(queue[..i + 1]) == KeysIn(queue[..i]) + {queue[i].key} by {
          assert queue[..i + 1] == queue[..i] + [queue[i]];
        }
        assert i < due;
        keys := keys - {expirations[0].key};
        expirations := expirations[1..];
        i := i + 1;
      }
      assert i == due;
    }
  }

  // ----- Runs -----

  datatype Operation =
    | Add(key: Key, principal: Principal)
    | Remove(key: Key)
    | Check(key: Key, caller: Principal)

  datatype Event = Event(operation: Operation, now: u64)

  function Step(s: State, e: Event): State {
    match e.operation
    case Add(key, principal) => AddKey(s, key, principal, e.now)
    case Remove(key) => RemoveKey(s, key)
    case Check(_, _) => Prune(s, e.now)
  }

  function After(run: seq<Event>): State {
    if run == [] then State(map[], []) else Step(After(run[..|run| - 1]), run[|run| - 1])
  }

  /** Whether a check at the end of a run succeeds. */
  function CheckSucceeds(run: seq<Event>, key: Key, caller: Principal, now: u64): bool {
    Accepts(Prune(After(run), now), key, caller, now)
  }

  function Clock(run: seq<Event>): u64 {
    if run == [] then 0 else run[|run| - 1].now
  }

  /** Time does not run backwards and stays clear of the end of the 64-bit range. */
  predicate Timed(run: seq<Event>) {
    run == [] ||
    (Timed(run[..|run| - 1]) && Clock(run[..|run| - 1]) <= Clock(run) &&
     Clock(run) + TEMP_KEY_EXPIRATION_NS < TWO_64)
  }

  /** The last time a key was added, and for whom, unless it was removed since. */
  function LatestAdd(run: seq<Event>, key: Key): Option<(Principal, u64)> {
    if run == [] then None
    else
      var last := run[|run| - 1];
      match last.operation
      case Add(k, p) => if k == key then Some((p, last.now)) else LatestAdd(run[..|run| - 1], key)
      case Remove(k) => if k == key then None else LatestAdd(run[..|run| - 1], key)
      case Check(_, _) => LatestAdd(run[..|run| - 1], key)
  }

  /** The queue is sorted, nothing in it expires later than ten minutes from now, and it covers every key. */
  predicate Queued(s: State, clock: u64) {
    && (forall i, j :: 0 <= i < j < |s.expirations| ==> s.expirations[i].expiration <= s.expirations[j].expiration)
    && (forall i :: 0 <= i < |s.expirations| ==> s.expirations[i].expiration <= clock + TEMP_KEY_EXPIRATION_NS)
    && (forall k :: k in s.keys ==> TempKeyExpiration(k, s.keys[k].expiration) in s.expirations)
  }

  /** Every stored key is the latest one added. */
  ghost predicate Current(s: State, run: seq<Event>) {
    forall k :: k in s.keys ==>
      LatestAdd(run, k) != None &&
      s.keys[k] == TempKey(LatestAdd(run, k).value.0, Add64(LatestAdd(run, k).value.1, TEMP_KEY_EXPIRATION_NS))
  }

  lemma PrefixKeys(queue: seq<TempKeyExpiration>, n: nat)
    requires n <= |queue|
    ensures forall i :: 0 <= i < n ==> queue[i].key in KeysIn(queue[..n])
  {
    forall i | 0 <= i < n
      ensures queue[i].key in KeysIn(queue[..n])
    {
      assert queue[..n][i] == queue[i];
    }
  }

  lemma PruneKeepsValues(s: State, now: u64)
    ensures forall k :: k in Prune(s, now).keys ==> k in s.keys && Prune(s, now).keys[k] == s.keys[k]
  {
  }

  lemma PruneKeepsQueued(s: State, clock: u64, now: u64)
    requires Queued(s, clock) && clock <= now && now + TEMP_KEY_EXPIRATION_NS < TWO_64
    ensures Queued(Prune(s, now), now)
  {
    hide DueCount, KeysIn;
    var n := DueCount(s.expirations, now, MAX_TO_PRUNE);
    PrefixKeys(s.expirations, n);
    forall k | k in Prune(s, now).keys
      ensures TempKeyExpiration(k, s.keys[k].expiration) in s.expirations[n..]
    {
      var i :| 0 <= i < |s.expirations| && s.expirations[i] == TempKeyExpiration(k, s.keys[k].expiration);
      assert i >= n;
      assert s.expirations[n..][i - n] == s.expirations[i];
    }
  }

  lemma AddKeepsQueued(s: State, clock: u64, key: Key, principal: Principal, now: u64)
    requires Queued(s, clock) && clock <= now && now + TEMP_KEY_EXPIRATION_NS < TWO_64
    ensures Queued(AddKey(s, key, principal, now), now)
  {
    var t := AddKey(s, key, principal, now);
    assert t.expirations[|s.expirations|] == TempKeyExpiration(key, now + TEMP_KEY_EXPIRATION_NS);
    forall k | k in t.keys && k != key
      ensures TempKeyExpiration(k, t.keys[k].expiration) in t.expirations
    {
      assert TempKeyExpiration(k, s.keys[k].expiration) in s.expirations;
    }
  }

  lemma {:induction false} RunKeepsQueued(run: seq<Event>)
    requires Timed(run)
    ensures Queued(After(run), Clock(run))
  {
    if run != [] {
      var init, last := run[..|run| - 1], run[|run| - 1];
      RunKeepsQueued(init);
      match last.operation {
        case Add(key, principal) => AddKeepsQueued(After(init), Clock(init), key, principal, last.now);
        case Remove(key) =>
        case Check(_, _) => PruneKeepsQueued(After(init), Clock(init), last.now);
      }
    }
  }

  lemma {:induction false} RunKeepsCurrent(run: seq<Event>)
    ensures Current(After(run), run)
  {
    if run != [] {
      RunKeepsCurrent(run[..|run| - 1]);
    }
  }

  /** Stopping at the first entry that is not due misses nothing: unless the clean-up is cut short, no
      expired key is left. */
  lemma PruneLeavesNoExpiredKey(run: seq<Event>, now: u64)
    requires Timed(run) && Clock(run) <= now && now + TEMP_KEY_EXPIRATION_NS < TWO_64
    requires DueCount(After(run).expirations, now, MAX_TO_PRUNE) < MAX_TO_PRUNE
    ensures forall k :: k in Prune(After(run), now).keys ==> Prune(After(run), now).keys[k].expiration > now
  {
    hide After, Timed, DueCount, KeysIn;
    RunKeepsQueued(run);
    PruneKeepsQueued(After(run), Clock(run), now);
    var s := Prune(After(run), now);
    assert s.expirations == [] || s.expirations[0].expiration > now;
  }

  /** A check only ever accepts the principal of the latest add that was not removed, and only for ten
      minutes. */
  lemma CheckAcceptsOnlyLatest(run: seq<Event>, key: Key, caller: Principal, now: u64)
    requires Timed(run) && Clock(run) <= now && CheckSucceeds(run, key, caller, now)
    ensures LatestAdd(run, key) != None
    ensures LatestAdd(run, key).value.0 == caller
    ensures LatestAdd(run, key).value.1 <= now <= LatestAdd(run, key).value.1 + TEMP_KEY_EXPIRATION_NS
  {
    hide After, LatestAdd, Prune, Timed;
    RunKeepsCurrent(run);
    PruneKeepsValues(After(run), now);
    LatestAddIsPast(run, key);
  }

  lemma {:induction false} LatestAddIsPast(run: seq<Event>, key: Key)
    requires Timed(run) && LatestAdd(run, key) != None
    ensures LatestAdd(run, key).value.1 <= Clock(run)
    ensures LatestAdd(run, key).value.1 + TEMP_KEY_EXPIRATION_NS < TWO_64
  {
    var init := run[..|run| - 1];
    if LatestAdd(init, key) != None {
      LatestAddIsPast(init, key);
    }
  }

  // ----- When an added key is accepted -----

  /** How many queue entries the checks of a run have popped. */
  function Pops(run: seq<Event>): nat {
    if run == [] then 0
    else
      var init, last := run[..|run| - 1], run[|run| - 1];
      Pops(init) + if last.operation.Check? then DueCount(After(init).expirations, last.now, MAX_TO_PRUNE) else 0
  }

  /** The run neither adds nor removes the key. */
  predicate LeavesAlone(run: seq<Event>, key: Key) {
    forall i :: 0 <= i < |run| ==> !IsAbout(run[i].operation, key)
  }

  /** Behind what is left of the queue as it was at an add comes the entry of that add, and its key is stored
      exactly if none of the entries popped since was one of that key. */
  ghost predicate AddWaits(s: State, queue: seq<TempKeyExpiration>, popped: nat, key: Key, stored: TempKey) {
    && popped <= |queue|
    && |queue| - popped < |s.expirations|
    && s.expirations[..|queue| - popped] == queue[popped..]
    && s.expirations[|queue| - popped] == TempKeyExpiration(key, stored.expiration)
    && (key in s.keys <==> key !in KeysIn(queue[..popped]))
    && (key in s.keys ==> s.keys[key] == stored)
  }

  lemma {:induction false} DueCountStops(queue: seq<TempKeyExpiration>, at: nat, now: u64, limit: nat)
    requires at < |queue| && queue[at].expiration > now
    ensures DueCount(queue, now, limit) <= at
    ensures DueCount(queue, now, limit) == DueCount(queue[..at], now, limit)
  {
    if limit > 0 && at > 0 && queue[0].expiration <= now {
      DueCountStops(queue[1..], at - 1, now, limit - 1);
      assert queue[..at][1..] == queue[1..][..at - 1];
    }
  }

  lemma KeysInSum(a: seq<TempKeyExpiration>, b: seq<TempKeyExpiration>)
    ensures KeysIn(a + b) == KeysIn(a) + KeysIn(b)
  {
    forall e | e in a + b
      ensures e.key in KeysIn(a) + KeysIn(b)
    {
      if e in a {
      } else {
        assert e in b;
      }
    }
    forall e | e in a || e in b
      ensures e.key in KeysIn(a + b)
    {
      assert e in a + b;
    }
  }

  lemma PoppingShiftsQueue(s: seq<TempKeyExpiration>, queue: seq<TempKeyExpiration>, popped: nat, n: nat)
    requires popped + n <= |queue| < |s| + popped && s[..|queue| - popped] == queue[popped..]
    ensures queue[..popped + n] == queue[..popped] + s[..n]
    ensures s[n..][..|queue| - popped - n] == queue[popped + n..]
  {
    assert forall i :: 0 <= i < |queue| - popped ==> s[i] == s[..|queue| - popped][i] == queue[popped + i];
  }

  /** A check before the expiration of the add pops only entries that were queued before it. */
  lemma PruneKeepsAddWaiting(s: State, queue: seq<TempKeyExpiration>, popped: nat, key: Key, stored: TempKey, now: u64)
    requires AddWaits(s, queue, popped, key, stored) && now < stored.expiration
    ensures var n := DueCount(s.expirations, now, MAX_TO_PRUNE);
            popped + n <= |queue| && AddWaits(Prune(s, now), queue, popped + n, key, stored)
  {
    hide KeysIn, Prune, DueCount;
    var at := |queue| - popped;
    DueCountStops(s.expirations, at, now, MAX_TO_PRUNE);
    PruneIsPopping(s, now);
    PoppingKeepsAddWaiting(s, Prune(s, now), queue, popped, key, stored, DueCount(s.expirations, now, MAX_TO_PRUNE));
  }

  lemma PoppingKeepsAddWaiting(s: State, t: State, queue: seq<TempKeyExpiration>, popped: nat, key: Key, stored: TempKey,
                               n: nat)
    requires AddWaits(s, queue, popped, key, stored) && popped + n <= |queue|
    requires t.expirations == s.expirations[n..]
    requires key in t.keys <==> key in s.keys && key !in KeysIn(s.expirations[..n])
    requires key in t.keys ==> t.keys[key] == s.keys[key]
    ensures AddWaits(t, queue, popped + n, key, stored)
  {
    hide KeysIn;
    PoppingShiftsQueue(s.expirations, queue, popped, n);
    KeysInSum(queue[..popped], s.expirations[..n]);
    assert t.expirations[|queue| - popped - n] == s.expirations[|queue| - popped];
  }

  lemma PruneIsPopping(s: State, now: u64)
    ensures var n := DueCount(s.expirations, now, MAX_TO_PRUNE);
            && n <= |s.expirations|
            && Prune(s, now).expirations == s.expirations[n..]
            && (forall k :: k in Prune(s, now).keys <==> k in s.keys && k !in KeysIn(s.expirations[..n]))
            && (forall k :: k in Prune(s, now).keys ==> Prune(s, now).keys[k] == s.keys[k])
  {
  }

  /** Other operations change nothing about it. */
  lemma StepKeepsAddWaiting(s: State, queue: seq<TempKeyExpiration>, popped: nat, key: Key, stored: TempKey, e: Event)
    requires AddWaits(s, queue, popped, key, stored) && !IsAbout(e.operation, key) && !e.operation.Check?
    ensures AddWaits(Step(s, e), queue, popped, key, stored)
  {
    hide KeysIn;
    var at := |queue| - popped;
    assert Step(s, e).expirations[..at] == s.expirations[..at];
  }

  lemma RunUnfolds(run: seq<Event>)
    requires run != []
    ensures var init, last := run[..|run| - 1], run[|run| - 1];
            && After(run) == Step(After(init), last) && Clock(run) == last.now
            && Pops(run) == Pops(init) + (if last.operation.Check? then DueCount(After(init).expirations, last.now,
                MAX_TO_PRUNE) else 0)
            && (Timed(run) ==> Timed(init) && Clock(init) <= Clock(run) && Clock(run) + TEMP_KEY_EXPIRATION_NS < TWO_64)
  {
  }

  lemma {:induction false} EventIsTimed(before: seq<Event>, e: Event, since: seq<Event>)
    requires Timed(before + [e] + since)
    ensures e.now + TEMP_KEY_EXPIRATION_NS < TWO_64
    decreases |since|
  {
    var run := before + [e] + since;
    if since == [] {
      assert run[|run| - 1] == e;
    } else {
      assert run[..|run| - 1] == before + [e] + since[..|since| - 1];
      EventIsTimed(before, e, since[..|since| - 1]);
    }
  }

  lemma {:induction false} RunKeepsAddWaiting(before: seq<Event>, key: Key, principal: Principal, added: u64,
                                              since: seq<Event>)
    requires var run := before + [Event(Add(key, principal), added)] + since;
             Timed(run) && Clock(run) < added + TEMP_KEY_EXPIRATION_NS
    requires LeavesAlone(since, key)
    ensures var run := before + [Event(Add(key, principal), added)] + since;
            added + TEMP_KEY_EXPIRATION_NS < TWO_64 && Pops(before) <= Pops(run) &&
            AddWaits(After(run), After(before).expirations, Pops(run) - Pops(before), key, TempKey(principal,
                added + TEMP_KEY_EXPIRATION_NS))
    decreases |since|
  {
    hide AddWaits, DueCount, Prune, After, Pops, Timed, Clock, AddKey;
    var e := Event(Add(key, principal), added);
    var run := before + [e] + since;
    EventIsTimed(before, e, since);
    var queue, stored := After(before).expirations, TempKey(principal, added + TEMP_KEY_EXPIRATION_NS);
    RunUnfolds(run);
    if since == [] {
      assert run == before + [e] && run[..|run| - 1] == before;
      AddStartsWaiting(After(before), key, principal, added);
    } else {
      var init, last := since[..|since| - 1], since[|since| - 1];
      var sofar := before + [e] + init;
      assert run[..|run| - 1] == sofar && run[|run| - 1] == last;
      RunKeepsAddWaiting(before, key, principal, added, init);
      if last.operation.Check? {
        PruneKeepsAddWaiting(After(sofar), queue, Pops(sofar) - Pops(before), key, stored, last.now);
      } else {
        StepKeepsAddWaiting(After(sofar), queue, Pops(sofar) - Pops(before), key, stored, last);
      }
    }
  }

  lemma AddStartsWaiting(s: State, key: Key, principal: Principal, added: u64)
    requires added + TEMP_KEY_EXPIRATION_NS < TWO_64
    ensures AddWaits(AddKey(s, key, principal, added), s.expirations, 0, key, TempKey(principal,
              added + TEMP_KEY_EXPIRATION_NS))
  {
    assert KeysIn(s.expirations[..0]) == {};
  }

  /** Whatever happened before an add and happens to other keys after it: a check accepts the added principal
      until the key expires exactly if no entry popped since the add is an older one of the same key. Such an
      entry takes the new key with it. */
  lemma AddedKeyIsAcceptedIff(before: seq<Event>, key: Key, principal: Principal, added: u64, since: seq<Event>,
                              caller: Principal, now: u64)
    requires var run := before + [Event(Add(key, principal), added)] + since;
             Timed(run) && Clock(run) <= now < added + TEMP_KEY_EXPIRATION_NS
    requires LeavesAlone(since, key)
    ensures var run := before + [Event(Add(key, principal), added)] + since;
            var popped := Pops(run) - Pops(before) + DueCount(After(run).expirations, now, MAX_TO_PRUNE);
            && 0 <= popped <= |After(before).expirations|
            && (CheckSucceeds(run, key, caller, now) <==>
                  caller == principal && key !in KeysIn(After(before).expirations[..popped]))
  {
    hide After, Timed, KeysIn, Prune, DueCount, LeavesAlone;
    var run := before + [Event(Add(key, principal), added)] + since;
    RunKeepsAddWaiting(before, key, principal, added, since);
    PruneKeepsAddWaiting(After(run), After(before).expirations, Pops(run) - Pops(before), key,
                         TempKey(principal, added + TEMP_KEY_EXPIRATION_NS), now);
  }

  /** A key that is added twice can be refused although its latest add is only five minutes old. */
  lemma ReAddedKeyIsRefusedEarly(key: Key, principal: Principal)
    ensures var minute := 60_000_000_000;
            var run := [Event(Add(key, principal), 0), Event(Add(key, principal), 5 * minute)];
            && Timed(run)
            && LatestAdd(run, key) == Some((principal, 5 * minute))
            && !CheckSucceeds(run, key, principal, 10 * minute)
  {
    var first, second := Event(Add(key, principal), 0), Event(Add(key, principal), 300_000_000_000);
    var run := [first, second];
    assert run[..1] == [first] && [first][..0] == [];
    var s := After(run);
    assert After([first]) == AddKey(State(map[], []), key, principal, 0);
    assert s == AddKey(After([first]), key, principal, 300_000_000_000);
    assert s.expirations[0] == TempKeyExpiration(key, 600_000_000_000);
    var empty: seq<Event> := [];
    assert Timed(empty) && Clock(empty) == 0;
    assert Timed([first]) && Clock([first]) == 0;
    assert Timed(run);
    var n := DueCount(s.expirations, 600_000_000_000, MAX_TO_PRUNE);
    PrefixKeys(s.expirations, n);
    assert n >= 1;
  }

  /** The run adds the key once, for that principal and at that time, and never removes it. */
  predicate AddedOnce(run: seq<Event>, key: Key, principal: Principal, added: u64) {
    if run == [] then false
    else
      var init, last := run[..|run| - 1], run[|run| - 1];
      if last == Event(Add(key, principal), added) then NeverAdded(init, key)
      else !IsAbout(last.operation, key) && AddedOnce(init, key, principal, added)
  }

  predicate IsAbout(operation: Operation, key: Key) {
    (operation.Add? || operation.Remove?) && operation.key == key
  }

  predicate NeverAdded(run: seq<Event>, key: Key) {
    run == [] || (!(run[|run| - 1].operation.Add? && run[|run| - 1].operation.key == key) &&
        NeverAdded(run[..|run| - 1], key))
  }

  lemma {:induction false} NeverQueued(run: seq<Event>, key: Key)
    requires NeverAdded(run, key)
    ensures key !in KeysIn(After(run).expirations)
  {
    if run != [] {
      NeverQueued(run[..|run| - 1], key);
    }
  }

  /** A clean-up leaves a key alone whose queue entries are all not due. */
  lemma PruneKeepsUnexpired(s: State, now: u64, key: Key, expiration: nat)
    requires forall e :: e in s.expirations && e.key == key ==> e.expiration == expiration
    ensures forall e :: e in Prune(s, now).expirations ==> e in s.expirations
    ensures now < expiration && key in s.keys ==> key in Prune(s, now).keys && Prune(s, now).keys[key] == s.keys[key]
  {
    var n := DueCount(s.expirations, now, MAX_TO_PRUNE);
    forall e | e in s.expirations[..n]
      ensures e in s.expirations && e.expiration <= now
    {
      var i :| 0 <= i < n && s.expirations[..n][i] == e;
      assert s.expirations[i] == e;
    }
  }

  lemma {:induction false} AddedOnceIsKept(run: seq<Event>, key: Key, principal: Principal, added: u64)
    requires Timed(run) && AddedOnce(run, key, principal, added)
    ensures added <= Clock(run) && added + TEMP_KEY_EXPIRATION_NS < TWO_64
    ensures forall e :: e in After(run).expirations && e.key == key ==> e.expiration == added + TEMP_KEY_EXPIRATION_NS
    ensures Clock(run) < added + TEMP_KEY_EXPIRATION_NS ==>
              key in After(run).keys && After(run).keys[key] == TempKey(principal, added + TEMP_KEY_EXPIRATION_NS)
  {
    hide DueCount, Prune;
    var init, last := run[..|run| - 1], run[|run| - 1];
    if last == Event(Add(key, principal), added) {
      NeverQueued(init, key);
      assert forall e :: e in After(init).expirations ==> e.key in KeysIn(After(init).expirations);
    } else {
      AddedOnceIsKept(init, key, principal, added);
      PruneKeepsUnexpired(After(init), last.now, key, added + TEMP_KEY_EXPIRATION_NS);
    }
  }

  /** A key added once is accepted for its principal for exactly ten minutes, whatever else happens. In the
      very nanosecond it expires it passes only if the clean-up is cut short before it. */
  lemma AddedOnceIsAcceptedForTenMinutes(run: seq<Event>, key: Key, principal: Principal, added: u64,
                                         caller: Principal, now: u64)
    requires Timed(run) && AddedOnce(run, key, principal, added) && Clock(run) <= now
    ensures var expiration := added + TEMP_KEY_EXPIRATION_NS;
            CheckSucceeds(run, key, caller, now) <==>
              caller == principal && (now < expiration || (now == expiration && key in Prune(After(run), now).keys))
  {
    hide After, Timed, AddedOnce, LatestAdd;
    AddedOnceIsKept(run, key, principal, added);
    AddedOnceIsLatest(run, key, principal, added);
    RunKeepsCurrent(run);
    PruneKeepsValues(After(run), now);
    var s := After(run);
    var n := DueCount(s.expirations, now, MAX_TO_PRUNE);
    assert forall i :: 0 <= i < n ==> s.expirations[..n][i] == s.expirations[i];
    if CheckSucceeds(run, key, caller, now) {
      CheckAcceptsOnlyLatest(run, key, caller, now);
    }
  }

  lemma {:induction false} AddedOnceIsLatest(run: seq<Event>, key: Key, principal: Principal, added: u64)
    requires AddedOnce(run, key, principal, added)
    ensures LatestAdd(run, key) == Some((principal, added))
  {
    if run[|run| - 1] != Event(Add(key, principal), added) {
      AddedOnceIsLatest(run[..|run| - 1], key, principal, added);
    }
  }
}
