/** The index from OpenID credentials to anchors, while its keys migrate from issuer and subject to issuer,
    subject and audience. Batches of the migration run between writes of anchors. */
module OpenIdIndex {
  import opened Types

  /** A key without an audience is a legacy key. */
  datatype Key = Key(iss: Bytes, sub: Bytes, aud: Bytes)

  predicate IsLegacy(k: Key) {
    k.aud == []
  }

  function Legacy(k: Key): Key {
    k.(aud := [])
  }

  type Index = map<Key, seq<u64>>

  /** The stored credentials of each anchor, in order, each given by its key. */
  datatype World = World(index: Index, stored: map<u64, seq<Key>>)

  function KeySet(credentials: seq<Key>): set<Key> {
    set c | c in credentials
  }

  function CredentialsOf(stored: map<u64, seq<Key>>, anchor: u64): seq<Key> {
    if anchor in stored then stored[anchor] else []
  }

  /** Whatever the index says of the keys that are given up or new. */
  function Sync(index: Index, anchor: u64, previous: set<Key>, current: set<Key>): Index {
    map k | k in (index.Keys - (previous - current)) + (current - previous) ::
      if k in current - previous then [anchor] else index[k]
  }

  function Write(w: World, anchor: u64, credentials: seq<Key>): World {
    World(Sync(w.index, anchor, KeySet(CredentialsOf(w.stored, anchor)), KeySet(credentials)),
        w.stored[anchor := credentials])
  }

  function Lookup(index: Index, k: Key): Option<u64> {
    if k in index && index[k] != [] then Some(index[k][0]) else None
  }

  // ----- Migration -----

  /** The audience of the first credential with the issuer and subject of a key. */
  function FirstMatch(credentials: seq<Key>, k: Key): (aud: Option<Bytes>)
    ensures aud != None ==> k.(aud := aud.value) in credentials
    ensures aud == None ==> forall c :: c in credentials ==> Legacy(c) != Legacy(k)
  {
    if credentials == [] then None
    else if credentials[0].iss == k.iss && credentials[0].sub == k.sub then Some(credentials[0].aud)
    else FirstMatch(credentials[1..], k)
  }

  function Resolve(stored: map<u64, seq<Key>>, anchors: seq<u64>, k: Key): Option<Bytes> {
    if anchors == [] then None else FirstMatch(CredentialsOf(stored, anchors[0]), k)
  }

  function MigrateOne(index: Index, stored: map<u64, seq<Key>>, k: Key): Index {
    if k !in index then index
    else
      match Resolve(stored, index[k], k)
      case Some(aud) => (index - {k})[k.(aud := aud) := index[k]]
      case None => index - {k}
  }

  function MigrateAll(index: Index, stored: map<u64, seq<Key>>, keys: seq<Key>): Index {
    if keys == [] then index else MigrateOne(MigrateAll(index, stored, keys[..|keys| - 1]), stored, keys[|keys| - 1])
  }

  function Legacies(index: Index): set<Key> {
    set k | k in index && IsLegacy(k)
  }

  /** Up to `size` different legacy keys, whatever the order in which the index lists them. */
  ghost predicate Collected(index: Index, size: nat, keys: seq<Key>) {
    && |keys| == Min(size, |Legacies(index)|)
    && (forall i :: 0 <= i < |keys| ==> keys[i] in Legacies(index))
    && (forall i, j :: 0 <= i < j < |keys| ==> keys[i] != keys[j])
  }

  /** The keys that resolve to no credential, which a batch drops and reports. */
  function Orphans(index: Index, stored: map<u64, seq<Key>>, keys: seq<Key>): seq<Key> {
    if keys == [] then []
    else
      var last := keys[|keys| - 1];
      Orphans(index, stored, keys[..|keys| - 1]) +
      if last in index && Resolve(stored, index[last], last) == None then [last] else []
  }

  /** A batch of size zero reports that it is done without looking. */
  predicate IsDone(size: nat, collected: nat) {
    size == 0 || collected < size
  }

  // ----- The invariant -----

  ghost predicate Holds(w: World, anchor: u64, k: Key) {
    k in CredentialsOf(w.stored, anchor)
  }

  predicate Points(index: Index, k: Key, anchor: u64) {
    Lookup(index, k) == Some(anchor)
  }

  ghost predicate AudiencesPresent(w: World) {
    forall a, k :: Holds(w, a, k) ==> !IsLegacy(k)
  }

  ghost predicate OneHolder(w: World) {
    forall a, b, k :: Holds(w, a, k) && Holds(w, b, k) ==> a == b
  }

  ghost predicate OnePerSubject(w: World) {
    forall a, k, m :: Holds(w, a, k) && Holds(w, a, m) && Legacy(k) == Legacy(m) ==> k == m
  }

  /** What is expected of the stored anchors alone. */
  ghost predicate WellStored(w: World) {
    AudiencesPresent(w) && OneHolder(w) && OnePerSubject(w)
  }

  /** A full key leads to an anchor that holds the credential. */
  ghost predicate Sound(w: World) {
    forall k :: k in w.index && !IsLegacy(k) ==> w.index[k] != [] && Holds(w, w.index[k][0], k)
  }

  ghost predicate Reachable(w: World) {
    forall a, k :: Holds(w, a, k) ==> Points(w.index, k, a) || Points(w.index, Legacy(k), a)
  }

  ghost predicate Inv(w: World) {
    WellStored(w) && Sound(w) && Reachable(w)
  }

  // ----- Writes -----

  lemma WriteKeepsSound(w: World, anchor: u64, credentials: seq<Key>)
    requires Sound(w)
    ensures Sound(Write(w, anchor, credentials))
  {
  }

  /** A write keeps the invariant exactly when the stored anchors are as expected after it. */
  lemma WriteKeepsInvIff(w: World, anchor: u64, credentials: seq<Key>)
    requires Inv(w)
    ensures Inv(Write(w, anchor, credentials)) <==> WellStored(Write(w, anchor, credentials))
  {
    var m := Write(w, anchor, credentials);
    WriteKeepsSound(w, anchor, credentials);
    if WellStored(m) {
      forall a, k | Holds(m, a, k)
        ensures Points(m.index, k, a) || Points(m.index, Legacy(k), a)
      {
        WriteKeepsReachable(w, anchor, credentials, a, k);
      }
    }
  }

  lemma WriteKeepsReachable(w: World, anchor: u64, credentials: seq<Key>, a: u64, k: Key)
    requires Inv(w) && WellStored(Write(w, anchor, credentials)) && Holds(Write(w, anchor, credentials), a, k)
    ensures var m := Write(w, anchor, credentials); Points(m.index, k, a) || Points(m.index, Legacy(k), a)
  {
    hide Sound;
    var m := Write(w, anchor, credentials);
    var previous := KeySet(CredentialsOf(w.stored, anchor));
    assert !Holds(w, anchor, Legacy(k)) && !Holds(m, anchor, Legacy(k));
    assert Legacy(k) !in previous && Legacy(k) !in KeySet(credentials);
    if a == anchor && k !in previous {
      assert Points(m.index, k, a);
    } else {
      assert Holds(w, a, k);
      if a != anchor {
        assert !Holds(w, anchor, k) && !Holds(m, anchor, k);
      }
      assert k !in previous - KeySet(credentials) && k !in KeySet(credentials) - previous;
    }
  }

  /** No write makes a legacy key. */
  lemma WriteKeepsLegacies(w: World, anchor: u64, credentials: seq<Key>)
    requires AudiencesPresent(w) && AudiencesPresent(Write(w, anchor, credentials))
    ensures Legacies(Write(w, anchor, credentials).index) == Legacies(w.index)
  {
    var m := Write(w, anchor, credentials);
    forall k
      ensures k in Legacies(m.index) <==> k in Legacies(w.index)
    {
      if IsLegacy(k) {
        assert !Holds(w, anchor, k) && !Holds(m, anchor, k);
      }
    }
  }

  // ----- Batches -----

  /** A legacy key is gone after its migration exactly when it does not resolve to an empty audience. */
  lemma MigratedIsGoneIff(index: Index, stored: map<u64, seq<Key>>, k: Key)
    requires k in index && IsLegacy(k)
    ensures k !in MigrateOne(index, stored, k) <==> Resolve(stored, index[k], k) != Some([])
    ensures Resolve(stored, index[k], k) == Some([]) ==> MigrateOne(index, stored, k) == index
  {
  }

  lemma MigrateOneKeepsInv(w: World, k: Key)
    requires Inv(w) && IsLegacy(k)
    ensures Inv(w.(index := MigrateOne(w.index, w.stored, k)))
    ensures Legacies(MigrateOne(w.index, w.stored, k)) == Legacies(w.index) - {k}
  {
    var m := w.(index := MigrateOne(w.index, w.stored, k));
    MigrationResolves(w, k);
    MigrateOneKeepsSound(w, k);
    assert forall a, c :: Holds(m, a, c) <==> Holds(w, a, c);
    forall a, c | Holds(m, a, c)
      ensures Points(m.index, c, a) || Points(m.index, Legacy(c), a)
    {
      MigrateOneKeepsReachable(w, k, a, c);
    }
  }

  /** What a legacy key resolves to is held by its first anchor, and has an audience. */
  lemma MigrationResolves(w: World, k: Key)
    requires AudiencesPresent(w)
    ensures k in w.index ==> match Resolve(w.stored, w.index[k], k)
                             case None => true
                             case Some(aud) => aud != [] && Holds(w, w.index[k][0], k.(aud := aud))
  {
    if k in w.index && w.index[k] != [] {
      var r := FirstMatch(CredentialsOf(w.stored, w.index[k][0]), k);
      assert r != None ==> Holds(w, w.index[k][0], k.(aud := r.value));
    }
  }

  /** Full keys keep leading to anchors that hold the credential, whatever is stored. */
  lemma MigrateOneKeepsSound(w: World, k: Key)
    requires Sound(w) && IsLegacy(k)
    ensures Sound(w.(index := MigrateOne(w.index, w.stored, k)))
  {
    var m := w.(index := MigrateOne(w.index, w.stored, k));
    assert forall a, c :: Holds(m, a, c) <==> Holds(w, a, c);
    if k in w.index && w.index[k] != [] {
      var r := FirstMatch(CredentialsOf(w.stored, w.index[k][0]), k);
      assert r != None ==> Holds(w, w.index[k][0], k.(aud := r.value));
    }
  }

  lemma {:induction false} BatchKeepsSound(w: World, keys: seq<Key>)
    requires Sound(w) && forall k :: k in keys ==> IsLegacy(k)
    ensures Sound(w.(index := MigrateAll(w.index, w.stored, keys)))
  {
    hide Sound;
    if keys == [] {
      assert w.(index := w.index) == w;
    } else {
      BatchKeepsSound(w, keys[..|keys| - 1]);
      MigrateOneKeepsSound(w.(index := MigrateAll(w.index, w.stored, keys[..|keys| - 1])), keys[|keys| - 1]);
    }
  }

  /** With one credential per issuer and subject, the legacy key of a credential resolves to its audience. */
  lemma HolderResolves(w: World, a: u64, c: Key)
    requires OnePerSubject(w) && Holds(w, a, c)
    ensures FirstMatch(CredentialsOf(w.stored, a), Legacy(c)) == Some(c.aud)
  {
    var r := FirstMatch(CredentialsOf(w.stored, a), Legacy(c));
    assert Legacy(c) == Legacy(Legacy(c));
    assert Holds(w, a, Legacy(c).(aud := r.value));
  }

  lemma MigrateOneKeepsReachable(w: World, k: Key, a: u64, c: Key)
    requires Inv(w) && IsLegacy(k) && Holds(w, a, c)
    ensures var m := MigrateOne(w.index, w.stored, k); Points(m, c, a) || Points(m, Legacy(c), a)
  {
    var m := MigrateOne(w.index, w.stored, k);
    MigrationResolves(w, k);
    HolderResolves(w, a, c);
    if k in w.index {
      var r := Resolve(w.stored, w.index[k], k);
      if r != None && k.(aud := r.value) == c {
        assert w.index[k][0] == a;
      }
    }
  }

  lemma {:induction false} BatchKeepsInv(w: World, keys: seq<Key>)
    requires Inv(w) && forall k :: k in keys ==> IsLegacy(k)
    ensures Inv(w.(index := MigrateAll(w.index, w.stored, keys)))
    ensures Legacies(MigrateAll(w.index, w.stored, keys)) == Legacies(w.index) - KeySet(keys)
  {
    hide Inv, Legacies;
    if keys == [] {
      assert w.(index := w.index) == w;
      assert Legacies(w.index) - {} == Legacies(w.index);
    } else {
      var init := keys[..|keys| - 1];
      var last := keys[|keys| - 1];
      BatchKeepsInv(w, init);
      MigrateOneKeepsInv(w.(index := MigrateAll(w.index, w.stored, init)), last);
      assert KeySet(keys) == KeySet(init) + {last} by {
        assert keys == init + [last];
      }
      assert Legacies(w.index) - KeySet(keys) == Legacies(w.index) - KeySet(init) - {last};
    }
  }

  lemma {:induction false} DistinctSize(keys: seq<Key>)
    requires forall i, j :: 0 <= i < j < |keys| ==> keys[i] != keys[j]
    ensures |KeySet(keys)| == |keys|
  {
    hide KeySet;
    if keys != [] {
      var init, last := keys[..|keys| - 1], keys[|keys| - 1];
      DistinctSize(init);
      assert keys == init + [last];
      OneMoreKey(init, last);
    } else {
      NoKeys();
    }
  }

  lemma NoKeys()
    ensures KeySet([]) == {}
  {
  }

  lemma OneMoreKey(init: seq<Key>, last: Key)
    ensures KeySet(init + [last]) == KeySet(init) + {last}
    ensures last in KeySet(init) <==> last in init
  {
  }

  /** A batch removes as many legacy keys as it may, and reports that it is done only if none is left. */
  lemma BatchMakesProgress(w: World, size: nat, keys: seq<Key>)
    requires Inv(w) && Collected(w.index, size, keys)
    ensures var m := MigrateAll(w.index, w.stored, keys);
            && |Legacies(m)| == |Legacies(w.index)| - Min(size, |Legacies(w.index)|)
            && (IsDone(size, |keys|) <==> size == 0 || |Legacies(w.index)| < size)
            && (size > 0 && IsDone(size, |keys|) ==> Legacies(m) == {})
  {
    BatchKeepsInv(w, keys);
    DistinctSize(keys);
    assert KeySet(keys) <= Legacies(w.index);
    var m := MigrateAll(w.index, w.stored, keys);
    assert |Legacies(w.index) - KeySet(keys)| == |Legacies(w.index)| - |KeySet(keys)|;
  }

  // ----- Runs -----

  datatype Step = Put(anchor: u64, credentials: seq<Key>) | Batch(size: nat, keys: seq<Key>)

  function Apply(w: World, s: Step): World {
    match s
    case Put(a, credentials) => Write(w, a, credentials)
    case Batch(size, keys) => w.(index := MigrateAll(w.index, w.stored, keys))
  }

  function After(w: World, steps: seq<Step>): World {
    if steps == [] then w else Apply(After(w, steps[..|steps| - 1]), steps[|steps| - 1])
  }

  /** Batches collect what the index has at that time. */
  ghost predicate Enabled(w: World, s: Step) {
    s.Batch? ==> Collected(w.index, s.size, s.keys)
  }

  /** Writes and batches in any order, as long as the stored anchors are as expected all along. */
  ghost predicate Possible(w: World, steps: seq<Step>) {
    steps == [] ||
    (var init := steps[..|steps| - 1];
     Possible(w, init) && Enabled(After(w, init), steps[|steps| - 1]) && WellStored(After(w, steps)))
  }

  function Batches(steps: seq<Step>): nat {
    if steps == [] then 0
    else Batches(steps[..|steps| - 1]) + if steps[|steps| - 1].Batch? && steps[|steps| - 1].size > 0 then 1 else 0
  }

  lemma StepKeepsInv(w: World, s: Step)
    requires Inv(w) && Enabled(w, s) && WellStored(Apply(w, s))
    ensures Inv(Apply(w, s))
    ensures Legacies(Apply(w, s).index) <= Legacies(w.index)
    ensures s.Batch? && s.size > 0 ==> |Legacies(Apply(w, s).index)| <= Max(0, |Legacies(w.index)| - 1)
  {
    hide Sound, Reachable, AudiencesPresent, OneHolder, OnePerSubject;
    match s
    case Put(a, credentials) =>
      WriteKeepsInvIff(w, a, credentials);
      WriteKeepsLegacies(w, a, credentials);
    case Batch(size, keys) =>
      BatchKeepsInv(w, keys);
      BatchMakesProgress(w, size, keys);
  }

  /** Every credential stays reachable by its full or its legacy key, no legacy key appears, and each batch
      of positive size brings the migration closer to its end. */
  lemma {:induction false} MigrationKeepsCredentials(w: World, steps: seq<Step>)
    requires Inv(w) && Possible(w, steps)
    ensures Inv(After(w, steps))
    ensures Legacies(After(w, steps).index) <= Legacies(w.index)
    ensures |Legacies(After(w, steps).index)| <= Max(0, |Legacies(w.index)| - Batches(steps))
  {
    hide Inv, Legacies, Enabled, WellStored, Apply;
    if steps != [] {
      var init := steps[..|steps| - 1];
      MigrationKeepsCredentials(w, init);
      StepKeepsInv(After(w, init), steps[|steps| - 1]);
      SubsetIsNotLarger(Legacies(After(w, steps).index), Legacies(After(w, init).index));
    }
  }

  /** The index is the inverse of the stored anchors. */
  ghost predicate Exact(w: World) {
    && (forall a, k :: Holds(w, a, k) <==> Points(w.index, k, a))
    && (forall k :: k in w.index ==> Lookup(w.index, k) != None)
  }

  /** Without legacy keys, lookup is exact. */
  lemma MigratedIsExact(w: World)
    requires Inv(w) && Legacies(w.index) == {}
    ensures Exact(w)
  {
    NoneIsLegacy(w.index);
    forall a, k
      ensures Holds(w, a, k) <==> Points(w.index, k, a)
    {
      assert !Points(w.index, Legacy(k), a);
    }
  }

  lemma NoneIsLegacy(index: Index)
    requires Legacies(index) == {}
    ensures forall k :: k in index ==> !IsLegacy(k)
    ensures forall k :: Legacy(k) !in index
  {
    forall k | k in index
      ensures !IsLegacy(k)
    {
      assert k !in Legacies(index);
    }
    forall k: Key
      ensures Legacy(k) !in index
    {
      assert IsLegacy(Legacy(k));
    }
  }

  /** As many batches as there were legacy keys are enough, whatever is written meanwhile. */
  lemma MigrationEnds(w: World, steps: seq<Step>)
    requires Inv(w) && Possible(w, steps) && Batches(steps) >= |Legacies(w.index)|
    ensures Exact(After(w, steps))
  {
    MigrationKeepsCredentials(w, steps);
    MigratedIsExact(After(w, steps));
  }

  // ----- The uniqueness check -----

  /** Adding a credential is refused if its full key is in the index. If it is not, the write keeps the
      invariant exactly when the credential has an audience, the anchor has no other one of the same issuer
      and subject, and the legacy key does not lead to another anchor with the same credential. */
  lemma AddingIsSafeIff(w: World, anchor: u64, c: Key)
    requires Inv(w) && Lookup(w.index, c) == None
    ensures var o := Lookup(w.index, Legacy(c));
            Inv(Write(w, anchor, CredentialsOf(w.stored, anchor) + [c])) <==>
              && !IsLegacy(c)
              && (forall k :: Holds(w, anchor, k) && Legacy(k) == Legacy(c) ==> k == c)
              && (o != None && o.value != anchor ==> !Holds(w, o.value, c))
  {
    var m := Write(w, anchor, CredentialsOf(w.stored, anchor) + [c]);
    WriteKeepsInvIff(w, anchor, CredentialsOf(w.stored, anchor) + [c]);
    forall a, k
      ensures Holds(m, a, k) <==> Holds(w, a, k) || (a == anchor && k == c)
    {
    }
    assert Holds(m, anchor, c);
    var o := Lookup(w.index, Legacy(c));
    if o != None && o.value != anchor && Holds(w, o.value, c) {
      assert Holds(m, o.value, c);
    } else {
      forall a, b, k | Holds(m, a, k) && Holds(m, b, k)
        ensures a == b
      {
        if k == c {
          assert forall x :: Holds(w, x, c) ==> Points(w.index, Legacy(c), x);
        }
      }
      assert OneHolder(m);
      if k :| Holds(w, anchor, k) && Legacy(k) == Legacy(c) && k != c {
        assert Holds(m, anchor, k) && !OnePerSubject(m);
      }
    }
  }

  /** After the migration the check is exact. */
  lemma CheckIsExactAfterMigration(w: World, c: Key)
    requires Inv(w) && Legacies(w.index) == {}
    ensures Lookup(w.index, c) == None <==> forall a :: !Holds(w, a, c)
  {
    MigratedIsExact(w);
    if Lookup(w.index, c) != None {
      assert Points(w.index, c, Lookup(w.index, c).value);
    }
    if a :| Holds(w, a, c) {
      assert Points(w.index, c, a);
    }
  }

  /** During the migration it is not: a second anchor can add a credential whose legacy key has not been
      migrated yet, and the next batch then takes it out of the second anchor's reach. */
  lemma DuplicateDuringMigration(a: u64, b: u64, c: Key)
    requires a != b && !IsLegacy(c)
    ensures var w := World(map[Legacy(c) := [a]], map[a := [c], b := []]);
            var added := Write(w, b, [c]);
            var batch := Apply(added, Batch(1, [Legacy(c)]));
            && Inv(w) && Lookup(w.index, c) == None
            && Enabled(added, Batch(1, [Legacy(c)])) && Points(added.index, c, b)
            && Holds(batch, b, c) && Points(batch.index, c, a) && Legacies(batch.index) == {}
  {
    var w := World(map[Legacy(c) := [a]], map[a := [c], b := []]);
    assert forall x, k :: Holds(w, x, k) <==> x == a && k == c;
    assert Legacies(w.index) == {Legacy(c)};
    var added := Write(w, b, [c]);
    assert KeySet([]) == {} && KeySet([c]) == {c};
    assert added.index == map[Legacy(c) := [a], c := [b]];
    assert Legacies(added.index) == {Legacy(c)};
    var keys := [Legacy(c)];
    assert keys[..0] == [];
    assert MigrateAll(added.index, added.stored, keys) == MigrateOne(added.index, added.stored, Legacy(c));
    assert CredentialsOf(added.stored, a) == [c] && CredentialsOf(added.stored, b) == [c];
    assert Resolve(added.stored, added.index[Legacy(c)], Legacy(c)) == Some(c.aud);
    assert MigrateOne(added.index, added.stored, Legacy(c)) == map[c := [a]];
  }

  /** Neither can an anchor have two audiences for one issuer and subject: a legacy key that stands for both
      is replaced by the first alone. */
  lemma SecondAudienceIsLost(a: u64, first: Key, second: Key)
    requires !IsLegacy(first) && !IsLegacy(second) && first != second && Legacy(first) == Legacy(second)
    ensures var w := World(map[Legacy(first) := [a]], map[a := [first, second]]);
            var batch := Apply(w, Batch(1, [Legacy(first)]));
            && AudiencesPresent(w) && OneHolder(w) && Sound(w) && Reachable(w) && Enabled(w, Batch(1, [Legacy(first)]))
            && Holds(batch, a, second) && !Points(batch.index, second, a) && !Points(batch.index, Legacy(second), a)
  {
    var w := World(map[Legacy(first) := [a]], map[a := [first, second]]);
    assert forall x, k :: Holds(w, x, k) <==> x == a && (k == first || k == second);
    assert Legacies(w.index) == {Legacy(first)};
    var keys := [Legacy(first)];
    assert keys[..0] == [];
    assert MigrateAll(w.index, w.stored, keys) == MigrateOne(w.index, w.stored, Legacy(first));
    assert CredentialsOf(w.stored, a)[0] == first;
    assert FirstMatch(CredentialsOf(w.stored, a), Legacy(first)) == Some(first.aud);
    assert MigrateOne(w.index, w.stored, Legacy(first)) == map[first := [a]];
  }

  // ----- Without legacy keys -----

  const MAX_LINKED_CREDENTIALS: nat := 100

  lemma IndexedAfterWrite(w: World, anchor: u64, credentials: seq<Key>, k: Key)
    ensures var m := Write(w, anchor, credentials);
            var before, after := k in CredentialsOf(w.stored, anchor), k in credentials;
            Lookup(m.index,
                k) == (if after && !before then Some(anchor) else if before && !after then None else Lookup(w.index, k))
    ensures var m := Write(w, anchor, credentials);
            k in m.index ==> Lookup(m.index, k) != None || (k in w.index && Lookup(w.index, k) == None)
  {
  }

  lemma HeldAfterWrite(w: World, anchor: u64, credentials: seq<Key>)
    ensures forall b, k :: Holds(Write(w, anchor, credentials), b, k) <==>
              if b == anchor then k in credentials else Holds(w, b, k)
  {
  }

  /** From an exact index, a write leads to an exact one exactly when the anchor takes no credential that
      another anchor holds. */
  lemma WriteKeepsExactIff(w: World, anchor: u64, credentials: seq<Key>)
    requires Exact(w)
    ensures Exact(Write(w, anchor, credentials)) <==> forall b, k :: b != anchor && Holds(w, b, k) ==> k !in credentials
  {
    hide Write, Lookup;
    var m := Write(w, anchor, credentials);
    HeldAfterWrite(w, anchor, credentials);
    forall k
      ensures var before, after := Holds(w, anchor, k), k in credentials;
              Lookup(m.index,
                  k) == (if after && !before then Some(anchor) else if before && !after then None else Lookup(w.index, k))
      ensures k in m.index ==> Lookup(m.index, k) != None
    {
      IndexedAfterWrite(w, anchor, credentials, k);
    }
    if b, k :| b != anchor && Holds(w, b, k) && k in credentials {
      assert Holds(m, b, k) && Holds(m, anchor, k);
      assert Exact(m) ==> Points(m.index, k, b) && Points(m.index, k, anchor);
    }
  }

  datatype Change = Add(anchor: u64, credential: Key) | Remove(anchor: u64, credential: Key)

  /** Adding a credential, unless it is in the index already or the anchor has too many, and removing one. */
  function Changed(w: World, c: Change): World {
    var credentials := CredentialsOf(w.stored, c.anchor);
    match c
    case Add(a, k) =>
      if Lookup(w.index, k) != None || k in credentials || |credentials| >= MAX_LINKED_CREDENTIALS then w
      else Write(w, a, credentials + [k])
    case Remove(a, k) =>
      if k !in credentials then w else Write(w, a, WithoutFirst(credentials, k))
  }

  function WithoutFirst(credentials: seq<Key>, k: Key): (rest: seq<Key>)
    ensures forall x :: x in rest ==> x in credentials
    ensures forall x :: x in credentials && x != k ==> x in rest
  {
    if credentials == [] then []
    else if credentials[0] == k then credentials[1..]
    else [credentials[0]] + WithoutFirst(credentials[1..], k)
  }

  /** An addition appends the credential, unless it is found, there already, or one too many. */
  lemma AddingAppends(w: World, a: u64, k: Key)
    ensures var before, m := CredentialsOf(w.stored, a), Changed(w, Add(a, k));
            && (forall b :: b != a ==> CredentialsOf(m.stored, b) == CredentialsOf(w.stored, b))
            && CredentialsOf(m.stored, a)
                 == if (forall b :: !Points(w.index, k, b)) && k !in before && |before| < 100 then before + [k] else before
  {
    hide Sync, Lookup, KeySet;
    if Lookup(w.index, k) != None {
      assert Points(w.index, k, Lookup(w.index, k).value);
    }
  }

  /** A removal takes one occurrence of the credential away. */
  lemma RemovingTakes(w: World, a: u64, k: Key)
    ensures var m := Changed(w, Remove(a, k));
            && (forall b :: b != a ==> CredentialsOf(m.stored, b) == CredentialsOf(w.stored, b))
            && multiset(CredentialsOf(m.stored, a)) == multiset(CredentialsOf(w.stored, a)) - multiset{k}
  {
    hide Sync, Lookup, KeySet, WithoutFirst;
    RemovingTakesOne(CredentialsOf(w.stored, a), k);
  }

  lemma {:induction false} RemovingTakesOne(credentials: seq<Key>, k: Key)
    ensures multiset(WithoutFirst(credentials, k)) == multiset(credentials) - multiset{k}
  {
    if credentials != [] {
      assert credentials == [credentials[0]] + credentials[1..];
      if credentials[0] != k {
        RemovingTakesOne(credentials[1..], k);
      }
    }
  }

  function AfterChanges(w: World, changes: seq<Change>): World {
    if changes == [] then w else Changed(AfterChanges(w, changes[..|changes| - 1]), changes[|changes| - 1])
  }

  /** The check alone keeps the index exact, and credentials unique, over every run that starts without legacy
      keys: nothing needs to be expected of the credentials. */
  lemma {:induction false} ChecksKeepCredentialsUnique(w: World, changes: seq<Change>)
    requires Exact(w)
    ensures Exact(AfterChanges(w, changes)) && OneHolder(AfterChanges(w, changes))
  {
    hide Write, Exact, OneHolder;
    if changes != [] {
      var v, c := AfterChanges(w, changes[..|changes| - 1]), changes[|changes| - 1];
      ChecksKeepCredentialsUnique(w, changes[..|changes| - 1]);
      ChangeTakesNothing(v, c);
      WriteKeepsExactIff(v, c.anchor, CredentialsOf(v.stored, c.anchor) + [c.credential]);
      WriteKeepsExactIff(v, c.anchor, WithoutFirst(CredentialsOf(v.stored, c.anchor), c.credential));
    }
    ExactMeansOneHolder(AfterChanges(w, changes));
  }

  lemma ExactMeansOneHolder(w: World)
    requires Exact(w)
    ensures OneHolder(w)
  {
    forall a, b, k | Holds(w, a, k) && Holds(w, b, k)
      ensures a == b
    {
      assert Points(w.index, k, a) && Points(w.index, k, b);
    }
  }

  lemma ChangeTakesNothing(w: World, c: Change)
    requires Exact(w)
    ensures forall b, k :: b != c.anchor && Holds(w, b, k) ==> k !in WithoutFirst(CredentialsOf(w.stored, c.anchor),
              c.credential)
    ensures Lookup(w.index, c.credential) == None ==>
              forall b, k :: b != c.anchor && Holds(w, b, k) ==> k !in CredentialsOf(w.stored, c.anchor) + [c.credential]
  {
    ExactMeansOneHolder(w);
    forall b, k | b != c.anchor && Holds(w, b, k)
      ensures k !in CredentialsOf(w.stored, c.anchor)
      ensures Lookup(w.index, k) != None
    {
      assert !Holds(w, c.anchor, k);
      assert Points(w.index, k, b);
    }
  }
}
