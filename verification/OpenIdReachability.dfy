/** When exactly credentials stay reachable through the index, whatever anchors hold: step by step, for
    batches, and over runs of writes and batches. */
module OpenIdReachability {
  import opened Types
  import opened OpenIdIndex

  predicate Found(index: Index, c: Key, anchor: u64) {
    Points(index, c, anchor) || Points(index, Legacy(c), anchor)
  }

  // ----- One key -----

  /** The first anchor has no other credential that depends on the legacy key, and nobody else holds the one
      that takes its place. */
  ghost predicate MigratesSafely(w: World, k: Key) {
    k in w.index ==>
      var r := Resolve(w.stored, w.index[k], k);
      r != None && r.value != [] ==>
        var a, full := w.index[k][0], k.(aud := r.value);
        && (forall c :: Holds(w, a, c) && Legacy(c) == k && c != full ==> c != k && Points(w.index, c, a))
        && (forall b :: Holds(w, b, full) ==> b == a)
  }

  /** Migrating a key loses no credential exactly when it is safe. */
  lemma MigrateOneKeepsReachableIff(w: World, k: Key)
    requires Reachable(w) && IsLegacy(k)
    ensures Reachable(w.(index := MigrateOne(w.index, w.stored, k))) <==> MigratesSafely(w, k)
  {
    var m := w.(index := MigrateOne(w.index, w.stored, k));
    assert forall a, c :: Holds(m, a, c) <==> Holds(w, a, c);
    if k in w.index && Resolve(w.stored, w.index[k], k) != None && Resolve(w.stored, w.index[k], k).value != [] {
      var a, full := w.index[k][0], k.(aud := Resolve(w.stored, w.index[k], k).value);
      assert forall c :: c != k && c != full ==> Lookup(m.index, c) == Lookup(w.index, c);
      assert Lookup(m.index, k) == None && Lookup(m.index, full) == Some(a);
      if Reachable(m) {
        forall c | Holds(w, a, c) && Legacy(c) == k && c != full
          ensures c != k && Points(w.index, c, a)
        {
          assert Found(m.index, c, a);
        }
        forall b | Holds(w, b, full)
          ensures b == a
        {
          assert Found(m.index, full, b);
        }
      }
    } else if k in w.index && Resolve(w.stored, w.index[k], k) == None {
      OrphanHasNoHolder(w, k);
    }
  }

  /** What does not resolve does not lead to a credential either. */
  lemma OrphanHasNoHolder(w: World, k: Key)
    requires IsLegacy(k)
    requires k in w.index && Resolve(w.stored, w.index[k], k) == None
    ensures forall a, c :: Holds(w, a, c) && Legacy(c) == k ==> !Points(w.index, k, a)
  {
    forall a, c | Holds(w, a, c) && Legacy(c) == k
      ensures !Points(w.index, k, a)
    {
      assert c in CredentialsOf(w.stored, a) && Legacy(c) == Legacy(k);
    }
  }

  // ----- A batch -----

  /** Two indices agree on the keys of one issuer and subject. */
  ghost predicate SameFamily(i: Index, j: Index, k: Key) {
    forall c :: Legacy(c) == k ==> (c in i <==> c in j) && (c in i ==> i[c] == j[c])
  }

  /** Migrating a legacy key leaves the keys of every other issuer and subject alone, and doing it twice is
      the same as doing it once. */
  lemma MigratingStaysInFamily(i: Index, j: Index, stored: map<u64, seq<Key>>, k: Key, other: Key)
    requires IsLegacy(k) && IsLegacy(other)
    ensures k != other ==> SameFamily(MigrateOne(i, stored, other), i, k)
    ensures SameFamily(i, MigrateOne(j, stored, k), k) ==> SameFamily(MigrateOne(i, stored, k), MigrateOne(j, stored, k), k)
    ensures SameFamily(i, j, k) ==> SameFamily(MigrateOne(i, stored, k), MigrateOne(j, stored, k), k)
  {
    assert Legacy(k) == k && Legacy(other) == other;
  }

  lemma {:induction false} BatchByFamily(index: Index, stored: map<u64, seq<Key>>, keys: seq<Key>, k: Key)
    requires IsLegacy(k) && forall x :: x in keys ==> IsLegacy(x)
    ensures SameFamily(MigrateAll(index, stored, keys), if k in keys then MigrateOne(index, stored, k) else index, k)
  {
    hide MigrateOne, SameFamily;
    if keys == [] {
      assert SameFamily(index, index, k) by {
        SameFamilyItself(index, k);
      }
    } else {
      var init, last := keys[..|keys| - 1], keys[|keys| - 1];
      var before := MigrateAll(index, stored, init);
      BatchByFamily(index, stored, init, k);
      assert keys == init + [last];
      MigratingStaysInFamily(before, index, stored, k, last);
      if last != k {
        SameFamilyChains(MigrateOne(before, stored, last), before, if k in init then MigrateOne(index, stored,
            k) else index, k);
      }
    }
  }

  lemma SameFamilyItself(i: Index, k: Key)
    ensures SameFamily(i, i, k)
  {
  }

  lemma SameFamilyChains(i: Index, j: Index, l: Index, k: Key)
    requires SameFamily(i, j, k) && SameFamily(j, l, k)
    ensures SameFamily(i, l, k)
  {
  }

  lemma SameFamilySameFound(i: Index, j: Index, c: Key, anchor: u64)
    requires SameFamily(i, j, Legacy(c))
    ensures Found(i, c, anchor) == Found(j, c, anchor)
  {
    assert Legacy(Legacy(c)) == Legacy(c);
  }

  /** A batch loses no credential exactly when each of its keys is safe, in whatever order they come. */
  lemma BatchKeepsReachableIff(w: World, keys: seq<Key>)
    requires Reachable(w) && forall k :: k in keys ==> IsLegacy(k)
    ensures Reachable(w.(index := MigrateAll(w.index, w.stored, keys))) <==> forall k :: k in keys ==> MigratesSafely(w, k)
  {
    hide MigrateOne, MigrateAll, SameFamily, MigratesSafely;
    var m := w.(index := MigrateAll(w.index, w.stored, keys));
    forall a, c | Holds(w, a, c)
      ensures Found(m.index, c, a) <==> Found(if Legacy(c) in keys then MigrateOne(w.index, w.stored,
                Legacy(c)) else w.index, c, a)
    {
      BatchByFamily(w.index, w.stored, keys, Legacy(c));
      SameFamilySameFound(m.index, if Legacy(c) in keys then MigrateOne(w.index, w.stored, Legacy(c)) else w.index, c, a);
    }
    forall k | k in keys
      ensures MigratesSafely(w, k) <==> forall a, c :: Holds(w, a, c) && Legacy(c) == k ==> Found(m.index, c, a)
    {
      SafeIffFamilyFound(w, k);
      assert forall a, c :: Holds(w, a, c) && Legacy(c) == k ==>
               (Found(m.index, c, a) <==> Found(MigrateOne(w.index, w.stored, k), c, a));
    }
    assert forall a, c :: Holds(m, a, c) <==> Holds(w, a, c);
    assert Reachable(m) <==> forall a, c :: Holds(w, a, c) ==> Found(m.index, c, a);
  }

  lemma SafeIffFamilyFound(w: World, k: Key)
    requires Reachable(w) && IsLegacy(k)
    ensures MigratesSafely(w, k) <==>
              forall a, c :: Holds(w, a, c) && Legacy(c) == k ==> Found(MigrateOne(w.index, w.stored, k), c, a)
  {
    hide MigrateOne, MigratesSafely, SameFamily;
    var m := w.(index := MigrateOne(w.index, w.stored, k));
    MigrateOneKeepsReachableIff(w, k);
    assert forall a, c :: Holds(m, a, c) <==> Holds(w, a, c);
    forall a, c | Holds(w, a, c) && Legacy(c) != k
      ensures Found(m.index, c, a)
    {
      MigratingStaysInFamily(w.index, w.index, w.stored, Legacy(c), k);
      SameFamilySameFound(m.index, w.index, c, a);
    }
    assert Reachable(m) <==> forall a, c :: Holds(w, a, c) ==> Found(m.index, c, a);
  }

  // ----- A write -----

  /** Nobody else depends on the full key of a credential that the anchor gives up or takes. */
  ghost predicate WritesSafely(w: World, anchor: u64, credentials: seq<Key>) {
    forall b, c :: b != anchor && Holds(w, b, c) && (Holds(w, anchor, c) != (c in credentials)) ==>
        Points(w.index, Legacy(c), b)
  }

  lemma WriteKeepsReachableIff(w: World, anchor: u64, credentials: seq<Key>)
    requires Reachable(w) && AudiencesPresent(w) && AudiencesPresent(Write(w, anchor, credentials))
    ensures Reachable(Write(w, anchor, credentials)) <==> WritesSafely(w, anchor, credentials)
  {
    hide Write, Lookup;
    var m := Write(w, anchor, credentials);
    HeldAfterWrite(w, anchor, credentials);
    forall b, c | Holds(m, b, c)
      ensures Lookup(m.index, Legacy(c)) == Lookup(w.index, Legacy(c))
      ensures var before, after := Holds(w, anchor, c), c in credentials;
              Lookup(m.index,
                  c) == if after && !before then Some(anchor) else if before && !after then None else Lookup(w.index, c)
    {
      IndexedAfterWrite(w, anchor, credentials, c);
      IndexedAfterWrite(w, anchor, credentials, Legacy(c));
      assert !Holds(w, anchor, Legacy(c)) && !Holds(m, anchor, Legacy(c));
    }
    assert forall b, c :: b != anchor ==> (Holds(m, b, c) <==> Holds(w, b, c));
    if Reachable(m) {
      forall b, c | b != anchor && Holds(w, b, c) && (Holds(w, anchor, c) != (c in credentials))
        ensures Points(w.index, Legacy(c), b)
      {
        assert Holds(m, b, c);
      }
    }
  }

  // ----- Runs -----

  ghost predicate Safe(w: World, s: Step) {
    match s
    case Put(a, credentials) => WritesSafely(w, a, credentials)
    case Batch(_, keys) => forall k :: k in keys ==> MigratesSafely(w, k)
  }

  /** Batches collect legacy keys, and no stored credential is without an audience; nothing else is expected. */
  ghost predicate Proceeds(w: World, steps: seq<Step>) {
    if steps == [] then AudiencesPresent(w)
    else
      var init := steps[..|steps| - 1];
      Proceeds(w, init) && Enabled(After(w, init), steps[|steps| - 1]) && AudiencesPresent(After(w, steps))
  }

  ghost predicate AlwaysSafe(w: World, steps: seq<Step>) {
    steps == [] ||
    (var init := steps[..|steps| - 1];
     AlwaysSafe(w, init) && Safe(After(w, init), steps[|steps| - 1]))
  }

  ghost predicate AlwaysReachable(w: World, steps: seq<Step>) {
    Reachable(After(w, steps)) && (steps != [] ==> AlwaysReachable(w, steps[..|steps| - 1]))
  }

  lemma StepKeepsReachableIff(w: World, s: Step)
    requires Reachable(w) && AudiencesPresent(w) && AudiencesPresent(Apply(w, s)) && Enabled(w, s)
    ensures Reachable(Apply(w, s)) <==> Safe(w, s)
  {
    hide Write, MigrateAll, WritesSafely, MigratesSafely, Reachable, AudiencesPresent;
    match s
    case Put(a, credentials) => WriteKeepsReachableIff(w, a, credentials);
    case Batch(_, keys) => BatchKeepsReachableIff(w, keys);
  }

  /** Along a run every credential is reachable all the time exactly when every step is safe when it is taken. */
  lemma {:induction false} RunKeepsReachableIff(w: World, steps: seq<Step>)
    requires Reachable(w) && Proceeds(w, steps)
    ensures AlwaysReachable(w, steps) <==> AlwaysSafe(w, steps)
  {
    hide Apply, Reachable, Safe, Enabled, AudiencesPresent;
    if steps != [] {
      var init := steps[..|steps| - 1];
      RunKeepsReachableIff(w, init);
      if AlwaysReachable(w, init) {
        AudiencesAtEnd(w, init);
        StepKeepsReachableIff(After(w, init), steps[|steps| - 1]);
      }
    }
  }

  lemma AudiencesAtEnd(w: World, steps: seq<Step>)
    requires Proceeds(w, steps)
    ensures AudiencesPresent(After(w, steps))
  {
  }

  // ----- Credentials without an audience -----

  /** Anchor `a` has a credential without an audience before any other of that issuer and subject, and is the
      only one to hold it. */
  ghost predicate KeepsEmpty(w: World, a: u64, k: Key) {
    && FirstMatch(CredentialsOf(w.stored, a), k) == Some([])
    && (forall b :: b != a ==> !Holds(w, b, k))
  }

  ghost predicate AlwaysKeepsEmpty(w: World, steps: seq<Step>, a: u64, k: Key) {
    KeepsEmpty(After(w, steps), a, k) && (steps != [] ==> AlwaysKeepsEmpty(w, steps[..|steps| - 1], a, k))
  }

  ghost predicate BatchesLegacy(steps: seq<Step>) {
    forall i, k :: 0 <= i < |steps| && steps[i].Batch? && k in steps[i].keys ==> IsLegacy(k)
  }

  lemma StepKeepsEmpty(w: World, s: Step, a: u64, k: Key)
    requires IsLegacy(k) && Points(w.index, k, a) && KeepsEmpty(w, a, k) && KeepsEmpty(Apply(w, s), a, k)
    requires s.Batch? ==> forall x :: x in s.keys ==> IsLegacy(x)
    ensures Points(Apply(w, s).index, k, a)
  {
    match s
    case Put(b, credentials) =>
      HeldAfterWrite(w, b, credentials);
      IndexedAfterWrite(w, b, credentials, k);
      assert k == k.(aud := []);
      assert Holds(w, a, k) && Holds(Apply(w, s), a, k);
      assert b != a ==> !Holds(w, b, k) && !Holds(Apply(w, s), b, k);
    case Batch(_, keys) =>
      BatchByFamily(w.index, w.stored, keys, k);
      MigratedIsGoneIff(w.index, w.stored, k);
      assert Legacy(k) == k;
      SameFamilySameFound(MigrateAll(w.index, w.stored, keys), w.index, k, a);
  }

  /** However many batches run and whatever else is written, its legacy key stays in the index as long as the
      anchor keeps the credential. */
  lemma {:induction false} EmptyAudienceStays(w: World, steps: seq<Step>, a: u64, k: Key)
    requires IsLegacy(k) && Points(w.index, k, a) && AlwaysKeepsEmpty(w, steps, a, k) && BatchesLegacy(steps)
    ensures Points(After(w, steps).index, k, a) && k in Legacies(After(w, steps).index)
  {
    hide Apply, KeepsEmpty;
    if steps != [] {
      var init, last := steps[..|steps| - 1], steps[|steps| - 1];
      assert forall i :: 0 <= i < |init| ==> init[i] == steps[i];
      EmptyAudienceStays(w, init, a, k);
      assert KeepsEmpty(After(w, init), a, k);
      StepKeepsEmpty(After(w, init), last, a, k);
    }
  }
}
