/** The indices that find an anchor by passkey pubkey, recovery principal or credential id. Each maps a key
    to one anchor and is brought up to date whenever an anchor is written. */
module ReverseIndices {
  import opened Types

  /** A principal or a credential id. */
  type Key = Bytes

  type Index = map<Key, u64>

  function RemoveOwned(index: Index, anchor: u64, gone: set<Key>): Index {
    map k | k in index && !(k in gone && index[k] == anchor) :: index[k]
  }

  function AddFree(index: Index, anchor: u64, keys: set<Key>): Index {
    map k | k in index.Keys + keys :: if k in index then index[k] else anchor
  }

  /** Pubkeys are synchronized by the difference in both directions. The other two indices try to add all
      current keys, those the anchor had before included. */
  datatype Policy = AddNew | AddAll

  function Sync(index: Index, anchor: u64, previous: set<Key>, current: set<Key>, policy: Policy): Index {
    AddFree(RemoveOwned(index, anchor, previous - current), anchor, if policy.AddAll? then current else current - previous)
  }

  // ----- Index and stored anchors -----

  datatype World = World(index: Index, held: map<u64, set<Key>>)

  function KeysOf(w: World, anchor: u64): set<Key> {
    if anchor in w.held then w.held[anchor] else {}
  }

  function Write(w: World, anchor: u64, keys: set<Key>, policy: Policy): World {
    World(Sync(w.index, anchor, KeysOf(w, anchor), keys, policy), w.held[anchor := keys])
  }

  /** An indexed key is held by the anchor it names. */
  ghost predicate Sound(w: World) {
    forall k :: k in w.index ==> k in KeysOf(w, w.index[k])
  }

  ghost predicate Complete(w: World) {
    forall a, k :: k in KeysOf(w, a) ==> k in w.index
  }

  ghost predicate Disjoint(w: World) {
    forall a, b, k :: k in KeysOf(w, a) && k in KeysOf(w, b) ==> a == b
  }

  /** The index is the inverse of the stored anchors. */
  ghost predicate Exact(w: World) {
    forall a, k :: k in KeysOf(w, a) <==> k in w.index && w.index[k] == a
  }

  ghost predicate HeldElsewhere(w: World, anchor: u64, k: Key) {
    exists b :: b != anchor && k in KeysOf(w, b)
  }

  lemma ExactIffCompleteAndDisjoint(w: World)
    ensures Exact(w) <==> Sound(w) && Complete(w) && Disjoint(w)
  {
    if Sound(w) && Complete(w) && Disjoint(w) {
      forall a, k
        ensures k in KeysOf(w, a) <==> k in w.index && w.index[k] == a
      {
        if k in KeysOf(w, a) {
          assert k in KeysOf(w, w.index[k]);
        }
      }
    }
    if Exact(w) {
      assert Sound(w);
      forall a, b, k | k in KeysOf(w, a) && k in KeysOf(w, b)
        ensures a == b
      {
        assert w.index[k] == a;
      }
    }
  }

  /** Where a key points after a write. */
  lemma Indexed(w: World, anchor: u64, keys: set<Key>, policy: Policy, k: Key)
    ensures var m := Write(w, anchor, keys, policy).index;
            var dropped := k in w.index && w.index[k] == anchor && k in KeysOf(w, anchor) && k !in keys;
            var added := k in keys && (policy.AddAll? || k !in KeysOf(w, anchor));
            && (k in m <==> (k in w.index && !dropped) || added)
            && (k in m ==> m[k] == if k in w.index then w.index[k] else anchor)
  {
  }

  /** Whatever the anchors held before and share now. */
  lemma WriteKeepsSound(w: World, anchor: u64, keys: set<Key>, policy: Policy)
    requires Sound(w)
    ensures Sound(Write(w, anchor, keys, policy))
  {
    var m := Write(w, anchor, keys, policy);
    forall k | k in m.index
      ensures k in KeysOf(m, m.index[k])
    {
      Indexed(w, anchor, keys, policy, k);
    }
  }

  /** Nobody can take a key from the anchor it is indexed for. */
  lemma WriteKeepsOthers(w: World, anchor: u64, keys: set<Key>, policy: Policy, k: Key)
    requires k in w.index && w.index[k] != anchor
    ensures k in Write(w, anchor, keys, policy).index && Write(w, anchor, keys, policy).index[k] == w.index[k]
  {
    Indexed(w, anchor, keys, policy, k);
  }

  /** A write loses a key exactly when it gives up one that it is indexed for and another anchor holds too. */
  lemma WriteKeepsCompleteIff(w: World, anchor: u64, keys: set<Key>, policy: Policy)
    requires Sound(w) && Complete(w)
    ensures Complete(Write(w, anchor, keys, policy)) <==>
            forall k :: k in KeysOf(w, anchor) - keys && w.index[k] == anchor ==> !HeldElsewhere(w, anchor, k)
  {
    var m := Write(w, anchor, keys, policy);
    forall k
      ensures k in KeysOf(w, anchor) - keys && w.index[k] == anchor ==> k !in m.index
      ensures k in w.index && !(k in KeysOf(w, anchor) - keys && w.index[k] == anchor) ==> k in m.index
      ensures k in keys && k !in w.index ==> k in m.index
    {
      Indexed(w, anchor, keys, policy, k);
    }
    assert forall b :: b != anchor ==> KeysOf(m, b) == KeysOf(w, b);
    if Complete(m) {
      forall k | k in KeysOf(w, anchor) - keys && w.index[k] == anchor
        ensures !HeldElsewhere(w, anchor, k)
      {
        assert k !in m.index;
      }
    } else {
      var b, k :| k in KeysOf(m, b) && k !in m.index;
      assert b != anchor && HeldElsewhere(w, anchor, k);
    }
  }

  /** From an exact index, a write leads to an exact index exactly when the anchor takes no key of another. */
  lemma WriteKeepsExactIff(w: World, anchor: u64, keys: set<Key>, policy: Policy)
    requires Exact(w)
    ensures Exact(Write(w, anchor, keys, policy)) <==> forall k :: k in keys ==> !HeldElsewhere(w, anchor, k)
  {
    var m := Write(w, anchor, keys, policy);
    ExactIffCompleteAndDisjoint(w);
    ExactIffCompleteAndDisjoint(m);
    WriteKeepsSound(w, anchor, keys, policy);
    WriteKeepsCompleteIff(w, anchor, keys, policy);
    assert forall b :: b != anchor ==> KeysOf(m, b) == KeysOf(w, b);
    if k :| k in keys && HeldElsewhere(w, anchor, k) {
      var b :| b != anchor && k in KeysOf(w, b);
      assert k in KeysOf(m, anchor) && k in KeysOf(m, b);
    }
  }

  // ----- Runs of writes -----

  datatype Put = Put(anchor: u64, keys: set<Key>)

  const NOTHING: World := World(map[], map[])

  function After(puts: seq<Put>, policy: Policy): World {
    if puts == [] then NOTHING
    else Write(After(puts[..|puts| - 1], policy), puts[|puts| - 1].anchor, puts[|puts| - 1].keys, policy)
  }

  lemma {:induction false} RunsAreSound(puts: seq<Put>, policy: Policy)
    ensures Sound(After(puts, policy))
  {
    if puts != [] {
      var last := puts[|puts| - 1];
      RunsAreSound(puts[..|puts| - 1], policy);
      WriteKeepsSound(After(puts[..|puts| - 1], policy), last.anchor, last.keys, policy);
    }
  }

  /** What the anchors hold does not depend on the index. */
  function HeldAfter(puts: seq<Put>): map<u64, set<Key>> {
    if puts == [] then map[] else HeldAfter(puts[..|puts| - 1])[puts[|puts| - 1].anchor := puts[|puts| - 1].keys]
  }

  /** No two anchors hold the same key at any time. */
  ghost predicate NeverShared(puts: seq<Put>) {
    forall i :: 0 <= i <= |puts| ==> Disjoint(World(map[], HeldAfter(puts[..i])))
  }

  lemma {:induction false} RunsHold(puts: seq<Put>, policy: Policy)
    ensures After(puts, policy).held == HeldAfter(puts)
  {
    if puts != [] {
      RunsHold(puts[..|puts| - 1], policy);
    }
  }

  /** Along the whole run the index is exact, as long as no key is shared. */
  lemma {:induction false} RunsAreExact(puts: seq<Put>, policy: Policy)
    requires NeverShared(puts)
    ensures Exact(After(puts, policy))
  {
    if puts != [] {
      var init := puts[..|puts| - 1];
      var last := puts[|puts| - 1];
      assert forall i :: 0 <= i <= |init| ==> init[..i] == puts[..i];
      RunsAreExact(init, policy);
      RunsHold(init, policy);
      RunsHold(puts, policy);
      assert puts[..|puts|] == puts;
      var w := After(init, policy);
      var m := After(puts, policy);
      forall k | k in last.keys
        ensures !HeldElsewhere(w, last.anchor, k)
      {
        SharedIsSeen(m, World(map[], HeldAfter(puts)), w, last.anchor, k);
      }
      WriteKeepsExactIff(w, last.anchor, last.keys, policy);
    }
  }

  lemma SharedIsSeen(m: World, bare: World, w: World, anchor: u64, k: Key)
    requires m.held == bare.held && Disjoint(bare) && anchor in m.held && k in m.held[anchor]
    requires forall b :: b != anchor ==> KeysOf(m, b) == KeysOf(w, b)
    ensures !HeldElsewhere(w, anchor, k)
  {
    assert k in KeysOf(bare, anchor);
    forall b | b != anchor
      ensures k !in KeysOf(w, b)
    {
      assert KeysOf(bare, b) == KeysOf(m, b);
    }
  }

  // ----- Recovering from keys that were shared -----

  /** Writing the anchors of `order` once more with what they hold. */
  function Rewritten(w: World, order: seq<u64>, policy: Policy): World {
    if order == [] then w
    else
      var r := Rewritten(w, order[..|order| - 1], policy);
      Write(r, order[|order| - 1], KeysOf(r, order[|order| - 1]), policy)
  }

  lemma RewritingOne(r: World, anchor: u64)
    ensures var s := Write(r, anchor, KeysOf(r, anchor), AddAll);
            && (Sound(r) ==> Sound(s))
            && (forall a :: KeysOf(s, a) == KeysOf(r, a))
            && r.index.Keys + KeysOf(r, anchor) <= s.index.Keys
  {
    var s := Write(r, anchor, KeysOf(r, anchor), AddAll);
    if Sound(r) {
      WriteKeepsSound(r, anchor, KeysOf(r, anchor), AddAll);
    }
    forall k | k in r.index.Keys + KeysOf(r, anchor)
      ensures k in s.index
    {
      Indexed(r, anchor, KeysOf(r, anchor), AddAll, k);
    }
  }

  lemma {:induction false} RewritingIndexes(w: World, order: seq<u64>)
    requires Sound(w)
    ensures var r := Rewritten(w, order, AddAll);
            && Sound(r)
            && (forall a :: KeysOf(r, a) == KeysOf(w, a))
            && (forall a :: a in order ==> KeysOf(w, a) <= r.index.Keys)
  {
    hide Write, Sound, KeysOf;
    if order != [] {
      var init := order[..|order| - 1];
      RewritingIndexes(w, init);
      RewritingOne(Rewritten(w, init, AddAll), order[|order| - 1]);
      assert order == init + [order[|order| - 1]];
    }
  }

  /** Recovery principals and credential ids: however keys were shared before, once they are not, writing
      every anchor again makes the index exact. */
  lemma RewritingHeals(w: World, order: seq<u64>)
    requires Sound(w) && Disjoint(w) && forall a :: a in w.held ==> a in order
    ensures Exact(Rewritten(w, order, AddAll))
  {
    var r := Rewritten(w, order, AddAll);
    RewritingIndexes(w, order);
    assert forall a, k :: k in KeysOf(w, a) ==> a in order;
    ExactIffCompleteAndDisjoint(r);
  }

  /** Pubkeys: writing an anchor again changes nothing, so what is missing stays missing. */
  lemma {:induction false} RewritingPubkeysHealsNothing(w: World, order: seq<u64>)
    ensures Rewritten(w, order, AddNew).index == w.index
    ensures forall a :: KeysOf(Rewritten(w, order, AddNew), a) == KeysOf(w, a)
  {
    if order != [] {
      var last := order[|order| - 1];
      RewritingPubkeysHealsNothing(w, order[..|order| - 1]);
      var r := Rewritten(w, order[..|order| - 1], AddNew);
      assert KeysOf(r, last) - KeysOf(r, last) == {};
      assert Sync(r.index, last, KeysOf(r, last), KeysOf(r, last), AddNew) == r.index;
    }
  }

  /** So for pubkeys rewriting leads to an exact index exactly when the index was exact before. */
  lemma RewritingPubkeysHealsIff(w: World, order: seq<u64>)
    ensures Exact(Rewritten(w, order, AddNew)) <==> Exact(w)
  {
    RewritingPubkeysHealsNothing(w, order);
  }

  /** And that happens: an anchor adds the pubkey of another, which then gives it up. No pubkey is shared any
      more, but the one left cannot be found. */
  lemma SharedPubkeyIsLost(a: u64, b: u64, k: Key)
    requires a != b
    ensures var w := After([Put(a, {k}), Put(b, {k}), Put(a, {})], AddNew);
            Disjoint(w) && k in KeysOf(w, b) && k !in w.index && !Exact(w)
  {
    AfterOneMore([], Put(a, {k}), AddNew);
    AfterOneMore([Put(a, {k})], Put(b, {k}), AddNew);
    AfterOneMore([Put(a, {k}), Put(b, {k})], Put(a, {}), AddNew);
    assert [] + [Put(a, {k})] == [Put(a, {k})];
    assert [Put(a, {k})] + [Put(b, {k})] == [Put(a, {k}), Put(b, {k})];
    assert [Put(a, {k}), Put(b, {k})] + [Put(a, {})] == [Put(a, {k}), Put(b, {k}), Put(a, {})];
    var w1 := Write(NOTHING, a, {k}, AddNew);
    Indexed(NOTHING, a, {k}, AddNew, k);
    var w2 := Write(w1, b, {k}, AddNew);
    Indexed(w1, b, {k}, AddNew, k);
    var w3 := Write(w2, a, {}, AddNew);
    Indexed(w2, a, {}, AddNew, k);
    ExactIffCompleteAndDisjoint(w3);
    assert k in KeysOf(w3, b);
  }

  lemma AfterOneMore(puts: seq<Put>, p: Put, policy: Policy)
    ensures After(puts + [p], policy) == Write(After(puts, policy), p.anchor, p.keys, policy)
  {
    assert (puts + [p])[..|puts|] == puts;
  }
}
