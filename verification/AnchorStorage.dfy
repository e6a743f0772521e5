/** The storage of anchors with the indices that find them, updated in place whenever an anchor is written. */
module AnchorStorage {
  import opened Types
  import opened ReverseIndices
  import OpenId = OpenIdIndex
  import Reachability = OpenIdReachability

  const TWO_32: nat := 0x1_0000_0000

  /** 256 GiB in pages of 64 KiB, less one bucket of 128 pages, at 4096 bytes an entry. */
  const MAX_ENTRIES: nat := (0x40_0000 - 128) * 0x1_0000 / 4096

  /** The public key stands for the principal that is derived from it. */
  datatype Passkey = Passkey(pubkey: Key, credentialId: Key)

  datatype Anchor = Anchor(openIdCredentials: seq<OpenId.Key>, passkeys: seq<Passkey>, recoveryKeys: seq<Key>)

  function Pubkeys(passkeys: seq<Passkey>): set<Key> {
    set p | p in passkeys :: p.pubkey
  }

  function CredentialIds(passkeys: seq<Passkey>): set<Key> {
    set p | p in passkeys :: p.credentialId
  }

  function Principals(recoveryKeys: seq<Key>): set<Key> {
    set k | k in recoveryKeys
  }

  type Anchors = map<u64, Anchor>

  // What can be looked up, on the fields of the anchors.

  ghost predicate HasPubkey(passkeys: seq<Passkey>, k: Key) {
    exists p :: p in passkeys && p.pubkey == k
  }

  ghost predicate HasCredentialId(passkeys: seq<Passkey>, k: Key) {
    exists p :: p in passkeys && p.credentialId == k
  }

  /** Where a key leads after an anchor was written: nowhere, if the anchor was found by it and gave it up; to the
      anchor, if it was free and is added; otherwise where it led before. */
  ghost predicate LeadsAfter(before: Index, after: Index, anchor: u64, k: Key, givenUp: bool, added: bool) {
    && (k in after <==> (k in before && !(givenUp && before[k] == anchor)) || added)
    && (k in after ==> after[k] == if k in before then before[k] else anchor)
  }

  /** A pubkey is added when it is new to the anchor. */
  ghost predicate PubkeysLead(before: Index, after: Index, anchor: u64, previous: seq<Passkey>, current: seq<Passkey>) {
    forall k :: LeadsAfter(before, after, anchor, k, HasPubkey(previous, k) && !HasPubkey(current, k),
                           HasPubkey(current, k) && !HasPubkey(previous, k))
  }

  /** A credential id is added whenever the anchor has it, and so is a recovery key. */
  ghost predicate CredentialIdsLead(before: Index, after: Index, anchor: u64, previous: seq<Passkey>,
                                    current: seq<Passkey>)
  {
    forall k :: LeadsAfter(before, after, anchor, k, HasCredentialId(previous, k) && !HasCredentialId(current, k),
                           HasCredentialId(current, k))
  }

  ghost predicate RecoveryKeysLead(before: Index, after: Index, anchor: u64, previous: seq<Key>, current: seq<Key>) {
    forall k :: LeadsAfter(before, after, anchor, k, k in previous && k !in current, k in current)
  }

  /** An OpenID credential leads to the last anchor that added it, and nowhere once any anchor gave it up. */
  ghost predicate OpenIdsLead(before: OpenId.Index, after: OpenId.Index, anchor: u64, previous: seq<OpenId.Key>,
                              current: seq<OpenId.Key>)
  {
    forall k: OpenId.Key ::
      && (k in after <==> (k in current && k !in previous) || (k in before && !(k in previous && k !in current)))
      && (k in after ==> after[k] == if k in current && k !in previous then [anchor] else before[k])
  }

  /** Whatever can be looked up leads to an anchor that has it. */
  ghost predicate LeadToHolders(anchors: Anchors, pubkeys: Index, credentialIds: Index, recoveryPrincipals: Index,
                                openIds: OpenId.Index)
  {
    && (forall k :: k in pubkeys ==> pubkeys[k] in anchors && HasPubkey(anchors[pubkeys[k]].passkeys, k))
    && (forall k :: k in credentialIds ==>
          credentialIds[k] in anchors && HasCredentialId(anchors[credentialIds[k]].passkeys, k))
    && (forall k :: k in recoveryPrincipals ==>
          recoveryPrincipals[k] in anchors && k in anchors[recoveryPrincipals[k]].recoveryKeys)
    && (forall k :: k in openIds && k.aud != [] ==>
          openIds[k] != [] && openIds[k][0] in anchors && k in anchors[openIds[k][0]].openIdCredentials)
  }

  function PubkeysHeld(anchors: Anchors): map<u64, set<Key>> {
    map a | a in anchors :: Pubkeys(anchors[a].passkeys)
  }

  function CredentialIdsHeld(anchors: Anchors): map<u64, set<Key>> {
    map a | a in anchors :: CredentialIds(anchors[a].passkeys)
  }

  function PrincipalsHeld(anchors: Anchors): map<u64, set<Key>> {
    map a | a in anchors :: Principals(anchors[a].recoveryKeys)
  }

  function OpenIdsHeld(anchors: Anchors): map<u64, seq<OpenId.Key>> {
    map a | a in anchors :: anchors[a].openIdCredentials
  }

  function AnchorOrEmpty(anchors: Anchors, anchor: u64): Anchor {
    if anchor in anchors then anchors[anchor] else Anchor([], [], [])
  }

  lemma SyncedPubkeysLead(i: Index, anchor: u64, previous: seq<Passkey>, current: seq<Passkey>)
    ensures PubkeysLead(i, Sync(i, anchor, Pubkeys(previous), Pubkeys(current), AddNew), anchor, previous, current)
  {
    hide Sync;
    var after := Sync(i, anchor, Pubkeys(previous), Pubkeys(current), AddNew);
    forall k
      ensures LeadsAfter(i, after, anchor, k, HasPubkey(previous, k) && !HasPubkey(current, k),
                         HasPubkey(current, k) && !HasPubkey(previous, k))
    {
      assert HasPubkey(previous, k) <==> k in Pubkeys(previous);
      assert HasPubkey(current, k) <==> k in Pubkeys(current);
      SyncedLeads(i, anchor, Pubkeys(previous), Pubkeys(current), AddNew, k);
    }
  }

  lemma SyncedCredentialIdsLead(i: Index, anchor: u64, previous: seq<Passkey>, current: seq<Passkey>)
    ensures CredentialIdsLead(i, Sync(i, anchor, CredentialIds(previous), CredentialIds(current), AddAll), anchor,
                              previous, current)
  {
    hide Sync;
    var after := Sync(i, anchor, CredentialIds(previous), CredentialIds(current), AddAll);
    forall k
      ensures LeadsAfter(i, after, anchor, k, HasCredentialId(previous, k) && !HasCredentialId(current, k),
                         HasCredentialId(current, k))
    {
      assert HasCredentialId(previous, k) <==> k in CredentialIds(previous);
      assert HasCredentialId(current, k) <==> k in CredentialIds(current);
      SyncedLeads(i, anchor, CredentialIds(previous), CredentialIds(current), AddAll, k);
    }
  }

  lemma SyncedRecoveryKeysLead(i: Index, anchor: u64, previous: seq<Key>, current: seq<Key>)
    ensures RecoveryKeysLead(i, Sync(i, anchor, Principals(previous), Principals(current), AddAll), anchor,
                             previous, current)
  {
    hide Sync;
    var after := Sync(i, anchor, Principals(previous), Principals(current), AddAll);
    forall k
      ensures LeadsAfter(i, after, anchor, k, k in previous && k !in current, k in current)
    {
      SyncedLeads(i, anchor, Principals(previous), Principals(current), AddAll, k);
    }
  }

  lemma SyncedLeads(i: Index, anchor: u64, previous: set<Key>, current: set<Key>, policy: Policy, k: Key)
    ensures LeadsAfter(i, Sync(i, anchor, previous, current, policy), anchor, k, k in previous - current,
                       k in if policy.AddAll? then current else current - previous)
  {
  }

  /** Removing some keys and then setting others is a synchronization. */
  lemma SyncedInSteps(i: OpenId.Index, anchor: u64, before: set<OpenId.Key>, after: set<OpenId.Key>, j: OpenId.Index)
    requires j.Keys == (i - (before - after)).Keys + (after - before)
    requires forall k :: k in j ==> j[k] == if k in after - before then [anchor] else (i - (before - after))[k]
    ensures j == OpenId.Sync(i, anchor, before, after)
  {
  }

  lemma SyncedOpenIdsLead(i: OpenId.Index, anchor: u64, previous: seq<OpenId.Key>, current: seq<OpenId.Key>)
    ensures OpenIdsLead(i, OpenId.Sync(i, anchor, OpenId.KeySet(previous), OpenId.KeySet(current)), anchor, previous,
                        current)
  {
  }

  lemma SoundLeadsToHolders(anchors: Anchors, pubkeys: Index, credentialIds: Index, recoveryPrincipals: Index,
                            openIds: OpenId.Index)
    requires Sound(World(pubkeys, PubkeysHeld(anchors))) && Sound(World(credentialIds, CredentialIdsHeld(anchors)))
    requires Sound(World(recoveryPrincipals, PrincipalsHeld(anchors)))
    requires OpenId.Sound(OpenId.World(openIds, OpenIdsHeld(anchors)))
    ensures LeadToHolders(anchors, pubkeys, credentialIds, recoveryPrincipals, openIds)
  {
    forall k | k in pubkeys
      ensures pubkeys[k] in anchors && HasPubkey(anchors[pubkeys[k]].passkeys, k)
    {
      assert k in KeysOf(World(pubkeys, PubkeysHeld(anchors)), pubkeys[k]);
    }
    forall k | k in credentialIds
      ensures credentialIds[k] in anchors && HasCredentialId(anchors[credentialIds[k]].passkeys, k)
    {
      assert k in KeysOf(World(credentialIds, CredentialIdsHeld(anchors)), credentialIds[k]);
    }
  }

  // Synchronizing an index with the previous and the current anchor is a write to it.

  lemma PubkeysWritten(anchors: Anchors, anchor: u64, data: Anchor, i: Index)
    ensures World(Sync(i, anchor, Pubkeys(AnchorOrEmpty(anchors, anchor).passkeys), Pubkeys(data.passkeys), AddNew),
              PubkeysHeld(anchors[anchor := data]))
         == Write(World(i, PubkeysHeld(anchors)), anchor, Pubkeys(data.passkeys), AddNew)
  {
    hide Sync, Pubkeys;
    assert PubkeysHeld(anchors[anchor := data]) == PubkeysHeld(anchors)[anchor := Pubkeys(data.passkeys)];
    assert Pubkeys([]) == {} by { PubkeysOfNothing(); }
  }

  lemma PubkeysOfNothing()
    ensures Pubkeys([]) == {}
  {
  }

  lemma CredentialIdsWritten(anchors: Anchors, anchor: u64, data: Anchor, i: Index)
    ensures World(Sync(i, anchor, CredentialIds(AnchorOrEmpty(anchors, anchor).passkeys),
              CredentialIds(data.passkeys), AddAll), CredentialIdsHeld(anchors[anchor := data]))
         == Write(World(i, CredentialIdsHeld(anchors)), anchor, CredentialIds(data.passkeys), AddAll)
  {
    hide Sync, CredentialIds;
    assert CredentialIdsHeld(anchors[anchor := data]) == CredentialIdsHeld(anchors)[anchor := CredentialIds(data.passkeys)];
    assert CredentialIds([]) == {} by { CredentialIdsOfNothing(); }
  }

  lemma CredentialIdsOfNothing()
    ensures CredentialIds([]) == {}
  {
  }

  lemma PrincipalsWritten(anchors: Anchors, anchor: u64, data: Anchor, i: Index)
    ensures World(Sync(i, anchor, Principals(AnchorOrEmpty(anchors, anchor).recoveryKeys),
              Principals(data.recoveryKeys), AddAll), PrincipalsHeld(anchors[anchor := data]))
         == Write(World(i, PrincipalsHeld(anchors)), anchor, Principals(data.recoveryKeys), AddAll)
  {
    hide Sync, Principals;
    assert PrincipalsHeld(anchors[anchor := data]) == PrincipalsHeld(anchors)[anchor := Principals(data.recoveryKeys)];
    assert Principals([]) == {} by { PrincipalsOfNothing(); }
  }

  lemma PrincipalsOfNothing()
    ensures Principals([]) == {}
  {
  }

  lemma OpenIdsWritten(anchors: Anchors, anchor: u64, data: Anchor, i: OpenId.Index)
    ensures OpenId.World(OpenId.Sync(i, anchor, OpenId.KeySet(AnchorOrEmpty(anchors, anchor).openIdCredentials),
                                     OpenId.KeySet(data.openIdCredentials)), OpenIdsHeld(anchors[anchor := data]))
         == OpenId.Write(OpenId.World(i, OpenIdsHeld(anchors)), anchor, data.openIdCredentials)
  {
    hide OpenId.Sync;
    assert OpenIdsHeld(anchors[anchor := data]) == OpenIdsHeld(anchors)[anchor := data.openIdCredentials];
  }

  lemma CollectedPresent(index: OpenId.Index, size: nat, keys: seq<OpenId.Key>)
    requires OpenId.Collected(index, size, keys)
    ensures forall i :: 0 <= i < |keys| ==> keys[i] in index
    ensures forall k :: k in keys ==> OpenId.IsLegacy(k)
    ensures forall i, j :: 0 <= i < j < |keys| ==> keys[i] != keys[j]
  {
  }

  /** A key that was not migrated yet is found as it was when the batch began. */
  lemma NotMigratedYet(index: OpenId.Index, stored: map<u64, seq<OpenId.Key>>, keys: seq<OpenId.Key>, i: nat)
    requires i < |keys| && forall k :: k in keys ==> OpenId.IsLegacy(k)
    requires forall x, y :: 0 <= x < y < |keys| ==> keys[x] != keys[y]
    ensures var now := OpenId.MigrateAll(index, stored, keys[..i]);
            (keys[i] in now <==> keys[i] in index) && (keys[i] in now ==> now[keys[i]] == index[keys[i]])
  {
    Reachability.BatchByFamily(index, stored, keys[..i], keys[i]);
    assert OpenId.Legacy(keys[i]) == keys[i];
  }

  lemma NoOrphans(index: OpenId.Index, stored: map<u64, seq<OpenId.Key>>)
    ensures OpenId.Orphans(index, stored, []) == []
  {
  }

  lemma OrphansOneMore(index: OpenId.Index, stored: map<u64, seq<OpenId.Key>>, keys: seq<OpenId.Key>, i: nat)
    requires i < |keys| && keys[i] in index
    ensures OpenId.Orphans(index, stored, keys[..i + 1])
         == OpenId.Orphans(index, stored, keys[..i]) + if OpenId.Resolve(stored, index[keys[i]], keys[i])
             == None then [keys[i]] else []
  {
    assert keys[..i + 1][..i] == keys[..i];
  }

  /** An index after some of the keys to be removed were treated. */
  lemma RemoveOwnedOne(index: Index, anchor: u64, gone: set<Key>, k: Key)
    ensures var r := RemoveOwned(index, anchor, gone);
            RemoveOwned(index, anchor, gone + {k}) == if k in r && r[k] == anchor then r - {k} else r
  {
  }

  lemma AddFreeOne(index: Index, anchor: u64, keys: set<Key>, k: Key)
    ensures var r := AddFree(index, anchor, keys);
            AddFree(index, anchor, keys + {k}) == if k in r then r else r[k := anchor]
  {
  }

  datatype Error = OutOfRange | BadNumber | NotFound | Refused

  datatype Result<+T> = Ok(value: T) | Err(error: Error)

  class Storage {
    var lo: u64
    var hi: u64
    var count: nat
    var anchors: map<u64, Anchor>
    var pubkeys: Index
    var credentialIds: Index
    var recoveryPrincipals: Index
    var openIds: OpenId.Index

    ghost function PubkeyWorld(): World
      reads this
    {
      World(pubkeys, PubkeysHeld(anchors))
    }

    ghost function CredentialIdWorld(): World
      reads this
    {
      World(credentialIds, CredentialIdsHeld(anchors))
    }

    ghost function RecoveryWorld(): World
      reads this
    {
      World(recoveryPrincipals, PrincipalsHeld(anchors))
    }

    ghost function OpenIdWorld(): OpenId.World
      reads this
    {
      OpenId.World(openIds, OpenIdsHeld(anchors))
    }

    ghost predicate InRange()
      reads this
    {
      && lo <= hi && hi - lo <= MAX_ENTRIES && count <= hi - lo
      && (forall a :: a in anchors ==> lo <= a < hi && a - lo <= count)
    }

    /** The anchors are in the range; every index leads to anchors that hold what was looked up. */
    ghost predicate Valid()
      reads this
    {
      && InRange()
      && Sound(PubkeyWorld()) && Sound(CredentialIdWorld()) && Sound(RecoveryWorld())
      && OpenId.Sound(OpenIdWorld())
    }

    constructor (lo: u64, hi: u64)
      requires lo <= hi && hi - lo <= MAX_ENTRIES
      ensures Valid() && this.lo == lo && this.hi == hi && count == 0 && anchors == map[]
    {
      this.lo, this.hi, count, anchors := lo, hi, 0, map[];
      pubkeys, credentialIds, recoveryPrincipals, openIds := map[], map[], map[], map[];
    }

    function RecordNumber(anchor: u64): Option<nat>
      reads this
    {
      if anchor < lo || anchor >= hi then None else Some((anchor - lo) % TWO_32)
    }

    /** Whether a write is accepted: one past the allocated anchors is, so that an anchor can be written
        before it is allocated. */
    predicate Writable(anchor: u64)
      reads this
    {
      RecordNumber(anchor) != None && RecordNumber(anchor).value <= count
    }

    /** Keys the anchor gave up are removed unless they belong to another anchor; then the free ones of
        those to be added are. */
    static method Synchronize(index: Index, anchor: u64, previous: set<Key>, current: set<Key>,
                              policy: Policy) returns (r: Index)
      ensures r == Sync(index, anchor, previous, current, policy)
    {
      r := index;
      var left := previous - current;
      ghost var gone := previous - current;
      assert gone - left == {} && RemoveOwned(index, anchor, {}) == index;
      while left != {}
        invariant left <= gone && r == RemoveOwned(index, anchor, gone - left)
      {
        var k :| k in left;
        assert gone - (left - {k}) == (gone - left) + {k};
        RemoveOwnedOne(index, anchor, gone - left, k);
        if k in r && r[k] == anchor {
          r := r - {k};
        }
        left := left - {k};
      }
      assert gone - left == gone;
      left := if policy.AddAll? then current else current - previous;
      ghost var added := left;
      ghost var removed := r;
      assert added - left == {} && AddFree(removed, anchor, {}) == removed;
      while left != {}
        invariant left <= added && r == AddFree(removed, anchor, added - left)
      {
        var k :| k in left;
        assert added - (left - {k}) == (added - left) + {k};
        AddFreeOne(removed, anchor, added - left, k);
        if k !in r {
          r := r[k := anchor];
        }
        left := left - {k};
      }
      assert added - left == added;
    }

    method SyncPubkeys(anchor: u64, previous: seq<Passkey>, current: seq<Passkey>)
      modifies this`pubkeys
      ensures pubkeys == Sync(old(pubkeys), anchor, Pubkeys(previous), Pubkeys(current), AddNew)
      ensures PubkeysLead(old(pubkeys), pubkeys, anchor, previous, current)
    {
      hide Sync, Pubkeys, PubkeysLead;
      SyncedPubkeysLead(pubkeys, anchor, previous, current);
      pubkeys := Synchronize(pubkeys, anchor, Pubkeys(previous), Pubkeys(current), AddNew);
    }

    method SyncCredentialIds(anchor: u64, previous: seq<Passkey>, current: seq<Passkey>)
      modifies this`credentialIds
      ensures credentialIds == Sync(old(credentialIds), anchor, CredentialIds(previous), CredentialIds(current), AddAll)
      ensures CredentialIdsLead(old(credentialIds), credentialIds, anchor, previous, current)
    {
      hide Sync, CredentialIds, CredentialIdsLead;
      SyncedCredentialIdsLead(credentialIds, anchor, previous, current);
      credentialIds := Synchronize(credentialIds, anchor, CredentialIds(previous), CredentialIds(current), AddAll);
    }

    method SyncRecoveryPrincipals(anchor: u64, previous: seq<Key>, current: seq<Key>)
      modifies this`recoveryPrincipals
      ensures recoveryPrincipals == Sync(old(recoveryPrincipals), anchor, Principals(previous), Principals(current), AddAll)
      ensures RecoveryKeysLead(old(recoveryPrincipals), recoveryPrincipals, anchor, previous, current)
    {
      hide Sync, Principals, RecoveryKeysLead;
      SyncedRecoveryKeysLead(recoveryPrincipals, anchor, previous, current);
      recoveryPrincipals := Synchronize(recoveryPrincipals, anchor, Principals(previous), Principals(current), AddAll);
    }

    /** OpenID keys are removed and overwritten whomever they belong to. */
    method SyncOpenIds(anchor: u64, previous: seq<OpenId.Key>, current: seq<OpenId.Key>)
      modifies this`openIds
      ensures openIds == OpenId.Sync(old(openIds), anchor, OpenId.KeySet(previous), OpenId.KeySet(current))
      ensures OpenIdsLead(old(openIds), openIds, anchor, previous, current)
    {
      hide OpenIdsLead, OpenId.KeySet, OpenId.Sync;
      SyncedOpenIdsLead(openIds, anchor, previous, current);
      var before := OpenId.KeySet(previous);
      var after := OpenId.KeySet(current);
      var left := before - after;
      ghost var start := openIds;
      while left != {}
        invariant left <= before - after && openIds == start - ((before - after) - left)
      {
        var k :| k in left;
        openIds := openIds - {k};
        left := left - {k};
      }
      left := after - before;
      ghost var rest := openIds;
      while left != {}
        invariant left <= after - before
        invariant openIds.Keys == rest.Keys + ((after - before) - left)
        invariant forall k :: k in openIds ==> openIds[k] == if k in (after - before) - left then [anchor] else rest[k]
      {
        var k :| k in left;
        openIds := openIds[k := [anchor]];
        left := left - {k};
      }
      SyncedInSteps(start, anchor, before, after, openIds);
    }

    /** Stores an anchor and synchronizes the indices with it, one after the other. */
    method Store(anchor: u64, data: Anchor)
      modifies this`anchors, this`pubkeys, this`credentialIds, this`recoveryPrincipals, this`openIds
      ensures anchors == old(anchors)[anchor := data]
      ensures PubkeyWorld() == ReverseIndices.Write(old(PubkeyWorld()), anchor, Pubkeys(data.passkeys), AddNew)
      ensures CredentialIdWorld() == ReverseIndices.Write(old(CredentialIdWorld()), anchor,
                CredentialIds(data.passkeys), AddAll)
      ensures RecoveryWorld() == ReverseIndices.Write(old(RecoveryWorld()), anchor, Principals(data.recoveryKeys), AddAll)
      ensures OpenIdWorld() == OpenId.Write(old(OpenIdWorld()), anchor, data.openIdCredentials)
      ensures var was := old(AnchorOrEmpty(anchors, anchor));
              && PubkeysLead(old(pubkeys), pubkeys, anchor, was.passkeys, data.passkeys)
              && CredentialIdsLead(old(credentialIds), credentialIds, anchor, was.passkeys, data.passkeys)
              && RecoveryKeysLead(old(recoveryPrincipals), recoveryPrincipals, anchor, was.recoveryKeys, data.recoveryKeys)
              && OpenIdsLead(old(openIds), openIds, anchor, was.openIdCredentials, data.openIdCredentials)
    {
      hide PubkeysLead, CredentialIdsLead, RecoveryKeysLead, OpenIdsLead, Sync, OpenId.Sync, Pubkeys, CredentialIds,
           Principals, PubkeysHeld, CredentialIdsHeld, PrincipalsHeld, OpenIdsHeld, ReverseIndices.Write, OpenId.Write,
           OpenId.KeySet, AnchorOrEmpty;
      PubkeysWritten(anchors, anchor, data, pubkeys);
      CredentialIdsWritten(anchors, anchor, data, credentialIds);
      PrincipalsWritten(anchors, anchor, data, recoveryPrincipals);
      OpenIdsWritten(anchors, anchor, data, openIds);
      var previous := AnchorOrEmpty(anchors, anchor);
      anchors := anchors[anchor := data];
      SyncOpenIds(anchor, previous.openIdCredentials, data.openIdCredentials);
      SyncRecoveryPrincipals(anchor, previous.recoveryKeys, data.recoveryKeys);
      SyncCredentialIds(anchor, previous.passkeys, data.passkeys);
      SyncPubkeys(anchor, previous.passkeys, data.passkeys);
    }

    /** Stores an anchor and brings all four indices up to date, or refuses and changes nothing. */
    method Write(anchor: u64, data: Anchor) returns (r: Result<()>)
      modifies this`anchors, this`pubkeys, this`credentialIds, this`recoveryPrincipals, this`openIds
      ensures r.Ok? <==> Writable(anchor)
      ensures old(InRange()) ==>
                && (r.Ok? <==> lo <= anchor < hi && anchor <= lo + count)
                && (r == Err(OutOfRange) <==> anchor < lo || hi <= anchor)
                && (r == Err(BadNumber) <==> lo + count < anchor < hi)
      ensures r.Err? ==> anchors == old(anchors) && pubkeys == old(pubkeys) && credentialIds == old(credentialIds) &&
                         recoveryPrincipals == old(recoveryPrincipals) && openIds == old(openIds)
      ensures r.Ok? ==> anchors == old(anchors)[anchor := data]
      ensures r.Ok? ==> PubkeyWorld() == ReverseIndices.Write(old(PubkeyWorld()), anchor, Pubkeys(data.passkeys), AddNew)
      ensures r.Ok? ==> CredentialIdWorld() == ReverseIndices.Write(old(CredentialIdWorld()), anchor,
                CredentialIds(data.passkeys), AddAll)
      ensures r.Ok? ==> RecoveryWorld() == ReverseIndices.Write(old(RecoveryWorld()), anchor,
                Principals(data.recoveryKeys), AddAll)
      ensures r.Ok? ==> OpenIdWorld() == OpenId.Write(old(OpenIdWorld()), anchor, data.openIdCredentials)
      ensures r.Ok? ==>
              var was := old(AnchorOrEmpty(anchors, anchor));
              && PubkeysLead(old(pubkeys), pubkeys, anchor, was.passkeys, data.passkeys)
              && CredentialIdsLead(old(credentialIds), credentialIds, anchor, was.passkeys, data.passkeys)
              && RecoveryKeysLead(old(recoveryPrincipals), recoveryPrincipals, anchor, was.recoveryKeys, data.recoveryKeys)
              && OpenIdsLead(old(openIds), openIds, anchor, was.openIdCredentials, data.openIdCredentials)
      ensures old(Valid()) ==> Valid() && LeadToHolders(anchors, pubkeys, credentialIds, recoveryPrincipals, openIds)
    {
      hide PubkeysLead, CredentialIdsLead, RecoveryKeysLead, OpenIdsLead, LeadToHolders, AnchorOrEmpty, Sound,
           OpenId.Sound, PubkeysHeld, CredentialIdsHeld, PrincipalsHeld, OpenIdsHeld, Pubkeys, CredentialIds,
           Principals, ReverseIndices.Write, OpenId.Write;
      var record := RecordNumber(anchor);
      if Valid() {
        SoundLeadsToHolders(anchors, pubkeys, credentialIds, recoveryPrincipals, openIds);
      }
      if record == None {
        return Err(OutOfRange);
      }
      if record.value > count {
        return Err(BadNumber);
      }
      ghost var valid := Valid();
      if valid {
        WriteKeepsSound(PubkeyWorld(), anchor, Pubkeys(data.passkeys), AddNew);
        WriteKeepsSound(CredentialIdWorld(), anchor, CredentialIds(data.passkeys), AddAll);
        WriteKeepsSound(RecoveryWorld(), anchor, Principals(data.recoveryKeys), AddAll);
        OpenId.WriteKeepsSound(OpenIdWorld(), anchor, data.openIdCredentials);
      }
      Store(anchor, data);
      if valid {
        SoundLeadsToHolders(anchors, pubkeys, credentialIds, recoveryPrincipals, openIds);
      }
      r := Ok(());
    }

    /** An anchor can be read when its number was allocated. */
    method Read(anchor: u64) returns (r: Result<Anchor>)
      ensures r.Ok? <==> RecordNumber(anchor) != None && RecordNumber(anchor).value < count && anchor in anchors
      ensures r.Ok? ==> r.value == anchors[anchor]
      ensures InRange() ==>
                && (r.Ok? <==> lo <= anchor < lo + count && anchor in anchors)
                && (r == Err(OutOfRange) <==> anchor < lo || hi <= anchor)
                && (r == Err(BadNumber) <==> lo + count <= anchor < hi)
    {
      var record := RecordNumber(anchor);
      if record == None {
        return Err(OutOfRange);
      }
      if record.value >= count {
        return Err(BadNumber);
      }
      if anchor !in anchors {
        return Err(NotFound);
      }
      r := Ok(anchors[anchor]);
    }

    /** Allocates the next number; its anchor is written later. */
    method AllocateAnchor() returns (anchor: Option<u64>)
      requires Valid()
      modifies this`count
      ensures Valid()
      ensures anchor == if lo + old(count) < hi then Some(lo + old(count)) else None
      ensures count == if anchor == None then old(count) else old(count) + 1
    {
      hide Sound, OpenId.Sound;
      if lo + count >= hi {
        return None;
      }
      anchor := Some(lo + count);
      count := count + 1;
    }

    /** Writes a new anchor before its number is allocated; `prepared` is what the caller made of it, if
        that succeeded. A new anchor can be read afterwards; otherwise nothing happened. */
    method AllocateAnchorSafe(prepared: Option<Anchor>) returns (r: Result<u64>)
      requires Valid()
      modifies this
      ensures Valid() && lo == old(lo) && hi == old(hi)
      ensures r.Ok? <==> old(lo) + old(count) < old(hi) && prepared != None
      ensures r == Err(OutOfRange) <==> old(lo) + old(count) >= old(hi)
      ensures r == Err(Refused) <==> old(lo) + old(count) < old(hi) && prepared == None
      ensures r.Ok? ==> r.value == old(lo) + old(count) && count == old(count) + 1
      ensures r.Ok? ==> RecordNumber(r.value) == Some(old(count)) && anchors == old(anchors)[r.value := prepared.value]
      ensures r.Ok? ==>
              var was := old(AnchorOrEmpty(anchors, lo + count));
              && PubkeysLead(old(pubkeys), pubkeys, r.value, was.passkeys, prepared.value.passkeys)
              && CredentialIdsLead(old(credentialIds), credentialIds, r.value, was.passkeys, prepared.value.passkeys)
              && RecoveryKeysLead(old(recoveryPrincipals), recoveryPrincipals, r.value, was.recoveryKeys,
                                  prepared.value.recoveryKeys)
              && OpenIdsLead(old(openIds), openIds, r.value, was.openIdCredentials, prepared.value.openIdCredentials)
      ensures r.Err? ==> count == old(count) && anchors == old(anchors) && pubkeys == old(pubkeys) &&
                         credentialIds == old(credentialIds) && recoveryPrincipals == old(recoveryPrincipals) &&
                             openIds == old(openIds)
    {
      hide PubkeysLead, CredentialIdsLead, RecoveryKeysLead, OpenIdsLead, LeadToHolders, AnchorOrEmpty, Sound,
           OpenId.Sound, PubkeysHeld, CredentialIdsHeld, PrincipalsHeld, OpenIdsHeld, ReverseIndices.Write, OpenId.Write;
      if lo + count >= hi {
        return Err(OutOfRange);
      }
      if prepared == None {
        return Err(Refused);
      }
      var anchor := lo + count;
      var written := Write(anchor, prepared.value);
      assert written.Ok?;
      count := count + 1;
      r := Ok(anchor);
    }

    /** Up to `size` legacy keys. Which come first is left open. */
    method CollectLegacies(size: nat) returns (keys: seq<OpenId.Key>)
      ensures OpenId.Collected(openIds, size, keys)
    {
      keys := [];
      var left := OpenId.Legacies(openIds);
      while left != {} && |keys| < size
        invariant left <= OpenId.Legacies(openIds) && |left| + |keys| == |OpenId.Legacies(openIds)|
        invariant |keys| <= size
        invariant forall i :: 0 <= i < |keys| ==> keys[i] in OpenId.Legacies(openIds) && keys[i] !in left
        invariant forall i, j :: 0 <= i < j < |keys| ==> keys[i] != keys[j]
      {
        var k :| k in left;
        keys := keys + [k];
        left := left - {k};
      }
    }

    /** Replaces one legacy key, or drops it when its first anchor has no credential for it. */
    method MigrateKey(k: OpenId.Key) returns (migrated: bool)
      requires k in openIds
      modifies this`openIds
      ensures openIds == OpenId.MigrateOne(old(openIds), OpenIdsHeld(anchors), k)
      ensures migrated <==> OpenId.Resolve(OpenIdsHeld(anchors), old(openIds)[k], k) != None
      ensures old(Valid()) && OpenId.IsLegacy(k) ==> Valid()
    {
      hide Sound, OpenId.Sound, PubkeysHeld, CredentialIdsHeld, PrincipalsHeld;
      if Valid() && OpenId.IsLegacy(k) {
        OpenId.MigrateOneKeepsSound(OpenIdWorld(), k);
      }
      var list := openIds[k];
      openIds := openIds - {k};
      var aud: Option<Bytes> := None;
      if list != [] && list[0] in anchors {
        aud := FindAudience(anchors[list[0]].openIdCredentials, k);
      }
      if aud != None {
        openIds := openIds[k.(aud := aud.value) := list];
      }
      migrated := aud != None;
    }

    /** The second phase of a batch: one collected key after the other. */
    method MigrateKeys(keys: seq<OpenId.Key>) returns (processed: nat, errors: seq<OpenId.Key>)
      requires forall k :: k in keys ==> OpenId.IsLegacy(k)
      requires forall i :: 0 <= i < |keys| ==> keys[i] in openIds
      requires forall i, j :: 0 <= i < j < |keys| ==> keys[i] != keys[j]
      modifies this`openIds
      ensures openIds == OpenId.MigrateAll(old(openIds), OpenIdsHeld(anchors), keys)
      ensures errors == OpenId.Orphans(old(openIds), OpenIdsHeld(anchors), keys) && processed == |keys| - |errors|
    {
      hide OpenId.MigrateOne, OpenId.Resolve, OpenIdsHeld, OpenId.Orphans;
      processed, errors := 0, [];
      ghost var start, held := openIds, OpenIdsHeld(anchors);
      NoOrphans(start, held);
      for i := 0 to |keys|
        invariant processed + |errors| == i
        invariant openIds == OpenId.MigrateAll(start, held, keys[..i])
        invariant errors == OpenId.Orphans(start, held, keys[..i])
      {
        assert keys[..i + 1][..i] == keys[..i];
        NotMigratedYet(start, held, keys, i);
        OrphansOneMore(start, held, keys, i);
        var migrated := MigrateKey(keys[i]);
        if migrated {
          processed := processed + 1;
        } else {
          errors := errors + [keys[i]];
        }
      }
      assert keys[..|keys|] == keys;
    }

    /** One batch of the migration. */
    method MigrateBatch(size: nat) returns (isDone: bool, processed: nat, errors: seq<OpenId.Key>,
                        ghost keys: seq<OpenId.Key>)
      modifies this`openIds
      ensures OpenId.Collected(old(openIds), size, keys)
      ensures openIds == OpenId.MigrateAll(old(openIds), OpenIdsHeld(anchors), keys)
      ensures isDone == OpenId.IsDone(size, |keys|)
      ensures isDone <==> size == 0 || |OpenId.Legacies(old(openIds))| < size
      ensures errors == OpenId.Orphans(old(openIds), OpenIdsHeld(anchors), keys) && processed == |keys| - |errors|
      ensures old(Valid()) ==> Valid()
    {
      hide OpenId.Legacies, OpenIdsHeld, Sound, OpenId.Sound, PubkeysHeld, CredentialIdsHeld, PrincipalsHeld;
      if size == 0 {
        return true, 0, [], [];
      }
      var collected := CollectLegacies(size);
      keys := collected;
      CollectedPresent(openIds, size, keys);
      if Valid() {
        OpenId.BatchKeepsSound(OpenIdWorld(), keys);
      }
      processed, errors := MigrateKeys(collected);
      isDone := |collected| < size;
    }

    static method FindAudience(credentials: seq<OpenId.Key>, k: OpenId.Key) returns (aud: Option<Bytes>)
      ensures aud == OpenId.FirstMatch(credentials, k)
    {
      var i := 0;
      while i < |credentials|
        invariant i <= |credentials| && credentials[0..] == credentials
        invariant OpenId.FirstMatch(credentials[i..], k) == OpenId.FirstMatch(credentials, k)
      {
        if credentials[i].iss == k.iss && credentials[i].sub == k.sub {
          return Some(credentials[i].aud);
        }
        assert credentials[i..][1..] == credentials[i + 1..];
        i := i + 1;
      }
      aud := None;
    }
  }
}
