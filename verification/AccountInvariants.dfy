/** What every run of the public account operations keeps: the counters count what is stored, every
    account number is referenced exactly once, defaults can be read, and no anchor exceeds its limit. */
module AccountInvariants {
  import opened Types
  import opened AccountLedger

  type Lists = map<Slot, seq<Reference>>

  // ----- The invariant -----

  /** The reference at a position of the lists. */
  predicate IsAt(lists: Lists, s: Slot, i: nat, n: nat) {
    s in lists && i < |lists[s]| && lists[s][i].accountNumber == Some(n)
  }

  predicate NoNumberAt(refs: seq<Reference>, i: nat) {
    i < |refs| && refs[i].accountNumber == None
  }

  ghost predicate OneDefault(refs: seq<Reference>) {
    forall i: nat, j: nat :: NoNumberAt(refs, i) && NoNumberAt(refs, j) ==> i == j
  }

  /** Application numbers are handed out in sequence, one per origin. */
  ghost predicate ApplicationsNumbered(l: Ledger) {
    && (forall p :: p in l.applications <==> 0 <= p < |l.applicationNumbers|)
    && (forall o :: o in l.applicationNumbers ==>
          l.applicationNumbers[o] in l.applications && l.applications[l.applicationNumbers[o]].origin == o)
  }

  /** Account numbers are handed out in sequence, and each is referenced at exactly one position. */
  ghost predicate NumbersReferencedOnce(l: Ledger) {
    && (forall n :: n in l.accounts <==> 1 <= n <= l.total.accounts)
    && (forall n :: n in l.accounts ==> exists s, i: nat :: IsAt(l.lists, s, i, n))
    && (forall s, i: nat, n: nat :: IsAt(l.lists, s, i, n) ==> n in l.accounts)
    && (forall s, i: nat, t, j: nat, n: nat :: IsAt(l.lists, s, i, n) && IsAt(l.lists, t, j, n) ==> s == t && i == j)
  }

  /** Every list belongs to an application, and has a numbered reference and at most one default. */
  ghost predicate ListsWellFormed(l: Ledger) {
    && (forall s :: s in l.lists ==> s.application in l.applications)
    && (forall s :: s in l.lists ==> exists i: nat, n: nat :: IsAt(l.lists, s, i, n))
    && (forall s :: s in l.lists ==> OneDefault(l.lists[s]))
  }

  /** A stored default number is referenced by the list it is the default of. */
  ghost predicate DefaultsReferenced(l: Ledger) {
    forall s :: s in l.defaults && l.defaults[s] != None ==> exists i: nat :: IsAt(l.lists, s, i, l.defaults[s].value)
  }

  function TrueApplicationCounter(l: Ledger, application: nat): Counter {
    Counter(|OfApplication(Numbered(l.lists), application)|, |OfApplication(Positions(l.lists), application)|)
  }

  /** The counters of anchors and applications and the total count the references in the lists. */
  ghost predicate CountersAgree(l: Ledger) {
    && l.total == Counter(|Numbered(l.lists)|, |Positions(l.lists)|)
    && (forall a :: CounterOf(l, a) == TrueCounter(l, a))
    && (forall p :: p in l.applications ==> l.applications[p].counter == TrueApplicationCounter(l, p))
  }

  ghost predicate WithinLimit(l: Ledger) {
    forall a :: TrueCounter(l, a).accounts <= MAX_ANCHOR_ACCOUNTS
  }

  /** Numbers, lists, defaults and counters agree. */
  ghost predicate Consistent(l: Ledger) {
    ApplicationsNumbered(l) && NumbersReferencedOnce(l) && ListsWellFormed(l) && DefaultsReferenced(l) && CountersAgree(l)
  }

  ghost predicate Inv(l: Ledger) {
    Consistent(l) && WithinLimit(l)
  }

  // ----- Storing a new number -----

  /** `refs` is a list of the slot to which one numbered reference was added at `i`, replacing a default
      reference or going to the end. */
  ghost predicate AddsNumber(lists: Lists, s: Slot, refs: seq<Reference>, i: nat, n: nat) {
    var before := if s in lists then lists[s] else [];
    && i < |refs| && |before| <= |refs| && refs[i].accountNumber == Some(n)
    && (forall j :: 0 <= j < |before| && j != i ==> refs[j].accountNumber == before[j].accountNumber)
    && (forall j :: |before| <= j < |refs| && j != i ==> refs[j].accountNumber == None)
    && (i < |before| ==> before[i].accountNumber == None)
    && (|before| < |refs| && before != [] ==> i == |before| && |refs| == |before| + 1)
  }

  /** The positions that appear. */
  function NewPositions(lists: Lists, s: Slot, refs: seq<Reference>): set<Position> {
    set i | (if s in lists then |lists[s]| else 0) <= i < |refs| :: Position(s, i)
  }

  lemma PositionMembership(lists: Lists, p: Position)
    ensures p in Positions(lists) <==> p.slot in lists && p.index < |lists[p.slot]|
    ensures p in Numbered(lists) <==> p.slot in lists && p.index < |lists[p.slot]| && lists[p.slot][p.index].accountNumber != None
  {
    if p.slot in lists && p.index < |lists[p.slot]| {
      assert Position(p.slot, p.index) in Positions(lists);
    }
    if p.slot in lists && p.index < |lists[p.slot]| && lists[p.slot][p.index].accountNumber != None {
      assert Position(p.slot, p.index) in Numbered(lists);
    }
  }

  lemma AddingChangesPositions(lists: Lists, s: Slot, refs: seq<Reference>, i: nat, n: nat)
    requires AddsNumber(lists, s, refs, i, n)
    ensures Numbered(lists[s := refs]) == Numbered(lists) + {Position(s, i)} && Position(s, i) !in Numbered(lists)
    ensures Positions(lists[s := refs]) == Positions(lists) + NewPositions(lists, s, refs)
    ensures Positions(lists) !! NewPositions(lists, s, refs)
  {
    forall p: Position
      ensures p in Positions(lists[s := refs]) <==> p in Positions(lists) + NewPositions(lists, s, refs)
      ensures p in Numbered(lists[s := refs]) <==> p in Numbered(lists) + {Position(s, i)}
    {
      PositionMembership(lists, p);
      PositionMembership(lists[s := refs], p);
      if p.slot == s && (if s in lists then |lists[s]| else 0) <= p.index < |refs| {
        assert Position(s, p.index) in NewPositions(lists, s, refs);
      }
    }
    PositionMembership(lists, Position(s, i));
    forall p | p in NewPositions(lists, s, refs)
      ensures p !in Positions(lists)
    {
      PositionMembership(lists, p);
    }
  }

  lemma CountingUnion(ps: set<Position>, qs: set<Position>, s: Slot)
    requires ps !! qs && forall q :: q in qs ==> q.slot == s
    ensures |ps + qs| == |ps| + |qs|
    ensures forall a :: |OfAnchor(ps + qs, a)| == |OfAnchor(ps, a)| + (if a == s.anchor then |qs| else 0)
    ensures forall p :: |OfApplication(ps + qs, p)| == |OfApplication(ps, p)| + (if p == s.application then |qs| else 0)
  {
    forall a
      ensures |OfAnchor(ps + qs, a)| == |OfAnchor(ps, a)| + (if a == s.anchor then |qs| else 0)
    {
      if a == s.anchor {
        assert OfAnchor(ps + qs, a) == OfAnchor(ps, a) + qs;
      } else {
        assert OfAnchor(ps + qs, a) == OfAnchor(ps, a);
      }
    }
    forall p
      ensures |OfApplication(ps + qs, p)| == |OfApplication(ps, p)| + (if p == s.application then |qs| else 0)
    {
      if p == s.application {
        assert OfApplication(ps + qs, p) == OfApplication(ps, p) + qs;
      } else {
        assert OfApplication(ps + qs, p) == OfApplication(ps, p);
      }
    }
  }

  lemma IntervalSize(s: Slot, lo: nat, hi: nat)
    requires lo <= hi
    ensures |set i | lo <= i < hi :: Position(s, i)| == hi - lo
    decreases hi - lo
  {
    var all := set i | lo <= i < hi :: Position(s, i);
    if lo == hi {
      assert all == {};
    } else {
      IntervalSize(s, lo, hi - 1);
      var init := set i | lo <= i < hi - 1 :: Position(s, i);
      assert all == init + {Position(s, hi - 1)};
    }
  }

  function LengthOf(lists: Lists, s: Slot): nat {
    if s in lists then |lists[s]| else 0
  }

  /** How many references a list gains. */
  function Growth(lists: Lists, s: Slot, refs: seq<Reference>): nat {
    if LengthOf(lists, s) <= |refs| then |refs| - LengthOf(lists, s) else 0
  }

  function Placed(l: Ledger, s: Slot, refs: seq<Reference>, account: StorableAccount, isDefault: bool): Ledger {
    var n := l.total.accounts + 1;
    l.(accounts := l.accounts[n := account],
       lists := l.lists[s := refs],
       defaults := if isDefault then l.defaults[s := Some(n)] else l.defaults)
  }

  /** The ledger after a new number was stored in the list of a slot. */
  function Stored(l: Ledger, origin: Origin, s: Slot, refs: seq<Reference>, account: StorableAccount,
                  isDefault: bool): Ledger {
    Count(Placed(WithApplication(l, origin), s, refs, account, isDefault), s, 1, Growth(l.lists, s, refs))
  }

  ghost predicate Storable(l: Ledger, origin: Origin, s: Slot, refs: seq<Reference>, i: nat) {
    && s.application == NumberFor(l, origin)
    && AddsNumber(l.lists, s, refs, i, l.total.accounts + 1)
    && OneDefault(refs)
  }

  /** Registering an application and counting for it keep the numbering. */
  lemma RegisteringKeepsApplications(l: Ledger, origin: Origin)
    requires ApplicationsNumbered(l)
    ensures ApplicationsNumbered(WithApplication(l, origin))
    ensures WithApplication(l, origin).applications.Keys >= l.applications.Keys
    ensures NumberFor(l, origin) in WithApplication(l, origin).applications
    ensures ApplicationNumber(WithApplication(l, origin), origin) == Some(NumberFor(l, origin))
    ensures NumberFor(l, origin) in l.applications <==> origin in l.applicationNumbers
  {
    if origin !in l.applicationNumbers {
      MapGrowsByOne(l.applicationNumbers, origin, |l.applicationNumbers|);
    }
  }

  lemma MapGrowsByOne<K, V>(m: map<K, V>, k: K, v: V)
    requires k !in m
    ensures |m[k := v]| == |m| + 1
  {
    assert m[k := v].Keys == m.Keys + {k};
    assert |m[k := v].Keys| == |m[k := v]| && |m.Keys| == |m|;
  }

  lemma CountingKeepsApplications(l: Ledger, s: Slot, accounts: nat, references: nat)
    requires ApplicationsNumbered(l)
    ensures ApplicationsNumbered(Count(l, s, accounts, references))
    ensures Count(l, s, accounts, references).applications.Keys == l.applications.Keys
  {
  }

  lemma StoringKeepsApplications(l: Ledger, origin: Origin, s: Slot, refs: seq<Reference>, account: StorableAccount,
                                 isDefault: bool)
    requires ApplicationsNumbered(l)
    ensures ApplicationsNumbered(Stored(l, origin, s, refs, account, isDefault))
    ensures NumberFor(l, origin) in Stored(l, origin, s, refs, account, isDefault).applications
    ensures Stored(l, origin, s, refs, account, isDefault).applications.Keys >= l.applications.Keys
  {
    hide ApplicationsNumbered, NumberFor, WithApplication, Count, Growth;
    var k := WithApplication(l, origin);
    RegisteringKeepsApplications(l, origin);
    var placed := Placed(k, s, refs, account, isDefault);
    OnlyApplicationsMatter(k, placed);
    CountingKeepsApplications(placed, s, 1, Growth(l.lists, s, refs));
  }

  lemma OnlyApplicationsMatter(l: Ledger, m: Ledger)
    requires ApplicationsNumbered(l) && m.applications == l.applications && m.applicationNumbers == l.applicationNumbers
    ensures ApplicationsNumbered(m)
  {
  }

  lemma StoringPlacesNumberAt(lists: Lists, s: Slot, refs: seq<Reference>, i: nat, n: nat, t: Slot, j: nat, k: nat)
    requires AddsNumber(lists, s, refs, i, n)
    ensures IsAt(lists[s := refs], t, j, k) <==> IsAt(lists, t, j, k) || (t == s && j == i && k == n)
  {
  }

  /** Where the numbers are afterwards. */
  lemma StoringPlacesNumber(lists: Lists, after: Lists, s: Slot, refs: seq<Reference>, i: nat, n: nat)
    requires AddsNumber(lists, s, refs, i, n) && after == lists[s := refs]
    ensures forall t, j: nat, k: nat :: IsAt(after, t, j, k) <==> IsAt(lists, t, j, k) || (t == s && j == i && k == n)
  {
    hide AddsNumber, IsAt;
    forall t, j: nat, k: nat
      ensures IsAt(after, t, j, k) <==> IsAt(lists, t, j, k) || (t == s && j == i && k == n)
    {
      StoringPlacesNumberAt(lists, s, refs, i, n, t, j, k);
    }
  }

  lemma StoringKeepsNumbers(l: Ledger, m: Ledger, s: Slot, refs: seq<Reference>, i: nat, account: StorableAccount)
    requires NumbersReferencedOnce(l) && AddsNumber(l.lists, s, refs, i, l.total.accounts + 1)
    requires m.lists == l.lists[s := refs] && m.accounts == l.accounts[l.total.accounts + 1 := account]
    requires m.total.accounts == l.total.accounts + 1
    ensures NumbersReferencedOnce(m)
  {
    hide AddsNumber, IsAt, OneDefault;
    var n := l.total.accounts + 1;
    StoringPlacesNumber(l.lists, m.lists, s, refs, i, n);
    assert n !in l.accounts;
    forall k: nat
      ensures k in m.accounts <==> 1 <= k <= m.total.accounts
    {
      assert k in m.accounts <==> k in l.accounts || k == n;
    }
    forall k | k in m.accounts
      ensures exists t, j: nat :: IsAt(m.lists, t, j, k)
    {
      if k == n {
        assert IsAt(m.lists, s, i, n);
      } else {
        var t, j: nat :| IsAt(l.lists, t, j, k);
        assert IsAt(m.lists, t, j, k);
      }
    }
    forall t, j: nat, u, k: nat, x: nat | IsAt(m.lists, t, j, x) && IsAt(m.lists, u, k, x)
      ensures t == u && j == k
    {
      if x == n {
        assert !IsAt(l.lists, t, j, x) && !IsAt(l.lists, u, k, x);
      }
    }
  }

  lemma StoringKeepsLists(l: Ledger, m: Ledger, origin: Origin, s: Slot, refs: seq<Reference>, i: nat)
    requires ListsWellFormed(l) && Storable(l, origin, s, refs, i)
    requires m.lists == l.lists[s := refs] && m.applications.Keys >= l.applications.Keys && s.application in m.applications
    ensures ListsWellFormed(m)
  {
    hide AddsNumber, IsAt, OneDefault;
    var n := l.total.accounts + 1;
    StoringPlacesNumber(l.lists, m.lists, s, refs, i, n);
    forall t | t in m.lists
      ensures exists j: nat, k: nat :: IsAt(m.lists, t, j, k)
      ensures t.application in m.applications
    {
      if t == s {
        assert IsAt(m.lists, s, i, n);
      } else {
        assert t in l.lists;
        var j: nat, k: nat :| IsAt(l.lists, t, j, k);
        assert IsAt(m.lists, t, j, k);
      }
    }
  }

  lemma StoringKeepsDefaults(l: Ledger, m: Ledger, s: Slot, refs: seq<Reference>, i: nat)
    requires NumbersReferencedOnce(l) && DefaultsReferenced(l) && AddsNumber(l.lists, s, refs, i, l.total.accounts + 1)
    requires m.lists == l.lists[s := refs]
    requires m.defaults == l.defaults || m.defaults == l.defaults[s := Some(l.total.accounts + 1)]
    ensures DefaultsReferenced(m)
  {
    hide AddsNumber, IsAt, OneDefault;
    var n := l.total.accounts + 1;
    assert forall t, j: nat, k: nat :: IsAt(l.lists, t, j, k) ==> k in l.accounts;
    StoringPlacesNumber(l.lists, m.lists, s, refs, i, n);
    assert IsAt(m.lists, s, i, n);
    forall t | t in m.defaults && m.defaults[t] != None
      ensures exists j: nat :: IsAt(m.lists, t, j, m.defaults[t].value)
    {
      if t in l.defaults && m.defaults[t] == l.defaults[t] {
        var j: nat :| IsAt(l.lists, t, j, l.defaults[t].value);
        assert IsAt(m.lists, t, j, m.defaults[t].value);
      }
    }
  }

  lemma NewPositionsCount(lists: Lists, s: Slot, refs: seq<Reference>)
    requires LengthOf(lists, s) <= |refs|
    ensures |NewPositions(lists, s, refs)| == Growth(lists, s, refs)
    ensures forall q :: q in NewPositions(lists, s, refs) ==> q.slot == s
  {
    IntervalSize(s, LengthOf(lists, s), |refs|);
    assert NewPositions(lists, s, refs) == set i | LengthOf(lists, s) <= i < |refs| :: Position(s, i);
  }

  /** Each true count goes up by what was added, for the slot's anchor and application and in total. */
  lemma StoringCounts(lists: Lists, s: Slot, refs: seq<Reference>, i: nat, n: nat)
    requires AddsNumber(lists, s, refs, i, n)
    ensures var after := lists[s := refs];
            var added := Growth(lists, s, refs);
            && |Numbered(after)| == |Numbered(lists)| + 1
            && |Positions(after)| == |Positions(lists)| + added
            && (forall a :: |OfAnchor(Numbered(after), a)| == |OfAnchor(Numbered(lists), a)| + (if a
                == s.anchor then 1 else 0))
            && (forall a :: |OfAnchor(Positions(after), a)| == |OfAnchor(Positions(lists), a)| + (if a
                == s.anchor then added else 0))
            && (forall p :: |OfApplication(Numbered(after), p)| == |OfApplication(Numbered(lists), p)| + (if p
                == s.application then 1 else 0))
            && (forall p :: |OfApplication(Positions(after), p)| == |OfApplication(Positions(lists), p)| + (if p
                == s.application then added else 0))
  {
    hide Positions, Numbered, NewPositions;
    AddingChangesPositions(lists, s, refs, i, n);
    NewPositionsCount(lists, s, refs);
    CountingUnion(Numbered(lists), {Position(s, i)}, s);
    CountingUnion(Positions(lists), NewPositions(lists, s, refs), s);
  }

  lemma UnknownApplicationIsEmpty(l: Ledger, application: nat)
    requires ListsWellFormed(l) && application !in l.applications
    ensures TrueApplicationCounter(l, application) == Counter(0, 0)
  {
    assert OfApplication(Numbered(l.lists), application) == {};
    assert OfApplication(Positions(l.lists), application) == {};
  }

  lemma StoringMovesTrueCounters(l: Ledger, m: Ledger, s: Slot, refs: seq<Reference>, i: nat, n: nat)
    requires AddsNumber(l.lists, s, refs, i, n) && m.lists == l.lists[s := refs]
    ensures forall a :: TrueCounter(m, a) == if a == s.anchor then Plus(TrueCounter(l, a), 1, Growth(l.lists, s,
              refs)) else TrueCounter(l, a)
    ensures forall p :: TrueApplicationCounter(m, p) == if p == s.application then Plus(TrueApplicationCounter(l, p),
              1, Growth(l.lists, s, refs)) else TrueApplicationCounter(l, p)
    ensures Counter(|Numbered(m.lists)|, |Positions(m.lists)|)
              == Plus(Counter(|Numbered(l.lists)|, |Positions(l.lists)|), 1, Growth(l.lists, s, refs))
  {
    hide Positions, Numbered, OfAnchor, OfApplication, AddsNumber;
    StoringCounts(l.lists, s, refs, i, n);
  }

  /** A new application starts counting at zero, which is what it should say. */
  lemma RegisteringKeepsCounters(l: Ledger, origin: Origin)
    requires ApplicationsNumbered(l) && ListsWellFormed(l) && CountersAgree(l)
    ensures CountersAgree(WithApplication(l, origin))
  {
    hide Positions, Numbered, OfAnchor, OfApplication, ListsWellFormed;
    var k := WithApplication(l, origin);
    if origin !in l.applicationNumbers {
      UnknownApplicationIsEmpty(l, |l.applicationNumbers|);
    }
    assert forall a :: CounterOf(k, a) == CounterOf(l, a) && TrueCounter(k, a) == TrueCounter(l, a);
    assert forall p :: TrueApplicationCounter(k, p) == TrueApplicationCounter(l, p);
  }

  lemma CountingKeepsCounters(l: Ledger, m: Ledger, s: Slot, refs: seq<Reference>, i: nat, n: nat)
    requires CountersAgree(l) && s.application in l.applications
    requires AddsNumber(l.lists, s, refs, i, n) && m.lists == l.lists[s := refs]
    requires var c := Count(l, s, 1, Growth(l.lists, s, refs));
             m.anchorCounters == c.anchorCounters && m.total == c.total && m.applications == c.applications
    ensures CountersAgree(m)
    ensures forall a :: TrueCounter(m, a).accounts == TrueCounter(l, a).accounts + (if a == s.anchor then 1 else 0)
  {
    hide Positions, Numbered, TrueCounter, TrueApplicationCounter, AddsNumber;
    StoringMovesTrueCounters(l, m, s, refs, i, n);
  }

  lemma StoringKeepsCounters(l: Ledger, origin: Origin, s: Slot, refs: seq<Reference>, i: nat,
                             account: StorableAccount, isDefault: bool)
    requires ApplicationsNumbered(l) && ListsWellFormed(l) && CountersAgree(l) && Storable(l, origin, s, refs, i)
    ensures CountersAgree(Stored(l, origin, s, refs, account, isDefault))
    ensures forall a :: TrueCounter(Stored(l, origin, s, refs, account, isDefault), a).accounts
                     == TrueCounter(l, a).accounts + (if a == s.anchor then 1 else 0)
  {
    hide CountersAgree, TrueCounter, ListsWellFormed, AddsNumber, ApplicationsNumbered, NumberFor, WithApplication,
         Count, Growth;
    var k := WithApplication(l, origin);
    var placed := Placed(k, s, refs, account, isDefault);
    var m := Stored(l, origin, s, refs, account, isDefault);
    RegisteringKeepsApplications(l, origin);
    RegisteringKeepsCounters(l, origin);
    RegisteringKeepsTheRest(l, origin);
    OnlyListsCount(l, k);
    CountIgnoresPlacing(k, placed, s, 1, Growth(l.lists, s, refs));
    CountingKeepsCounters(k, m, s, refs, i, l.total.accounts + 1);
  }

  lemma RegisteringKeepsTheRest(l: Ledger, origin: Origin)
    ensures var k := WithApplication(l, origin);
            k.lists == l.lists && k.accounts == l.accounts && k.defaults == l.defaults && k.total == l.total &&
            k.anchorCounters == l.anchorCounters && k.rebuilds == l.rebuilds
  {
  }

  lemma CountIgnoresPlacing(l: Ledger, m: Ledger, s: Slot, accounts: nat, references: nat)
    requires l.anchorCounters == m.anchorCounters && l.total == m.total && l.applications == m.applications
    ensures var c := Count(l, s, accounts, references);
            var d := Count(m, s, accounts, references);
            c.anchorCounters == d.anchorCounters && c.total == d.total && c.applications == d.applications &&
                d.lists == m.lists
  {
  }

  lemma OnlyListsCount(l: Ledger, m: Ledger)
    requires m.lists == l.lists
    ensures forall a :: TrueCounter(m, a) == TrueCounter(l, a)
  {
  }

  /** What storing changes besides counters and applications. */
  lemma StoredFields(l: Ledger, origin: Origin, s: Slot, refs: seq<Reference>, account: StorableAccount, isDefault: bool)
    ensures var m := Stored(l, origin, s, refs, account, isDefault);
            && m.lists == l.lists[s := refs] && m.accounts == l.accounts[l.total.accounts + 1 := account]
            && m.total.accounts == l.total.accounts + 1
            && m.defaults == if isDefault then l.defaults[s := Some(l.total.accounts + 1)] else l.defaults
  {
  }

  /** Storing a fresh number keeps everything in agreement, and counts one more account for the anchor. */
  lemma StoringKeepsConsistent(l: Ledger, origin: Origin, s: Slot, refs: seq<Reference>, i: nat,
                               account: StorableAccount, isDefault: bool)
    requires Consistent(l) && Storable(l, origin, s, refs, i)
    ensures Consistent(Stored(l, origin, s, refs, account, isDefault))
    ensures forall a :: TrueCounter(Stored(l, origin, s, refs, account, isDefault), a).accounts
                     == TrueCounter(l, a).accounts + (if a == s.anchor then 1 else 0)
  {
    hide ApplicationsNumbered, NumbersReferencedOnce, ListsWellFormed, DefaultsReferenced, CountersAgree, AddsNumber,
         TrueCounter, Stored, NumberFor;
    var m := Stored(l, origin, s, refs, account, isDefault);
    StoredFields(l, origin, s, refs, account, isDefault);
    StoringKeepsApplications(l, origin, s, refs, account, isDefault);
    StoringKeepsNumbers(l, m, s, refs, i, account);
    StoringKeepsLists(l, m, origin, s, refs, i);
    StoringKeepsDefaults(l, m, s, refs, i);
    StoringKeepsCounters(l, origin, s, refs, i, account, isDefault);
  }

  /** Below the limit it keeps the whole invariant. */
  lemma StoringKeepsInv(l: Ledger, origin: Origin, s: Slot, refs: seq<Reference>, i: nat, account: StorableAccount,
                        isDefault: bool)
    requires Inv(l) && Storable(l, origin, s, refs, i)
    requires TrueCounter(l, s.anchor).accounts < MAX_ANCHOR_ACCOUNTS
    ensures Inv(Stored(l, origin, s, refs, account, isDefault))
  {
    hide Consistent, TrueCounter, Stored, Storable;
    StoringKeepsConsistent(l, origin, s, refs, i, account, isDefault);
  }
}
