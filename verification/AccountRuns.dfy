/** What follows from the invariant for the public account operations, over every run of them. */
module AccountRuns {
  import opened Types
  import opened AccountLedger
  import opened AccountInvariants

  // ----- Steps that leave the references where they are -----

  /** The same references in the same places; when they were last used may differ. */
  ghost predicate SameNumbers(lists: Lists, after: Lists) {
    && after.Keys == lists.Keys
    && (forall s :: s in lists ==> |after[s]| == |lists[s]|)
    && (forall s, i :: s in lists && 0 <= i < |lists[s]| ==> after[s][i].accountNumber == lists[s][i].accountNumber)
  }

  lemma SameNumbersSamePositions(lists: Lists, after: Lists)
    requires SameNumbers(lists, after)
    ensures Positions(after) == Positions(lists) && Numbered(after) == Numbered(lists)
    ensures forall s, i: nat, n: nat :: IsAt(after, s, i, n) == IsAt(lists, s, i, n)
    ensures forall s :: s in after && OneDefault(lists[s]) ==> OneDefault(after[s])
  {
    forall p: Position
      ensures p in Positions(after) <==> p in Positions(lists)
      ensures p in Numbered(after) <==> p in Numbered(lists)
    {
      PositionMembership(lists, p);
      PositionMembership(after, p);
    }
    forall s | s in after && OneDefault(lists[s])
      ensures OneDefault(after[s])
    {
      forall i: nat, j: nat | NoNumberAt(after[s], i) && NoNumberAt(after[s], j)
        ensures i == j
      {
        assert NoNumberAt(lists[s], i) && NoNumberAt(lists[s], j);
      }
    }
  }

  lemma SameNumbersKeepNumbers(l: Ledger, m: Ledger)
    requires NumbersReferencedOnce(l) && ListsWellFormed(l) && SameNumbers(l.lists, m.lists)
    requires m.accounts.Keys == l.accounts.Keys && m.total == l.total && m.applications == l.applications
    ensures NumbersReferencedOnce(m) && ListsWellFormed(m)
  {
    hide Positions, Numbered, SameNumbers, IsAt, OneDefault;
    SameNumbersKeepsKeys(l.lists, m.lists);
    SameNumbersSamePositions(l.lists, m.lists);
    forall n | n in m.accounts
      ensures exists s, i: nat :: IsAt(m.lists, s, i, n)
    {
      var s, i: nat :| IsAt(l.lists, s, i, n);
      assert IsAt(m.lists, s, i, n);
    }
    forall s | s in m.lists
      ensures exists i: nat, n: nat :: IsAt(m.lists, s, i, n)
    {
      var i: nat, n: nat :| IsAt(l.lists, s, i, n);
      assert IsAt(m.lists, s, i, n);
    }
  }

  lemma SameNumbersKeepCounters(l: Ledger, m: Ledger)
    requires CountersAgree(l) && SameNumbers(l.lists, m.lists)
    requires m.total == l.total && m.applications == l.applications
    requires forall a :: CounterOf(m, a) == CounterOf(l, a)
    ensures CountersAgree(m)
    ensures forall a :: TrueCounter(m, a) == TrueCounter(l, a)
  {
    hide Positions, Numbered, OfAnchor, OfApplication, SameNumbers, CounterOf;
    SameNumbersSamePositions(l.lists, m.lists);
    assert forall p :: TrueApplicationCounter(m, p) == TrueApplicationCounter(l, p);
  }

  /** Names, last uses and checked defaults do not matter to the invariant. */
  lemma SameNumbersKeepInv(l: Ledger, m: Ledger)
    requires Inv(l) && SameNumbers(l.lists, m.lists)
    requires m.accounts.Keys == l.accounts.Keys && m.total == l.total
    requires m.applications == l.applications && m.applicationNumbers == l.applicationNumbers
    requires forall a :: CounterOf(m, a) == CounterOf(l, a)
    requires DefaultsReferenced(m)
    ensures Inv(m)
  {
    hide NumbersReferencedOnce, ListsWellFormed, CountersAgree, DefaultsReferenced, SameNumbers, CounterOf,
         TrueCounter;
    SameNumbersKeepNumbers(l, m);
    SameNumbersKeepCounters(l, m);
  }

  lemma SameNumbersKeepsKeys(lists: Lists, after: Lists)
    requires SameNumbers(lists, after)
    ensures after.Keys == lists.Keys
  {
  }

  lemma RegisteringKeepsInv(l: Ledger, origin: Origin)
    requires Inv(l)
    ensures Inv(WithApplication(l, origin))
  {
    hide WithApplication, ApplicationsNumbered, IsAt, CountersAgree, OneDefault, TrueCounter;
    var k := WithApplication(l, origin);
    RegisteringKeepsApplications(l, origin);
    RegisteringKeepsCounters(l, origin);
    RegisteringKeepsTheRest(l, origin);
    OnlyListsCount(l, k);
  }

  lemma SettingDefaultKeepsInv(l: Ledger, s: Slot, number: Option<nat>)
    requires Inv(l) && (number == None || exists i: nat :: IsAt(l.lists, s, i, number.value))
    ensures Inv(l.(defaults := l.defaults[s := number]))
  {
    hide ApplicationsNumbered, NumbersReferencedOnce, ListsWellFormed, CountersAgree, WithinLimit, IsAt;
    SameNumbersKeepInv(l, l.(defaults := l.defaults[s := number]));
  }

  /** Counting again what the counters say already. */
  lemma RebuildChangesNothing(l: Ledger, anchor: u64)
    requires Inv(l)
    ensures forall a :: CounterOf(Rebuilt(l, anchor), a) == CounterOf(l, a)
    ensures Rebuilt(l, anchor).rebuilds == l.rebuilds + 1
    ensures Inv(Rebuilt(l, anchor))
  {
    hide ApplicationsNumbered, NumbersReferencedOnce, ListsWellFormed, WithinLimit, IsAt;
    assert CounterOf(l, anchor) == TrueCounter(l, anchor);
    SameNumbersKeepInv(l, Rebuilt(l, anchor));
  }

  lemma CheckingKeepsInv(l: Ledger, anchor: u64)
    requires Inv(l)
    ensures Inv(CheckOrRebuild(l, anchor).0)
    ensures CheckOrRebuild(l, anchor).1 <==> TrueCounter(l, anchor).accounts < MAX_ANCHOR_ACCOUNTS
    ensures CheckOrRebuild(l, anchor).0.lists == l.lists
    ensures CheckOrRebuild(l, anchor).0.rebuilds == l.rebuilds + if CheckOrRebuild(l, anchor).1 then 0 else 1
  {
    assert CounterOf(l, anchor) == TrueCounter(l, anchor);
    if CounterOf(l, anchor).accounts >= MAX_ANCHOR_ACCOUNTS {
      RebuildChangesNothing(l, anchor);
    }
  }

  /** From any ledger, whatever its counters say: both operations report the limit only when it is reached,
      and leave the counter of the anchor corrected. */
  lemma LimitErrorIsGenuine(l: Ledger, anchor: u64, origin: Origin, name: Name, number: Option<nat>,
                            newName: Option<Name>, traps: bool)
    ensures CreateForOrigin(l, anchor, origin, name, traps).1 == Some(Err(AccountLimitReached)) ==>
              && TrueCounter(l, anchor).accounts >= MAX_ANCHOR_ACCOUNTS
              && CounterOf(CreateForOrigin(l, anchor, origin, name, traps).0, anchor) == TrueCounter(l, anchor)
    ensures UpdateForOrigin(l, number, anchor, origin, newName, traps).1 == Some(Err(AccountLimitReached)) ==>
              && number == None && TrueCounter(l, anchor).accounts >= MAX_ANCHOR_ACCOUNTS
              && CounterOf(UpdateForOrigin(l, number, anchor, origin, newName, traps).0, anchor) == TrueCounter(l, anchor)
  {
    hide TrueCounter, CreateAdditional, ReadAccount;
  }

  // ----- The two ways to store a number -----

  /** The list with a new number at its end; a list that starts gets the default reference first. */
  function Extended(l: Ledger, s: Slot): (refs: seq<Reference>)
    ensures refs != []
  {
    (if s in l.lists then l.lists[s] else [Reference(None, None)]) + [Reference(Some(l.total.accounts + 1), None)]
  }

  lemma ExtendedIsStorable(l: Ledger, origin: Origin, anchor: u64)
    requires ListsWellFormed(l)
    ensures var s := Slot(anchor, NumberFor(l, origin));
            Storable(l, origin, s, Extended(l, s), |Extended(l, s)| - 1)
  {
    hide NumberFor;
    var s := Slot(anchor, NumberFor(l, origin));
    var before := if s in l.lists then l.lists[s] else [Reference(None, None)];
    assert OneDefault(before);
    forall i: nat, j: nat | NoNumberAt(Extended(l, s), i) && NoNumberAt(Extended(l, s), j)
      ensures i == j
    {
      assert NoNumberAt(before, i) && NoNumberAt(before, j);
    }
  }

  lemma AdditionalIsStored(l: Ledger, anchor: u64, origin: Origin, name: Name)
    ensures var s := Slot(anchor, NumberFor(l, origin));
            CreateAdditional(l, anchor, origin, name).0 == Stored(l, origin, s, Extended(l, s),
                StorableAccount(name, None), false)
  {
    hide NumberFor, Count;
  }

  /** The list with its default reference numbered; a list that starts has only the number. */
  function Filled(l: Ledger, s: Slot): (refs: seq<Reference>)
    requires s in l.lists ==> FirstWith(l.lists[s], None) < |l.lists[s]|
    ensures refs != []
  {
    var n := Some(l.total.accounts + 1);
    if s !in l.lists then [Reference(n, None)]
    else
      var i := FirstWith(l.lists[s], None);
      l.lists[s][i := l.lists[s][i].(accountNumber := n)]
  }

  lemma FilledIsStorable(l: Ledger, origin: Origin, anchor: u64)
    requires ListsWellFormed(l)
    requires var s := Slot(anchor, NumberFor(l, origin)); s in l.lists ==> FirstWith(l.lists[s], None) < |l.lists[s]|
    ensures var s := Slot(anchor, NumberFor(l, origin));
            Storable(l, origin, s, Filled(l, s), if s in l.lists then FirstWith(l.lists[s], None) else 0)
  {
    hide NumberFor;
    var s := Slot(anchor, NumberFor(l, origin));
    forall i: nat, j: nat | NoNumberAt(Filled(l, s), i) && NoNumberAt(Filled(l, s), j)
      ensures i == j
    {
      assert s in l.lists && NoNumberAt(l.lists[s], i) && NoNumberAt(l.lists[s], j);
    }
  }

  lemma DefaultIsStored(l: Ledger, anchor: u64, origin: Origin, name: Name)
    requires var s := Slot(anchor, NumberFor(l, origin)); s in l.lists ==> FirstWith(l.lists[s], None) < |l.lists[s]|
    ensures var s := Slot(anchor, NumberFor(l, origin));
            CreateDefault(l, anchor, origin, name).0 == Stored(l, origin, s, Filled(l, s), StorableAccount(name,
                Some(anchor)), true)
    ensures CreateDefault(l, anchor, origin, name).1 == Ok(Account(Some(l.total.accounts + 1), anchor, origin, None,
              Some(name), Some(anchor)))
  {
    hide NumberFor, Count;
  }

  /** What the read before `CreateDefault` guarantees: a list has its default reference still. */
  lemma ReadFindsDefault(l: Ledger, anchor: u64, origin: Origin)
    requires ApplicationsNumbered(l) && ListsWellFormed(l)
    ensures var s := Slot(anchor, NumberFor(l, origin));
            ReadAccount(l, None, anchor, origin, None) != None <==> (s in l.lists ==> FirstWith(l.lists[s], None) < |l.lists[s]|)
  {
    var s := Slot(anchor, NumberFor(l, origin));
    if s in l.lists {
      RegisteringKeepsApplications(l, origin);
      var i: nat, n: nat :| IsAt(l.lists, s, i, n);
      assert l.lists[s] != [];
    }
  }

  // ----- Every operation keeps the invariant -----

  lemma CreateAdditionalKeepsInv(l: Ledger, anchor: u64, origin: Origin, name: Name)
    requires Inv(l) && TrueCounter(l, anchor).accounts < MAX_ANCHOR_ACCOUNTS
    ensures Inv(CreateAdditional(l, anchor, origin, name).0)
  {
    hide ApplicationsNumbered, NumbersReferencedOnce, ListsWellFormed, CountersAgree, TrueCounter, NumberFor, Stored,
         CreateAdditional, Storable;
    var s := Slot(anchor, NumberFor(l, origin));
    ExtendedIsStorable(l, origin, anchor);
    AdditionalIsStored(l, anchor, origin, name);
    StoringKeepsInv(l, origin, s, Extended(l, s), |Extended(l, s)| - 1, StorableAccount(name, None), false);
  }

  lemma CreateDefaultKeepsConsistent(l: Ledger, anchor: u64, origin: Origin, name: Name)
    requires Consistent(l) && ReadAccount(l, None, anchor, origin, None) != None
    ensures Consistent(CreateDefault(l, anchor, origin, name).0) && CreateDefault(l, anchor, origin, name).1.Ok?
    ensures forall a :: TrueCounter(CreateDefault(l, anchor, origin, name).0, a).accounts
                     == TrueCounter(l, a).accounts + (if a == anchor then 1 else 0)
  {
    hide ApplicationsNumbered, NumbersReferencedOnce, ListsWellFormed, CountersAgree, TrueCounter, NumberFor, Stored,
         CreateDefault, Storable, ReadAccount;
    var s := Slot(anchor, NumberFor(l, origin));
    ReadFindsDefault(l, anchor, origin);
    FilledIsStorable(l, origin, anchor);
    DefaultIsStored(l, anchor, origin, name);
    StoringKeepsConsistent(l, origin, s, Filled(l, s), if s in l.lists then FirstWith(l.lists[s], None) else 0,
                           StorableAccount(name, Some(anchor)), true);
  }

  lemma CreateDefaultKeepsInv(l: Ledger, anchor: u64, origin: Origin, name: Name)
    requires Inv(l) && TrueCounter(l, anchor).accounts < MAX_ANCHOR_ACCOUNTS
    requires ReadAccount(l, None, anchor, origin, None) != None
    ensures Inv(CreateDefault(l, anchor, origin, name).0) && CreateDefault(l, anchor, origin, name).1.Ok?
  {
    hide Consistent, TrueCounter, CreateDefault, ReadAccount;
    CreateDefaultKeepsConsistent(l, anchor, origin, name);
  }

  /** On its own, `CreateDefault` keeps everything in agreement exactly when a read of the default account
      succeeds first, and the limit exactly when the anchor is below it. Without that read it has already
      allocated a number that no list refers to. */
  lemma CreateDefaultNeedsReadFirst(l: Ledger, anchor: u64, origin: Origin, name: Name)
    requires Consistent(l)
    ensures Consistent(CreateDefault(l, anchor, origin, name).0) <==> ReadAccount(l, None, anchor, origin, None) != None
    ensures CreateDefault(l, anchor, origin, name).1 == Err(MissingAccount) <==>
              ReadAccount(l, None, anchor, origin, None) == None
    ensures Inv(l) ==> (Inv(CreateDefault(l, anchor, origin, name).0) <==>
              ReadAccount(l, None, anchor, origin, None) != None && TrueCounter(l, anchor).accounts < MAX_ANCHOR_ACCOUNTS)
  {
    hide ApplicationsNumbered, NumbersReferencedOnce, ListsWellFormed, DefaultsReferenced, CountersAgree, TrueCounter,
         CreateDefault, ReadAccount;
    if ReadAccount(l, None, anchor, origin, None) != None {
      CreateDefaultKeepsConsistent(l, anchor, origin, name);
      var m := CreateDefault(l, anchor, origin, name).0;
      assert TrueCounter(m, anchor).accounts == TrueCounter(l, anchor).accounts + 1;
    } else {
      FailedDefaultLosesNumber(l, anchor, origin, name);
    }
  }

  lemma FailedDefaultLosesNumber(l: Ledger, anchor: u64, origin: Origin, name: Name)
    requires ApplicationsNumbered(l) && NumbersReferencedOnce(l) && ListsWellFormed(l) &&
               ReadAccount(l, None, anchor, origin, None) == None
    ensures CreateDefault(l, anchor, origin, name).1 == Err(MissingAccount)
    ensures !NumbersReferencedOnce(CreateDefault(l, anchor, origin, name).0)
  {
    hide NumbersReferencedOnce;
    ReadFindsDefault(l, anchor, origin);
    var m := CreateDefault(l, anchor, origin, name).0;
    assert m.lists == l.lists;
    UnreferencedNumber(l, m);
  }

  lemma UnreferencedNumber(l: Ledger, m: Ledger)
    requires NumbersReferencedOnce(l) && m.lists == l.lists && l.total.accounts + 1 in m.accounts
    ensures !NumbersReferencedOnce(m)
  {
    var n := l.total.accounts + 1;
    assert n !in l.accounts;
    assert forall s, i: nat :: !IsAt(m.lists, s, i, n);
  }

  lemma UpdateExistingKeepsInv(l: Ledger, number: nat, anchor: u64, origin: Origin, name: Name)
    requires Inv(l)
    ensures Inv(UpdateExisting(l, number, anchor, origin, name).0)
  {
    hide ApplicationsNumbered, NumbersReferencedOnce, ListsWellFormed, CountersAgree, TrueCounter, IsAt;
    var m := UpdateExisting(l, number, anchor, origin, name).0;
    if m != l {
      assert number in l.accounts;
      assert m.accounts.Keys == l.accounts.Keys;
      SameNumbersKeepInv(l, m);
    }
  }

  lemma SetLastUsedKeepsInv(l: Ledger, number: Option<nat>, anchor: u64, origin: Origin, now: u64)
    requires Inv(l)
    ensures Inv(SetLastUsed(l, number, anchor, origin, now))
  {
    hide ApplicationsNumbered, NumbersReferencedOnce, ListsWellFormed, CountersAgree, TrueCounter, IsAt;
    var m := SetLastUsed(l, number, anchor, origin, now);
    if m != l {
      assert SameNumbers(l.lists, m.lists);
      SameNumbersSamePositions(l.lists, m.lists);
      DefaultsStayReferenced(l, m);
      SameNumbersKeepInv(l, m);
    }
  }

  lemma DefaultsStayReferenced(l: Ledger, m: Ledger)
    requires DefaultsReferenced(l) && m.defaults == l.defaults
    requires forall s, i: nat, n: nat :: IsAt(m.lists, s, i, n) == IsAt(l.lists, s, i, n)
    ensures DefaultsReferenced(m)
  {
    hide IsAt;
    forall s | s in m.defaults && m.defaults[s] != None
      ensures exists i: nat :: IsAt(m.lists, s, i, m.defaults[s].value)
    {
      var i: nat :| IsAt(l.lists, s, i, l.defaults[s].value);
      assert IsAt(m.lists, s, i, m.defaults[s].value);
    }
  }

  lemma CreateForOriginKeepsInv(l: Ledger, anchor: u64, origin: Origin, name: Name, traps: bool)
    requires Inv(l)
    ensures Inv(CreateForOrigin(l, anchor, origin, name, traps).0)
  {
    hide Inv, TrueCounter, CreateAdditional;
    CheckingKeepsInv(l, anchor);
    var (k, allowed) := CheckOrRebuild(l, anchor);
    OnlyListsCount(l, k);
    if allowed {
      CreateAdditionalKeepsInv(k, anchor, origin, name);
    }
  }

  lemma UpdateForOriginKeepsInv(l: Ledger, number: Option<nat>, anchor: u64, origin: Origin, name: Option<Name>, traps: bool)
    requires Inv(l)
    ensures Inv(UpdateForOrigin(l, number, anchor, origin, name, traps).0)
    ensures UpdateForOrigin(l, number, anchor, origin, name, traps).1 != Some(Err(MissingAccount))
  {
    hide Inv, TrueCounter, CreateDefault, ReadAccount;
    CheckingKeepsInv(l, anchor);
    var (k, allowed) := CheckOrRebuild(l, anchor);
    OnlyListsCount(l, k);
    if name != None {
      if number != None {
        UpdateExistingKeepsInv(l, number.value, anchor, origin, name.value);
      } else if allowed && ReadAccount(k, number, anchor, origin, None) != None {
        CreateDefaultKeepsInv(k, anchor, origin, name.value);
      }
    }
  }

  /** A number that can be read is referenced by the list of the slot. */
  lemma ReadableIsReferenced(l: Ledger, n: nat, anchor: u64, origin: Origin, application: nat)
    requires ReadAccount(l, Some(n), anchor, origin, Some(application)) != None
    ensures exists i: nat :: IsAt(l.lists, Slot(anchor, application), i, n)
  {
    var refs := l.lists[Slot(anchor, application)];
    assert IsAt(l.lists, Slot(anchor, application), FirstWith(refs, Some(n)), n);
  }

  lemma SetDefaultForOriginKeepsInv(l: Ledger, number: Option<nat>, anchor: u64, origin: Origin, traps: bool)
    requires Inv(l)
    ensures Inv(SetDefaultForOrigin(l, number, anchor, origin, traps).0)
  {
    hide Inv, IsAt, ReadAccount, WithApplication, NumberFor;
    var k := WithApplication(l, origin);
    var s := Slot(anchor, NumberFor(l, origin));
    RegisteringKeepsInv(l, origin);
    if number == None {
      SettingDefaultKeepsInv(k, s, number);
    } else if ReadAccount(k, number, anchor, origin, Some(s.application)) != None {
      ReadableIsReferenced(k, number.value, anchor, origin, s.application);
      SettingDefaultKeepsInv(k, s, number);
    }
  }

  // ----- Runs -----

  datatype Operation =
    | Create(name: Name, traps: bool)
    | Update(number: Option<nat>, newName: Option<Name>, fails: bool)
    | SetDefault(choice: Option<nat>, reverts: bool)
    | Use(used: Option<nat>, now: u64)

  datatype Call = Call(anchor: u64, origin: Origin, operation: Operation)

  function Step(l: Ledger, c: Call): Ledger {
    match c.operation
    case Create(name, traps) => CreateForOrigin(l, c.anchor, c.origin, name, traps).0
    case Update(number, name, traps) => UpdateForOrigin(l, number, c.anchor, c.origin, name, traps).0
    case SetDefault(number, traps) => SetDefaultForOrigin(l, number, c.anchor, c.origin, traps).0
    case Use(number, now) => SetLastUsed(l, number, c.anchor, c.origin, now)
  }

  function After(calls: seq<Call>): Ledger {
    if calls == [] then EMPTY else Step(After(calls[..|calls| - 1]), calls[|calls| - 1])
  }

  lemma StepKeepsInv(l: Ledger, c: Call)
    requires Inv(l)
    ensures Inv(Step(l, c))
  {
    hide Inv, CreateForOrigin, UpdateForOrigin, SetDefaultForOrigin, SetLastUsed;
    match c.operation
    case Create(name, traps) => CreateForOriginKeepsInv(l, c.anchor, c.origin, name, traps);
    case Update(number, name, traps) => UpdateForOriginKeepsInv(l, number, c.anchor, c.origin, name, traps);
    case SetDefault(number, traps) => SetDefaultForOriginKeepsInv(l, number, c.anchor, c.origin, traps);
    case Use(number, now) => SetLastUsedKeepsInv(l, number, c.anchor, c.origin, now);
  }

  lemma EmptySatisfiesInv()
    ensures Inv(EMPTY)
  {
    assert Numbered(EMPTY.lists) == {} && Positions(EMPTY.lists) == {};
    forall a
      ensures TrueCounter(EMPTY, a) == Counter(0, 0)
    {
      assert OfAnchor(Numbered(EMPTY.lists), a) == {} && OfAnchor(Positions(EMPTY.lists), a) == {};
    }
  }

  /** Whatever operations are called, in whatever order and with whatever arguments. */
  lemma {:induction false} RunsKeepInv(calls: seq<Call>)
    ensures Inv(After(calls))
  {
    hide Inv, Step;
    if calls == [] {
      EmptySatisfiesInv();
    } else {
      RunsKeepInv(calls[..|calls| - 1]);
      StepKeepsInv(After(calls[..|calls| - 1]), calls[|calls| - 1]);
    }
  }

  // ----- A default account that cannot be stored again -----

  lemma FirstNumberedDefault(a: u64, o: Origin, n: Name)
    requires |o| <= FRONTEND_HOSTNAME_LIMIT && |n| <= ACCOUNT_NAME_LIMIT
    ensures var l := UpdateForOrigin(EMPTY, None, a, o, Some(n), false).0;
            l.lists == map[Slot(a, 0) := [Reference(Some(1), None)]] && l.applicationNumbers == map[o := 0]
  {
    hide TrueCounter;
    assert CounterOf(EMPTY, a) == Counter(0, 0);
    assert CheckOrRebuild(EMPTY, a) == (EMPTY, true);
    assert ReadAccount(EMPTY, None, a, o, None) == Some(Synthetic(a, o));
    FirstDefault(a, o, n);
  }

  lemma FirstDefault(a: u64, o: Origin, n: Name)
    ensures var (l, r) := CreateDefault(EMPTY, a, o, n);
            r.Ok? && l.lists == map[Slot(a, 0) := [Reference(Some(1), None)]] && l.applicationNumbers == map[o := 0]
  {
  }

  /** After the default account got a number it cannot be read as the default reference any more. Storing it
      again without the read that comes first would lose a number. */
  lemma NumberedDefaultIsNotReadable(a: u64, o: Origin, n: Name)
    requires |o| <= FRONTEND_HOSTNAME_LIMIT && |n| <= ACCOUNT_NAME_LIMIT
    ensures var l := After([Call(a, o, Update(None, Some(n), false))]);
            && ReadAccount(l, None, a, o, None) == None
            && CreateDefault(l, a, o, n).1 == Err(MissingAccount)
            && !Consistent(CreateDefault(l, a, o, n).0)
  {
    hide UpdateForOrigin, CreateDefault, Consistent;
    var calls := [Call(a, o, Update(None, Some(n), false))];
    var l := After(calls);
    AfterOne(calls[0]);
    FirstNumberedDefault(a, o, n);
    assert FirstWith(l.lists[Slot(a, 0)], None) == 1;
    RunsKeepInv(calls);
    ConsistentFromInv(l);
    CreateDefaultNeedsReadFirst(l, a, o, n);
  }

  lemma AfterOne(c: Call)
    ensures After([c]) == Step(EMPTY, c)
  {
    assert [c][..0] == [];
  }

  lemma ConsistentFromInv(l: Ledger)
    requires Inv(l)
    ensures Consistent(l)
  {
  }

  // ----- What the invariant means for callers -----

  /** One application more, with no account in it, and nothing else changed. */
  ghost predicate Registers(l: Ledger, m: Ledger, origin: Origin) {
    && origin in m.applicationNumbers && |m.applicationNumbers| == |l.applicationNumbers| + 1
    && m.applicationNumbers[origin] !in l.applications
    && m.applications == l.applications[m.applicationNumbers[origin] := Application(origin, Counter(0, 0))]
    && m == l.(applicationNumbers := m.applicationNumbers, applications := m.applications)
  }

  lemma RegisteringRegisters(l: Ledger, origin: Origin)
    requires ApplicationsNumbered(l) && origin !in l.applicationNumbers
    ensures Registers(l, WithApplication(l, origin), origin)
  {
    var m := WithApplication(l, origin);
    assert m.applicationNumbers.Keys == l.applicationNumbers.Keys + {origin};
    assert |m.applicationNumbers| == |m.applicationNumbers.Keys| && |l.applicationNumbers| == |l.applicationNumbers.Keys|;
  }

  /** Setting a default that turns out not to exist still registers the application of a new origin. */
  lemma FailedDefaultRegisters(l: Ledger, number: Option<nat>, anchor: u64, origin: Origin, traps: bool)
    requires ApplicationsNumbered(l)
    requires SetDefaultForOrigin(l, number, anchor, origin, traps).1 == Some(Err(NoSuchAccount))
    ensures var m := SetDefaultForOrigin(l, number, anchor, origin, traps).0;
            if origin in l.applicationNumbers then m == l else Registers(l, m, origin)
  {
    hide ReadAccount, Registers, ApplicationsNumbered;
    if origin !in l.applicationNumbers {
      RegisteringRegisters(l, origin);
    }
  }

  /** The internal inconsistency cannot happen. */
  lemma DefaultIsReadable(l: Ledger, anchor: u64, origin: Origin)
    requires Inv(l)
    ensures GetDefaultForOrigin(l, anchor, origin) != Some(Err(InternalInconsistency))
  {
    hide ApplicationsNumbered, ListsWellFormed, CountersAgree, WithinLimit;
    var application := ApplicationNumber(l, origin);
    if application != None {
      var s := Slot(anchor, application.value);
      if s in l.defaults && l.defaults[s] != None {
        var i: nat :| IsAt(l.lists, s, i, l.defaults[s].value);
      }
    }
  }

  lemma {:induction false} AllReadable(l: Ledger, refs: seq<Reference>, anchor: u64, origin: Origin, application: nat)
    requires forall i :: 0 <= i < |refs| ==> ReadAccount(l, refs[i].accountNumber, anchor, origin, Some(application)) != None
    ensures |Readable(l, refs, anchor, origin, application)| == |refs|
    ensures forall i :: 0 <= i < |refs| ==>
              Some(Readable(l, refs, anchor, origin, application)[i]) == ReadAccount(l, refs[i].accountNumber,
                  anchor, origin, Some(application))
  {
    hide ReadAccount;
    if refs != [] {
      assert forall i :: 0 <= i < |refs[1..]| ==> refs[1..][i] == refs[i + 1];
      AllReadable(l, refs[1..], anchor, origin, application);
    }
  }

  /** The list of accounts shows every reference of the slot, in order. */
  lemma ListingDropsNothing(l: Ledger, anchor: u64, origin: Origin)
    requires Inv(l) && origin in l.applicationNumbers && Slot(anchor, l.applicationNumbers[origin]) in l.lists
    requires |origin| <= FRONTEND_HOSTNAME_LIMIT
    ensures var refs := l.lists[Slot(anchor, l.applicationNumbers[origin])];
            var listing := ListAccounts(l, anchor, origin);
            && listing != None && |listing.value| == |refs|
            && (forall i :: 0 <= i < |refs| ==>
                  listing.value[i].accountNumber == refs[i].accountNumber && listing.value[i].anchor == anchor &&
                      listing.value[i].origin == origin)
  {
    hide ApplicationsNumbered, ListsWellFormed, CountersAgree, WithinLimit;
    var p := l.applicationNumbers[origin];
    var s := Slot(anchor, p);
    var refs := l.lists[s];
    forall i | 0 <= i < |refs|
      ensures ReadAccount(l, refs[i].accountNumber, anchor, origin, Some(p)) != None
    {
      if refs[i].accountNumber != None {
        assert IsAt(l.lists, s, i, refs[i].accountNumber.value);
      }
    }
    AllReadable(l, refs, anchor, origin, p);
  }
}
