/** What an anchor sees of its accounts: bounds, the effect of a call on what its caller lists, and that
    nobody else sees anything of it. */
module AccountViews {
  import opened Types
  import opened AccountLedger
  import opened AccountInvariants
  import opened AccountRuns

  // ----- Bounds -----

  lemma {:induction false} OneEachFits(us: set<Position>, ns: set<Position>)
    requires forall u, v :: u in us && v in us && u.slot == v.slot ==> u == v
    requires forall u :: u in us ==> exists n :: n in ns && n.slot == u.slot
    ensures |us| <= |ns|
  {
    if u :| u in us {
      var n :| n in ns && n.slot == u.slot;
      OneEachFits(us - {u}, ns - {n});
    }
  }

  /** The references of an anchor that have no number. */
  function Unnumbered(l: Ledger, anchor: u64): set<Position> {
    OfAnchor(Positions(l.lists), anchor) - OfAnchor(Numbered(l.lists), anchor)
  }

  lemma UnnumberedHasNumberBeside(l: Ledger, anchor: u64, u: Position)
    requires ListsWellFormed(l) && u in Unnumbered(l, anchor)
    ensures u.slot in l.lists && NoNumberAt(l.lists[u.slot], u.index) && OneDefault(l.lists[u.slot])
    ensures exists n :: n in OfAnchor(Numbered(l.lists), anchor) && n.slot == u.slot
  {
    PositionMembership(l.lists, u);
    var i: nat, n: nat :| IsAt(l.lists, u.slot, i, n);
    PositionMembership(l.lists, Position(u.slot, i));
    assert Position(u.slot, i) in OfAnchor(Numbered(l.lists), anchor);
  }

  /** Lists have at most one default each, and always a number. */
  lemma DefaultsAreFewer(l: Ledger, anchor: u64)
    requires ListsWellFormed(l)
    ensures |OfAnchor(Positions(l.lists), anchor)| <= 2 * |OfAnchor(Numbered(l.lists), anchor)|
  {
    hide ListsWellFormed, Positions, Numbered, OfAnchor, Unnumbered;
    var defaults := Unnumbered(l, anchor);
    forall u | u in defaults
      ensures u.slot in l.lists && NoNumberAt(l.lists[u.slot], u.index) && OneDefault(l.lists[u.slot])
      ensures exists n :: n in OfAnchor(Numbered(l.lists), anchor) && n.slot == u.slot
    {
      UnnumberedHasNumberBeside(l, anchor, u);
    }
    OneEachFits(defaults, OfAnchor(Numbered(l.lists), anchor));
    SplitByNumber(l, anchor);
  }

  lemma SplitByNumber(l: Ledger, anchor: u64)
    ensures |OfAnchor(Positions(l.lists), anchor)| == |Unnumbered(l, anchor)| + |OfAnchor(Numbered(l.lists), anchor)|
  {
    forall p | p in OfAnchor(Numbered(l.lists), anchor)
      ensures p in OfAnchor(Positions(l.lists), anchor)
    {
      PositionMembership(l.lists, p);
    }
    assert OfAnchor(Positions(l.lists), anchor) == Unnumbered(l, anchor) + OfAnchor(Numbered(l.lists), anchor);
  }

  /** After any run: at most 500 accounts of an anchor, and at most twice as many references as accounts,
      counted in the lists and by the counters alike. */
  lemma AccountsAreBounded(calls: seq<Call>, anchor: u64)
    ensures var c := TrueCounter(After(calls), anchor);
            c.accounts <= MAX_ANCHOR_ACCOUNTS && c.references <= 2 * c.accounts && CounterOf(After(calls), anchor) == c
  {
    RunsKeepInv(calls);
    DefaultsAreFewer(After(calls), anchor);
  }

  // ----- Nobody else notices -----

  /** The only slot a call touches. */
  function Target(l: Ledger, c: Call): Slot {
    Slot(c.anchor, NumberFor(l, c.origin))
  }

  ghost predicate Touches(l: Ledger, m: Ledger, origin: Origin, s: Slot) {
    && (forall p :: p != origin || p in l.applicationNumbers ==> ApplicationNumber(m, p) == ApplicationNumber(l, p))
    && (origin in m.applicationNumbers ==> m.applicationNumbers[origin] == s.application)
    && (forall t :: t != s ==> ListOf(m, t) == ListOf(l, t))
    && (forall t :: t != s ==> DefaultOf(m, t) == DefaultOf(l, t))
    && (forall n :: n in l.accounts ==>
          n in m.accounts && (m.accounts[n] == l.accounts[n] || exists i: nat :: IsAt(l.lists, s, i, n)))
  }

  function ListOf(l: Ledger, s: Slot): Option<seq<Reference>> {
    if s in l.lists then Some(l.lists[s]) else None
  }

  function DefaultOf(l: Ledger, s: Slot): Option<nat> {
    if s in l.defaults then l.defaults[s] else None
  }

  lemma RegisteringTouches(l: Ledger, origin: Origin, s: Slot)
    requires s.application == NumberFor(l, origin)
    ensures Touches(l, WithApplication(l, origin), origin, s)
  {
    hide IsAt;
  }

  lemma StoredNumbering(l: Ledger, origin: Origin, s: Slot, refs: seq<Reference>, account: StorableAccount, isDefault: bool)
    ensures Stored(l, origin, s, refs, account, isDefault).applicationNumbers == WithApplication(l, origin).applicationNumbers
  {
  }

  lemma AllocatingTouches(l: Ledger, origin: Origin, s: Slot, refs: seq<Reference>, account: StorableAccount, isDefault: bool)
    requires NumbersReferencedOnce(l) && s.application == NumberFor(l, origin)
    ensures Touches(l, Stored(l, origin, s, refs, account, isDefault), origin, s)
  {
    hide IsAt, Stored, WithApplication, NumberFor;
    RegisteringTouches(l, origin, s);
    StoredNumbering(l, origin, s, refs, account, isDefault);
    StoredFields(l, origin, s, refs, account, isDefault);
    assert l.total.accounts + 1 !in l.accounts;
  }

  lemma CreateTouches(l: Ledger, anchor: u64, origin: Origin, name: Name, traps: bool)
    requires Inv(l)
    ensures Touches(l, CreateForOrigin(l, anchor, origin, name, traps).0, origin, Slot(anchor, NumberFor(l, origin)))
  {
    hide TrueCounter, CreateAdditional, Touches, ApplicationsNumbered, NumbersReferencedOnce, ListsWellFormed,
         CountersAgree, WithinLimit, DefaultsReferenced, NumberFor;
    NothingTouched(l, l, origin, anchor);
    var (k, allowed) := CheckOrRebuild(l, anchor);
    NothingTouched(l, k, origin, anchor);
    CheckingKeepsInv(l, anchor);
    AdditionalTouches(l, k, anchor, origin, name);
  }

  lemma AdditionalTouches(l: Ledger, k: Ledger, anchor: u64, origin: Origin, name: Name)
    requires Inv(k)
    requires k.lists == l.lists && k.defaults == l.defaults && k.accounts == l.accounts &&
               k.applicationNumbers == l.applicationNumbers
    ensures Touches(l, CreateAdditional(k, anchor, origin, name).0, origin, Slot(anchor, NumberFor(l, origin)))
  {
    hide CreateAdditional, Stored, IsAt, CountersAgree, WithinLimit, DefaultsReferenced, ListsWellFormed,
         ApplicationsNumbered;
    var s := Slot(anchor, NumberFor(k, origin));
    AdditionalIsStored(k, anchor, origin, name);
    AllocatingTouches(k, origin, s, Extended(k, s), StorableAccount(name, None), false);
  }

  lemma UpdateTouches(l: Ledger, number: Option<nat>, anchor: u64, origin: Origin, name: Option<Name>, traps: bool)
    requires Inv(l)
    ensures Touches(l, UpdateForOrigin(l, number, anchor, origin, name, traps).0, origin, Slot(anchor, NumberFor(l, origin)))
  {
    hide TrueCounter, CreateDefault, Stored, Touches, CountersAgree, WithinLimit, DefaultsReferenced,
         NumbersReferencedOnce, ListsWellFormed, ApplicationsNumbered, ReadAccount, UpdateExisting, NumberFor;
    var s := Slot(anchor, NumberFor(l, origin));
    NothingTouched(l, l, origin, anchor);
    var (k, allowed) := CheckOrRebuild(l, anchor);
    NothingTouched(l, k, origin, anchor);
    if name != None {
      if number != None {
        RenamingTouches(l, number.value, anchor, origin, name.value);
      } else if ReadAccount(k, number, anchor, origin, None) != None {
        CheckingKeepsInv(l, anchor);
        DefaultTouches(l, k, anchor, origin, name.value);
      }
    }
  }

  lemma NothingTouched(l: Ledger, k: Ledger, origin: Origin, anchor: u64)
    requires ApplicationsNumbered(l)
    requires k.lists == l.lists && k.defaults == l.defaults && k.accounts == l.accounts &&
               k.applicationNumbers == l.applicationNumbers
    ensures Touches(l, k, origin, Slot(anchor, NumberFor(l, origin)))
  {
    hide IsAt;
  }

  lemma DefaultTouches(l: Ledger, k: Ledger, anchor: u64, origin: Origin, name: Name)
    requires Inv(k) && ReadAccount(k, None, anchor, origin, None) != None
    requires k.lists == l.lists && k.defaults == l.defaults && k.accounts == l.accounts &&
               k.applicationNumbers == l.applicationNumbers
    ensures Touches(l, CreateDefault(k, anchor, origin, name).0, origin, Slot(anchor, NumberFor(l, origin)))
  {
    hide CreateDefault, Stored, IsAt, ReadAccount, CountersAgree, WithinLimit, DefaultsReferenced, ListsWellFormed,
         ApplicationsNumbered;
    var s := Slot(anchor, NumberFor(k, origin));
    ReadFindsDefault(k, anchor, origin);
    DefaultIsStored(k, anchor, origin, name);
    AllocatingTouches(k, origin, s, Filled(k, s), StorableAccount(name, Some(anchor)), true);
  }

  lemma RenamingTouches(l: Ledger, n: nat, anchor: u64, origin: Origin, name: Name)
    requires ApplicationsNumbered(l)
    ensures Touches(l, UpdateExisting(l, n, anchor, origin, name).0, origin, Slot(anchor, NumberFor(l, origin)))
  {
    hide IsAt;
    if ReadAccount(l, Some(n), anchor, origin, None) != None {
      ReadableIsReferenced(l, n, anchor, origin, NumberFor(l, origin));
    }
  }

  lemma SettingDefaultTouches(l: Ledger, number: Option<nat>, anchor: u64, origin: Origin, traps: bool)
    requires ApplicationsNumbered(l)
    ensures Touches(l, SetDefaultForOrigin(l, number, anchor, origin, traps).0, origin, Slot(anchor, NumberFor(l, origin)))
  {
    hide IsAt, ReadAccount, WithApplication, NumberFor, ApplicationsNumbered;
    NothingTouched(l, l, origin, anchor);
    RegisteringTouches(l, origin, Slot(anchor, NumberFor(l, origin)));
    RegisteringKeepsTheRest(l, origin);
  }

  lemma UsingTouches(l: Ledger, number: Option<nat>, anchor: u64, origin: Origin, now: u64)
    ensures Touches(l, SetLastUsed(l, number, anchor, origin, now), origin, Slot(anchor, NumberFor(l, origin)))
  {
    hide IsAt;
  }

  lemma StepTouches(l: Ledger, c: Call)
    requires Inv(l)
    ensures Touches(l, Step(l, c), c.origin, Target(l, c))
  {
    hide Touches, CreateForOrigin, UpdateForOrigin, SetDefaultForOrigin, SetLastUsed, NumberFor,
         NumbersReferencedOnce, ListsWellFormed, CountersAgree, WithinLimit, DefaultsReferenced, ApplicationsNumbered;
    match c.operation
    case Create(name, traps) => CreateTouches(l, c.anchor, c.origin, name, traps);
    case Update(number, name, traps) => UpdateTouches(l, number, c.anchor, c.origin, name, traps);
    case SetDefault(number, traps) => SettingDefaultTouches(l, number, c.anchor, c.origin, traps);
    case Use(number, now) => UsingTouches(l, number, c.anchor, c.origin, now);
  }

  /** What can be listed and read as the default only depends on one slot and the accounts it refers to. */
  lemma SameSlotSameView(l: Ledger, m: Ledger, anchor: u64, origin: Origin, application: nat)
    requires Inv(l) && Inv(m)
    requires ApplicationNumber(l, origin) == Some(application) == ApplicationNumber(m, origin)
    requires var s := Slot(anchor, application); ListOf(m, s) == ListOf(l, s) && DefaultOf(m, s) == DefaultOf(l, s)
    requires forall i: nat, n: nat :: IsAt(l.lists, Slot(anchor, application), i, n) ==>
               n in l.accounts && n in m.accounts && m.accounts[n] == l.accounts[n]
    ensures ListAccounts(m, anchor, origin) == ListAccounts(l, anchor, origin)
    ensures GetDefaultForOrigin(m, anchor, origin) == GetDefaultForOrigin(l, anchor, origin)
  {
    hide ApplicationsNumbered, NumbersReferencedOnce, ListsWellFormed, CountersAgree, WithinLimit;
    var s := Slot(anchor, application);
    if s in l.defaults && l.defaults[s] != None {
      var i: nat :| IsAt(l.lists, s, i, l.defaults[s].value);
    }
    if s in l.lists {
      SameReadable(l, m, l.lists[s], anchor, origin, application);
    }
  }

  lemma {:induction false} SameReadable(l: Ledger, m: Ledger, refs: seq<Reference>, anchor: u64, origin: Origin,
                                        application: nat)
    requires var s := Slot(anchor, application);
             && ListOf(m, s) == ListOf(l, s) != None
             && |refs| <= |l.lists[s]| && refs == l.lists[s][|l.lists[s]| - |refs|..]
    requires forall i: nat, n: nat :: IsAt(l.lists, Slot(anchor, application), i, n) ==>
               n in l.accounts && n in m.accounts && m.accounts[n] == l.accounts[n]
    ensures Readable(m, refs, anchor, origin, application) == Readable(l, refs, anchor, origin, application)
  {
    if refs != [] {
      var s := Slot(anchor, application);
      var i := |l.lists[s]| - |refs|;
      assert l.lists[s][i] == refs[0];
      if refs[0].accountNumber != None {
        assert IsAt(l.lists, s, i, refs[0].accountNumber.value);
      }
      SameReadable(l, m, refs[1..], anchor, origin, application);
    }
  }

  /** A call changes nothing that another anchor, or the same anchor elsewhere, can list or read as its default. */
  lemma OthersSeeNothing(calls: seq<Call>, c: Call, anchor: u64, origin: Origin)
    requires (anchor, origin) != (c.anchor, c.origin)
    ensures ListAccounts(After(calls + [c]), anchor, origin) == ListAccounts(After(calls), anchor, origin)
    ensures GetDefaultForOrigin(After(calls + [c]), anchor, origin) == GetDefaultForOrigin(After(calls), anchor, origin)
  {
    hide Inv, Step, ListAccounts, GetDefaultForOrigin;
    assert (calls + [c])[..|calls|] == calls;
    RunsKeepInv(calls);
    RunsKeepInv(calls + [c]);
    StepTouches(After(calls), c);
    TouchingElsewhere(After(calls), After(calls + [c]), c, anchor, origin);
  }

  lemma TouchingElsewhere(l: Ledger, m: Ledger, c: Call, anchor: u64, origin: Origin)
    requires (anchor, origin) != (c.anchor, c.origin)
    requires Inv(l) && Inv(m) && Touches(l, m, c.origin, Target(l, c))
    ensures ListAccounts(m, anchor, origin) == ListAccounts(l, anchor, origin)
    ensures GetDefaultForOrigin(m, anchor, origin) == GetDefaultForOrigin(l, anchor, origin)
  {
    hide CountersAgree, WithinLimit, Readable, ReadAccount, ListsWellFormed, DefaultsReferenced, ListAccounts,
         GetDefaultForOrigin, IsAt;
    if origin in l.applicationNumbers {
      var p := l.applicationNumbers[origin];
      assert Slot(anchor, p) != Target(l, c);
      forall i: nat, n: nat | IsAt(l.lists, Slot(anchor, p), i, n)
        ensures n in l.accounts && n in m.accounts && m.accounts[n] == l.accounts[n]
      {
        assert n in l.accounts;
      }
      SameSlotSameView(l, m, anchor, origin, p);
    } else {
      NewOriginSeesNothing(l, m, c, anchor, origin);
    }
  }

  lemma NewOriginSeesNothing(l: Ledger, m: Ledger, c: Call, anchor: u64, origin: Origin)
    requires (anchor, origin) != (c.anchor, c.origin) && origin !in l.applicationNumbers
    requires Inv(l) && Touches(l, m, c.origin, Target(l, c))
    ensures ListAccounts(m, anchor, origin) == ListAccounts(l, anchor, origin)
    ensures GetDefaultForOrigin(m, anchor, origin) == GetDefaultForOrigin(l, anchor, origin)
  {
    hide CountersAgree, WithinLimit, Readable, ReadAccount, NumbersReferencedOnce;
    if origin in m.applicationNumbers {
      assert origin == c.origin && anchor != c.anchor;
      var t := Slot(anchor, m.applicationNumbers[origin]);
      assert t.application !in l.applications;
      assert t !in l.lists && DefaultOf(l, t) == None;
      assert t !in m.lists && DefaultOf(m, t) == None by {
        assert ListOf(m, t) == ListOf(l, t);
      }
    }
  }

  // ----- What the caller sees -----

  /** A list that is not there reads as one unnumbered default reference. */
  function ReferencesOf(l: Ledger, s: Slot): seq<Reference> {
    if s in l.lists then l.lists[s] else [Reference(None, None)]
  }

  /** What a reference is listed as. */
  ghost predicate Shows(l: Ledger, a: Account, r: Reference, anchor: u64, origin: Origin) {
    && a.accountNumber == r.accountNumber && a.anchor == anchor && a.origin == origin && a.lastUsed == r.lastUsed
    && match r.accountNumber {
         case None => a.name == None && a.seedFromAnchor == None
         case Some(n) => n in l.accounts && a.name == Some(l.accounts[n].name) &&
             a.seedFromAnchor == l.accounts[n].seedFromAnchor
       }
  }

  ghost predicate Lists(l: Ledger, listing: seq<Account>, refs: seq<Reference>, anchor: u64, origin: Origin) {
    |listing| == |refs| && forall i :: 0 <= i < |refs| ==> Shows(l, listing[i], refs[i], anchor, origin)
  }

  /** The listing of an anchor at an origin is its reference list, each reference with its account. */
  lemma ListingIsReferences(l: Ledger, anchor: u64, origin: Origin)
    requires Inv(l) && |origin| <= FRONTEND_HOSTNAME_LIMIT
    ensures ListAccounts(l, anchor, origin) != None
    ensures Lists(l, ListAccounts(l, anchor, origin).value, ReferencesOf(l, Slot(anchor, NumberFor(l, origin))),
              anchor, origin)
  {
    hide ListsWellFormed, CountersAgree, WithinLimit, DefaultsReferenced;
    var s := Slot(anchor, NumberFor(l, origin));
    if s in l.lists {
      NewApplicationHasNoList(l, anchor, origin);
      var refs := l.lists[s];
      forall i | 0 <= i < |refs|
        ensures var read := ReadAccount(l, refs[i].accountNumber, anchor, origin, Some(s.application));
                read != None && Shows(l, read.value, refs[i], anchor, origin)
      {
        ReferenceIsShown(l, anchor, origin, s, i);
      }
      AllReadable(l, refs, anchor, origin, s.application);
    }
  }

  lemma NewApplicationHasNoList(l: Ledger, anchor: u64, origin: Origin)
    requires ApplicationsNumbered(l) && ListsWellFormed(l)
    ensures Slot(anchor, NumberFor(l, origin)) in l.lists ==> origin in l.applicationNumbers
  {
  }

  lemma ReferenceIsShown(l: Ledger, anchor: u64, origin: Origin, s: Slot, i: nat)
    requires NumbersReferencedOnce(l) && ListsWellFormed(l) && s in l.lists && i < |l.lists[s]| && s.anchor == anchor
    ensures ReadAccount(l, l.lists[s][i].accountNumber, anchor, origin, Some(s.application)) != None
    ensures Shows(l, ReadAccount(l, l.lists[s][i].accountNumber, anchor, origin, Some(s.application)).value,
              l.lists[s][i], anchor, origin)
  {
    hide CountersAgree;
    var refs := l.lists[s];
    var j := FirstWith(refs, refs[i].accountNumber);
    if refs[i].accountNumber == None {
      assert NoNumberAt(refs, i) && NoNumberAt(refs, j);
    } else {
      assert IsAt(l.lists, s, i, refs[i].accountNumber.value) && IsAt(l.lists, s, j, refs[i].accountNumber.value);
    }
  }

  /** Listings of the same references with the same accounts are the same. */
  lemma SameReferencesSameListing(l: Ledger, m: Ledger, a: seq<Account>, b: seq<Account>, refs: seq<Reference>,
                                  anchor: u64, origin: Origin)
    requires Lists(l, a, refs, anchor, origin) && Lists(m, b, refs, anchor, origin)
    requires forall n :: n in l.accounts ==> n in m.accounts && m.accounts[n] == l.accounts[n]
    ensures a == b
  {
    forall i | 0 <= i < |refs|
      ensures a[i] == b[i]
    {
      assert Shows(l, a[i], refs[i], anchor, origin) && Shows(m, b[i], refs[i], anchor, origin);
    }
  }

  /** A created account is listed last, after everything that was listed before. */
  lemma CreatedIsListed(l: Ledger, anchor: u64, origin: Origin, name: Name, traps: bool, a: Account)
    requires Inv(l) && CreateForOrigin(l, anchor, origin, name, traps).1 == Some(Ok(a))
    ensures a.name == Some(name) && a.accountNumber != None && a.accountNumber.value !in l.accounts
    ensures var before := ListAccounts(l, anchor, origin);
            var after := ListAccounts(CreateForOrigin(l, anchor, origin, name, traps).0, anchor, origin);
            before != None && after == Some(before.value + [a])
  {
    hide Inv, TrueCounter, CreateAdditional, ListAccounts, Lists, ReferencesOf, NumberFor, Extended;
    var k := CheckOrRebuild(l, anchor).0;
    var m := CreateForOrigin(l, anchor, origin, name, traps).0;
    CheckingKeepsInv(l, anchor);
    CreateForOriginKeepsInv(l, anchor, origin, name, traps);
    ListingIsReferences(l, anchor, origin);
    ListingIsReferences(m, anchor, origin);
    CreatedReferences(l, k, anchor, origin, name);
    var refs := ReferencesOf(l, Slot(anchor, NumberFor(l, origin)));
    ListingGrows(l, m, ListAccounts(l, anchor, origin).value, ListAccounts(m, anchor, origin).value, refs, anchor, origin, a);
  }

  lemma NumberStays(l: Ledger, origin: Origin)
    requires ApplicationsNumbered(l)
    ensures NumberFor(WithApplication(l, origin), origin) == NumberFor(l, origin)
  {
  }

  /** The slot's list after a number was stored in it. */
  lemma StoredView(l: Ledger, origin: Origin, s: Slot, refs: seq<Reference>, account: StorableAccount, isDefault: bool)
    requires ApplicationsNumbered(l) && NumbersReferencedOnce(l) && s.application == NumberFor(l, origin)
    ensures var m := Stored(l, origin, s, refs, account, isDefault);
            && NumberFor(m, origin) == NumberFor(l, origin) && ReferencesOf(m, s) == refs
            && m.accounts == l.accounts[l.total.accounts + 1 := account]
            && l.total.accounts + 1 !in l.accounts
  {
    hide Stored, WithApplication, ApplicationsNumbered;
    NumberStays(l, origin);
    StoredNumbering(l, origin, s, refs, account, isDefault);
    StoredFields(l, origin, s, refs, account, isDefault);
  }

  lemma CreatedReferences(l: Ledger, k: Ledger, anchor: u64, origin: Origin, name: Name)
    requires Inv(l) && Inv(k)
    requires k.lists == l.lists && k.accounts == l.accounts && k.total == l.total &&
               k.applicationNumbers == l.applicationNumbers
    ensures var m := CreateAdditional(k, anchor, origin, name).0;
            var n := l.total.accounts + 1;
            && ReferencesOf(m, Slot(anchor, NumberFor(m, origin)))
                == ReferencesOf(l, Slot(anchor, NumberFor(l, origin))) + [Reference(Some(n), None)]
            && m.accounts == l.accounts[n := StorableAccount(name, None)] && n !in l.accounts
            && CreateAdditional(k, anchor, origin, name).1 == Account(Some(n), anchor, origin, None, Some(name), None)
  {
    hide ApplicationsNumbered, NumbersReferencedOnce, ListsWellFormed, CountersAgree, WithinLimit, Stored,
         WithApplication, Count;
    var s := Slot(anchor, NumberFor(k, origin));
    AdditionalIsStored(k, anchor, origin, name);
    StoredView(k, origin, s, Extended(k, s), StorableAccount(name, None), false);
  }

  lemma ListingGrows(l: Ledger, m: Ledger, before: seq<Account>, after: seq<Account>, refs: seq<Reference>,
                     anchor: u64, origin: Origin, a: Account)
    requires Lists(l, before, refs, anchor, origin) && a.accountNumber != None && a.accountNumber.value !in l.accounts
    requires Lists(m, after, refs + [Reference(a.accountNumber, None)], anchor, origin)
    requires a.name != None && m.accounts == l.accounts[a.accountNumber.value := StorableAccount(a.name.value, None)]
    requires a == Account(a.accountNumber, anchor, origin, None, a.name, None)
    ensures after == before + [a]
  {
    var all := refs + [Reference(a.accountNumber, None)];
    forall i | 0 <= i < |refs|
      ensures after[i] == before[i]
    {
      assert all[i] == refs[i] && Shows(l, before[i], refs[i], anchor, origin) && Shows(m, after[i], all[i], anchor, origin);
    }
    assert Shows(m, after[|refs|], all[|refs|], anchor, origin);
  }

  lemma RenamedListing(l: Ledger, m: Ledger, before: seq<Account>, after: seq<Account>, refs: seq<Reference>, i: nat,
                       anchor: u64, origin: Origin, number: nat, name: Name)
    requires Lists(l, before, refs, anchor, origin) && Lists(m, after, refs, anchor, origin)
    requires i < |refs| && refs[i].accountNumber == Some(number)
    requires forall j :: 0 <= j < |refs| && refs[j].accountNumber == Some(number) ==> i == j
    requires number in l.accounts && m.accounts == l.accounts[number := l.accounts[number].(name := name)]
    ensures after == before[i := before[i].(name := Some(name))]
  {
    forall j | 0 <= j < |refs|
      ensures after[j] == before[i := before[i].(name := Some(name))][j]
    {
      assert Shows(l, before[j], refs[j], anchor, origin) && Shows(m, after[j], refs[j], anchor, origin);
    }
  }

  lemma NumberedListing(l: Ledger, m: Ledger, before: seq<Account>, after: seq<Account>, refs: seq<Reference>, i: nat,
                        anchor: u64, origin: Origin, number: nat, account: StorableAccount)
    requires Lists(l, before, refs, anchor, origin) && i < |refs|
    requires Lists(m, after, refs[i := refs[i].(accountNumber := Some(number))], anchor, origin)
    requires number !in l.accounts && m.accounts == l.accounts[number := account]
    ensures after == before[i := before[i].(accountNumber := Some(number), name := Some(account.name),
              seedFromAnchor := account.seedFromAnchor)]
  {
    var all := refs[i := refs[i].(accountNumber := Some(number))];
    forall j | 0 <= j < |refs|
      ensures after[j] == before[i := before[i].(accountNumber := Some(number), name := Some(account.name),
                seedFromAnchor := account.seedFromAnchor)][j]
    {
      assert Shows(l, before[j], refs[j], anchor, origin) && Shows(m, after[j], all[j], anchor, origin);
    }
  }

  /** Renaming an account changes its name in the listing, and nothing else there. */
  lemma RenamedIsListed(l: Ledger, n: nat, anchor: u64, origin: Origin, name: Name)
    returns (i: nat)
    requires Inv(l) && |origin| <= FRONTEND_HOSTNAME_LIMIT
    requires UpdateExisting(l, n, anchor, origin, name).1.Ok?
    ensures var m := UpdateExisting(l, n, anchor, origin, name).0;
            var before := ListAccounts(l, anchor, origin);
            && before != None && i < |before.value| && before.value[i].accountNumber == Some(n)
            && UpdateExisting(l, n, anchor, origin, name).1 == Ok(before.value[i].(name := Some(name)))
            && ListAccounts(m, anchor, origin) == Some(before.value[i := before.value[i].(name := Some(name))])
  {
    hide ApplicationsNumbered, CountersAgree, WithinLimit, ListsWellFormed, DefaultsReferenced, ListAccounts, Lists;
    var m := UpdateExisting(l, n, anchor, origin, name).0;
    var s := Slot(anchor, NumberFor(l, origin));
    var refs := l.lists[s];
    i := FirstWith(refs, Some(n));
    assert IsAt(l.lists, s, i, n);
    forall j | 0 <= j < |refs| && refs[j].accountNumber == Some(n)
      ensures i == j
    {
      assert IsAt(l.lists, s, j, n);
    }
    UpdateExistingKeepsInv(l, n, anchor, origin, name);
    ListingIsReferences(l, anchor, origin);
    ListingIsReferences(m, anchor, origin);
    RenamedListing(l, m, ListAccounts(l, anchor, origin).value, ListAccounts(m, anchor, origin).value, refs, i,
        anchor, origin, n, name);
    ListedAt(l, ListAccounts(l, anchor, origin).value, refs, i, anchor, origin);
  }

  lemma ListedAt(l: Ledger, listing: seq<Account>, refs: seq<Reference>, i: nat, anchor: u64, origin: Origin)
    requires Lists(l, listing, refs, anchor, origin) && i < |refs|
    ensures |listing| == |refs| && Shows(l, listing[i], refs[i], anchor, origin)
  {
  }

  /** Storing the default account under a number changes its entry in the listing, and nothing else there. */
  lemma StoredDefaultIsListed(l: Ledger, anchor: u64, origin: Origin, name: Name)
    returns (i: nat)
    requires Inv(l) && |origin| <= FRONTEND_HOSTNAME_LIMIT && TrueCounter(l, anchor).accounts < MAX_ANCHOR_ACCOUNTS
    requires ReadAccount(l, None, anchor, origin, None) != None
    ensures var m := CreateDefault(l, anchor, origin, name).0;
            var before := ListAccounts(l, anchor, origin);
            var n := l.total.accounts + 1;
            && before != None && i < |before.value| && before.value[i].accountNumber == None && n !in l.accounts
            && CreateDefault(l, anchor, origin, name).1 == Ok(Account(Some(n), anchor, origin, None, Some(name),
                Some(anchor)))
            && ListAccounts(m, anchor, origin)
               == Some(before.value[i := Account(Some(n), anchor, origin, before.value[i].lastUsed, Some(name),
                   Some(anchor))])
  {
    hide Inv, ListAccounts, Lists, NumberFor, TrueCounter, Filled, CreateDefault, ReadAccount, Stored;
    var s := Slot(anchor, NumberFor(l, origin));
    FoundDefault(l, anchor, origin);
    var refs := ReferencesOf(l, s);
    i := if s in l.lists then FirstWith(refs, None) else 0;
    DefaultIsStored(l, anchor, origin, name);
    CreateDefaultKeepsInv(l, anchor, origin, name);
    var account := StorableAccount(name, Some(anchor));
    var m := Stored(l, origin, s, Filled(l, s), account, true);
    ListingIsReferences(l, anchor, origin);
    ListingIsReferences(m, anchor, origin);
    FilledView(l, origin, s, account);
    NumberedListing(l, m, ListAccounts(l, anchor, origin).value, ListAccounts(m, anchor, origin).value, refs, i,
                    anchor, origin, l.total.accounts + 1, account);
    ListedAt(l, ListAccounts(l, anchor, origin).value, refs, i, anchor, origin);
  }

  lemma FoundDefault(l: Ledger, anchor: u64, origin: Origin)
    requires Inv(l)
    ensures var s := Slot(anchor, NumberFor(l, origin));
            ReadAccount(l, None, anchor, origin, None) != None <==> (s in l.lists ==> FirstWith(l.lists[s], None) < |l.lists[s]|)
  {
    ReadFindsDefault(l, anchor, origin);
  }

  lemma FilledView(l: Ledger, origin: Origin, s: Slot, account: StorableAccount)
    requires Inv(l) && s.application == NumberFor(l, origin)
    requires s in l.lists ==> FirstWith(l.lists[s], None) < |l.lists[s]|
    ensures var m := Stored(l, origin, s, Filled(l, s), account, true);
            var refs := ReferencesOf(l, s);
            var i := if s in l.lists then FirstWith(refs, None) else 0;
            && ReferencesOf(m, Slot(s.anchor, NumberFor(m, origin)))
                == refs[i := refs[i].(accountNumber := Some(l.total.accounts + 1))]
            && m.accounts == l.accounts[l.total.accounts + 1 := account] && l.total.accounts + 1 !in l.accounts
  {
    hide ApplicationsNumbered, NumbersReferencedOnce, ListsWellFormed, CountersAgree, WithinLimit, Stored,
         WithApplication, NumberFor;
    StoredView(l, origin, s, Filled(l, s), account, true);
  }

  lemma CheckingKeepsListing(l: Ledger, anchor: u64, origin: Origin)
    requires Inv(l) && |origin| <= FRONTEND_HOSTNAME_LIMIT
    ensures ListAccounts(CheckOrRebuild(l, anchor).0, anchor, origin) == ListAccounts(l, anchor, origin)
  {
    hide Inv, ListAccounts, Lists, TrueCounter;
    var k := CheckOrRebuild(l, anchor).0;
    CheckingKeepsInv(l, anchor);
    ListingIsReferences(l, anchor, origin);
    ListingIsReferences(k, anchor, origin);
    var refs := ReferencesOf(l, Slot(anchor, NumberFor(l, origin)));
    SameReferencesSameListing(l, k, ListAccounts(l, anchor, origin).value, ListAccounts(k, anchor, origin).value,
        refs, anchor, origin);
  }

  /** A successful update changes the listed account it names, gives the default account a number, and
      leaves the rest of the listing and its order alone. */
  lemma UpdatedIsListed(l: Ledger, number: Option<nat>, anchor: u64, origin: Origin, name: Name, traps: bool, a: Account)
    returns (i: nat)
    requires Inv(l) && UpdateForOrigin(l, number, anchor, origin, Some(name), traps).1 == Some(Ok(a))
    ensures var m := UpdateForOrigin(l, number, anchor, origin, Some(name), traps).0;
            var before := ListAccounts(l, anchor, origin);
            && before != None && i < |before.value| && before.value[i].accountNumber == number
            && ListAccounts(m, anchor, origin) == Some(before.value[i := a.(lastUsed := before.value[i].lastUsed)])
    ensures a.name == Some(name) && (number != None ==> a.accountNumber == number)
    ensures number == None ==> a.accountNumber == Some(l.total.accounts + 1) && l.total.accounts + 1 !in l.accounts
  {
    hide Inv, ListAccounts, TrueCounter, ReadAccount, CreateDefault, UpdateExisting;
    CheckingKeepsInv(l, anchor);
    var k := CheckOrRebuild(l, anchor).0;
    if number == None {
      OnlyListsCount(l, k);
      CheckingKeepsListing(l, anchor, origin);
      i := StoredDefaultIsListed(k, anchor, origin, name);
    } else {
      i := RenamedIsListed(l, number.value, anchor, origin, name);
    }
  }

  /** What setting a default comes to: an error exactly if the account is not referenced, and else, unless the
      bookkeeping traps, a default that is read back. */
  ghost predicate SetsDefault(l: Ledger, number: Option<nat>, anchor: u64, origin: Origin, traps: bool) {
    var (m, r) := SetDefaultForOrigin(l, number, anchor, origin, traps);
    var s := Slot(anchor, NumberFor(l, origin));
    if number != None && forall i: nat :: !IsAt(l.lists, s, i, number.value) then r == Some(Err(NoSuchAccount))
    else if traps then r == None && m == l
    else Succeeds(r) && GetDefaultForOrigin(m, anchor, origin) == r
  }

  /** An account becomes the default exactly when it is listed, and is then what is read back. */
  lemma ChosenDefaultIsRead(l: Ledger, number: Option<nat>, anchor: u64, origin: Origin, traps: bool)
    requires Inv(l) && |origin| <= FRONTEND_HOSTNAME_LIMIT
    ensures SetsDefault(l, number, anchor, origin, traps)
    ensures ListAccounts(SetDefaultForOrigin(l, number, anchor, origin, traps).0, anchor, origin)
         == ListAccounts(l, anchor, origin)
  {
    hide Inv, ListAccounts, Lists, NumberFor, SetsDefault;
    var m := SetDefaultForOrigin(l, number, anchor, origin, traps).0;
    SetDefaultForOriginKeepsInv(l, number, anchor, origin, traps);
    SetDefaultReads(l, number, anchor, origin, traps);
    ListingIsReferences(l, anchor, origin);
    ListingIsReferences(m, anchor, origin);
    var refs := ReferencesOf(l, Slot(anchor, NumberFor(l, origin)));
    SameReferencesSameListing(l, m, ListAccounts(l, anchor, origin).value, ListAccounts(m, anchor, origin).value,
                              refs, anchor, origin);
  }

  lemma ReadableIffReferenced(l: Ledger, n: nat, anchor: u64, origin: Origin, application: nat)
    requires NumbersReferencedOnce(l)
    ensures ReadAccount(l, Some(n), anchor, origin, Some(application)) == None <==>
              forall i: nat :: !IsAt(l.lists, Slot(anchor, application), i, n)
  {
    if ReadAccount(l, Some(n), anchor, origin, Some(application)) != None {
      ReadableIsReferenced(l, n, anchor, origin, application);
    }
  }

  lemma OnlyDefaultsChange(k: Ledger, m: Ledger, number: Option<nat>, anchor: u64, origin: Origin, application: nat)
    requires m.accounts == k.accounts && m.lists == k.lists
    ensures ReadAccount(m, number, anchor, origin, Some(application))
              == ReadAccount(k, number, anchor, origin, Some(application))
  {
  }

  lemma SetDefaultReads(l: Ledger, number: Option<nat>, anchor: u64, origin: Origin, traps: bool)
    requires Inv(l) && |origin| <= FRONTEND_HOSTNAME_LIMIT
    ensures SetsDefault(l, number, anchor, origin, traps)
    ensures var m := SetDefaultForOrigin(l, number, anchor, origin, traps).0;
            m.lists == l.lists && m.accounts == l.accounts && NumberFor(m, origin) == NumberFor(l, origin)
  {
    hide ReadAccount, WithApplication, IsAt, ApplicationsNumbered, NumbersReferencedOnce, ListsWellFormed,
         CountersAgree, WithinLimit, DefaultsReferenced;
    var k := WithApplication(l, origin);
    var s := Slot(anchor, NumberFor(l, origin));
    var m := SetDefaultForOrigin(l, number, anchor, origin, traps).0;
    RegisteringKeepsApplications(l, origin);
    RegisteringKeepsTheRest(l, origin);
    RegisteringKeepsInv(l, origin);
    if number != None {
      ReadableIffReferenced(k, number.value, anchor, origin, s.application);
      OnlyDefaultsChange(k, m, number, anchor, origin, s.application);
    }
  }

  /** What was the default account and got a number is what is read as the default afterwards. */
  lemma StoredDefaultIsRead(l: Ledger, anchor: u64, origin: Origin, name: Name)
    requires Inv(l) && |origin| <= FRONTEND_HOSTNAME_LIMIT && TrueCounter(l, anchor).accounts < MAX_ANCHOR_ACCOUNTS
    requires ReadAccount(l, None, anchor, origin, None) != None
    ensures var r := GetDefaultForOrigin(CreateDefault(l, anchor, origin, name).0, anchor, origin);
            && r != None && r.value.Ok?
            && r.value.value.(lastUsed := None) == Account(Some(l.total.accounts + 1), anchor, origin, None,
                Some(name), Some(anchor))
  {
    hide Inv, NumberFor, TrueCounter, CreateDefault, ReadAccount, Stored;
    var s := Slot(anchor, NumberFor(l, origin));
    FoundDefault(l, anchor, origin);
    DefaultIsStored(l, anchor, origin, name);
    CreateDefaultKeepsInv(l, anchor, origin, name);
    var account := StorableAccount(name, Some(anchor));
    FilledView(l, origin, s, account);
    StoredDefault(l, origin, s, account);
    var m := Stored(l, origin, s, Filled(l, s), account, true);
    var i := if s in l.lists then FirstWith(l.lists[s], None) else 0;
    InvShows(m, anchor, origin, s, i);
  }

  lemma StoredDefault(l: Ledger, origin: Origin, s: Slot, account: StorableAccount)
    requires Inv(l) && s.application == NumberFor(l, origin)
    requires s in l.lists ==> FirstWith(l.lists[s], None) < |l.lists[s]|
    ensures var m := Stored(l, origin, s, Filled(l, s), account, true);
            && s in m.lists && m.lists[s] == Filled(l, s) && s in m.defaults && m.defaults[s] == Some(l.total.accounts + 1)
            && ApplicationNumber(m, origin) == Some(s.application)
  {
    hide Stored, WithApplication, NumbersReferencedOnce, ListsWellFormed, CountersAgree, WithinLimit;
    RegisteringKeepsApplications(l, origin);
    StoredFields(l, origin, s, Filled(l, s), account, true);
    StoredNumbering(l, origin, s, Filled(l, s), account, true);
  }

  lemma InvShows(l: Ledger, anchor: u64, origin: Origin, s: Slot, i: nat)
    requires Inv(l) && s in l.lists && i < |l.lists[s]| && s.anchor == anchor
    ensures var read := ReadAccount(l, l.lists[s][i].accountNumber, anchor, origin, Some(s.application));
            read != None && Shows(l, read.value, l.lists[s][i], anchor, origin)
  {
    ReferenceIsShown(l, anchor, origin, s, i);
  }

  // ----- Last use -----

  lemma UsedListing(l: Ledger, m: Ledger, before: seq<Account>, after: seq<Account>, refs: seq<Reference>, i: nat,
                    anchor: u64, origin: Origin, now: u64)
    requires Lists(l, before, refs, anchor, origin) && i < |refs|
    requires Lists(m, after, refs[i := refs[i].(lastUsed := Some(now))], anchor, origin) && m.accounts == l.accounts
    ensures after == before[i := before[i].(lastUsed := Some(now))]
  {
    var all := refs[i := refs[i].(lastUsed := Some(now))];
    forall j | 0 <= j < |refs|
      ensures after[j] == before[i := before[i].(lastUsed := Some(now))][j]
    {
      assert Shows(l, before[j], refs[j], anchor, origin) && Shows(m, after[j], all[j], anchor, origin);
    }
  }

  /** Using a stored account changes when it was last used, and nothing else in the listing. */
  lemma UsedIsListed(l: Ledger, number: Option<nat>, anchor: u64, origin: Origin, now: u64, i: nat)
    requires Inv(l) && |origin| <= FRONTEND_HOSTNAME_LIMIT
    requires var s := Slot(anchor, NumberFor(l, origin));
             s in l.lists && i < |l.lists[s]| && l.lists[s][i].accountNumber == number
    ensures var before := ListAccounts(l, anchor, origin);
            && before != None && i < |before.value| && before.value[i].accountNumber == number
            && ListAccounts(SetLastUsed(l, number, anchor, origin, now), anchor, origin)
               == Some(before.value[i := before.value[i].(lastUsed := Some(now))])
  {
    hide Inv, ListAccounts, Lists, SetLastUsed, ReferencesOf;
    var m := SetLastUsed(l, number, anchor, origin, now);
    var s := Slot(anchor, NumberFor(l, origin));
    SetLastUsedKeepsInv(l, number, anchor, origin, now);
    UsedReferences(l, number, anchor, origin, now, i);
    ListingIsReferences(l, anchor, origin);
    ListingIsReferences(m, anchor, origin);
    UsedListing(l, m, ListAccounts(l, anchor, origin).value, ListAccounts(m, anchor, origin).value, l.lists[s], i,
        anchor, origin, now);
    ListedAt(l, ListAccounts(l, anchor, origin).value, l.lists[s], i, anchor, origin);
  }

  lemma UsedReferences(l: Ledger, number: Option<nat>, anchor: u64, origin: Origin, now: u64, i: nat)
    requires Inv(l)
    requires var s := Slot(anchor, NumberFor(l, origin));
             s in l.lists && i < |l.lists[s]| && l.lists[s][i].accountNumber == number
    ensures var s := Slot(anchor, NumberFor(l, origin));
            var m := SetLastUsed(l, number, anchor, origin, now);
            && m.accounts == l.accounts && NumberFor(m, origin) == NumberFor(l, origin)
            && ReferencesOf(l, s) == l.lists[s]
            && ReferencesOf(m, s) == l.lists[s][i := l.lists[s][i].(lastUsed := Some(now))]
  {
    hide CountersAgree, WithinLimit, DefaultsReferenced;
    var s := Slot(anchor, NumberFor(l, origin));
    NewApplicationHasNoList(l, anchor, origin);
    var j := FirstWith(l.lists[s], number);
    if number == None {
      assert NoNumberAt(l.lists[s], i) && NoNumberAt(l.lists[s], j);
    } else {
      assert IsAt(l.lists, s, i, number.value) && IsAt(l.lists, s, j, number.value);
    }
  }

  // ----- When calls succeed -----

  ghost predicate Succeeds(r: Option<Result<Account>>) {
    r != None && r.value.Ok?
  }

  /** Some listed account has the number, or none as the default. */
  ghost predicate IsListed(l: Ledger, number: Option<nat>, anchor: u64, origin: Origin) {
    var refs := ReferencesOf(l, Slot(anchor, NumberFor(l, origin)));
    exists i :: 0 <= i < |refs| && refs[i].accountNumber == number
  }

  /** Nothing but the count of rebuilds changed. */
  ghost predicate Unchanged(l: Ledger, m: Ledger) {
    && (forall a :: CounterOf(m, a) == CounterOf(l, a))
    && m.(anchorCounters := l.anchorCounters, rebuilds := l.rebuilds) == l
  }

  lemma CheckingChangesNothing(l: Ledger, anchor: u64)
    requires Inv(l)
    ensures Unchanged(l, CheckOrRebuild(l, anchor).0)
  {
    RebuildChangesNothing(l, anchor);
  }

  /** An account can be created exactly while the lists hold fewer than 500 for the anchor; a call that
      fails changes nothing. */
  lemma CreateSucceedsIff(l: Ledger, anchor: u64, origin: Origin, name: Name, traps: bool)
    requires Inv(l)
    ensures var (m, r) := CreateForOrigin(l, anchor, origin, name, traps);
            && (Succeeds(r) <==> TrueCounter(l, anchor).accounts < MAX_ANCHOR_ACCOUNTS && !traps
                                 && |name| <= ACCOUNT_NAME_LIMIT && |origin| <= FRONTEND_HOSTNAME_LIMIT)
            && (!Succeeds(r) ==> Unchanged(l, m))
  {
    hide Inv, TrueCounter, CreateAdditional;
    CheckingKeepsInv(l, anchor);
    CheckingChangesNothing(l, anchor);
  }

  /** An account can be updated exactly when it is listed and, if it has no number yet, when the anchor may
      have another one; a call that fails changes nothing. */
  lemma UpdateSucceedsIff(l: Ledger, number: Option<nat>, anchor: u64, origin: Origin, name: Option<Name>, traps: bool)
    requires Inv(l)
    ensures var (m, r) := UpdateForOrigin(l, number, anchor, origin, name, traps);
            && (Succeeds(r) <==> IsListed(l, number, anchor, origin) && !traps &&
                                 (number == None ==> TrueCounter(l, anchor).accounts < MAX_ANCHOR_ACCOUNTS) &&
                                 name != None && |name.value| <= ACCOUNT_NAME_LIMIT && |origin| <= FRONTEND_HOSTNAME_LIMIT)
            && (!Succeeds(r) ==> Unchanged(l, m))
  {
    hide Inv, TrueCounter, CreateDefault, UpdateExisting, ReadAccount, IsListed, Unchanged;
    CheckingKeepsInv(l, anchor);
    CheckingChangesNothing(l, anchor);
    UnchangedItself(l);
    var k := CheckOrRebuild(l, anchor).0;
    OnlyListsCount(l, k);
    ReadableIffListed(l, l, number, anchor, origin);
    ReadableIffListed(l, k, number, anchor, origin);
    if name != None {
      if number != None {
        UpdatesIfReadable(l, number.value, anchor, origin, name.value);
      } else if CheckOrRebuild(l, anchor).1 && ReadAccount(k, number, anchor, origin, None) != None {
        CreateDefaultKeepsInv(k, anchor, origin, name.value);
      }
    }
  }

  /** Which answer creating an account gets: the name is looked at first, then the limit, and only then can the call
      trap. The counters are rebuilt only at the limit. */
  lemma CreateAnswers(l: Ledger, anchor: u64, origin: Origin, name: Name, traps: bool)
    requires Inv(l)
    ensures var (m, r) := CreateForOrigin(l, anchor, origin, name, traps);
            var full := TrueCounter(l, anchor).accounts >= 500;
            && m.rebuilds == l.rebuilds + (if |name| <= 255 && full then 1 else 0)
            && (r == Some(Err(NameTooLong)) <==> |name| > 255)
            && (r == Some(Err(AccountLimitReached)) <==> |name| <= 255 && full)
            && (r == None <==> |name| <= 255 && !full && (|origin| > 255 || traps))
            && (Succeeds(r) <==> |name| <= 255 && !full && |origin| <= 255 && !traps)
  {
    hide Inv, TrueCounter, CreateAdditional;
    CheckingKeepsInv(l, anchor);
    AdditionalRebuildsNothing(CheckOrRebuild(l, anchor).0, anchor, origin, name);
  }

  lemma AdditionalRebuildsNothing(l: Ledger, anchor: u64, origin: Origin, name: Name)
    ensures CreateAdditional(l, anchor, origin, name).0.rebuilds == l.rebuilds
  {
    hide Count, WithApplication, NumberFor;
    RegisteringRebuildsNothing(l, origin);
    forall k, s, accounts, references
      ensures Count(k, s, accounts, references).rebuilds == k.rebuilds
    {
      CountingRebuildsNothing(k, s, accounts, references);
    }
  }

  lemma DefaultRebuildsNothing(l: Ledger, anchor: u64, origin: Origin, name: Name)
    ensures CreateDefault(l, anchor, origin, name).0.rebuilds == l.rebuilds
  {
    hide Count, WithApplication, NumberFor, FirstWith;
    RegisteringRebuildsNothing(l, origin);
    forall k, s, accounts, references
      ensures Count(k, s, accounts, references).rebuilds == k.rebuilds
    {
      CountingRebuildsNothing(k, s, accounts, references);
    }
  }

  lemma UpdatingRebuildsNothing(l: Ledger, n: nat, anchor: u64, origin: Origin, name: Name)
    ensures UpdateExisting(l, n, anchor, origin, name).0.rebuilds == l.rebuilds
  {
    hide ReadAccount;
  }

  lemma RegisteringRebuildsNothing(l: Ledger, origin: Origin)
    ensures WithApplication(l, origin).rebuilds == l.rebuilds
  {
  }

  lemma CountingRebuildsNothing(l: Ledger, s: Slot, accounts: nat, references: nat)
    ensures Count(l, s, accounts, references).rebuilds == l.rebuilds
  {
  }

  /** Which answer updating an account gets. */
  lemma UpdateAnswers(l: Ledger, number: Option<nat>, anchor: u64, origin: Origin, name: Option<Name>, traps: bool)
    requires Inv(l)
    ensures var (m, r) := UpdateForOrigin(l, number, anchor, origin, name, traps);
            var named := name != None && |name.value| <= 255;
            var full := number == None && TrueCounter(l, anchor).accounts >= 500;
            var able := |origin| <= 255 && IsListed(l, number, anchor, origin) && !traps;
            && m.rebuilds == l.rebuilds + (if named && full then 1 else 0)
            && (r == Some(Err(NoName)) <==> name == None)
            && (r == Some(Err(NameTooLong)) <==> name != None && |name.value| > 255)
            && (r == Some(Err(AccountLimitReached)) <==> named && full)
            && (r == None <==> named && !full && !able)
            && (Succeeds(r) <==> named && !full && able)
  {
    hide Inv, TrueCounter, CreateDefault, UpdateExisting, ReadAccount, IsListed;
    CheckingKeepsInv(l, anchor);
    var k := CheckOrRebuild(l, anchor).0;
    OnlyListsCount(l, k);
    ReadableIffListed(l, l, number, anchor, origin);
    ReadableIffListed(l, k, number, anchor, origin);
    if name != None {
      DefaultRebuildsNothing(k, anchor, origin, name.value);
      if number != None {
        UpdatingRebuildsNothing(l, number.value, anchor, origin, name.value);
        UpdatesIfReadable(l, number.value, anchor, origin, name.value);
      } else if CheckOrRebuild(l, anchor).1 && ReadAccount(k, number, anchor, origin, None) != None {
        CreateDefaultKeepsInv(k, anchor, origin, name.value);
      }
    }
  }

  /** Which answer choosing a default account gets. */
  lemma SetDefaultAnswers(l: Ledger, number: Option<nat>, anchor: u64, origin: Origin, traps: bool)
    requires Inv(l)
    ensures var r := SetDefaultForOrigin(l, number, anchor, origin, traps).1;
            var known := number == None || IsListed(l, number, anchor, origin);
            var long := number != None && |origin| > 255;
            && (r == Some(Err(NoSuchAccount)) <==> !long && !known)
            && (r == None <==> long || (known && traps))
            && (Succeeds(r) <==> !long && known && !traps)
  {
    hide Inv, ReadAccount, IsListed;
    if number != None {
      ListedIffReadable(l, number, anchor, origin);
    }
  }

  /** Reading traps on an over-long origin, the default only if one is stored; otherwise it succeeds. */
  lemma ReadingAnswers(l: Ledger, anchor: u64, origin: Origin)
    requires Inv(l)
    ensures var r := GetDefaultForOrigin(l, anchor, origin);
            var stored := origin in l.applicationNumbers &&
                          var s := Slot(anchor, l.applicationNumbers[origin]); s in l.defaults && l.defaults[s] != None;
            && (r == None <==> stored && |origin| > 255)
            && (Succeeds(r) <==> !stored || |origin| <= 255)
            && (!stored ==> r == Some(Ok(Account(None, anchor, origin, None, None, None))))
    ensures ListAccounts(l, anchor, origin) == None <==> |origin| > 255
  {
    hide Inv, ReadAccount, Readable;
    DefaultIsReadable(l, anchor, origin);
  }

  lemma ListedIffReadable(l: Ledger, number: Option<nat>, anchor: u64, origin: Origin)
    requires Inv(l) && number != None
    ensures ReadAccount(WithApplication(l, origin), number, anchor, origin, Some(NumberFor(l, origin))) != None <==>
            IsListed(l, number, anchor, origin)
  {
    hide CountersAgree, WithinLimit, DefaultsReferenced, ApplicationsNumbered;
    var s := Slot(anchor, NumberFor(l, origin));
    RegisteringKeepsTheRest(l, origin);
    var refs := ReferencesOf(l, s);
    if s in l.lists {
      if i :| 0 <= i < |refs| && refs[i].accountNumber == number {
        assert IsAt(l.lists, s, i, number.value);
      }
    }
    assert FirstWith(refs, number) < |refs| ==> refs[FirstWith(refs, number)].accountNumber == number;
  }

  lemma UnchangedItself(l: Ledger)
    ensures Unchanged(l, l)
  {
  }

  lemma UpdatesIfReadable(l: Ledger, n: nat, anchor: u64, origin: Origin, name: Name)
    ensures var r := UpdateExisting(l, n, anchor, origin, name).1;
            var readable := ReadAccount(l, Some(n), anchor, origin, None) != None;
            (r.Ok? <==> readable) && (r == Err(AccountNotFound) <==> !readable)
  {
  }

  lemma ReadableIffListed(l: Ledger, k: Ledger, number: Option<nat>, anchor: u64, origin: Origin)
    requires Inv(l) && k.accounts == l.accounts && k.lists == l.lists && k.applicationNumbers == l.applicationNumbers
    ensures ReadAccount(k, number, anchor, origin, None) != None <==> IsListed(l, number, anchor, origin)
  {
    hide CountersAgree, WithinLimit, DefaultsReferenced;
    var s := Slot(anchor, NumberFor(l, origin));
    NewApplicationHasNoList(l, anchor, origin);
    var refs := ReferencesOf(l, s);
    if s in l.lists {
      var j: nat, n: nat :| IsAt(l.lists, s, j, n);
      if i :| 0 <= i < |refs| && refs[i].accountNumber == number && number != None {
        assert IsAt(l.lists, s, i, number.value);
      }
    }
    assert FirstWith(refs, number) < |refs| ==> refs[FirstWith(refs, number)].accountNumber == number;
  }
}
