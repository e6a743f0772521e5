/** The storage behind the account ledger, updated in place, and the public operations on it. A trap undoes
    the whole message, so those operations restore the state they started from. */
module AccountStorage {
  import opened Types
  import opened AccountLedger
  import Invariants = AccountInvariants
  import Runs = AccountRuns

  // ----- Counting references -----

  function NumberedIn(refs: seq<Reference>): nat {
    if refs == [] then 0
    else NumberedIn(refs[..|refs| - 1]) + if refs[|refs| - 1].accountNumber != None then 1 else 0
  }

  lemma {:induction false} NumberedInSum(a: seq<Reference>, b: seq<Reference>)
    ensures NumberedIn(a + b) == NumberedIn(a) + NumberedIn(b)
  {
    if b == [] {
      assert a + b == a;
    } else {
      assert (a + b)[..|a + b| - 1] == a + b[..|b| - 1];
      NumberedInSum(a, b[..|b| - 1]);
    }
  }

  function InSlots(ps: set<Position>, slots: set<Slot>): set<Position> {
    set p | p in ps && p.slot in slots
  }

  function NumberedUpTo(refs: seq<Reference>, s: Slot, k: nat): set<Position>
    requires k <= |refs|
  {
    set i: nat | i < k && refs[i].accountNumber != None :: Position(s, i)
  }

  lemma {:induction false} NumberedUpToSize(refs: seq<Reference>, s: Slot, k: nat)
    requires k <= |refs|
    ensures |NumberedUpTo(refs, s, k)| == NumberedIn(refs[..k])
  {
    if k == 0 {
      assert NumberedUpTo(refs, s, 0) == {};
    } else {
      NumberedUpToGrows(refs, s, k);
      hide NumberedUpTo;
      NumberedUpToSize(refs, s, k - 1);
      assert refs[..k][..k - 1] == refs[..k - 1];
    }
  }

  lemma NumberedUpToGrows(refs: seq<Reference>, s: Slot, k: nat)
    requires 0 < k <= |refs|
    ensures NumberedUpTo(refs, s, k) == NumberedUpTo(refs, s, k - 1) +
              if refs[k - 1].accountNumber != None then {Position(s, k - 1)} else {}
    ensures Position(s, k - 1) !in NumberedUpTo(refs, s, k - 1)
  {
  }

  lemma SlotCounts(lists: map<Slot, seq<Reference>>, s: Slot)
    requires s in lists
    ensures |InSlots(Positions(lists), {s})| == |lists[s]|
    ensures |InSlots(Numbered(lists), {s})| == NumberedIn(lists[s])
  {
    var refs := lists[s];
    NumberedUpToSize(refs, s, |refs|);
    assert refs[..|refs|] == refs;
    Invariants.NewPositionsCount(map[], s, refs);
    forall p: Position
      ensures p in InSlots(Positions(lists), {s}) <==> p in Invariants.NewPositions(map[], s, refs)
      ensures p in InSlots(Numbered(lists), {s}) <==> p in NumberedUpTo(refs, s, |refs|)
    {
      Invariants.PositionMembership(lists, p);
      assert p == Position(p.slot, p.index);
    }
    assert InSlots(Numbered(lists), {s}) == NumberedUpTo(refs, s, |refs|);
    assert InSlots(Positions(lists), {s}) == Invariants.NewPositions(map[], s, refs);
  }

  lemma MoreSlots(ps: set<Position>, slots: set<Slot>, s: Slot)
    requires s !in slots
    ensures |InSlots(ps, slots + {s})| == |InSlots(ps, slots)| + |InSlots(ps, {s})|
  {
    assert InSlots(ps, slots + {s}) == InSlots(ps, slots) + InSlots(ps, {s});
  }

  lemma AnchorIsItsSlots(lists: map<Slot, seq<Reference>>, anchor: u64, slots: set<Slot>)
    requires slots == set s | s in lists && s.anchor == anchor
    ensures OfAnchor(Positions(lists), anchor) == InSlots(Positions(lists), slots)
    ensures OfAnchor(Numbered(lists), anchor) == InSlots(Numbered(lists), slots)
  {
    forall p: Position
      ensures p in OfAnchor(Positions(lists), anchor) <==> p in InSlots(Positions(lists), slots)
      ensures p in OfAnchor(Numbered(lists), anchor) <==> p in InSlots(Numbered(lists), slots)
    {
      Invariants.PositionMembership(lists, p);
    }
  }

  lemma {:induction false} FirstWithIs(refs: seq<Reference>, number: Option<nat>, i: nat)
    requires i <= |refs| && (i < |refs| ==> refs[i].accountNumber == number)
    requires forall j :: 0 <= j < i ==> refs[j].accountNumber != number
    ensures FirstWith(refs, number) == i
  {
    var k := FirstWith(refs, number);
  }

  // ----- Counting in steps -----

  lemma CountTwice(l: Ledger, s: Slot, a: nat, b: nat, c: nat, d: nat)
    ensures Count(Count(l, s, a, b), s, c, d) == Count(l, s, a + c, b + d)
  {
  }

  lemma CountKeepsRest(l: Ledger, s: Slot, a: nat, b: nat, m: Ledger)
    requires m == l.(total := m.total, accounts := m.accounts, lists := m.lists, defaults := m.defaults)
    ensures Count(m, s, a, b) ==
            Count(l, s, a, b).(total := Plus(m.total, a, b), accounts := m.accounts, lists := m.lists, defaults := m.defaults)
    ensures var c := Count(l, s, a, b);
            c.total == Plus(l.total, a, b) && c.accounts == l.accounts && c.lists == l.lists && c.defaults == l.defaults
  {
  }

  lemma CountKeepsLists(l: Ledger, s: Slot, a: nat, b: nat)
    ensures Count(l, s, a, b).lists == l.lists && Count(l, s, a, b).defaults == l.defaults
  {
  }

  lemma RegisteringKeepsRest(l: Ledger, origin: Origin, t: Counter, accounts: map<nat, StorableAccount>)
    ensures WithApplication(l.(total := t, accounts := accounts), origin)
              == WithApplication(l, origin).(total := t, accounts := accounts)
  {
  }

  /** One account: the total has been moved by its allocation already. */
  function AccountCounted(l: Ledger, s: Slot): Ledger {
    Count(l, s, 1, 0).(total := l.total)
  }

  /** Counting as the storage does, the total with the allocation and the other counters one call at a time. */
  lemma CountedInSteps(l: Ledger, t: Counter, s: Slot)
    requires l.total == Plus(t, 1, 0)
    ensures AccountCounted(l, s) == Count(l.(total := t), s, 1, 0)
    ensures Count(AccountCounted(l, s), s, 0, 1) == Count(l.(total := t), s, 1, 1)
    ensures Count(Count(AccountCounted(l, s), s, 0, 1), s, 0, 1) == Count(l.(total := t), s, 1, 2)
  {
    hide Count;
    CountKeepsRest(l, s, 1, 0, l.(total := t));
    CountTwice(l.(total := t), s, 1, 0, 0, 1);
    CountTwice(l.(total := t), s, 1, 1, 0, 1);
  }

  /** The ledger when a new account has its number, its record and its application. */
  function Allocated(l: Ledger, origin: Origin, account: StorableAccount): Ledger {
    var n := l.total.accounts + 1;
    WithApplication(l.(total := Plus(l.total, 1, 0), accounts := l.accounts[n := account]), origin)
  }

  /** The counters after an account and up to two references were counted. */
  function Counted(k: Ledger, s: Slot, references: nat): Ledger {
    if references == 0 then AccountCounted(k, s)
    else if references == 1 then Count(AccountCounted(k, s), s, 0, 1)
    else Count(Count(AccountCounted(k, s), s, 0, 1), s, 0, 1)
  }

  /** Then it is counted with some references, and the lists and defaults are set. */
  lemma CreatedInSteps(l: Ledger, origin: Origin, s: Slot, account: StorableAccount, references: nat, k: Ledger, m: Ledger)
    requires k == Allocated(l, origin, account).(defaults := k.defaults) && references <= 2
    requires m == Counted(k, s, references).(lists := m.lists)
    ensures var w := WithApplication(l, origin);
            m == Count(w.(accounts := w.accounts[l.total.accounts + 1 := account], lists := m.lists,
                defaults := k.defaults), s, 1, references)
  {
    hide Count, AccountCounted, WithApplication;
    var w := WithApplication(l, origin);
    var w' := w.(accounts := w.accounts[l.total.accounts + 1 := account], lists := m.lists, defaults := k.defaults);
    Invariants.RegisteringKeepsTheRest(l, origin);
    RegisteringKeepsRest(l, origin, Plus(l.total, 1, 0), l.accounts[l.total.accounts + 1 := account]);
    CountedInSteps(k, l.total, s);
    var k' := k.(total := l.total);
    assert w' == k'.(total := w'.total, accounts := w'.accounts, lists := w'.lists, defaults := w'.defaults);
    CountKeepsRest(k', s, 1, references, w');
  }

  lemma AdditionalInSteps(l: Ledger, anchor: u64, origin: Origin, name: Name, s: Slot, refs: seq<Reference>,
                          k: Ledger, m: Ledger)
    requires k == Allocated(l, origin, StorableAccount(name, None)) && s == Slot(anchor, NumberFor(l, origin))
    requires refs == (if s in l.lists then l.lists[s] else [Reference(None,
               None)]) + [Reference(Some(l.total.accounts + 1), None)]
    requires m == Counted(k, s, if s in l.lists then 1 else 2).(lists := l.lists[s := refs])
    ensures CreateAdditional(l, anchor, origin, name)
         == (m, Account(Some(l.total.accounts + 1), anchor, origin, None, Some(name), None))
  {
    hide Count, WithApplication, Counted, Allocated, NumberFor;
    AllocatedKeepsLists(l, origin, StorableAccount(name, None));
    CreatedInSteps(l, origin, s, StorableAccount(name, None), if s in l.lists then 1 else 2, k, m);
  }

  /** The lists after the default reference of a slot got a number, if it had one. */
  function DefaultNumbered(l: Ledger, s: Slot): map<Slot, seq<Reference>> {
    var n := Some(l.total.accounts + 1);
    if s !in l.lists then l.lists[s := [Reference(n, None)]]
    else
      var i := FirstWith(l.lists[s], None);
      if i == |l.lists[s]| then l.lists else l.lists[s := l.lists[s][i := l.lists[s][i].(accountNumber := n)]]
  }

  lemma DefaultInSteps(l: Ledger, anchor: u64, origin: Origin, name: Name, s: Slot, k: Ledger, m: Ledger)
    requires s == Slot(anchor, NumberFor(l, origin))
    requires var n := Some(l.total.accounts + 1);
             k == Allocated(l, origin, StorableAccount(name, Some(anchor))).(defaults := l.defaults[s := n])
    requires m == Counted(k, s, if s in l.lists then 0 else 1).(lists := DefaultNumbered(l, s))
    ensures CreateDefault(l, anchor, origin, name)
         == (m, if s in l.lists && FirstWith(l.lists[s], None) == |l.lists[s]| then Err(MissingAccount)
                else Ok(Account(Some(l.total.accounts + 1), anchor, origin, None, Some(name), Some(anchor))))
  {
    hide Count, WithApplication, Counted, Allocated, NumberFor;
    AllocatedKeepsLists(l, origin, StorableAccount(name, Some(anchor)));
    CreatedInSteps(l, origin, s, StorableAccount(name, Some(anchor)), if s in l.lists then 0 else 1, k, m);
  }

  lemma AllocatedKeepsLists(l: Ledger, origin: Origin, account: StorableAccount)
    ensures Allocated(l, origin, account).lists == l.lists && Allocated(l, origin, account).defaults == l.defaults
    ensures WithApplication(l, origin).lists == l.lists && WithApplication(l, origin).defaults == l.defaults
  {
  }

  lemma CountedKeepsLists(k: Ledger, s: Slot, references: nat)
    ensures Counted(k, s, references).lists == k.lists
    ensures Counted(k, s, references).defaults == k.defaults
  {
    hide Count;
    var c := AccountCounted(k, s);
    CountKeepsLists(k, s, 1, 0);
    CountKeepsLists(c, s, 0, 1);
    CountKeepsLists(Count(c, s, 0, 1), s, 0, 1);
  }

  // ----- The storage -----

  class Storage {
    var accounts: map<nat, StorableAccount>
    var applicationNumbers: map<Origin, nat>
    var applications: map<nat, Application>
    var lists: map<Slot, seq<Reference>>
    var defaults: map<Slot, Option<nat>>
    var anchorCounters: map<u64, Counter>
    var total: Counter
    var rebuilds: nat

    function State(): Ledger
      reads this
    {
      Ledger(accounts, applicationNumbers, applications, lists, defaults, anchorCounters, total, rebuilds)
    }

    ghost predicate Valid()
      reads this
    {
      Invariants.Inv(State())
    }

    constructor ()
      ensures State() == EMPTY && Valid()
    {
      accounts, applicationNumbers, applications := map[], map[], map[];
      lists, defaults, anchorCounters := map[], map[], map[];
      total, rebuilds := Counter(0, 0), 0;
      Runs.EmptySatisfiesInv();
    }

    /** What a trap does. */
    method Restore(l: Ledger)
      modifies this
      ensures State() == l
    {
      accounts, applicationNumbers, applications := l.accounts, l.applicationNumbers, l.applications;
      lists, defaults, anchorCounters := l.lists, l.defaults, l.anchorCounters;
      total, rebuilds := l.total, l.rebuilds;
    }

    method LookupOrInsertApplication(origin: Origin) returns (number: nat)
      modifies this
      ensures State() == WithApplication(old(State()), origin) && number == NumberFor(old(State()), origin)
    {
      if origin in applicationNumbers {
        number := applicationNumbers[origin];
      } else {
        number := |applicationNumbers|;
        applicationNumbers := applicationNumbers[origin := number];
        applications := applications[number := Application(origin, Counter(0, 0))];
      }
    }

    method AllocateAccountNumber() returns (number: nat)
      modifies this
      ensures State() == old(State()).(total := Plus(old(total), 1, 0)) && number == old(total).accounts + 1
    {
      total := total.(accounts := total.accounts + 1);
      number := total.accounts;
    }

    /** One more account; the total was moved when its number was allocated. */
    method CountAccount(s: Slot)
      modifies this
      ensures State() == AccountCounted(old(State()), s)
    {
      anchorCounters := anchorCounters[s.anchor := Plus(CounterOf(State(), s.anchor), 1, 0)];
      if s.application in applications {
        var a := applications[s.application];
        applications := applications[s.application := a.(counter := Plus(a.counter, 1, 0))];
      }
    }

    method CountReference(s: Slot)
      modifies this
      ensures State() == Count(old(State()), s, 0, 1)
    {
      anchorCounters := anchorCounters[s.anchor := Plus(CounterOf(State(), s.anchor), 0, 1)];
      total := total.(references := total.references + 1);
      if s.application in applications {
        var a := applications[s.application];
        applications := applications[s.application := a.(counter := Plus(a.counter, 0, 1))];
      }
    }

    /** The references of an anchor in all its applications. */
    method ListReferences(anchor: u64) returns (refs: seq<Reference>)
      ensures Counter(NumberedIn(refs), |refs|) == TrueCounter(State(), anchor)
    {
      refs := [];
      var slots := set s | s in lists && s.anchor == anchor;
      var left := slots;
      assert InSlots(Positions(lists), {}) == {} && InSlots(Numbered(lists), {}) == {};
      assert slots - left == {};
      while left != {}
        invariant left <= slots
        invariant |refs| == |InSlots(Positions(lists), slots - left)|
        invariant NumberedIn(refs) == |InSlots(Numbered(lists), slots - left)|
      {
        var s :| s in left;
        SlotCounts(lists, s);
        MoreSlots(Positions(lists), slots - left, s);
        MoreSlots(Numbered(lists), slots - left, s);
        assert slots - (left - {s}) == (slots - left) + {s};
        NumberedInSum(refs, lists[s]);
        refs := refs + lists[s];
        left := left - {s};
      }
      assert slots - left == slots;
      AnchorIsItsSlots(lists, anchor, slots);
    }

    method RebuildCounters(anchor: u64)
      modifies this
      ensures State() == Rebuilt(old(State()), anchor)
    {
      rebuilds := rebuilds + 1;
      var refs := ListReferences(anchor);
      var stored, references := 0, 0;
      while references < |refs|
        invariant references <= |refs| && stored == NumberedIn(refs[..references])
      {
        assert refs[..references + 1][..references] == refs[..references];
        if refs[references].accountNumber != None {
          stored := stored + 1;
        }
        references := references + 1;
      }
      assert refs[..references] == refs;
      anchorCounters := anchorCounters[anchor := Counter(stored, references)];
    }

    static method Find(refs: seq<Reference>, number: Option<nat>) returns (i: nat)
      ensures i == FirstWith(refs, number)
    {
      i := 0;
      while i < |refs| && refs[i].accountNumber != number
        invariant i <= |refs| && forall j :: 0 <= j < i ==> refs[j].accountNumber != number
      {
        i := i + 1;
      }
      FirstWithIs(refs, number, i);
    }

    /** Gives a new account its number, its record and its application. */
    method AllocateAccount(origin: Origin, account: StorableAccount) returns (number: nat, application: nat)
      modifies this
      ensures State() == Allocated(old(State()), origin, account)
      ensures number == old(total).accounts + 1 && application == NumberFor(old(State()), origin)
      ensures lists == old(lists) && defaults == old(defaults)
    {
      number := AllocateAccountNumber();
      accounts := accounts[number := account];
      application := LookupOrInsertApplication(origin);
    }

    /** A new numbered account, and the default reference beside it when it is the first. `None` is the trap
        on an over-long origin. */
    method CreateAdditionalAccount(anchor: u64, origin: Origin, name: Name) returns (account: Option<Account>)
      modifies this
      ensures account == None <==> |origin| > FRONTEND_HOSTNAME_LIMIT
      ensures account == None ==> State() == old(State())
      ensures account != None ==> (State(), account.value) == CreateAdditional(old(State()), anchor, origin, name)
    {
      hide Count, AccountCounted, CreateAdditional, Allocated, NumberFor;
      if |origin| > FRONTEND_HOSTNAME_LIMIT {
        return None;
      }
      ghost var l := State();
      var n, application := AllocateAccount(origin, StorableAccount(name, None));
      ghost var k := State();
      var s := Slot(anchor, application);
      CountedKeepsLists(k, s, 1);
      CountedKeepsLists(k, s, 2);
      CountAccount(s);
      CountReference(s);
      if s !in lists {
        CountReference(s);
        lists := lists[s := [Reference(None, None), Reference(Some(n), None)]];
        assert lists[s] == [Reference(None, None)] + [Reference(Some(n), None)];
      } else {
        lists := lists[s := lists[s] + [Reference(Some(n), None)]];
      }
      AdditionalInSteps(l, anchor, origin, name, s, lists[s], k, State());
      account := Some(Account(Some(n), anchor, origin, None, Some(name), None));
    }

    /** Stores the default account under a number. On the error path account, default and counters have
        changed already. */
    method CreateDefaultAccount(anchor: u64, origin: Origin, name: Name) returns (r: Result<Account>)
      modifies this
      ensures (State(), r) == CreateDefault(old(State()), anchor, origin, name)
    {
      hide Count, AccountCounted, CreateDefault, Allocated, NumberFor;
      ghost var l := State();
      var n, application := AllocateAccount(origin, StorableAccount(name, Some(anchor)));
      var s := Slot(anchor, application);
      defaults := defaults[s := Some(n)];
      ghost var k := State();
      CountedKeepsLists(k, s, 0);
      CountedKeepsLists(k, s, 1);
      CountAccount(s);
      var account := Account(Some(n), anchor, origin, None, Some(name), Some(anchor));
      if s !in lists {
        CountReference(s);
        lists := lists[s := [Reference(Some(n), None)]];
        r := Ok(account);
      } else {
        var refs := lists[s];
        var i := Find(refs, None);
        if i == |refs| {
          r := Err(MissingAccount);
        } else {
          lists := lists[s := refs[i := refs[i].(accountNumber := Some(n))]];
          r := Ok(account);
        }
      }
      DefaultInSteps(l, anchor, origin, name, s, k, State());
    }

    /** The read traps on an over-long origin. */
    method Read(number: Option<nat>, anchor: u64, origin: Origin, known: Option<nat>)
      returns (trapped: bool, account: Option<Account>)
      ensures trapped <==> |origin| > FRONTEND_HOSTNAME_LIMIT
      ensures account == if trapped then None else ReadAccount(State(), number, anchor, origin, known)
    {
      trapped := |origin| > FRONTEND_HOSTNAME_LIMIT;
      if trapped {
        return trapped, None;
      }
      var application := if known != None then known else ApplicationNumber(State(), origin);
      match number {
        case None =>
          if application == None || Slot(anchor, application.value) !in lists || lists[Slot(anchor,
              application.value)] == [] {
            return trapped, Some(Synthetic(anchor, origin));
          }
          var refs := lists[Slot(anchor, application.value)];
          var i := Find(refs, None);
          account := if i == |refs| then None else Some(Account(None, anchor, origin, refs[i].lastUsed, None, None));
        case Some(n) =>
          if n !in accounts || application == None || Slot(anchor, application.value) !in lists {
            return trapped, None;
          }
          var refs := lists[Slot(anchor, application.value)];
          var i := Find(refs, number);
          account := if i == |refs| then None
                     else Some(Account(number, anchor, origin, refs[i].lastUsed, Some(accounts[n].name),
                         accounts[n].seedFromAnchor));
      }
    }

    method UpdateExistingAccount(number: nat, anchor: u64, origin: Origin, name: Name) returns (r: Result<Account>)
      modifies this
      ensures (State(), r) == UpdateExisting(old(State()), number, anchor, origin, name)
    {
      var application := ApplicationNumber(State(), origin);
      if number !in accounts || application == None || Slot(anchor, application.value) !in lists {
        return Err(AccountNotFound);
      }
      var refs := lists[Slot(anchor, application.value)];
      var i := Find(refs, Some(number));
      if i == |refs| {
        return Err(AccountNotFound);
      }
      accounts := accounts[number := accounts[number].(name := name)];
      r := Ok(Account(Some(number), anchor, origin, refs[i].lastUsed, Some(name), accounts[number].seedFromAnchor));
    }

    method SetAccountLastUsed(number: Option<nat>, anchor: u64, origin: Origin, now: u64)
      modifies this
      ensures State() == SetLastUsed(old(State()), number, anchor, origin, now)
      ensures old(Valid()) ==> Valid()
    {
      hide Invariants.Inv;
      if Valid() {
        Runs.SetLastUsedKeepsInv(State(), number, anchor, origin, now);
      }
      var application := ApplicationNumber(State(), origin);
      if (number != None && number.value !in accounts) || application == None || Slot(anchor, application.value) !in lists {
        return;
      }
      var s := Slot(anchor, application.value);
      var i := Find(lists[s], number);
      if i < |lists[s]| {
        lists := lists[s := lists[s][i := lists[s][i].(lastUsed := Some(now))]];
      }
    }

    /** An account that cannot be read is left out of the list. */
    method List(anchor: u64, origin: Origin) returns (listing: Option<seq<Account>>)
      ensures listing == ListAccounts(State(), anchor, origin)
    {
      if |origin| > FRONTEND_HOSTNAME_LIMIT {
        return None;
      }
      var application := ApplicationNumber(State(), origin);
      if application == None || Slot(anchor, application.value) !in lists {
        return Some([Synthetic(anchor, origin)]);
      }
      var refs := lists[Slot(anchor, application.value)];
      var found, i := [], 0;
      while i < |refs|
        invariant i <= |refs| && refs[0..] == refs
        invariant found + Readable(State(), refs[i..], anchor, origin, application.value)
               == Readable(State(), refs, anchor, origin, application.value)
      {
        var trapped, account := Read(refs[i].accountNumber, anchor, origin, application);
        assert refs[i..][1..] == refs[i + 1..];
        if account != None {
          found := found + [account.value];
        }
        i := i + 1;
      }
      assert refs[i..] == [] && found == found + [];
      listing := Some(found);
    }

    /** The counter is rebuilt once if it says that the limit is reached. */
    method CheckOrRebuildMaxAccounts(anchor: u64, firstTime: bool) returns (allowed: bool)
      modifies this
      ensures firstTime ==> (State(), allowed) == CheckOrRebuild(old(State()), anchor)
      ensures !firstTime ==> State() == old(State()) && (allowed <==>
                CounterOf(State(), anchor).accounts < MAX_ANCHOR_ACCOUNTS)
      decreases firstTime
    {
      if CounterOf(State(), anchor).accounts >= MAX_ANCHOR_ACCOUNTS {
        if firstTime {
          RebuildCounters(anchor);
          allowed := CheckOrRebuildMaxAccounts(anchor, false);
          return;
        }
        return false;
      }
      allowed := true;
    }

    // ----- Public operations -----

    method CreateAccountForOrigin(anchor: u64, origin: Origin, name: Name, traps: bool) returns (r: Option<Result<Account>>)
      modifies this
      ensures (State(), r) == CreateForOrigin(old(State()), anchor, origin, name, traps)
      ensures old(Valid()) ==> Valid()
    {
      hide Invariants.Inv;
      if Valid() {
        Runs.CreateForOriginKeepsInv(State(), anchor, origin, name, traps);
      }
      var start := State();
      if |name| > ACCOUNT_NAME_LIMIT {
        return Some(Err(NameTooLong));
      }
      var allowed := CheckOrRebuildMaxAccounts(anchor, true);
      if !allowed {
        return Some(Err(AccountLimitReached));
      }
      var account := CreateAdditionalAccount(anchor, origin, name);
      if account == None || traps {
        Restore(start);
        return None;
      }
      r := Some(Ok(account.value));
    }

    method UpdateAccountForOrigin(number: Option<nat>, anchor: u64, origin: Origin, name: Option<Name>, traps: bool)
      returns (r: Option<Result<Account>>)
      modifies this
      ensures (State(), r) == UpdateForOrigin(old(State()), number, anchor, origin, name, traps)
      ensures old(Valid()) ==> Valid()
    {
      hide CreateDefault, UpdateExisting, ReadAccount, CheckOrRebuild, Invariants.Inv;
      if Valid() {
        Runs.UpdateForOriginKeepsInv(State(), number, anchor, origin, name, traps);
      }
      var start := State();
      if name == None {
        return Some(Err(NoName));
      }
      if |name.value| > ACCOUNT_NAME_LIMIT {
        return Some(Err(NameTooLong));
      }
      if number == None {
        var allowed := CheckOrRebuildMaxAccounts(anchor, true);
        if !allowed {
          return Some(Err(AccountLimitReached));
        }
      }
      var trapped, account := Read(number, anchor, origin, None);
      if trapped || account == None {
        Restore(start);
        return None;
      }
      var updated;
      if number != None {
        updated := UpdateExistingAccount(number.value, anchor, origin, name.value);
      } else {
        updated := CreateDefaultAccount(anchor, origin, name.value);
      }
      if updated.Ok? && traps {
        Restore(start);
        return None;
      }
      r := Some(updated);
    }

    method SetDefaultAccountForOrigin(number: Option<nat>, anchor: u64, origin: Origin, traps: bool)
      returns (r: Option<Result<Account>>)
      modifies this
      ensures (State(), r) == SetDefaultForOrigin(old(State()), number, anchor, origin, traps)
      ensures old(Valid()) ==> Valid()
    {
      hide ReadAccount, WithApplication, Invariants.Inv;
      if Valid() {
        Runs.SetDefaultForOriginKeepsInv(State(), number, anchor, origin, traps);
      }
      var start := State();
      var application := LookupOrInsertApplication(origin);
      var account := Some(Synthetic(anchor, origin));
      if number != None {
        var trapped;
        trapped, account := Read(number, anchor, origin, Some(application));
        if trapped {
          Restore(start);
          return None;
        }
        if account == None {
          return Some(Err(NoSuchAccount));
        }
      }
      defaults := defaults[Slot(anchor, application) := number];
      if traps {
        Restore(start);
        return None;
      }
      r := Some(Ok(account.value));
    }

    method GetDefaultAccountForOrigin(anchor: u64, origin: Origin) returns (r: Option<Result<Account>>)
      ensures r == GetDefaultForOrigin(State(), anchor, origin)
    {
      var application := ApplicationNumber(State(), origin);
      if application == None {
        return Some(Ok(Synthetic(anchor, origin)));
      }
      var s := Slot(anchor, application.value);
      if s !in defaults || defaults[s] == None {
        return Some(Ok(Synthetic(anchor, origin)));
      }
      var trapped, account := Read(defaults[s], anchor, origin, application);
      if trapped {
        return None;
      }
      r := Some(if account == None then Err(InternalInconsistency) else Ok(account.value));
    }
  }
}
