/** The account ledger: accounts, the reference lists that say which anchor uses which account for which
    application, three redundant counters, and a default account per anchor and application. The
    operations are given as functions from ledgers to ledgers. */
module AccountLedger {
  import opened Types

  const MAX_ANCHOR_ACCOUNTS: nat := 500
  const ACCOUNT_NAME_LIMIT: nat := 255
  const FRONTEND_HOSTNAME_LIMIT: nat := 255

  /** UTF-8 bytes: the limits are limits on bytes. */
  type Origin = Bytes
  type Name = Bytes

  datatype StorableAccount = StorableAccount(name: Name, seedFromAnchor: Option<u64>)

  /** A reference without a number is the unreserved default account. */
  datatype Reference = Reference(accountNumber: Option<nat>, lastUsed: Option<u64>)

  datatype Counter = Counter(accounts: nat, references: nat)

  datatype Application = Application(origin: Origin, counter: Counter)

  datatype Slot = Slot(anchor: u64, application: nat)

  datatype Account = Account(accountNumber: Option<nat>, anchor: u64, origin: Origin, lastUsed: Option<u64>,
                             name: Option<Name>, seedFromAnchor: Option<u64>)

  datatype Ledger = Ledger(
    accounts: map<nat, StorableAccount>,
    applicationNumbers: map<Origin, nat>,
    applications: map<nat, Application>,
    lists: map<Slot, seq<Reference>>,
    defaults: map<Slot, Option<nat>>,
    anchorCounters: map<u64, Counter>,
    total: Counter,
    rebuilds: nat)

  const EMPTY: Ledger := Ledger(map[], map[], map[], map[], map[], map[], Counter(0, 0), 0)

  // ----- Building blocks -----

  function Synthetic(anchor: u64, origin: Origin): Account {
    Account(None, anchor, origin, None, None, None)
  }

  function ApplicationNumber(l: Ledger, origin: Origin): Option<nat> {
    if origin in l.applicationNumbers then Some(l.applicationNumbers[origin]) else None
  }

  /** The number an origin has or gets. */
  function NumberFor(l: Ledger, origin: Origin): nat {
    if origin in l.applicationNumbers then l.applicationNumbers[origin] else |l.applicationNumbers|
  }

  function WithApplication(l: Ledger, origin: Origin): Ledger {
    if origin in l.applicationNumbers then l
    else
      l.(applicationNumbers := l.applicationNumbers[origin := |l.applicationNumbers|],
         applications := l.applications[|l.applicationNumbers| := Application(origin, Counter(0, 0))])
  }

  function Plus(c: Counter, accounts: nat, references: nat): Counter {
    Counter(c.accounts + accounts, c.references + references)
  }

  function CounterOf(l: Ledger, anchor: u64): Counter {
    if anchor in l.anchorCounters then l.anchorCounters[anchor] else Counter(0, 0)
  }

  /** All three counters go up together; an unknown application has none. */
  function Count(l: Ledger, s: Slot, accounts: nat, references: nat): Ledger {
    l.(anchorCounters := l.anchorCounters[s.anchor := Plus(CounterOf(l, s.anchor), accounts, references)],
       total := Plus(l.total, accounts, references),
       applications :=
         if s.application in l.applications then
           l.applications[s.application :=
             l.applications[s.application].(counter := Plus(l.applications[s.application].counter, accounts, references))]
         else l.applications)
  }

  function FirstWith(refs: seq<Reference>, number: Option<nat>): (i: nat)
    ensures i <= |refs|
    ensures i < |refs| ==> refs[i].accountNumber == number
    ensures forall j :: 0 <= j < i ==> refs[j].accountNumber != number
  {
    if refs == [] || refs[0].accountNumber == number then 0 else 1 + FirstWith(refs[1..], number)
  }

  // ----- Positions of references -----

  datatype Position = Position(slot: Slot, index: nat)

  function Positions(lists: map<Slot, seq<Reference>>): set<Position> {
    set s, i | s in lists && 0 <= i < |lists[s]| :: Position(s, i)
  }

  function Numbered(lists: map<Slot, seq<Reference>>): set<Position> {
    set s, i | s in lists && 0 <= i < |lists[s]| && lists[s][i].accountNumber != None :: Position(s, i)
  }

  function OfAnchor(ps: set<Position>, anchor: u64): set<Position> {
    set p | p in ps && p.slot.anchor == anchor
  }

  function OfApplication(ps: set<Position>, application: nat): set<Position> {
    set p | p in ps && p.slot.application == application
  }

  /** What the counters of an anchor should say. */
  function TrueCounter(l: Ledger, anchor: u64): Counter {
    Counter(|OfAnchor(Numbered(l.lists), anchor)|, |OfAnchor(Positions(l.lists), anchor)|)
  }

  function Rebuilt(l: Ledger, anchor: u64): Ledger {
    l.(anchorCounters := l.anchorCounters[anchor := TrueCounter(l, anchor)], rebuilds := l.rebuilds + 1)
  }

  // ----- Storage operations -----

  /** A numbered account for an anchor and origin. The first one also materializes the default account. */
  function CreateAdditional(l: Ledger, anchor: u64, origin: Origin, name: Name): (Ledger, Account) {
    var n := l.total.accounts + 1;
    var s := Slot(anchor, NumberFor(l, origin));
    var refs := if s in l.lists then l.lists[s] else [Reference(None, None)];
    var k := WithApplication(l, origin);
    (Count(k.(accounts := k.accounts[n := StorableAccount(name, None)],
              lists := k.lists[s := refs + [Reference(Some(n), None)]]),
           s, 1, if s in l.lists then 1 else 2),
     Account(Some(n), anchor, origin, None, Some(name), None))
  }

  datatype Result<+T> = Ok(value: T) | Err(error: Error)

  datatype Error =
    | NameTooLong
    | NoName
    | AccountLimitReached
    | NoSuchOrigin
    | NoSuchAccount
    | AccountNotFound
    | MissingAccount
    | InternalInconsistency

  /** Stores the default account under a number. The error comes after the account, the configuration and
      two counters have been changed. */
  function CreateDefault(l: Ledger, anchor: u64, origin: Origin, name: Name): (Ledger, Result<Account>) {
    var n := l.total.accounts + 1;
    var s := Slot(anchor, NumberFor(l, origin));
    var k := WithApplication(l, origin);
    var k := k.(accounts := k.accounts[n := StorableAccount(name, Some(anchor))], defaults := k.defaults[s := Some(n)]);
    var created := Ok(Account(Some(n), anchor, origin, None, Some(name), Some(anchor)));
    if s !in l.lists then (Count(k.(lists := k.lists[s := [Reference(Some(n), None)]]), s, 1, 1), created)
    else
      var refs := l.lists[s];
      var i := FirstWith(refs, None);
      if i == |refs| then (Count(k, s, 1, 0), Err(MissingAccount))
      else (Count(k.(lists := k.lists[s := refs[i := refs[i].(accountNumber := Some(n))]]), s, 1, 0), created)
  }

  /** `None` if the anchor does not own the account. */
  function ReadAccount(l: Ledger, number: Option<nat>, anchor: u64, origin: Origin, known: Option<nat>): Option<Account> {
    var application := if known != None then known else ApplicationNumber(l, origin);
    match number
    case None =>
      if application == None || Slot(anchor, application.value) !in l.lists then Some(Synthetic(anchor, origin))
      else
        var refs := l.lists[Slot(anchor, application.value)];
        if refs == [] then Some(Synthetic(anchor, origin))
        else
          var i := FirstWith(refs, None);
          if i == |refs| then None else Some(Account(None, anchor, origin, refs[i].lastUsed, None, None))
    case Some(n) =>
      if n !in l.accounts || application == None || Slot(anchor, application.value) !in l.lists then None
      else
        var refs := l.lists[Slot(anchor, application.value)];
        var i := FirstWith(refs, number);
        if i == |refs| then None
        else Some(Account(number, anchor, origin, refs[i].lastUsed, Some(l.accounts[n].name), l.accounts[n].seedFromAnchor))
  }

  function UpdateExisting(l: Ledger, number: nat, anchor: u64, origin: Origin, name: Name): (Ledger, Result<Account>) {
    match ReadAccount(l, Some(number), anchor, origin, None)
    case None => (l, Err(AccountNotFound))
    case Some(a) =>
      (l.(accounts := l.accounts[number := l.accounts[number].(name := name)]), Ok(a.(name := Some(name))))
  }

  /** Marks the account as used, if the anchor has it; a missing account leaves everything as it is. */
  function SetLastUsed(l: Ledger, number: Option<nat>, anchor: u64, origin: Origin, now: u64): Ledger {
    var application := ApplicationNumber(l, origin);
    if (number != None && number.value !in l.accounts) || application
        == None || Slot(anchor, application.value) !in l.lists then l
    else
      var s := Slot(anchor, application.value);
      var i := FirstWith(l.lists[s], number);
      if i == |l.lists[s]| then l
      else l.(lists := l.lists[s := l.lists[s][i := l.lists[s][i].(lastUsed := Some(now))]])
  }

  /** The limit is checked against the counter; only if that says too many is it rebuilt and checked again. */
  function CheckOrRebuild(l: Ledger, anchor: u64): (Ledger, bool) {
    if CounterOf(l, anchor).accounts < MAX_ANCHOR_ACCOUNTS then (l, true)
    else (Rebuilt(l, anchor), TrueCounter(l, anchor).accounts < MAX_ANCHOR_ACCOUNTS)
  }

  // ----- Public operations -----

  /** `None` is a trap, which rolls the whole message back. `traps` says whether the bookkeeping after the
      operation traps, as it does when the archive buffer is full. */
  function CreateForOrigin(l: Ledger, anchor: u64, origin: Origin, name: Name, traps: bool): (Ledger,
                           Option<Result<Account>>) {
    if |name| > ACCOUNT_NAME_LIMIT then (l, Some(Err(NameTooLong)))
    else
      var (k, allowed) := CheckOrRebuild(l, anchor);
      if !allowed then (k, Some(Err(AccountLimitReached)))
      else if |origin| > FRONTEND_HOSTNAME_LIMIT || traps then (l, None)
      else
        var (m, account) := CreateAdditional(k, anchor, origin, name);
        (m, Some(Ok(account)))
  }

  function UpdateForOrigin(l: Ledger, number: Option<nat>, anchor: u64, origin: Origin, name: Option<Name>, traps: bool)
    : (Ledger, Option<Result<Account>>)
  {
    match name
    case None => (l, Some(Err(NoName)))
    case Some(newName) =>
      if |newName| > ACCOUNT_NAME_LIMIT then (l, Some(Err(NameTooLong)))
      else
        var (k, allowed) := if number == None then CheckOrRebuild(l, anchor) else (l, true);
        if !allowed then (k, Some(Err(AccountLimitReached)))
        else if |origin| > FRONTEND_HOSTNAME_LIMIT then (l, None)
        else if ReadAccount(k, number, anchor, origin, None) == None then (l, None)
        else
          var (m, updated) :=
            match number
            case Some(n) => UpdateExisting(k, n, anchor, origin, newName)
            case None => CreateDefault(k, anchor, origin, newName);
          if updated.Ok? && traps then (l, None) else (m, Some(updated))
  }

  /** The application is registered even when the account then turns out not to exist. */
  function SetDefaultForOrigin(l: Ledger, number: Option<nat>, anchor: u64, origin: Origin, traps: bool)
    : (Ledger, Option<Result<Account>>)
  {
    var k := WithApplication(l, origin);
    var s := Slot(anchor, NumberFor(l, origin));
    match number
    case None => if traps then (l, None) else (k.(defaults := k.defaults[s := None]), Some(Ok(Synthetic(anchor, origin))))
    case Some(n) =>
      if |origin| > FRONTEND_HOSTNAME_LIMIT then (l, None)
      else
        match ReadAccount(k, number, anchor, origin, Some(s.application))
        case None => (k, Some(Err(NoSuchAccount)))
        case Some(a) => if traps then (l, None) else (k.(defaults := k.defaults[s := number]), Some(Ok(a)))
  }

  function GetDefaultForOrigin(l: Ledger, anchor: u64, origin: Origin): Option<Result<Account>> {
    match ApplicationNumber(l, origin)
    case None => Some(Ok(Synthetic(anchor, origin)))
    case Some(p) =>
      var s := Slot(anchor, p);
      if s !in l.defaults || l.defaults[s] == None then Some(Ok(Synthetic(anchor, origin)))
      else if |origin| > FRONTEND_HOSTNAME_LIMIT then None
      else
        match ReadAccount(l, l.defaults[s], anchor, origin, Some(p))
        case None => Some(Err(InternalInconsistency))
        case Some(a) => Some(Ok(a))
  }

  /** `None` is the trap on an over-long origin. */
  function ListAccounts(l: Ledger, anchor: u64, origin: Origin): Option<seq<Account>> {
    if |origin| > FRONTEND_HOSTNAME_LIMIT then None
    else
      match ApplicationNumber(l, origin)
      case None => Some([Synthetic(anchor, origin)])
      case Some(p) =>
        if Slot(anchor, p) !in l.lists then Some([Synthetic(anchor, origin)])
        else Some(Readable(l, l.lists[Slot(anchor, p)], anchor, origin, p))
  }

  function Readable(l: Ledger, refs: seq<Reference>, anchor: u64, origin: Origin, application: nat): seq<Account> {
    if refs == [] then []
    else
      var rest := Readable(l, refs[1..], anchor, origin, application);
      match ReadAccount(l, refs[0].accountNumber, anchor, origin, Some(application))
      case None => rest
      case Some(a) => [a] + rest
  }
}
