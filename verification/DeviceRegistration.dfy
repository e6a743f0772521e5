/** Tentative device registration: an anchor in registration mode may store one tentative device or
    session, which is confirmed with a code before the registration expires. A lookup table leads from
    registration ids to anchors. */
module DeviceRegistration {
  import opened Types

  const REGISTRATION_MODE_DURATION_NS: u64 := 15 * 60 * 1_000_000_000
  const MAX_ANCHORS_IN_REGISTRATION_MODE: nat := 10_000
  const MAX_DEVICE_REGISTRATION_ATTEMPTS: nat := 3

  type RegistrationId = Bytes
  type Code = Bytes
  type Principal = Bytes

  /** A device with a credential id, or of the browser storage type, is a passkey. */
  datatype Kind = Passkey | RecoveryKey

  datatype Device = Device(pubkey: Bytes, kind: Kind)

  datatype RegistrationState =
    | ModeActive
    | DeviceTentativelyAdded(device: Device, failedAttempts: nat, code: Code)
    | SessionTentativelyAdded(session: Principal, failedAttempts: nat, code: Code)
    | SessionTentativelyConfirmed(session: Principal)

  datatype Registration = Registration(expiration: u64, state: RegistrationState, id: Option<RegistrationId>)

  datatype State = State(registrations: map<u64, Registration>, lookup: map<RegistrationId, u64>)

  datatype Operation =
    | Enter(anchor: u64, id: Option<RegistrationId>)
    | Exit(anchor: u64)
    | AddDevice(anchor: u64, device: Device, code: Code, pubkeyUsed: bool)
    | AddSession(anchor: u64, session: Principal, code: Code)
    | Confirm(anchor: u64, code: Code)
    | GetConfirmedSession(anchor: u64)

  datatype Response =
    | Entered(expiration: u64)
    | TooManyRegistrations
    | AlreadyInProgress
    | Exited
    | CodeIssued(expiration: u64, code: Code)
    | RegistrationModeOff
    | PubkeyAlreadyUsed
    | RegistrationAlreadyInProgress
    | DeviceConfirmed(device: Device)
    | SessionConfirmed
    | NoAuthnMethodToConfirm
    | WrongCode(retriesLeft: int)
    | ConfirmedSession(session: Option<Principal>)

  // ----- Operations on values -----

  function ExpiredIds(s: State, now: u64): set<RegistrationId> {
    set a | a in s.registrations && s.registrations[a].expiration <= now && s.registrations[a].id != None
      :: s.registrations[a].id.value
  }

  function Prune(s: State, now: u64): State {
    State(map a | a in s.registrations && now < s.registrations[a].expiration :: s.registrations[a],
          s.lookup - ExpiredIds(s, now))
  }

  function Drop(s: State, anchor: u64): State {
    if anchor !in s.registrations then s
    else
      State(s.registrations - {anchor},
            match s.registrations[anchor].id case None => s.lookup case Some(id) => s.lookup - {id})
  }

  function SetState(s: State, anchor: u64, state: RegistrationState): State
    requires anchor in s.registrations
  {
    s.(registrations := s.registrations[anchor := s.registrations[anchor].(state := state)])
  }

  function EnterMode(s: State, anchor: u64, id: Option<RegistrationId>, now: u64): (State, Response) {
    var t := Prune(s, now);
    if |t.registrations| >= MAX_ANCHORS_IN_REGISTRATION_MODE then (t, TooManyRegistrations)
    else if anchor in t.registrations then
      (t, if t.registrations[anchor].id == id then Entered(t.registrations[anchor].expiration) else AlreadyInProgress)
    else
      var expiration := Add64(now, REGISTRATION_MODE_DURATION_NS);
      (State(t.registrations[anchor := Registration(expiration, ModeActive, id)],
             match id case None => t.lookup case Some(i) => t.lookup[i := anchor]),
       Entered(expiration))
  }

  function AddTentative(s: State, anchor: u64, pending: RegistrationState, code: Code, refused: bool,
                        now: u64): (State, Response) {
    var t := Prune(s, now);
    if anchor !in t.registrations then (t, RegistrationModeOff)
    else
      var r := t.registrations[anchor];
      if r.expiration <= now then (t, RegistrationModeOff)
      else if !r.state.ModeActive? then (t, RegistrationAlreadyInProgress)
      else if refused then (t, PubkeyAlreadyUsed)
      else (SetState(t, anchor, pending), CodeIssued(r.expiration, code))
  }

  function WrongAttempt(t: State, anchor: u64, counted: RegistrationState, failedAttempts: nat): (State, Response)
    requires anchor in t.registrations
  {
    var u := SetState(t, anchor, counted);
    (if failedAttempts >= MAX_DEVICE_REGISTRATION_ATTEMPTS then Drop(u, anchor) else u,
     WrongCode(MAX_DEVICE_REGISTRATION_ATTEMPTS - failedAttempts))
  }

  function ConfirmTentative(s: State, anchor: u64, code: Code, now: u64): (State, Response) {
    var t := Prune(s, now);
    if anchor !in t.registrations then (t, RegistrationModeOff)
    else
      match t.registrations[anchor].state
      case ModeActive => (t, NoAuthnMethodToConfirm)
      case SessionTentativelyConfirmed(_) => (t, NoAuthnMethodToConfirm)
      case DeviceTentativelyAdded(device, failed, expected) =>
        if code == expected then (Drop(t, anchor), DeviceConfirmed(device))
        else WrongAttempt(t, anchor, DeviceTentativelyAdded(device, failed + 1, expected), failed + 1)
      case SessionTentativelyAdded(session, failed, expected) =>
        if code == expected then (SetState(t, anchor, SessionTentativelyConfirmed(session)), SessionConfirmed)
        else WrongAttempt(t, anchor, SessionTentativelyAdded(session, failed + 1, expected), failed + 1)
  }

  function ReadConfirmedSession(s: State, anchor: u64, now: u64): (State, Response) {
    var t := Prune(s, now);
    (t, ConfirmedSession(
      if anchor in t.registrations && now < t.registrations[anchor].expiration &&
         t.registrations[anchor].state.SessionTentativelyConfirmed?
      then Some(t.registrations[anchor].state.session) else None))
  }

  function Step(s: State, o: Operation, now: u64): (State, Response) {
    match o
    case Enter(a, id) => EnterMode(s, a, id, now)
    case Exit(a) => (Drop(Prune(s, now), a), Exited)
    case AddDevice(a, d, c, used) => AddTentative(s, a, DeviceTentativelyAdded(d, 0, c), c, used, now)
    case AddSession(a, p, c) => AddTentative(s, a, SessionTentativelyAdded(p, 0, c), c, false, now)
    case Confirm(a, c) => ConfirmTentative(s, a, c, now)
    case GetConfirmedSession(a) => ReadConfirmedSession(s, a, now)
  }

  // ----- The two hash maps -----

  class TentativeRegistrations {
    var registrations: map<u64, Registration>
    var lookup: map<RegistrationId, u64>

    function Contents(): State
      reads this
    {
      State(registrations, lookup)
    }

    constructor ()
      ensures Contents() == State(map[], map[])
    {
      registrations, lookup := map[], map[];
    }

    method PruneExpired(now: u64)
      modifies this
      ensures Contents() == Prune(old(Contents()), now)
    {
      ghost var before := Contents();
      var unvisited := registrations.Keys;
      ghost var visited := {};
      NothingVisited(before, now);
      while unvisited != {}
        invariant unvisited == before.registrations.Keys - visited && visited <= before.registrations.Keys
        invariant Contents() == PruneVisited(before, visited, now)
        decreases unvisited
      {
        var a :| a in unvisited;
        VisitOne(before, visited, a, now);
        if now >= registrations[a].expiration {
          if registrations[a].id != None {
            lookup := lookup - {registrations[a].id.value};
          }
          registrations := registrations - {a};
        }
        unvisited := unvisited - {a};
        visited := visited + {a};
      }
      assert visited == before.registrations.Keys;
      AllVisited(before, now);
    }

    method Remove(anchor: u64)
      modifies this
      ensures Contents() == Drop(old(Contents()), anchor)
    {
      if anchor in registrations {
        var id := registrations[anchor].id;
        registrations := registrations - {anchor};
        if id != None {
          lookup := lookup - {id.value};
        }
      }
    }

    method EnterDeviceRegistrationMode(anchor: u64, id: Option<RegistrationId>, now: u64) returns (response: Response)
      modifies this
      ensures (Contents(), response) == Step(old(Contents()), Enter(anchor, id), now)
    {
      PruneExpired(now);
      if |registrations| >= MAX_ANCHORS_IN_REGISTRATION_MODE {
        return TooManyRegistrations;
      }
      if anchor in registrations {
        if registrations[anchor].id == id {
          return Entered(registrations[anchor].expiration);
        }
        return AlreadyInProgress;
      }
      var expiration := Add64(now, REGISTRATION_MODE_DURATION_NS);
      if id != None {
        lookup := lookup[id.value := anchor];
      }
      registrations := registrations[anchor := Registration(expiration, ModeActive, id)];
      response := Entered(expiration);
    }

    method ExitDeviceRegistrationMode(anchor: u64, now: u64) returns (response: Response)
      modifies this
      ensures (Contents(), response) == Step(old(Contents()), Exit(anchor), now)
    {
      PruneExpired(now);
      Remove(anchor);
      response := Exited;
    }

    method AddTentativeDevice(anchor: u64, device: Device, code: Code, pubkeyUsed: bool,
                              now: u64) returns (response: Response)
      modifies this
      ensures (Contents(), response) == Step(old(Contents()), AddDevice(anchor, device, code, pubkeyUsed), now)
    {
      PruneExpired(now);
      if anchor !in registrations {
        return RegistrationModeOff;
      }
      var r := registrations[anchor];
      if r.expiration <= now {
        return RegistrationModeOff;
      }
      if !r.state.ModeActive? {
        return RegistrationAlreadyInProgress;
      }
      if pubkeyUsed {
        return PubkeyAlreadyUsed;
      }
      registrations := registrations[anchor := r.(state := DeviceTentativelyAdded(device, 0, code))];
      response := CodeIssued(r.expiration, code);
    }

    method AddTentativeSession(anchor: u64, session: Principal, code: Code, now: u64) returns (response: Response)
      modifies this
      ensures (Contents(), response) == Step(old(Contents()), AddSession(anchor, session, code), now)
    {
      PruneExpired(now);
      if anchor !in registrations {
        return RegistrationModeOff;
      }
      var r := registrations[anchor];
      if r.expiration <= now {
        return RegistrationModeOff;
      }
      if !r.state.ModeActive? {
        return RegistrationAlreadyInProgress;
      }
      registrations := registrations[anchor := r.(state := SessionTentativelyAdded(session, 0, code))];
      response := CodeIssued(r.expiration, code);
    }

    method ConfirmTentativeDeviceOrSession(anchor: u64, userCode: Code, now: u64) returns (response: Response)
      modifies this
      ensures (Contents(), response) == Step(old(Contents()), Confirm(anchor, userCode), now)
    {
      PruneExpired(now);
      if anchor !in registrations {
        return RegistrationModeOff;
      }
      var r := registrations[anchor];
      var shouldRemove := false;
      match r.state {
        case ModeActive =>
          response := NoAuthnMethodToConfirm;
        case SessionTentativelyConfirmed(_) =>
          response := NoAuthnMethodToConfirm;
        case DeviceTentativelyAdded(device, failedAttempts, code) =>
          if userCode == code {
            shouldRemove := true;
            response := DeviceConfirmed(device);
          } else {
            var failed := failedAttempts + 1;
            registrations := registrations[anchor := r.(state := DeviceTentativelyAdded(device, failed, code))];
            shouldRemove := failed >= MAX_DEVICE_REGISTRATION_ATTEMPTS;
            response := WrongCode(MAX_DEVICE_REGISTRATION_ATTEMPTS - failed);
          }
        case SessionTentativelyAdded(session, failedAttempts, code) =>
          if userCode == code {
            registrations := registrations[anchor := r.(state := SessionTentativelyConfirmed(session))];
            response := SessionConfirmed;
          } else {
            var failed := failedAttempts + 1;
            registrations := registrations[anchor := r.(state := SessionTentativelyAdded(session, failed, code))];
            shouldRemove := failed >= MAX_DEVICE_REGISTRATION_ATTEMPTS;
            response := WrongCode(MAX_DEVICE_REGISTRATION_ATTEMPTS - failed);
          }
      }
      if shouldRemove {
        Remove(anchor);
      }
    }

    method ReadSession(anchor: u64, now: u64) returns (response: Response)
      modifies this
      ensures (Contents(), response) == Step(old(Contents()), GetConfirmedSession(anchor), now)
    {
      PruneExpired(now);
      if anchor in registrations && now < registrations[anchor].expiration {
        match registrations[anchor].state
        case SessionTentativelyConfirmed(session) => return ConfirmedSession(Some(session));
        case _ =>
      }
      response := ConfirmedSession(None);
    }
  }

  function IdsOfExpired(s: State, anchors: set<u64>, now: u64): set<RegistrationId> {
    set a | a in anchors && a in s.registrations && s.registrations[a].expiration <= now && s.registrations[a].id != None
      :: s.registrations[a].id.value
  }

  /** The maps after some of the registrations were visited. */
  function PruneVisited(s: State, visited: set<u64>, now: u64): State {
    State(map a | a in s.registrations && (a in visited ==> now < s.registrations[a].expiration) :: s.registrations[a],
          s.lookup - IdsOfExpired(s, visited, now))
  }

  lemma NothingVisited(s: State, now: u64)
    ensures PruneVisited(s, {}, now) == s
  {
    assert IdsOfExpired(s, {}, now) == {};
  }

  lemma AllVisited(s: State, now: u64)
    ensures PruneVisited(s, s.registrations.Keys, now) == Prune(s, now)
  {
    assert IdsOfExpired(s, s.registrations.Keys, now) == ExpiredIds(s, now);
  }

  lemma VisitOne(s: State, visited: set<u64>, a: u64, now: u64)
    requires a in s.registrations && a !in visited
    ensures a in PruneVisited(s, visited, now).registrations
    ensures PruneVisited(s, visited, now).registrations[a] == s.registrations[a]
    ensures PruneVisited(s, visited + {a}, now)
         == if now < s.registrations[a].expiration then PruneVisited(s, visited, now) else Drop(PruneVisited(s,
             visited, now), a)
  {
    VisitExpired(s, visited, a, now);
  }

  lemma VisitExpired(s: State, visited: set<u64>, a: u64, now: u64)
    requires a in s.registrations
    ensures IdsOfExpired(s, visited + {a}, now)
         == IdsOfExpired(s, visited, now) +
            (if s.registrations[a].expiration <= now && s.registrations[a].id != None
             then {s.registrations[a].id.value} else {})
  {
    forall b | b in visited && b in s.registrations && s.registrations[b].expiration <= now && s.registrations[b].id != None
      ensures s.registrations[b].id.value in IdsOfExpired(s, visited + {a}, now)
    {
      assert b in visited + {a};
    }
    assert s.registrations[a].expiration <= now && s.registrations[a].id != None ==>
             s.registrations[a].id.value in IdsOfExpired(s, visited + {a}, now) by {
      assert a in visited + {a};
    }
  }

  // ----- Runs -----

  datatype Event = Event(operation: Operation, now: u64)

  function After(run: seq<Event>): State {
    if run == [] then State(map[], map[])
    else Step(After(run[..|run| - 1]), run[|run| - 1].operation, run[|run| - 1].now).0
  }

  /** The response to the last operation of a run. */
  function LastResponse(run: seq<Event>): Response
    requires run != []
  {
    Step(After(run[..|run| - 1]), run[|run| - 1].operation, run[|run| - 1].now).1
  }

  // ----- The lookup table -----

  /** Every lookup entry leads to a live registration that carries the id. */
  predicate LookupIsSound(s: State) {
    forall id :: id in s.lookup ==> s.lookup[id] in s.registrations && s.registrations[s.lookup[id]].id == Some(id)
  }

  /** Every live registration with an id is found under it. */
  predicate LookupIsComplete(s: State) {
    forall a :: a in s.registrations && s.registrations[a].id != None ==>
                  s.registrations[a].id.value in s.lookup && s.lookup[s.registrations[a].id.value] == a
  }

  predicate IdsAreDistinct(s: State) {
    forall a, b :: a in s.registrations && b in s.registrations && a != b && s.registrations[a].id != None ==>
                     s.registrations[a].id != s.registrations[b].id
  }

  predicate AttemptsAreBounded(s: State) {
    forall a :: a in s.registrations ==>
      match s.registrations[a].state
      case DeviceTentativelyAdded(_, n, _) => n < MAX_DEVICE_REGISTRATION_ATTEMPTS
      case SessionTentativelyAdded(_, n, _) => n < MAX_DEVICE_REGISTRATION_ATTEMPTS
      case _ => true
  }

  predicate Inv(s: State) {
    && LookupIsSound(s)
    && AttemptsAreBounded(s)
    && |s.registrations| <= MAX_ANCHORS_IN_REGISTRATION_MODE
  }

  lemma PruneKeepsInv(s: State, now: u64)
    requires Inv(s)
    ensures Inv(Prune(s, now))
    ensures LookupIsComplete(s) ==> LookupIsComplete(Prune(s, now))
  {
    var t := Prune(s, now);
    assert t.registrations.Keys <= s.registrations.Keys;
    SubsetIsNotLarger(t.registrations.Keys, s.registrations.Keys);
    assert |t.registrations.Keys| == |t.registrations| && |s.registrations.Keys| == |s.registrations|;
    forall a | a in s.registrations && s.registrations[a].expiration <= now && s.registrations[a].id != None
      ensures s.registrations[a].id.value in ExpiredIds(s, now)
    {
    }
    forall id | id in t.lookup
      ensures t.lookup[id] in t.registrations
    {
      assert s.registrations[s.lookup[id]].id == Some(id);
    }
  }

  lemma DropKeepsInv(s: State, anchor: u64)
    requires Inv(s)
    ensures Inv(Drop(s, anchor))
    ensures LookupIsComplete(s) ==> LookupIsComplete(Drop(s, anchor))
  {
    SubsetIsNotLarger(Drop(s, anchor).registrations.Keys, s.registrations.Keys);
    assert |Drop(s, anchor).registrations.Keys| == |Drop(s, anchor).registrations|;
    assert |s.registrations.Keys| == |s.registrations|;
  }

  function FailedAttempts(state: RegistrationState): nat {
    match state
    case DeviceTentativelyAdded(_, n, _) => n
    case SessionTentativelyAdded(_, n, _) => n
    case _ => 0
  }

  lemma SetStateKeepsInv(s: State, anchor: u64, state: RegistrationState)
    requires Inv(s) && anchor in s.registrations
    ensures FailedAttempts(state) < MAX_DEVICE_REGISTRATION_ATTEMPTS ==> Inv(SetState(s, anchor, state))
    ensures LookupIsComplete(s) ==> LookupIsComplete(SetState(s, anchor, state))
    ensures Drop(SetState(s, anchor, state), anchor) == Drop(s, anchor)
  {
    var t := SetState(s, anchor, state);
    assert t.registrations.Keys == s.registrations.Keys;
    assert |t.registrations.Keys| == |t.registrations| && |s.registrations.Keys| == |s.registrations|;
    assert Drop(t, anchor).registrations == Drop(s, anchor).registrations;
  }

  lemma EnterKeepsInv(s: State, anchor: u64, id: Option<RegistrationId>, now: u64)
    requires Inv(s)
    ensures Inv(EnterMode(s, anchor, id, now).0)
  {
    hide Prune, Drop;
    PruneKeepsInv(s, now);
  }

  lemma AddKeepsInv(s: State, anchor: u64, pending: RegistrationState, code: Code, refused: bool, now: u64)
    requires Inv(s) && FailedAttempts(pending) == 0
    ensures Inv(AddTentative(s, anchor, pending, code, refused, now).0)
    ensures LookupIsComplete(s) ==> LookupIsComplete(AddTentative(s, anchor, pending, code, refused, now).0)
  {
    hide Prune, Drop, SetState, LookupIsComplete, Inv;
    PruneKeepsInv(s, now);
    if anchor in Prune(s, now).registrations {
      SetStateKeepsInv(Prune(s, now), anchor, pending);
    }
  }

  lemma WrongAttemptKeepsInv(t: State, anchor: u64, counted: RegistrationState, failedAttempts: nat)
    requires Inv(t) && anchor in t.registrations && FailedAttempts(counted) == failedAttempts
    ensures Inv(WrongAttempt(t, anchor, counted, failedAttempts).0)
    ensures LookupIsComplete(t) ==> LookupIsComplete(WrongAttempt(t, anchor, counted, failedAttempts).0)
  {
    hide Drop, SetState, LookupIsComplete, Inv;
    SetStateKeepsInv(t, anchor, counted);
    DropKeepsInv(t, anchor);
  }

  lemma ConfirmKeepsInv(s: State, anchor: u64, code: Code, now: u64)
    requires Inv(s)
    ensures Inv(ConfirmTentative(s, anchor, code, now).0)
    ensures LookupIsComplete(s) ==> LookupIsComplete(ConfirmTentative(s, anchor, code, now).0)
  {
    hide Prune, Drop, SetState, LookupIsComplete, Inv, WrongAttempt;
    PruneKeepsInv(s, now);
    var t := Prune(s, now);
    if anchor in t.registrations {
      DropKeepsInv(t, anchor);
      match t.registrations[anchor].state
      case ModeActive =>
      case SessionTentativelyConfirmed(_) =>
      case DeviceTentativelyAdded(device, failed, expected) =>
        WrongAttemptKeepsInv(t, anchor, DeviceTentativelyAdded(device, failed + 1, expected), failed + 1);
      case SessionTentativelyAdded(session, failed, expected) =>
        SetStateKeepsInv(t, anchor, SessionTentativelyConfirmed(session));
        WrongAttemptKeepsInv(t, anchor, SessionTentativelyAdded(session, failed + 1, expected), failed + 1);
    }
  }

  lemma StepKeepsInv(s: State, o: Operation, now: u64)
    requires Inv(s)
    ensures Inv(Step(s, o, now).0)
    ensures !o.Enter? && LookupIsComplete(s) ==> LookupIsComplete(Step(s, o, now).0)
  {
    hide Inv, LookupIsComplete, Prune, Drop, EnterMode, AddTentative, ConfirmTentative;
    match o
    case Enter(a, id) => EnterKeepsInv(s, a, id, now);
    case Exit(a) =>
      PruneKeepsInv(s, now);
      DropKeepsInv(Prune(s, now), a);
    case AddDevice(a, d, c, used) => AddKeepsInv(s, a, DeviceTentativelyAdded(d, 0, c), c, used, now);
    case AddSession(a, p, c) => AddKeepsInv(s, a, SessionTentativelyAdded(p, 0, c), c, false, now);
    case GetConfirmedSession(a) => PruneKeepsInv(s, now);
    case Confirm(a, c) => ConfirmKeepsInv(s, a, c, now);
  }

  /** The operation begins a new registration under an id that a live registration has. */
  ghost predicate TakesOver(s: State, o: Operation, now: u64) {
    var t := Prune(s, now);
    o.Enter? && o.id != None && o.anchor !in t.registrations && |t.registrations| < MAX_ANCHORS_IN_REGISTRATION_MODE &&
    exists b :: b in t.registrations && t.registrations[b].id == o.id
  }

  lemma EnterKeepsLookupCompleteIff(s: State, anchor: u64, id: Option<RegistrationId>, now: u64)
    requires LookupIsSound(Prune(s, now)) && LookupIsComplete(Prune(s, now))
    ensures LookupIsComplete(EnterMode(s, anchor, id, now).0) <==> !TakesOver(s, Enter(anchor, id), now)
  {
    hide Prune;
    var t, u := Prune(s, now), EnterMode(s, anchor, id, now).0;
    if TakesOver(s, Enter(anchor, id), now) {
      var b :| b in t.registrations && t.registrations[b].id == id;
      assert u.registrations[b].id == id && u.lookup[id.value] == anchor;
    }
  }

  /** A complete lookup table stays complete exactly if the operation does not begin a new registration under
      an id that a live registration has. */
  lemma StepKeepsLookupCompleteIff(s: State, o: Operation, now: u64)
    requires Inv(s) && LookupIsComplete(s)
    ensures LookupIsComplete(Step(s, o, now).0) <==> !TakesOver(s, o, now)
  {
    hide AddTentative, ConfirmTentative, Drop, Prune, LookupIsComplete, EnterMode, TakesOver;
    StepKeepsInv(s, o, now);
    PruneKeepsInv(s, now);
    if o.Enter? {
      EnterKeepsLookupCompleteIff(s, o.anchor, o.id, now);
    } else {
      OnlyEnteringTakesOver(s, o, now);
    }
  }

  lemma OnlyEnteringTakesOver(s: State, o: Operation, now: u64)
    requires !o.Enter?
    ensures !TakesOver(s, o, now)
  {
  }

  /** With a complete table, ids of live registrations are distinct; with a sound one that is all it takes for
      an operation to keep it complete. */
  lemma StepKeepsLookupCompleteIffDistinct(s: State, o: Operation, now: u64)
    requires Inv(s) && LookupIsComplete(s)
    ensures LookupIsComplete(Step(s, o, now).0) <==> IdsAreDistinct(Step(s, o, now).0)
  {
    hide AddTentative, ConfirmTentative, Drop, Prune;
    StepKeepsInv(s, o, now);
    PruneKeepsInv(s, now);
  }

  lemma EnteringAnew(s: State, a: u64, id: RegistrationId, now: u64)
    requires Prune(s, now) == s && a !in s.registrations && |s.registrations| < MAX_ANCHORS_IN_REGISTRATION_MODE
    requires now + REGISTRATION_MODE_DURATION_NS < TWO_64
    ensures EnterMode(s, a, Some(id), now).0
         == State(s.registrations[a := Registration(now + REGISTRATION_MODE_DURATION_NS, ModeActive, Some(id))],
             s.lookup[id := a])
  {
    hide Prune;
  }

  lemma NothingToPrune(s: State, now: u64)
    requires forall a :: a in s.registrations ==> now < s.registrations[a].expiration
    ensures Prune(s, now) == s
  {
    assert ExpiredIds(s, now) == {};
  }

  lemma BothRegistered(a: u64, b: u64, id: RegistrationId, now: u64)
    requires a != b && now + REGISTRATION_MODE_DURATION_NS < TWO_64
    ensures var r := Registration(now + REGISTRATION_MODE_DURATION_NS, ModeActive, Some(id));
            After([Event(Enter(a, Some(id)), now), Event(Enter(b, Some(id)), now)])
              == State(map[a := r, b := r], map[id := b])
  {
    hide After, EnterMode, Prune;
    var first, second := Event(Enter(a, Some(id)), now), Event(Enter(b, Some(id)), now);
    AfterOneMore([], first);
    AfterOneMore([first], second);
    assert [] + [first] == [first] && [first] + [second] == [first, second];
    var r := Registration(now + REGISTRATION_MODE_DURATION_NS, ModeActive, Some(id));
    var none, one := State(map[], map[]), State(map[a := r], map[id := a]);
    NothingHappened();
    NothingToPrune(none, now);
    EnteringAnew(none, a, id, now);
    NothingToPrune(one, now);
    EnteringAnew(one, b, id, now);
    assert map[a := r][b := r] == map[a := r, b := r] && map[id := a][id := b] == map[id := b];
  }

  /** Two anchors enter with one id: the first registration is live and cannot be found any more. */
  lemma SharedIdIsTakenOver(a: u64, b: u64, id: RegistrationId, now: u64)
    requires a != b && now + REGISTRATION_MODE_DURATION_NS < TWO_64
    ensures var s := After([Event(Enter(a, Some(id)), now), Event(Enter(b, Some(id)), now)]);
            && a in s.registrations && s.registrations[a].id == Some(id) && now < s.registrations[a].expiration
            && s.lookup == map[id := b] && !LookupIsComplete(s)
  {
    hide After;
    BothRegistered(a, b, id, now);
  }

  lemma NothingHappened()
    ensures After([]) == State(map[], map[])
  {
  }

  lemma AfterOneMore(run: seq<Event>, e: Event)
    ensures After(run + [e]) == Step(After(run), e.operation, e.now).0
  {
    assert (run + [e])[..|run|] == run;
  }

  lemma {:induction false} RunKeepsInv(run: seq<Event>)
    ensures Inv(After(run))
  {
    if run != [] {
      RunKeepsInv(run[..|run| - 1]);
      StepKeepsInv(After(run[..|run| - 1]), run[|run| - 1].operation, run[|run| - 1].now);
    }
  }

  /** After any operations whatever, every lookup entry leads to a live registration with that id, and
      there are no more entries than registrations, and no more registrations than the limit. */
  lemma LookupIsAlwaysSound(run: seq<Event>)
    ensures LookupIsSound(After(run))
    ensures |After(run).lookup| <= |After(run).registrations| <= MAX_ANCHORS_IN_REGISTRATION_MODE
  {
    RunKeepsInv(run);
    LookupIsNotLarger(After(run).lookup, After(run).registrations);
  }

  lemma {:induction false} LookupIsNotLarger(lookup: map<RegistrationId, u64>, registrations: map<u64, Registration>)
    requires LookupIsSound(State(registrations, lookup))
    ensures |lookup| <= |registrations|
    decreases |lookup|
  {
    if lookup != map[] {
      var id :| id in lookup;
      var a := lookup[id];
      MapRemoval(lookup, id);
      MapRemoval(registrations, a);
      LookupIsNotLarger(lookup - {id}, registrations - {a});
    }
  }

  lemma MapRemoval<K, V>(m: map<K, V>, k: K)
    requires k in m
    ensures |m - {k}| == |m| - 1
  {
    assert (m - {k}).Keys == m.Keys - {k};
    assert |m.Keys| == |m| && |(m - {k}).Keys| == |m - {k}|;
  }

  /** In runs that never have two live registrations with the same id, the lookup table is the exact
      inverse of the ids of the live registrations. */
  lemma {:induction false} LookupIsCompleteForDistinctIds(run: seq<Event>)
    requires forall n :: 0 <= n <= |run| ==> IdsAreDistinct(After(run[..n]))
    ensures LookupIsSound(After(run)) && LookupIsComplete(After(run))
  {
    RunKeepsInv(run);
    if run != [] {
      var init, last := run[..|run| - 1], run[|run| - 1];
      assert forall n :: 0 <= n <= |init| ==> init[..n] == run[..n];
      LookupIsCompleteForDistinctIds(init);
      RunKeepsInv(init);
      assert run[..|run|] == run;
      StepKeepsLookupCompleteIffDistinct(After(init), last.operation, last.now);
    }
  }

  // ----- What led to a confirmation -----

  datatype Subject = DeviceSubject(device: Device) | SessionSubject(session: Principal)

  /** A device or session waiting for its code, in a registration that expires at a given time. */
  datatype Pending = Pending(subject: Subject, code: Code, expiration: u64)

  function PendingOf(s: State, a: u64): Option<Pending> {
    if a !in s.registrations then None
    else
      match s.registrations[a].state
      case DeviceTentativelyAdded(d, _, c) => Some(Pending(DeviceSubject(d), c, s.registrations[a].expiration))
      case SessionTentativelyAdded(p, _, c) => Some(Pending(SessionSubject(p), c, s.registrations[a].expiration))
      case _ => None
  }

  function FailedOf(s: State, a: u64): nat {
    if a in s.registrations then FailedAttempts(s.registrations[a].state) else 0
  }

  /** The operation stores the subject together with its code. */
  predicate Stores(o: Operation, a: u64, p: Pending) {
    match p.subject
    case DeviceSubject(d) => o == AddDevice(a, d, p.code, false)
    case SessionSubject(q) => o == AddSession(a, q, p.code)
  }

  lemma PruningPending(s: State, now: u64, a: u64)
    ensures var t := Prune(s, now);
            PendingOf(t, a) != None ==> PendingOf(t, a) == PendingOf(s, a) && FailedOf(t, a) == FailedOf(s, a)
                                        && now < PendingOf(t, a).value.expiration
  {
    hide ExpiredIds;
  }

  lemma DroppingPending(t: State, b: u64, a: u64)
    ensures PendingOf(Drop(t, b), a) == if a == b then None else PendingOf(t, a)
    ensures a != b ==> FailedOf(Drop(t, b), a) == FailedOf(t, a)
  {
  }

  lemma EnteringPending(s: State, b: u64, id: Option<RegistrationId>, now: u64, a: u64)
    ensures var t, u := Prune(s, now), EnterMode(s, b, id, now).0;
            PendingOf(u, a) != None ==> PendingOf(u, a) == PendingOf(t, a) && FailedOf(u, a) == FailedOf(t, a)
  {
    hide Prune;
  }

  lemma AddingPending(s: State, b: u64, pending: RegistrationState, code: Code, refused: bool, now: u64, a: u64)
    ensures var t, (u, response) := Prune(s, now), AddTentative(s, b, pending, code, refused, now);
            var stored := response.CodeIssued?;
            && (stored ==> b in t.registrations && now < t.registrations[b].expiration && !refused &&
                           u == SetState(t, b, pending) && response == CodeIssued(t.registrations[b].expiration, code))
            && (!stored ==> u == t)
            && (!(stored && a == b) ==> PendingOf(u, a) == PendingOf(t, a) && FailedOf(u, a) == FailedOf(t, a))
  {
    hide Prune;
  }

  lemma StoringPending(t: State, b: u64, subject: Subject, state: RegistrationState, code: Code)
    requires state == match subject
                      case DeviceSubject(d) => DeviceTentativelyAdded(d, 0, code)
                      case SessionSubject(p) => SessionTentativelyAdded(p, 0, code)
    ensures b in t.registrations ==>
              && PendingOf(SetState(t, b, state), b) == Some(Pending(subject, code, t.registrations[b].expiration))
              && FailedOf(SetState(t, b, state), b) == 0
  {
  }

  lemma ConfirmingPending(s: State, b: u64, code: Code, now: u64, a: u64)
    ensures var t, (u, response) := Prune(s, now), ConfirmTentative(s, b, code, now);
            PendingOf(u, a) != None ==>
              && PendingOf(u, a) == PendingOf(t, a)
              && if a == b then code != PendingOf(u, a).value.code && FailedOf(u, a) == FailedOf(t, a) + 1 &&
                                response == WrongCode(MAX_DEVICE_REGISTRATION_ATTEMPTS - FailedOf(u, a))
                 else FailedOf(u, a) == FailedOf(t, a)
  {
    hide Prune;
  }

  /** One step either stores what is pending, or finds it pending already, and then counts a wrong code if
      it was one. */
  lemma PendingStep(s: State, o: Operation, now: u64, a: u64)
    requires PendingOf(Step(s, o, now).0, a) != None
    ensures var t, response := Step(s, o, now).0, Step(s, o, now).1;
            var p := PendingOf(t, a).value;
            || (Stores(o, a, p) && response == CodeIssued(p.expiration, p.code) && FailedOf(t, a) == 0 && now < p.expiration)
            || (PendingOf(s, a) == Some(p) && now < p.expiration &&
                if o.Confirm? && o.anchor == a then
                  o.code != p.code && FailedOf(t, a) == FailedOf(s, a) + 1 &&
                  response == WrongCode(MAX_DEVICE_REGISTRATION_ATTEMPTS - FailedOf(t, a))
                else FailedOf(t, a) == FailedOf(s, a))
  {
    hide Prune, EnterMode, AddTentative, ConfirmTentative, Drop, PendingOf, FailedOf;
    var t := Prune(s, now);
    PruningPending(s, now, a);
    match o
    case Enter(b, id) => EnteringPending(s, b, id, now, a);
    case Exit(b) => DroppingPending(t, b, a);
    case AddDevice(b, d, c, used) =>
      AddingPending(s, b, DeviceTentativelyAdded(d, 0, c), c, used, now, a);
      StoringPending(t, b, DeviceSubject(d), DeviceTentativelyAdded(d, 0, c), c);
    case AddSession(b, p, c) =>
      AddingPending(s, b, SessionTentativelyAdded(p, 0, c), c, false, now, a);
      StoringPending(t, b, SessionSubject(p), SessionTentativelyAdded(p, 0, c), c);
    case Confirm(b, c) => ConfirmingPending(s, b, c, now, a);
    case GetConfirmedSession(_) =>
  }

  /** Wrong codes answered for an anchor from a position of the run on. */
  function WrongCodes(run: seq<Event>, from: nat, a: u64): nat {
    if |run| <= from then 0
    else
      var last := run[|run| - 1].operation;
      WrongCodes(run[..|run| - 1], from, a) +
      if last.Confirm? && last.anchor == a && LastResponse(run).WrongCode? then 1 else 0
  }

  ghost predicate StillPending(run: seq<Event>, n: nat, a: u64, p: Pending)
    requires n <= |run|
  {
    PendingOf(After(run[..n]), a) == Some(p)
  }

  /** Event `i` stored the subject with the code that it issued, and both have been pending ever since in
      the one registration, whose expiration did not change. */
  ghost predicate PendingSince(run: seq<Event>, i: nat, a: u64, p: Pending) {
    && i < |run|
    && Stores(run[i].operation, a, p)
    && LastResponse(run[..i + 1]) == CodeIssued(p.expiration, p.code)
    && (forall n: nat :: i < n <= |run| ==> StillPending(run, n, a, p))
  }

  lemma {:induction false} PendingHasOrigin(run: seq<Event>, a: u64)
    requires PendingOf(After(run), a) != None
    ensures exists i: nat :: PendingSince(run, i, a, PendingOf(After(run), a).value) &&
              FailedOf(After(run), a) == WrongCodes(run, i + 1, a)
    decreases |run|
  {
    hide Step, PendingOf, FailedOf;
    assert run != [] by {
      NothingPendingAtStart(a);
    }
    var n := |run| - 1;
    var init, last := run[..n], run[n];
    var p := PendingOf(After(run), a).value;
    PendingStep(After(init), last.operation, last.now, a);
    assert run[..n + 1] == run;
    if Stores(last.operation, a, p) && LastResponse(run) == CodeIssued(p.expiration, p.code) && FailedOf(After(run), a) == 0 {
      assert StillPending(run, n + 1, a, p);
      assert PendingSince(run, n, a, p);
    } else {
      PendingHasOrigin(init, a);
      var i: nat :| PendingSince(init, i, a, p) && FailedOf(After(init), a) == WrongCodes(init, i + 1, a);
      PendingExtends(run, i, a, p);
    }
  }

  lemma NothingPendingAtStart(a: u64)
    ensures PendingOf(After([]), a) == None
  {
  }

  lemma PendingExtends(run: seq<Event>, i: nat, a: u64, p: Pending)
    requires run != [] && PendingSince(run[..|run| - 1], i, a, p) && PendingOf(After(run), a) == Some(p)
    ensures PendingSince(run, i, a, p)
  {
    hide After, LastResponse, PendingOf;
    var init := run[..|run| - 1];
    assert init[..i + 1] == run[..i + 1];
    forall n: nat | i < n <= |run|
      ensures StillPending(run, n, a, p)
    {
      if n <= |init| {
        assert StillPending(init, n, a, p);
        assert init[..n] == run[..n];
      } else {
        assert run[..n] == run;
      }
    }
  }

  /** The device waits for this code, in a registration that has not expired. */
  predicate Awaits(s: State, a: u64, device: Device, code: Code, now: u64) {
    match PendingOf(s, a)
    case Some(p) => p.subject == DeviceSubject(device) && p.code == code && now < p.expiration
    case None => false
  }

  lemma DeviceConfirmedIffAwaited(s: State, a: u64, device: Device, code: Code, now: u64)
    ensures ConfirmTentative(s, a, code, now).1 == DeviceConfirmed(device) <==> Awaits(s, a, device, code, now)
  {
    hide ExpiredIds;
  }

  /** A confirmation hands out a device only if that device was stored with that very code earlier in the
      same registration, which has not expired. */
  lemma ConfirmedDeviceWasStored(run: seq<Event>, a: u64, code: Code, now: u64)
    requires ConfirmTentative(After(run), a, code, now).1.DeviceConfirmed?
    ensures exists i: nat, expiration :: now < expiration &&
              PendingSince(run, i, a, Pending(DeviceSubject(ConfirmTentative(After(run), a, code, now).1.device),
                  code, expiration))
  {
    hide ConfirmTentative, PendingOf, PendingSince, FailedOf, After;
    DeviceConfirmedIffAwaited(After(run), a, ConfirmTentative(After(run), a, code, now).1.device, code, now);
    PendingHasOrigin(run, a);
    var p := PendingOf(After(run), a).value;
    assert p == Pending(p.subject, p.code, p.expiration);
  }

  // ----- What led to a confirmed session -----

  datatype Confirmed = Confirmed(session: Principal, expiration: u64)

  function ConfirmedOf(s: State, a: u64): Option<Confirmed> {
    if a in s.registrations && s.registrations[a].state.SessionTentativelyConfirmed?
    then Some(Confirmed(s.registrations[a].state.session, s.registrations[a].expiration))
    else None
  }

  /** One step either confirms the pending session with its code, or finds it confirmed already. */
  lemma ConfirmedStep(s: State, o: Operation, now: u64, a: u64)
    requires ConfirmedOf(Step(s, o, now).0, a) != None
    ensures var c := ConfirmedOf(Step(s, o, now).0, a).value;
            && now < c.expiration
            && (ConfirmedOf(s, a) == Some(c) ||
                (o.Confirm? && o.anchor == a && PendingOf(s, a)
                    == Some(Pending(SessionSubject(c.session), o.code, c.expiration))))
  {
    hide ExpiredIds;
  }

  /** Event `j` confirmed the session that was pending, with the code that was issued for it. */
  ghost predicate ConfirmedBy(run: seq<Event>, j: nat, a: u64, c: Confirmed, code: Code) {
    && j < |run|
    && run[j].operation == Confirm(a, code)
    && exists i: nat :: PendingSince(run[..j], i, a, Pending(SessionSubject(c.session), code, c.expiration))
  }

  lemma {:induction false} ConfirmedHasOrigin(run: seq<Event>, a: u64)
    requires ConfirmedOf(After(run), a) != None
    ensures exists j: nat, code :: ConfirmedBy(run, j, a, ConfirmedOf(After(run), a).value, code)
    decreases |run|
  {
    hide Step, PendingOf, PendingSince, FailedOf;
    assert run != [];
    var n := |run| - 1;
    var init, last := run[..n], run[n];
    var c := ConfirmedOf(After(run), a).value;
    ConfirmedStep(After(init), last.operation, last.now, a);
    if ConfirmedOf(After(init), a) == Some(c) {
      ConfirmedHasOrigin(init, a);
      var j: nat, code :| ConfirmedBy(init, j, a, c, code);
      assert run[..j] == init[..j];
      assert ConfirmedBy(run, j, a, c, code);
    } else {
      PendingHasOrigin(init, a);
      assert ConfirmedBy(run, n, a, c, last.operation.code);
    }
  }

  /** A session is handed out only if it was stored, and then confirmed with the code that was issued for
      it, earlier in the same registration, which has not expired. */
  lemma ConfirmedSessionWasStored(run: seq<Event>, a: u64, now: u64, session: Principal)
    requires ReadConfirmedSession(After(run), a, now).1 == ConfirmedSession(Some(session))
    ensures exists j: nat, code, expiration :: now < expiration &&
              ConfirmedBy(run, j, a, Confirmed(session, expiration), code)
  {
    hide After, ConfirmedBy;
    var c := ConfirmedOf(After(run), a).value;
    ConfirmedHasOrigin(run, a);
    var j: nat, code :| ConfirmedBy(run, j, a, c, code);
    assert c == Confirmed(session, c.expiration);
  }

  // ----- Wrong codes -----

  lemma WrongCodeOnlyIfPending(s: State, a: u64, code: Code, now: u64)
    requires Inv(s) && ConfirmTentative(s, a, code, now).1.WrongCode?
    ensures var t, response := ConfirmTentative(s, a, code, now).0, ConfirmTentative(s, a, code, now).1;
            && PendingOf(s, a) != None && PendingOf(s, a).value.code != code && now < PendingOf(s, a).value.expiration
            && response.retriesLeft == MAX_DEVICE_REGISTRATION_ATTEMPTS - (FailedOf(s, a) + 1) >= 0
            && (response.retriesLeft == 0 <==> a !in t.registrations)
  {
  }

  /** Against one issued code at most three wrong codes are ever accepted; the answer counts down what is
      left without underflow, and with the last one the registration is gone. */
  lemma AtMostThreeWrongCodes(run: seq<Event>, a: u64, code: Code, now: u64)
    requires ConfirmTentative(After(run), a, code, now).1.WrongCode?
    ensures var longer := run + [Event(Confirm(a, code), now)];
            exists i: nat, p :: PendingSince(run, i, a, p) && p.code != code &&
              WrongCodes(longer, i + 1, a) <= 3 &&
              LastResponse(longer) == WrongCode(3 - WrongCodes(longer, i + 1, a)) &&
              (WrongCodes(longer, i + 1, a) == 3 <==> a !in After(longer).registrations)
  {
    hide ConfirmTentative, Inv, PendingOf, FailedOf, PendingSince, After, LastResponse, WrongCodes;
    RunKeepsInv(run);
    WrongCodeOnlyIfPending(After(run), a, code, now);
    PendingHasOrigin(run, a);
    var p := PendingOf(After(run), a).value;
    var i: nat :| PendingSince(run, i, a, p) && FailedOf(After(run), a) == WrongCodes(run, i + 1, a);
    IssuedInside(run, i, a, p);
    OneMoreWrongCode(run, a, code, now, i + 1);
  }

  lemma OneMoreWrongCode(run: seq<Event>, a: u64, code: Code, now: u64, from: nat)
    requires ConfirmTentative(After(run), a, code, now).1.WrongCode? && from <= |run|
    ensures var longer := run + [Event(Confirm(a, code), now)];
            && (After(longer), LastResponse(longer)) == ConfirmTentative(After(run), a, code, now)
            && WrongCodes(longer, from, a) == WrongCodes(run, from, a) + 1
  {
    hide ConfirmTentative;
    var longer := run + [Event(Confirm(a, code), now)];
    assert longer[..|run|] == run && longer[|run|] == Event(Confirm(a, code), now);
  }

  lemma IssuedInside(run: seq<Event>, i: nat, a: u64, p: Pending)
    requires PendingSince(run, i, a, p)
    ensures i < |run|
  {
  }

  /** While a registration lives, no operation changes its expiration or its id. */
  lemma RegistrationIsFixed(s: State, o: Operation, now: u64, a: u64)
    requires a in s.registrations && now < s.registrations[a].expiration
    requires a in Step(s, o, now).0.registrations
    ensures Step(s, o, now).0.registrations[a].expiration == s.registrations[a].expiration
    ensures Step(s, o, now).0.registrations[a].id == s.registrations[a].id
  {
    hide ExpiredIds;
  }

  // ----- Which answer comes when -----

  predicate IsLive(s: State, a: u64, now: u64) {
    a in s.registrations && now < s.registrations[a].expiration
  }

  function LiveAnchors(s: State, now: u64): set<u64> {
    set a | a in s.registrations && now < s.registrations[a].expiration
  }

  /** Entering is refused at the limit of live registrations, and under another id than that of the registration
      the anchor has; otherwise the anchor keeps that one or gets one for fifteen minutes. */
  lemma EnterAnswers(s: State, a: u64, id: Option<RegistrationId>, now: u64)
    ensures var response := Step(s, Enter(a, id), now).1;
            var full, known := |LiveAnchors(s, now)| >= 10_000, IsLive(s, a, now);
            && (response == TooManyRegistrations <==> full)
            && (response == AlreadyInProgress <==> !full && known && s.registrations[a].id != id)
            && (response.Entered? <==> !full && (known ==> s.registrations[a].id == id))
            && (response.Entered? ==>
                  response.expiration == if known then s.registrations[a].expiration else Add64(now, 900_000_000_000))
  {
    hide ExpiredIds;
    assert Prune(s, now).registrations.Keys == LiveAnchors(s, now);
    assert |Prune(s, now).registrations.Keys| == |Prune(s, now).registrations|;
  }

  /** Nothing can be stored outside registration mode, over something stored, or, for a device, with a pubkey in use. */
  lemma AddAnswers(s: State, o: Operation, now: u64)
    requires o.AddDevice? || o.AddSession?
    ensures var response := Step(s, o, now).1;
            var live := IsLive(s, o.anchor, now);
            var free := live && s.registrations[o.anchor].state.ModeActive?;
            && (response == RegistrationModeOff <==> !live)
            && (response == RegistrationAlreadyInProgress <==> live && !free)
            && (response == PubkeyAlreadyUsed <==> free && o.AddDevice? && o.pubkeyUsed)
            && (response.CodeIssued? <==> free && !(o.AddDevice? && o.pubkeyUsed))
            && (response.CodeIssued? ==> response == CodeIssued(s.registrations[o.anchor].expiration, o.code))
  {
    hide ExpiredIds;
  }

  /** The session that waits for its code is confirmed by it, and only then. */
  lemma ConfirmAnswers(s: State, a: u64, code: Code, now: u64)
    ensures var (t, response) := Step(s, Confirm(a, code), now);
            var live, pending := IsLive(s, a, now), PendingOf(s, a);
            && (response == RegistrationModeOff <==> !live)
            && (response == NoAuthnMethodToConfirm <==> live && pending == None)
            && (response.WrongCode? <==> live && pending != None && pending.value.code != code)
            && (response.DeviceConfirmed? <==>
                  live && pending != None && pending.value.code == code && pending.value.subject.DeviceSubject?)
            && (response == SessionConfirmed <==>
                  live && pending != None && pending.value.code == code && pending.value.subject.SessionSubject?)
            && (response == SessionConfirmed ==>
                  ConfirmedOf(t, a) == Some(Confirmed(pending.value.subject.session, pending.value.expiration)))
  {
    hide ExpiredIds;
  }

  /** A session is handed out exactly if it was confirmed in a registration that has not expired. */
  lemma ReadAnswers(s: State, a: u64, now: u64, session: Principal)
    ensures Step(s, GetConfirmedSession(a), now).1 == ConfirmedSession(Some(session)) <==>
            ConfirmedOf(s, a) != None && ConfirmedOf(s, a).value.session == session && IsLive(s, a, now)
    ensures Step(s, GetConfirmedSession(a), now).1.ConfirmedSession?
  {
    hide ExpiredIds;
  }

  // ----- When a registration begins and ends -----

  /** An expired registration, or that of the anchor, has the id. */
  predicate Goes(s: State, a: u64, id: RegistrationId, now: u64) {
    exists b :: b in s.registrations && s.registrations[b].id == Some(id) && (b == a || s.registrations[b].expiration <= now)
  }

  /** Leaving ends the registration of the anchor and no other; with it go the lookup entries under its id and
      those of expired registrations, whomever they lead to. */
  lemma ExitEnds(s: State, a: u64, now: u64)
    ensures var t := Step(s, Exit(a), now).0;
            && a !in t.registrations
            && (forall b :: b != a ==> (b in t.registrations <==> IsLive(s, b, now)))
            && (forall b :: b in t.registrations ==> t.registrations[b] == s.registrations[b])
            && (forall id :: id in t.lookup <==> id in s.lookup && !Goes(s, a, id, now))
            && (forall id :: id in t.lookup ==> t.lookup[id] == s.lookup[id])
    ensures LookupIsSound(s) ==> forall id :: id in Step(s, Exit(a), now).0.lookup ==> s.lookup[id] != a
  {
    forall id
      ensures id in ExpiredIds(s, now) <==>
                exists b :: b in s.registrations && s.registrations[b].id == Some(id) && s.registrations[b].expiration <= now
    {
    }
  }

  /** So an anchor that shares its id can make another one, which stays registered, impossible to find. */
  lemma LeavingHidesOther(a: u64, b: u64, id: RegistrationId, now: u64)
    requires a != b && now + REGISTRATION_MODE_DURATION_NS < TWO_64
    ensures var s := After([Event(Enter(a, Some(id)), now), Event(Enter(b, Some(id)), now), Event(Exit(a), now)]);
            IsLive(s, b, now) && s.registrations[b].id == Some(id) && s.lookup == map[]
  {
    hide After, EnterMode, Prune, LookupIsComplete;
    var run := [Event(Enter(a, Some(id)), now), Event(Enter(b, Some(id)), now)];
    BothRegistered(a, b, id, now);
    AfterOneMore(run, Event(Exit(a), now));
    assert run + [Event(Exit(a), now)] == [run[0], run[1], Event(Exit(a), now)];
    NothingToPrune(After(run), now);
  }

  /** The operation and its answer end the registration of the anchor. */
  predicate Ends(o: Operation, response: Response, a: u64) {
    o.anchor == a && (o.Exit? || response.DeviceConfirmed? || response == WrongCode(0))
  }

  /** An anchor is registered after an operation exactly if it has just entered, or was before, has not expired, and the
      operation was not one that ends it. */
  lemma RegisteredIff(s: State, o: Operation, now: u64, a: u64)
    requires Inv(s)
    ensures var (t, response) := Step(s, o, now);
            && (a in t.registrations <==>
                  || (o.Enter? && o.anchor == a && response.Entered?)
                  || (IsLive(s, a, now) && !Ends(o, response, a)))
            && (o.Enter? && o.anchor == a && response.Entered? ==>
                  t.registrations[a].id == o.id && t.registrations[a].expiration == response.expiration)
  {
    hide ExpiredIds, LookupIsSound;
    assert AttemptsAreBounded(s);
  }

  ghost predicate Continues(run: seq<Event>, j: nat, a: u64, expiration: u64)
    requires j < |run|
  {
    run[j].now < expiration && !Ends(run[j].operation, LastResponse(run[..j + 1]), a)
  }

  /** Event `i` began the registration or found it, and nothing has ended it since. */
  ghost predicate RegisteredBy(run: seq<Event>, i: nat, a: u64, id: Option<RegistrationId>, expiration: u64) {
    && i < |run|
    && run[i].operation == Enter(a, id)
    && LastResponse(run[..i + 1]) == Entered(expiration)
    && forall j: nat :: i < j < |run| ==> Continues(run, j, a, expiration)
  }

  ghost predicate IsRegistered(s: State, a: u64, id: Option<RegistrationId>, expiration: u64) {
    a in s.registrations && s.registrations[a].id == id && s.registrations[a].expiration == expiration
  }

  /** Over every run: an anchor is registered exactly if it entered, with that id and expiration, and since then has not
      left, was not confirmed a device, did not use up its attempts, and no operation came at the expiration or later. */
  lemma {:induction false} RegisteredIffEntered(run: seq<Event>, a: u64, id: Option<RegistrationId>, expiration: u64)
    ensures IsRegistered(After(run), a, id, expiration) <==> exists i: nat :: RegisteredBy(run, i, a, id, expiration)
    decreases |run|
  {
    hide Step, Inv, Ends, IsLive;
    if run == [] {
      NothingHappened();
    } else {
      var n := |run| - 1;
      var init, last := run[..n], run[n];
      RunKeepsInv(init);
      RegisteredIff(After(init), last.operation, last.now, a);
      RegisteredIffEntered(init, a, id, expiration);
      KeepsRegistered(After(init), last.operation, last.now, a, id, expiration);
      assert run[..n + 1] == run;
      if i: nat :| RegisteredBy(run, i, a, id, expiration) {
        if i < n {
          assert Continues(run, n, a, expiration);
          ShorterIsRegistered(run, i, a, id, expiration);
        }
      }
      if IsRegistered(After(run), a, id, expiration) {
        if last.operation == Enter(a, id) && LastResponse(run) == Entered(expiration) {
          assert RegisteredBy(run, n, a, id, expiration);
        } else {
          var i: nat :| RegisteredBy(init, i, a, id, expiration);
          LongerIsRegistered(run, i, a, id, expiration);
        }
      }
    }
  }

  /** Over one operation that is not the one that enters. */
  lemma KeepsRegistered(s: State, o: Operation, now: u64, a: u64, id: Option<RegistrationId>, expiration: u64)
    requires Inv(s)
    ensures var (t, response) := Step(s, o, now);
            && (IsRegistered(s, a, id, expiration) && now < expiration && !Ends(o, response, a) ==>
                  IsRegistered(t, a, id, expiration))
            && (IsRegistered(t, a, id, expiration) ==>
                  || (o == Enter(a, id) && response == Entered(expiration))
                  || (IsRegistered(s, a, id, expiration) && now < expiration && !Ends(o, response, a)))
  {
    hide Step, Inv, Ends;
    RegisteredIff(s, o, now, a);
    if IsLive(s, a, now) && a in Step(s, o, now).0.registrations {
      RegistrationIsFixed(s, o, now, a);
    }
  }

  lemma ShorterIsRegistered(run: seq<Event>, i: nat, a: u64, id: Option<RegistrationId>, expiration: u64)
    requires RegisteredBy(run, i, a, id, expiration) && i + 1 < |run|
    ensures RegisteredBy(run[..|run| - 1], i, a, id, expiration)
  {
    hide LastResponse, Ends;
    var init := run[..|run| - 1];
    assert init[..i + 1] == run[..i + 1];
    forall j: nat | i < j < |init|
      ensures Continues(init, j, a, expiration)
    {
      assert Continues(run, j, a, expiration) && init[..j + 1] == run[..j + 1];
    }
  }

  lemma LongerIsRegistered(run: seq<Event>, i: nat, a: u64, id: Option<RegistrationId>, expiration: u64)
    requires run != [] && RegisteredBy(run[..|run| - 1], i, a, id, expiration) && Continues(run, |run| - 1, a, expiration)
    ensures RegisteredBy(run, i, a, id, expiration)
  {
    hide LastResponse, Ends;
    var init := run[..|run| - 1];
    assert init[..i + 1] == run[..i + 1];
    forall j: nat | i < j < |run|
      ensures Continues(run, j, a, expiration)
    {
      if j < |init| {
        assert Continues(init, j, a, expiration) && init[..j + 1] == run[..j + 1];
      }
    }
  }
}
