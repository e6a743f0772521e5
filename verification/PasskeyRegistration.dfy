/** Devices that anchors gain, when they are registered, directly, or by confirming a tentative device, and
    the index of passkey pubkeys. A pubkey that is added directly is checked against the index; a tentative
    device is checked when it is stored, not when it is confirmed; the first device of a new anchor and a
    change in place are not checked. */
module PasskeyRegistration {
  import opened Types
  import opened ReverseIndices
  import D = DeviceRegistration

  type Devices = map<Key, D.Kind>

  /** The devices of each stored anchor by pubkey, and the index of passkeys. */
  datatype System = System(registrations: D.State, devices: map<u64, Devices>, index: Index)

  const START: System := System(D.State(map[], map[]), map[], map[])

  /** `fits` says whether the anchor with the new device meets all other requirements; if not, the message
      traps. A new anchor is `checked` if it comes with a WebAuthn method through the newer endpoint. */
  datatype Step =
    | RegisterAnchor(anchor: u64, device: D.Device, checked: bool, fits: bool)
    | RegisterWithoutDevice(anchor: u64)
    | Add(anchor: u64, device: D.Device, fits: bool)
    | Update(anchor: u64, device: D.Device, fits: bool)
    | Replace(anchor: u64, replaced: Key, device: D.Device, fits: bool)
    | Remove(anchor: u64, pubkey: Key, fits: bool)
    | StoreTentative(anchor: u64, device: D.Device, code: D.Code)
    | Confirm(anchor: u64, code: D.Code, fits: bool)
    | Register(operation: D.Operation)

  datatype Event = Event(step: Step, now: u64)

  function PasskeysOf(ds: Devices): set<Key> {
    set k | k in ds && ds[k].Passkey?
  }

  /** The index and what it should be the inverse of. */
  function Passkeys(s: System): World {
    World(s.index, map a | a in s.devices :: PasskeysOf(s.devices[a]))
  }

  /** An anchor is written with these devices. */
  function SetDevices(s: System, anchor: u64, ds: Devices): System {
    s.(devices := s.devices[anchor := ds],
       index := Sync(s.index, anchor, KeysOf(Passkeys(s), anchor), PasskeysOf(ds), AddNew))
  }

  function WithDevice(ds: Devices, d: D.Device): Devices {
    ds[d.pubkey := d.kind]
  }

  function Has(s: System, anchor: u64, k: Key): bool {
    anchor in s.devices && k in s.devices[anchor]
  }

  function Apply(s: System, e: Event): System {
    match e.step
    case RegisterAnchor(a, d, checked, fits) =>
      if a in s.devices || (checked && d.pubkey in s.index) || !fits then s
      else SetDevices(s, a, WithDevice(map[], d))
    case RegisterWithoutDevice(a) => if a in s.devices then s else SetDevices(s, a, map[])
    case Add(a, d, fits) =>
      if a !in s.devices || d.pubkey in s.index || d.pubkey in s.devices[a] || !fits then s
      else SetDevices(s, a, WithDevice(s.devices[a], d))
    case Update(a, d, fits) =>
      if !Has(s, a, d.pubkey) || !fits then s else SetDevices(s, a, WithDevice(s.devices[a], d))
    case Replace(a, was, d, fits) =>
      if !Has(s, a, was) || (d.pubkey != was && (d.pubkey in s.index || d.pubkey in s.devices[a])) || !fits then s
      else SetDevices(s, a, WithDevice(s.devices[a] - {was}, d))
    case Remove(a, k, fits) => if !Has(s, a, k) || !fits then s else SetDevices(s, a, s.devices[a] - {k})
    case StoreTentative(a, d, code) =>
      s.(registrations := D.Step(s.registrations, D.AddDevice(a, d, code, d.pubkey in s.index), e.now).0)
    case Confirm(a, code, fits) =>
      if a !in s.devices then s
      else
        var (registrations, response) := D.Step(s.registrations, D.Confirm(a, code), e.now);
        (match response
         case DeviceConfirmed(d) =>
           if d.pubkey in s.devices[a] || !fits then s
           else SetDevices(s, a, WithDevice(s.devices[a], d)).(registrations := registrations)
         case _ => s.(registrations := registrations))
    case Register(o) =>
      if o.AddDevice? || o.Confirm? then s else s.(registrations := D.Step(s.registrations, o, e.now).0)
  }

  function After(run: seq<Event>): System {
    if run == [] then START else Apply(After(run[..|run| - 1]), run[|run| - 1])
  }

  // ----- Writing one anchor -----

  /** The device is a passkey that the index leads to another anchor by. */
  predicate UsedElsewhere(s: System, anchor: u64, d: D.Device) {
    d.kind.Passkey? && d.pubkey in s.index && s.index[d.pubkey] != anchor
  }

  lemma SetDevicesWrites(s: System, anchor: u64, ds: Devices)
    ensures Passkeys(SetDevices(s, anchor, ds)) == Write(Passkeys(s), anchor, PasskeysOf(ds), AddNew)
  {
    hide Sync, PasskeysOf;
  }

  lemma HeldElsewhereIffIndexed(w: World, anchor: u64, k: Key)
    requires Exact(w)
    ensures HeldElsewhere(w, anchor, k) <==> k in w.index && w.index[k] != anchor
  {
    if k in w.index && w.index[k] != anchor {
      assert k in KeysOf(w, w.index[k]);
    }
  }

  lemma SettingKeepsExactIff(s: System, anchor: u64, ds: Devices)
    requires Exact(Passkeys(s))
    ensures Exact(Passkeys(SetDevices(s, anchor, ds))) <==>
            forall k :: k in PasskeysOf(ds) ==> !(k in s.index && s.index[k] != anchor)
  {
    hide Exact, PasskeysOf, SetDevices, HeldElsewhere;
    SetDevicesWrites(s, anchor, ds);
    WriteKeepsExactIff(Passkeys(s), anchor, PasskeysOf(ds), AddNew);
    forall k
      ensures HeldElsewhere(Passkeys(s), anchor, k) <==> k in s.index && s.index[k] != anchor
    {
      HeldElsewhereIffIndexed(Passkeys(s), anchor, k);
    }
  }

  lemma OwnIsIndexed(s: System, anchor: u64, k: Key)
    requires Exact(Passkeys(s)) && anchor in s.devices && k in PasskeysOf(s.devices[anchor])
    ensures k in s.index && s.index[k] == anchor
  {
    assert k in KeysOf(Passkeys(s), anchor);
  }

  /** Some of the devices that the anchor has, and one that is new or changed. */
  lemma SettingOneKeepsExactIff(s: System, anchor: u64, kept: Devices, d: D.Device)
    requires Exact(Passkeys(s))
    requires kept == map[] || (anchor in s.devices && PasskeysOf(kept) <= PasskeysOf(s.devices[anchor]))
    ensures Exact(Passkeys(SetDevices(s, anchor, WithDevice(kept, d)))) <==> !UsedElsewhere(s, anchor, d)
  {
    hide Exact, SetDevices, Passkeys;
    var ds := WithDevice(kept, d);
    SettingKeepsExactIff(s, anchor, ds);
    if d.kind.Passkey? {
      assert d.pubkey in PasskeysOf(ds);
    }
    forall k | k in PasskeysOf(ds) && k != d.pubkey
      ensures k in s.index && s.index[k] == anchor
    {
      assert k in PasskeysOf(kept);
      OwnIsIndexed(s, anchor, k);
    }
  }

  lemma SettingFewerKeepsExact(s: System, anchor: u64, ds: Devices)
    requires Exact(Passkeys(s))
    requires ds == map[] || (anchor in s.devices && PasskeysOf(ds) <= PasskeysOf(s.devices[anchor]))
    ensures Exact(Passkeys(SetDevices(s, anchor, ds)))
  {
    hide Exact, SetDevices, Passkeys;
    SettingKeepsExactIff(s, anchor, ds);
    forall k | k in PasskeysOf(ds)
      ensures k in s.index && s.index[k] == anchor
    {
      OwnIsIndexed(s, anchor, k);
    }
  }

  // ----- One step -----

  /** A new anchor comes with a passkey of another, by a way that does not check it. */
  predicate RegistersUsed(s: System, e: Event) {
    match e.step
    case RegisterAnchor(a, d, checked, fits) => a !in s.devices && !checked && fits && UsedElsewhere(s, a, d)
    case _ => false
  }

  /** A device keeps its pubkey, which is not checked then, and becomes a passkey that another anchor has. */
  predicate ConvertsUsed(s: System, e: Event) {
    match e.step
    case Update(a, d, fits) => Has(s, a, d.pubkey) && fits && UsedElsewhere(s, a, d)
    case Replace(a, was, d, fits) => was == d.pubkey && Has(s, a, was) && fits && UsedElsewhere(s, a, d)
    case _ => false
  }

  /** The code confirms a passkey that another anchor has gained since it was stored. */
  predicate ConfirmsUsed(s: System, e: Event) {
    match e.step
    case Confirm(a, code, fits) =>
      (match D.PendingOf(s.registrations, a)
       case Some(Pending(DeviceSubject(d), expected, expiration)) =>
         && code == expected && e.now < expiration
         && a in s.devices && d.pubkey !in s.devices[a] && fits
         && UsedElsewhere(s, a, d)
       case _ => false)
    case _ => false
  }

  predicate TakesUsed(s: System, e: Event) {
    RegistersUsed(s, e) || ConvertsUsed(s, e) || ConfirmsUsed(s, e)
  }

  lemma SamePasskeys(s: System, t: System)
    requires t.devices == s.devices && t.index == s.index
    ensures Passkeys(t) == Passkeys(s)
  {
  }

  lemma ConfirmingKeepsExactIff(s: System, a: u64, code: D.Code, fits: bool, now: u64)
    requires Exact(Passkeys(s))
    ensures Exact(Passkeys(Apply(s, Event(Confirm(a, code, fits), now)))) <==>
            !ConfirmsUsed(s, Event(Confirm(a, code, fits), now))
  {
    hide Exact, SetDevices, WithDevice, Passkeys, PasskeysOf, D.PendingOf, D.ConfirmTentative, UsedElsewhere;
    var e := Event(Confirm(a, code, fits), now);
    match D.Step(s.registrations, D.Confirm(a, code), now).1 {
      case DeviceConfirmed(d) =>
        D.DeviceConfirmedIffAwaited(s.registrations, a, d, code, now);
        if a in s.devices {
          SettingOneKeepsExactIff(s, a, s.devices[a], d);
          var t := SetDevices(s, a, WithDevice(s.devices[a], d));
          SamePasskeys(t, t.(registrations := D.Step(s.registrations, D.Confirm(a, code), e.now).0));
          SamePasskeys(s, s);
        }
      case _ =>
        SamePasskeys(s, Apply(s, e));
        if ConfirmsUsed(s, e) {
          var d := D.PendingOf(s.registrations, a).value.subject.device;
          D.DeviceConfirmedIffAwaited(s.registrations, a, d, code, now);
          assert false;
        }
    }
  }

  /** From an exact index, a step leads to an exact one exactly if it does not give an anchor a passkey of
      another in one of the three ways that are not checked. */
  lemma StepKeepsExactIff(s: System, e: Event)
    requires Exact(Passkeys(s))
    ensures Exact(Passkeys(Apply(s, e))) <==> !TakesUsed(s, e)
  {
    hide Exact, SetDevices, WithDevice, D.Step, Passkeys;
    match e.step
    case RegisterAnchor(a, d, _, _) => SettingOneKeepsExactIff(s, a, map[], d);
    case RegisterWithoutDevice(a) => SettingFewerKeepsExact(s, a, map[]);
    case Add(a, d, _) =>
      if a in s.devices {
        SettingOneKeepsExactIff(s, a, s.devices[a], d);
      }
    case Update(a, d, _) =>
      if a in s.devices {
        SettingOneKeepsExactIff(s, a, s.devices[a], d);
      }
    case Replace(a, was, d, _) =>
      if a in s.devices {
        SettingOneKeepsExactIff(s, a, s.devices[a] - {was}, d);
      }
    case Remove(a, k, _) =>
      if a in s.devices {
        SettingFewerKeepsExact(s, a, s.devices[a] - {k});
      }
    case Confirm(a, code, fits) => ConfirmingKeepsExactIff(s, a, code, fits, e.now);
    case StoreTentative(_, _, _) => SamePasskeys(s, Apply(s, e));
    case Register(_) => SamePasskeys(s, Apply(s, e));
  }

  // ----- Which devices an anchor has -----

  predicate HasDevice(s: System, anchor: u64, d: D.Device) {
    Has(s, anchor, d.pubkey) && s.devices[anchor][d.pubkey] == d.kind
  }

  /** The step gives the anchor the device: with a pubkey that nobody is indexed by and the anchor does not have, in
      place of one it has under the same pubkey, or without a look at the index. */
  predicate Gives(s: System, e: Event, b: u64, d: D.Device) {
    match e.step
    case RegisterAnchor(a, given, checked, fits) =>
      a == b && given == d && fits && b !in s.devices && !(checked && d.pubkey in s.index)
    case Add(a, given, fits) =>
      a == b && given == d && fits && b in s.devices && !Has(s, b, d.pubkey) && d.pubkey !in s.index
    case Update(a, given, fits) => a == b && given == d && fits && Has(s, b, d.pubkey)
    case Replace(a, was, given, fits) =>
      && a == b && given == d && fits && Has(s, b, was)
      && (was == d.pubkey || (!Has(s, b, d.pubkey) && d.pubkey !in s.index))
    case Confirm(a, code, fits) =>
      a == b && fits && b in s.devices && !Has(s, b, d.pubkey) && D.Awaits(s.registrations, b, d, code, e.now)
    case _ => false
  }

  /** The step takes what the anchor has under a pubkey, to remove it or to put something else in its place. */
  predicate Takes(s: System, e: Event, b: u64, k: Key) {
    match e.step
    case Update(a, given, fits) => a == b && given.pubkey == k && fits
    case Remove(a, removed, fits) => a == b && removed == k && fits
    case Replace(a, was, given, fits) =>
      a == b && was == k && fits && (given.pubkey == k || (!Has(s, b, given.pubkey) && given.pubkey !in s.index))
    case _ => false
  }

  /** Exactly these devices an anchor has after a step: those given, and those it had that were not taken. */
  lemma DevicesAfter(s: System, e: Event, b: u64, d: D.Device)
    ensures HasDevice(Apply(s, e), b, d) <==> Gives(s, e, b, d) || (HasDevice(s, b, d) && !Takes(s, e, b, d.pubkey))
  {
    hide D.Step, D.PendingOf, Sync, Passkeys, PasskeysOf;
    match e.step
    case Confirm(a, code, _) =>
      match D.Step(s.registrations, D.Confirm(a, code), e.now).1 {
        case DeviceConfirmed(given) =>
          ConfirmedIffAwaited(s, a, code, e.now, given);
          ConfirmedIffAwaited(s, a, code, e.now, d);
        case _ => ConfirmedIffAwaited(s, a, code, e.now, d);
      }
    case _ =>
  }

  lemma ConfirmedIffAwaited(s: System, a: u64, code: D.Code, now: u64, d: D.Device)
    ensures D.Step(s.registrations, D.Confirm(a, code), now).1 == D.DeviceConfirmed(d) <==>
            D.Awaits(s.registrations, a, d, code, now)
  {
    D.DeviceConfirmedIffAwaited(s.registrations, a, d, code, now);
  }

  // ----- Runs -----

  /** The operation on the registrations that a step comes to; a confirmation that does not end with a device added to
      the anchor traps, and takes no effect on them either. */
  function OperationOf(s: System, e: Event): Option<D.Operation> {
    match e.step
    case StoreTentative(a, d, code) => Some(D.AddDevice(a, d, code, d.pubkey in s.index))
    case Confirm(a, code, fits) =>
      (match D.PendingOf(s.registrations, a)
       case Some(Pending(DeviceSubject(d), expected, expiration)) =>
         if a !in s.devices || (code == expected && e.now < expiration && !(fits && d.pubkey !in s.devices[a])) then None
         else Some(D.Confirm(a, code))
       case _ => if a in s.devices then Some(D.Confirm(a, code)) else None)
    case Register(o) => if o.AddDevice? || o.Confirm? then None else Some(o)
    case _ => None
  }

  function Projection(run: seq<Event>): seq<D.Event> {
    if run == [] then []
    else
      var init, last := run[..|run| - 1], run[|run| - 1];
      Projection(init) +
      match OperationOf(After(init), last)
      case Some(o) => [D.Event(o, last.now)]
      case None => []
  }

  lemma RegistrationsFollow(s: System, e: Event)
    ensures Apply(s, e).registrations == match OperationOf(s, e)
                                         case Some(o) => D.Step(s.registrations, o, e.now).0
                                         case None => s.registrations
  {
    hide D.EnterMode, D.AddTentative, D.ConfirmTentative, D.ReadConfirmedSession, D.PendingOf, D.Prune, D.Drop,
         Sync, Passkeys, PasskeysOf;
    match e.step
    case Confirm(a, code, _) =>
      match D.Step(s.registrations, D.Confirm(a, code), e.now).1 {
        case DeviceConfirmed(d) => D.DeviceConfirmedIffAwaited(s.registrations, a, d, code, e.now);
        case _ =>
          match D.PendingOf(s.registrations, a)
          case Some(Pending(DeviceSubject(d), _, _)) =>
            D.DeviceConfirmedIffAwaited(s.registrations, a, d, code, e.now);
          case _ =>
      }
    case _ =>
  }

  /** In every run the registrations go through a run of their own, so that all that holds over those holds here. */
  lemma {:induction false} RunProjects(run: seq<Event>)
    ensures After(run).registrations == D.After(Projection(run))
  {
    hide Apply, D.Step, OperationOf;
    if run == [] {
      D.NothingHappened();
    } else {
      var init, last := run[..|run| - 1], run[|run| - 1];
      RunProjects(init);
      RegistrationsFollow(After(init), last);
      match OperationOf(After(init), last)
      case Some(o) => D.AfterOneMore(Projection(init), D.Event(o, last.now));
      case None => assert Projection(init) + [] == Projection(init);
    }
  }

  ghost predicate AlwaysExact(run: seq<Event>) {
    Exact(Passkeys(After(run))) && (run != [] ==> AlwaysExact(run[..|run| - 1]))
  }

  ghost predicate NeverTakesUsed(run: seq<Event>) {
    run == [] || (NeverTakesUsed(run[..|run| - 1]) && !TakesUsed(After(run[..|run| - 1]), run[|run| - 1]))
  }

  /** Along a run the pubkey index is the exact inverse of the anchors' passkeys all the time, so that no two
      anchors share a passkey, exactly if no step gives an anchor a passkey of another unchecked. */
  lemma {:induction false} RunIsExactIff(run: seq<Event>)
    ensures AlwaysExact(run) <==> NeverTakesUsed(run)
  {
    hide Exact, Apply, TakesUsed, Passkeys;
    if run == [] {
      StartIsExact();
    } else {
      RunIsExactIff(run[..|run| - 1]);
      if AlwaysExact(run[..|run| - 1]) {
        StepKeepsExactIff(After(run[..|run| - 1]), run[|run| - 1]);
      }
    }
  }

  lemma StartIsExact()
    ensures Exact(Passkeys(After([])))
  {
  }

  /** The step would give the anchor a passkey it does not have, and does not check its pubkey. */
  ghost predicate SkipsCheck(s: System, e: Event) {
    match e.step
    case RegisterAnchor(_, d, checked, _) => d.kind.Passkey? && !checked
    case Update(a, d, _) => d.kind.Passkey? && Has(s, a, d.pubkey) && s.devices[a][d.pubkey].RecoveryKey?
    case Replace(a, was, d, _) =>
      d.kind.Passkey? && was == d.pubkey && Has(s, a, was) && s.devices[a][was].RecoveryKey?
    case Confirm(a, code, _) => exists d: D.Device :: d.kind.Passkey? && D.Awaits(s.registrations, a, d, code, e.now)
    case _ => false
  }

  ghost predicate NeverSkipsCheck(run: seq<Event>) {
    run == [] || (NeverSkipsCheck(run[..|run| - 1]) && !SkipsCheck(After(run[..|run| - 1]), run[|run| - 1]))
  }

  lemma ConfirmingSkipsCheck(s: System, e: Event)
    ensures ConfirmsUsed(s, e) ==> SkipsCheck(s, e)
  {
    if ConfirmsUsed(s, e) {
      var d := D.PendingOf(s.registrations, e.step.anchor).value.subject.device;
      assert D.Awaits(s.registrations, e.step.anchor, d, e.step.code, e.now);
    }
  }

  lemma CheckedStepTakesNothing(s: System, e: Event)
    requires Exact(Passkeys(s)) && !SkipsCheck(s, e)
    ensures !TakesUsed(s, e)
  {
    hide Exact, Passkeys, ConfirmsUsed;
    ConfirmingSkipsCheck(s, e);
    match e.step
    case Update(a, d, _) =>
      if Has(s, a, d.pubkey) && s.devices[a][d.pubkey].Passkey? {
        OwnIsIndexed(s, a, d.pubkey);
      }
    case Replace(a, was, d, _) =>
      if Has(s, a, was) && s.devices[a][was].Passkey? {
        OwnIsIndexed(s, a, was);
      }
    case _ =>
  }

  /** Where every passkey is checked when it is added, that is enough, over every run. */
  lemma {:induction false} ChecksKeepPasskeysUnique(run: seq<Event>)
    requires NeverSkipsCheck(run)
    ensures Exact(Passkeys(After(run))) && Disjoint(Passkeys(After(run)))
  {
    hide Exact, Apply, Disjoint, SkipsCheck, TakesUsed, Passkeys;
    if run == [] {
      StartIsExact();
    } else {
      var init := run[..|run| - 1];
      ChecksKeepPasskeysUnique(init);
      CheckedStepTakesNothing(After(init), run[|run| - 1]);
      StepKeepsExactIff(After(init), run[|run| - 1]);
    }
    ExactIffCompleteAndDisjoint(Passkeys(After(run)));
  }

  // ----- Each unchecked way leads to a shared passkey -----

  /** Both anchors have the passkey and the index leads to the first. */
  predicate Share(s: System, a: u64, b: u64, k: Key) {
    && a != b && Has(s, a, k) && Has(s, b, k) && s.devices[a][k].Passkey? && s.devices[b][k].Passkey?
    && k in s.index && s.index[k] == a
  }

  /** Then the index is not exact, and once the first anchor removes the passkey, the other one, which is the
      only one left, cannot be found by it. */
  lemma SharedIsLost(s: System, a: u64, b: u64, k: Key, now: u64)
    requires Share(s, a, b, k)
    ensures !Exact(Passkeys(s))
    ensures var t := Apply(s, Event(Remove(a, k, true), now)); Has(t, b, k) && !Has(t, a, k) && k !in t.index
  {
    hide Write, Sync;
    assert k in KeysOf(Passkeys(s), a) && k in KeysOf(Passkeys(s), b);
    var ds := s.devices[a] - {k};
    SetDevicesWrites(s, a, ds);
    Indexed(Passkeys(s), a, PasskeysOf(ds), AddNew, k);
  }

  lemma AfterOneMore(run: seq<Event>, e: Event)
    ensures After(run + [e]) == Apply(After(run), e)
  {
    assert (run + [e])[..|run|] == run;
  }

  lemma AfterNothing()
    ensures After([]) == START
  {
  }

  /** An anchor without passkeys gains one. */
  lemma FirstPasskey(s: System, a: u64, k: Key)
    requires a in s.devices ==> PasskeysOf(s.devices[a]) == {}
    ensures var t := SetDevices(s, a, map[k := D.Passkey]);
            && t.registrations == s.registrations && t.devices == s.devices[a := map[k := D.Passkey]] && k in t.index
            && t.index[k] == if k in s.index then s.index[k] else a
  {
    hide Write, Sync;
    var ds := map[k := D.Passkey];
    SetDevicesWrites(s, a, ds);
    assert KeysOf(Passkeys(s), a) == {};
    Indexed(Passkeys(s), a, PasskeysOf(ds), AddNew, k);
  }

  lemma WithoutPasskey(s: System, a: u64, ds: Devices)
    requires a !in s.devices && PasskeysOf(ds) == {}
    ensures SetDevices(s, a, ds) == s.(devices := s.devices[a := ds])
  {
    assert KeysOf(Passkeys(s), a) == {};
    assert Sync(s.index, a, {}, {}, AddNew) == s.index;
  }

  /** Two anchors are registered with one pubkey. */
  lemma BothRegistered(a: u64, b: u64, k: Key, now: u64)
    requires a != b
    ensures var d := D.Device(k, D.Passkey);
            var run := [Event(RegisterAnchor(a, d, false, true), now), Event(RegisterAnchor(b, d, false, true), now)];
            Share(After(run), a, b, k)
  {
    hide After, SetDevices;
    var d := D.Device(k, D.Passkey);
    var first, second := Event(RegisterAnchor(a, d, false, true), now), Event(RegisterAnchor(b, d, false, true), now);
    AfterNothing();
    AfterOneMore([], first);
    AfterOneMore([first], second);
    assert [] + [first] == [first] && [first] + [second] == [first, second];
    FirstPasskey(START, a, k);
    FirstPasskey(SetDevices(START, a, map[k := D.Passkey]), b, k);
  }

  /** An anchor has a recovery key, another one is registered with its pubkey as a passkey and is checked, and
      the first then makes the key a passkey. */
  lemma OneConverted(a: u64, b: u64, k: Key, now: u64)
    requires a != b
    ensures var recovery, passkey := D.Device(k, D.RecoveryKey), D.Device(k, D.Passkey);
            var run := [Event(RegisterAnchor(a, recovery, true, true), now),
                        Event(RegisterAnchor(b, passkey, true, true), now),
                        Event(Update(a, passkey, true), now)];
            Share(After(run), b, a, k)
  {
    hide After, SetDevices;
    var recovery, passkey := D.Device(k, D.RecoveryKey), D.Device(k, D.Passkey);
    var first := Event(RegisterAnchor(a, recovery, true, true), now);
    var second := Event(RegisterAnchor(b, passkey, true, true), now);
    var third := Event(Update(a, passkey, true), now);
    AfterNothing();
    AfterOneMore([], first);
    AfterOneMore([first], second);
    AfterOneMore([first, second], third);
    assert [] + [first] == [first] && [first] + [second] == [first, second];
    assert [first, second] + [third] == [first, second, third];
    WithoutPasskey(START, a, map[k := D.RecoveryKey]);
    var s := START.(devices := map[a := map[k := D.RecoveryKey]]);
    FirstPasskey(s, b, k);
    FirstPasskey(SetDevices(s, b, map[k := D.Passkey]), a, k);
    assert map[k := D.RecoveryKey][k := D.Passkey] == map[k := D.Passkey];
  }

  /** Registrations that are not due yet, so that no operation prunes any. */
  predicate Live(r: D.State, now: u64) {
    forall a :: a in r.registrations ==> now < r.registrations[a].expiration
  }

  lemma EnterOne(r: D.State, a: u64, now: u64)
    requires Live(r, now) && a !in r.registrations && |r.registrations| < D.MAX_ANCHORS_IN_REGISTRATION_MODE
    requires now + D.REGISTRATION_MODE_DURATION_NS < TWO_64
    ensures D.Step(r, D.Enter(a, None), now).0
         == r.(registrations := r.registrations[a := D.Registration(now + D.REGISTRATION_MODE_DURATION_NS,
             D.ModeActive, None)])
  {
    hide D.Prune;
    D.NothingToPrune(r, now);
  }

  lemma StoreOne(r: D.State, a: u64, d: D.Device, code: D.Code, now: u64)
    requires Live(r, now) && a in r.registrations && r.registrations[a].state.ModeActive?
    ensures D.Step(r, D.AddDevice(a, d, code, false), now).0
         == r.(registrations := r.registrations[a := r.registrations[a].(state := D.DeviceTentativelyAdded(d, 0, code))])
  {
    hide D.Prune;
    D.NothingToPrune(r, now);
  }

  lemma ConfirmOne(r: D.State, a: u64, d: D.Device, code: D.Code, now: u64)
    requires Live(r, now) && a in r.registrations && r.registrations[a].id == None
    requires r.registrations[a].state == D.DeviceTentativelyAdded(d, 0, code)
    ensures D.Step(r, D.Confirm(a, code), now) == (r.(registrations := r.registrations - {a}), D.DeviceConfirmed(d))
  {
    hide D.Prune;
    D.NothingToPrune(r, now);
  }

  /** Two anchors are registered and enter registration mode. */
  function EnterBoth(a: u64, b: u64, now: u64): seq<Event> {
    [Event(RegisterWithoutDevice(a), now), Event(RegisterWithoutDevice(b), now)] +
    [Event(Register(D.Enter(a, None)), now)] + [Event(Register(D.Enter(b, None)), now)]
  }

  /** Both store a device before either of them confirms it. */
  function StoreBoth(a: u64, b: u64, d: D.Device, code: D.Code, now: u64): seq<Event> {
    EnterBoth(a, b, now) + [Event(StoreTentative(a, d, code), now)] + [Event(StoreTentative(b, d, code), now)]
  }

  function Waiting(a: u64, b: u64, ra: D.RegistrationState, rb: D.RegistrationState, now: u64): System {
    var expiration := Add64(now, D.REGISTRATION_MODE_DURATION_NS);
    System(D.State(map[a := D.Registration(expiration, ra, None), b := D.Registration(expiration, rb, None)], map[]),
           map[a := map[], b := map[]], map[])
  }

  lemma BothWithoutDevice(a: u64, b: u64, now: u64)
    requires a != b
    ensures After([Event(RegisterWithoutDevice(a), now), Event(RegisterWithoutDevice(b), now)])
         == START.(devices := map[a := map[], b := map[]])
  {
    hide After, SetDevices;
    var first, second := Event(RegisterWithoutDevice(a), now), Event(RegisterWithoutDevice(b), now);
    AfterNothing();
    AfterOneMore([], first);
    AfterOneMore([first], second);
    assert [] + [first] == [first] && [first] + [second] == [first, second];
    WithoutPasskey(START, a, map[]);
    WithoutPasskey(START.(devices := map[a := map[]]), b, map[]);
  }

  lemma BothEntered(a: u64, b: u64, now: u64)
    requires a != b && now + D.REGISTRATION_MODE_DURATION_NS < TWO_64
    ensures After(EnterBoth(a, b, now)) == Waiting(a, b, D.ModeActive, D.ModeActive, now)
  {
    hide D.Step, After, SetDevices;
    var registered := [Event(RegisterWithoutDevice(a), now), Event(RegisterWithoutDevice(b), now)];
    var first, second := Event(Register(D.Enter(a, None)), now), Event(Register(D.Enter(b, None)), now);
    BothWithoutDevice(a, b, now);
    AfterOneMore(registered, first);
    AfterOneMore(registered + [first], second);
    var waiting := D.Registration(now + D.REGISTRATION_MODE_DURATION_NS, D.ModeActive, None);
    EnterOne(D.State(map[], map[]), a, now);
    EnterOne(D.State(map[a := waiting], map[]), b, now);
    assert map[][a := waiting] == map[a := waiting] && map[a := waiting][b := waiting] == map[a := waiting, b := waiting];
  }

  lemma BothStored(a: u64, b: u64, d: D.Device, code: D.Code, now: u64)
    requires a != b && now + D.REGISTRATION_MODE_DURATION_NS < TWO_64
    ensures var stored := D.DeviceTentativelyAdded(d, 0, code);
            After(StoreBoth(a, b, d, code, now)) == Waiting(a, b, stored, stored, now)
  {
    hide D.Step, After, EnterBoth;
    var first, second := Event(StoreTentative(a, d, code), now), Event(StoreTentative(b, d, code), now);
    var stored := D.DeviceTentativelyAdded(d, 0, code);
    BothEntered(a, b, now);
    AfterOneMore(EnterBoth(a, b, now), first);
    AfterOneMore(EnterBoth(a, b, now) + [first], second);
    var s, t := Waiting(a, b, D.ModeActive, D.ModeActive, now), Waiting(a, b, stored, D.ModeActive, now);
    StoreOne(s.registrations, a, d, code, now);
    StoreOne(t.registrations, b, d, code, now);
    var expiration := Add64(now, D.REGISTRATION_MODE_DURATION_NS);
    OneAfterTheOther(a, b, D.Registration(expiration, D.ModeActive, None), D.Registration(expiration, stored, None));
  }

  lemma OneAfterTheOther<T>(a: u64, b: u64, x: T, y: T)
    requires a != b
    ensures map[a := x, b := x][a := y] == map[a := y, b := x]
    ensures map[a := y, b := x][b := y] == map[a := y, b := y]
  {
  }

  /** Both pass the check when they store the passkey, and then both are confirmed. */
  lemma BothConfirmed(a: u64, b: u64, k: Key, code: D.Code, now: u64)
    requires a != b && now + D.REGISTRATION_MODE_DURATION_NS < TWO_64
    ensures var stored := StoreBoth(a, b, D.Device(k, D.Passkey), code, now);
            Share(After(stored + [Event(Confirm(a, code, true), now)] + [Event(Confirm(b, code, true), now)]), a, b, k)
  {
    hide D.Step, After, StoreBoth, SetDevices;
    var d := D.Device(k, D.Passkey);
    var stored := StoreBoth(a, b, d, code, now);
    var state := D.DeviceTentativelyAdded(d, 0, code);
    BothStored(a, b, d, code, now);
    AfterOneMore(stored, Event(Confirm(a, code, true), now));
    AfterOneMore(stored + [Event(Confirm(a, code, true), now)], Event(Confirm(b, code, true), now));
    var s := Waiting(a, b, state, state, now);
    ConfirmOne(s.registrations, a, d, code, now);
    ConfirmOne(s.registrations.(registrations := s.registrations.registrations - {a}), b, d, code, now);
    FirstPasskey(s, a, k);
    var registrations := s.registrations.(registrations := s.registrations.registrations - {a});
    FirstPasskey(SetDevices(s, a, map[k := D.Passkey]).(registrations := registrations), b, k);
  }
}
