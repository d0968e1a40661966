/** The registration workflow: registering for an event, cancelling,
    the organizer's approve/reject, the participant's virtual card, check-in
    with its per-registration cap, and the active-participant filter. Each
    operation maps a store and its arguments to a new store and the caller's
    reply; every refusal is decided before anything is written. */
module Registrations {
  import opened Enums
  import opened Outcomes
  import opened Schema

  /** The check-in cap `allowedCheckins || 1`: a zero allowance counts as one. */
  function Cap(e: Event): int {
    if e.allowedCheckins == 0 then 1 else e.allowedCheckins
  }

  /** The most check-ins a registration of `e` can accumulate: the cap, or none
      when the cap is negative (every check-in then conflicts). */
  function Bound(e: Event): nat {
    if Cap(e) < 0 then 0 else Cap(e)
  }

  /** Statuses that admit a virtual card or a check-in. */
  predicate Eligible(st: RegistrationStatus) {
    st == Approved || st == Confirmed
  }

  /** Statuses listed as active participants (and counted as attending by the
      friend-request gate). */
  predicate Attending(st: RegistrationStatus) {
    st == Approved || st == CheckedIn || st == Confirmed
  }

  /** Both registration window bounds are inclusive and either may be unset. */
  predicate WindowOpen(e: Event, now: int) {
    && (e.registrationStart.None? || now >= e.registrationStart.value)
    && (e.registrationEnd.None? || now <= e.registrationEnd.value)
  }

  /** The keys of the registrations `userId` holds for `eventId`. */
  function Matching(regs: map<Id, Registration>, eventId: Id, userId: Id): set<Id> {
    set k | k in regs && regs[k].eventId == eventId && regs[k].userId == userId
  }

  lemma NoMatchNoPair(regs: map<Id, Registration>, eventId: Id, userId: Id)
    requires Matching(regs, eventId, userId) == {}
    ensures forall k :: k in regs ==> regs[k].eventId != eventId || regs[k].userId != userId
  {
    assert forall k :: k in regs ==>
      (k in Matching(regs, eventId, userId) <==> regs[k].eventId == eventId && regs[k].userId == userId);
  }

  /** At most one registration per (event, user). */
  predicate OnePerPair(regs: map<Id, Registration>) {
    forall a, b ::
      a in regs && b in regs && regs[a].eventId == regs[b].eventId && regs[a].userId == regs[b].userId
      ==> a == b
  }

  /** The result of a successful `register`. */
  datatype Registered = Registered(reactivated: bool, id: Id, registration: Registration)

  /** `register`: the event must exist and the registration window must hold at
      `now`. A canceled registration of the same user for the same event is
      reactivated in place; any other existing one is a conflict; otherwise a
      new row with key `newId` is inserted. The new status is pending exactly
      when the event requires approval, approved otherwise. The event's own
      status is not consulted. */
  function Register(s: Store, userId: Id, eventId: Id, now: int, newId: Id): (r: Reply<Registered>)
    requires newId !in s.regs
    ensures r.out.Err? ==> r.store == s
    ensures eventId !in s.events ==> r.out == Err(NotFound(EventRow))
    ensures eventId in s.events && s.events[eventId].registrationStart.Some?
            && now < s.events[eventId].registrationStart.value
            ==> r.out == Err(BadRequest(RegistrationNotStarted))
    ensures eventId in s.events && (s.events[eventId].registrationStart.None? || now >= s.events[eventId].registrationStart.value)
            && s.events[eventId].registrationEnd.Some? && now > s.events[eventId].registrationEnd.value
            ==> r.out == Err(BadRequest(RegistrationClosed))
    ensures r.out.Ok? ==> eventId in s.events && WindowOpen(s.events[eventId], now)
    ensures r.out.Ok? ==>
      var reg := r.out.value.registration;
      && reg.eventId == eventId && reg.userId == userId && reg.registrationDate == now
      && (reg.status == Pending <==> s.events[eventId].requiresApproval)
      && (reg.status == Pending || reg.status == Approved)
      && r.store == s.(regs := s.regs[r.out.value.id := reg])
    ensures r.out.Ok? && r.out.value.reactivated ==>
      var k := r.out.value.id;
      && k in s.regs && s.regs[k].status == RegCanceled
      && r.out.value.registration.checkinsCount == s.regs[k].checkinsCount
      && s.regs[k].eventId == eventId && s.regs[k].userId == userId
    ensures r.out.Ok? && !r.out.value.reactivated ==>
      && r.out.value.id == newId && r.out.value.registration.checkinsCount == 0
      && Matching(s.regs, eventId, userId) == {}
    ensures OnePerPair(s.regs) && eventId in s.events && WindowOpen(s.events[eventId], now) ==>
      (r.out.Err? <==> exists k :: k in s.regs && s.regs[k].eventId == eventId && s.regs[k].userId == userId
                                    && s.regs[k].status != RegCanceled)
    ensures r.out.Err? && eventId in s.events && WindowOpen(s.events[eventId], now) ==>
      r.out == Err(Conflict(AlreadyRegistered))
    ensures OnePerPair(s.regs) ==> OnePerPair(r.store.regs)
  {
    if eventId !in s.events then Reply(s, Err(NotFound(EventRow)))
    else
      var e := s.events[eventId];
      if e.registrationStart.Some? && now < e.registrationStart.value then
        Reply(s, Err(BadRequest(RegistrationNotStarted)))
      else if e.registrationEnd.Some? && now > e.registrationEnd.value then
        Reply(s, Err(BadRequest(RegistrationClosed)))
      else
        var status := if e.requiresApproval then Pending else Approved;
        var matches := Matching(s.regs, eventId, userId);
        if matches != {} then
          var k := FirstKey(matches);
          var existing := s.regs[k];
          if existing.status == RegCanceled then
            var reg := existing.(status := status, registrationDate := now);
            assert reg.eventId == existing.eventId && reg.userId == existing.userId;
            Reply(s.(regs := s.regs[k := reg]), Ok(Registered(true, k, reg)))
          else
            Reply(s, Err(Conflict(AlreadyRegistered)))
        else
          NoMatchNoPair(s.regs, eventId, userId);
          var reg := Registration(eventId, userId, status, now, 0);
          Reply(s.(regs := s.regs[newId := reg]), Ok(Registered(false, newId, reg)))
  }

  /** `cancelRegistration`: a registration the caller does not hold is reported
      as not found (the lookup filters on the owner). A checked-in registration
      cannot be canceled; any other one, canceled ones included, ends canceled
      with nothing else changed. */
  function CancelRegistration(s: Store, userId: Id, regId: Id): (r: Reply<Registration>)
    ensures r.out.Err? ==> r.store == s
    ensures regId !in s.regs || s.regs[regId].userId != userId <==> r.out == Err(NotFound(RegistrationRow))
    ensures regId in s.regs && s.regs[regId].userId == userId && s.regs[regId].status == CheckedIn
            <==> r.out == Err(BadRequest(CannotCancelAfterCheckin))
    ensures r.out.Ok? <==> regId in s.regs && s.regs[regId].userId == userId && s.regs[regId].status != CheckedIn
    ensures r.out.Ok? ==>
      && r.out.value == s.regs[regId].(status := RegCanceled)
      && r.store == s.(regs := s.regs[regId := r.out.value])
  {
    if regId !in s.regs || s.regs[regId].userId != userId then
      Reply(s, Err(NotFound(RegistrationRow)))
    else if s.regs[regId].status == CheckedIn then
      Reply(s, Err(BadRequest(CannotCancelAfterCheckin)))
    else
      var reg := s.regs[regId].(status := RegCanceled);
      Reply(s.(regs := s.regs[regId := reg]), Ok(reg))
  }

  /** `updateStatus`: only the organizer of the registration's event may set its
      status, and any of the admitted values is written whatever the current
      status is (a checked-in registration can be approved again). */
  function UpdateStatus(s: Store, userId: Id, regId: Id, status: RegistrationStatus): (r: Reply<Registration>)
    requires status == Approved || status == Rejected || status == Pending
    requires regId in s.regs ==> s.regs[regId].eventId in s.events
    ensures r.out.Err? ==> r.store == s
    ensures regId !in s.regs <==> r.out == Err(NotFound(RegistrationRow))
    ensures regId in s.regs && s.events[s.regs[regId].eventId].organizerId != userId
            <==> r.out == Err(Forbidden(NotOrganizer))
    ensures r.out.Ok? <==> regId in s.regs && s.events[s.regs[regId].eventId].organizerId == userId
    ensures r.out.Ok? ==>
      && r.out.value == s.regs[regId].(status := status)
      && r.store == s.(regs := s.regs[regId := r.out.value])
  {
    if regId !in s.regs then Reply(s, Err(NotFound(RegistrationRow)))
    else
      var reg := s.regs[regId];
      if s.events[reg.eventId].organizerId != userId then Reply(s, Err(Forbidden(NotOrganizer)))
      else
        var updated := reg.(status := status);
        Reply(s.(regs := s.regs[regId := updated]), Ok(updated))
  }

  /** What the virtual card shows. */
  datatype Card = Card(
    registrationId: Id,
    participantName: string,
    eventName: string,
    eventDate: int,
    local: string,
    status: RegistrationStatus,
    qrCodeData: Id)

  /** An unset or empty address reads as "Online". */
  function Venue(address: Option<string>): (v: string)
    ensures address.Some? && address.value != "" ==> v == address.value
    ensures address.None? || address.value == "" ==> v == "Online"
  {
    if address.Some? && address.value != "" then address.value else "Online"
  }

  /** `getTvCard`: only the holder of an approved or confirmed registration
      gets a card; the QR code carries the registration id. Nothing is written. */
  function GetTvCard(s: Store, userId: Id, regId: Id): (r: Result<Card>)
    requires regId in s.regs && s.regs[regId].userId == userId ==>
               s.regs[regId].eventId in s.events && userId in s.users
    ensures regId !in s.regs || s.regs[regId].userId != userId <==> r == Err(NotFound(RegistrationRow))
    ensures regId in s.regs && s.regs[regId].userId == userId && !Eligible(s.regs[regId].status)
            <==> r == Err(BadRequest(CardRequiresApproval))
    ensures r.Ok? <==> regId in s.regs && s.regs[regId].userId == userId && Eligible(s.regs[regId].status)
    ensures r.Ok? ==>
      var reg := s.regs[regId];
      var e := s.events[reg.eventId];
      && Eligible(reg.status) && reg.userId == userId
      && r.value.registrationId == regId && r.value.qrCodeData == regId
      && r.value.status == reg.status
      && r.value.participantName == s.users[userId].name
      && r.value.eventName == e.title && r.value.eventDate == e.startDate
      && r.value.local == Venue(e.localAddress)
  {
    if regId !in s.regs || s.regs[regId].userId != userId then Err(NotFound(RegistrationRow))
    else
      var reg := s.regs[regId];
      if !Eligible(reg.status) then Err(BadRequest(CardRequiresApproval))
      else
        var e := s.events[reg.eventId];
        Ok(Card(regId, s.users[userId].name, e.title, e.startDate, Venue(e.localAddress), reg.status, regId))
  }

  /** `checkIn`: the guards run in order (registration exists, caller organizes
      its event, status is approved or confirmed, count is below the cap) and
      none writes. A successful check-in appends one audit record, increments
      the counter and marks the registration checked in; it returns the
      participant. The source reads the counter before its transaction opens
      and writes back the stale value plus one, so two concurrent check-ins can
      both pass the cap check; the model treats a check-in as one atomic step
      and says nothing about that race. */
  function CheckIn(s: Store, organizerId: Id, regId: Id, via: CheckinMethod, now: int): (r: Reply<Id>)
    requires regId in s.regs ==> s.regs[regId].eventId in s.events
    ensures r.out.Err? ==> r.store == s
    ensures regId !in s.regs <==> r.out == Err(NotFound(RegistrationRow))
    ensures regId in s.regs && s.events[s.regs[regId].eventId].organizerId != organizerId
            <==> r.out == Err(Forbidden(NotOrganizer))
    ensures regId in s.regs ==>
              (s.events[s.regs[regId].eventId].organizerId == organizerId && !Eligible(s.regs[regId].status)
               <==> r.out == Err(BadRequest(NotApproved(s.regs[regId].status))))
    ensures regId in s.regs && s.events[s.regs[regId].eventId].organizerId == organizerId
            && Eligible(s.regs[regId].status)
            && s.regs[regId].checkinsCount >= Cap(s.events[s.regs[regId].eventId])
            <==> r.out == Err(Conflict(AlreadyCheckedIn))
    ensures r.out.Ok? <==>
      && regId in s.regs && s.events[s.regs[regId].eventId].organizerId == organizerId
      && Eligible(s.regs[regId].status)
      && s.regs[regId].checkinsCount < Cap(s.events[s.regs[regId].eventId])
    ensures r.out.Ok? ==>
      var reg := s.regs[regId];
      && r.out.value == reg.userId
      && reg.checkinsCount < Cap(s.events[reg.eventId])
      && r.store.checkins == s.checkins + [Checkin(regId, via, now)]
      && r.store.regs == s.regs[regId := reg.(checkinsCount := reg.checkinsCount + 1, status := CheckedIn)]
      && r.store == s.(regs := r.store.regs, checkins := r.store.checkins)
  {
    if regId !in s.regs then Reply(s, Err(NotFound(RegistrationRow)))
    else
      var reg := s.regs[regId];
      var e := s.events[reg.eventId];
      if e.organizerId != organizerId then Reply(s, Err(Forbidden(NotOrganizer)))
      else if !Eligible(reg.status) then Reply(s, Err(BadRequest(NotApproved(reg.status))))
      else if reg.checkinsCount >= Cap(e) then Reply(s, Err(Conflict(AlreadyCheckedIn)))
      else
        var updated := reg.(checkinsCount := reg.checkinsCount + 1, status := CheckedIn);
        Reply(s.(regs := s.regs[regId := updated], checkins := s.checkins + [Checkin(regId, via, now)]), Ok(reg.userId))
  }

  /** The card and the check-in apply the same status gate: the holder gets a
      card exactly when the organizer's check-in passes every guard but the
      cap. A card holder is a listed participant, and once checked in the
      holder gets no card until the registration is approved again. */
  lemma CardMatchesCheckIn(s: Store, regId: Id, via: CheckinMethod, now: int)
    requires regId in s.regs
    requires s.regs[regId].eventId in s.events && s.regs[regId].userId in s.users
    ensures
      var reg := s.regs[regId];
      var c := CheckIn(s, s.events[reg.eventId].organizerId, regId, via, now);
      && (GetTvCard(s, reg.userId, regId).Ok? <==> c.out.Ok? || c.out == Err(Conflict(AlreadyCheckedIn)))
      && (GetTvCard(s, reg.userId, regId).Ok? ==> regId in FindParticipantsByEvent(s, reg.eventId))
      && (c.out.Ok? ==> GetTvCard(c.store, reg.userId, regId) == Err(BadRequest(CardRequiresApproval)))
  {
  }

  /** `findParticipantsByEvent`: the event's registrations whose status is
      approved, checked in or confirmed. */
  function FindParticipantsByEvent(s: Store, eventId: Id): (r: map<Id, Registration>)
    ensures forall k :: k in r <==> k in s.regs && s.regs[k].eventId == eventId && Attending(s.regs[k].status)
    ensures forall k :: k in r ==> r[k] == s.regs[k]
  {
    map k | k in s.regs && s.regs[k].eventId == eventId && Attending(s.regs[k].status) :: s.regs[k]
  }

  // ---------------------------------------------------------------------------
  // The check-in ledger and the store invariants the workflow keeps.

  /** How many audit records in `cs` belong to registration `id`. */
  function CountFor(cs: seq<Checkin>, id: Id): nat {
    if cs == [] then 0
    else (if cs[0].registrationId == id then 1 else 0) + CountFor(cs[1..], id)
  }

  lemma {:induction false} CountForAppend(cs: seq<Checkin>, c: Checkin, id: Id)
    ensures CountFor(cs + [c], id) == CountFor(cs, id) + (if c.registrationId == id then 1 else 0)
    decreases |cs|
  {
    if cs == [] {
      assert [c][1..] == [];
    } else {
      assert (cs + [c])[1..] == cs[1..] + [c];
      CountForAppend(cs[1..], c, id);
    }
  }

  lemma {:induction false} CountForAbsent(cs: seq<Checkin>, id: Id)
    requires forall i :: 0 <= i < |cs| ==> cs[i].registrationId != id
    ensures CountFor(cs, id) == 0
    decreases |cs|
  {
    if cs != [] {
      CountForAbsent(cs[1..], id);
    }
  }

  /** Every registration refers to an existing event and has not exceeded its
      event's check-in bound. */
  predicate WithinCap(s: Store) {
    forall k :: k in s.regs ==>
      s.regs[k].eventId in s.events && s.regs[k].checkinsCount <= Bound(s.events[s.regs[k].eventId])
  }

  /** Every audit record belongs to an existing registration and each
      registration's counter equals the number of its records. */
  predicate LedgerAgrees(s: Store) {
    && (forall i :: 0 <= i < |s.checkins| ==> s.checkins[i].registrationId in s.regs)
    && (forall k :: k in s.regs ==> CountFor(s.checkins, k) == s.regs[k].checkinsCount)
  }

  /** The invariants of the registration tables. */
  predicate Consistent(s: Store) {
    OnePerPair(s.regs) && WithinCap(s) && LedgerAgrees(s)
  }

  lemma RegisterKeepsConsistent(s: Store, userId: Id, eventId: Id, now: int, newId: Id)
    requires newId !in s.regs
    requires Consistent(s)
    ensures Consistent(Register(s, userId, eventId, now, newId).store)
  {
    var r := Register(s, userId, eventId, now, newId);
    if r.out.Ok? && !r.out.value.reactivated {
      assert forall i :: 0 <= i < |s.checkins| ==> s.checkins[i].registrationId != newId;
      CountForAbsent(s.checkins, newId);
    }
  }

  lemma CancelKeepsConsistent(s: Store, userId: Id, regId: Id)
    requires Consistent(s)
    ensures Consistent(CancelRegistration(s, userId, regId).store)
  {
  }

  lemma UpdateStatusKeepsConsistent(s: Store, userId: Id, regId: Id, status: RegistrationStatus)
    requires status == Approved || status == Rejected || status == Pending
    requires Consistent(s)
    ensures Consistent(UpdateStatus(s, userId, regId, status).store)
  {
  }

  /** A check-in keeps the counter within the cap and in step with the audit
      trail: the new record is counted for its registration only. */
  lemma CheckInKeepsConsistent(s: Store, organizerId: Id, regId: Id, via: CheckinMethod, now: int)
    requires Consistent(s)
    ensures Consistent(CheckIn(s, organizerId, regId, via, now).store)
  {
    var r := CheckIn(s, organizerId, regId, via, now);
    if r.out.Ok? {
      var c := Checkin(regId, via, now);
      forall k | k in r.store.regs
        ensures CountFor(r.store.checkins, k) == r.store.regs[k].checkinsCount
      {
        CountForAppend(s.checkins, c, k);
      }
    }
  }

  // ---------------------------------------------------------------------------
  // Scenarios the workflow promises.

  /** A check-in marks the registration checked in, so an immediate second
      check-in is refused by the eligibility guard, before the cap is looked at,
      and nothing is written. */
  lemma RepeatCheckInRefused(s: Store, organizerId: Id, regId: Id, via: CheckinMethod, now: int,
                             via2: CheckinMethod, later: int)
    requires regId in s.regs ==> s.regs[regId].eventId in s.events
    requires CheckIn(s, organizerId, regId, via, now).out.Ok?
    ensures var s1 := CheckIn(s, organizerId, regId, via, now).store;
      CheckIn(s1, organizerId, regId, via2, later) == Reply(s1, Err(BadRequest(NotApproved(CheckedIn))))
  {
  }

  /** After the organizer approves a checked-in registration again, a further
      check-in goes through exactly while the counter is below the cap. */
  lemma ReapprovalReopensCheckIn(s: Store, organizerId: Id, regId: Id, via: CheckinMethod, now: int)
    requires regId in s.regs ==> s.regs[regId].eventId in s.events
    requires CheckIn(s, organizerId, regId, via, now).out.Ok?
    ensures var s1 := CheckIn(s, organizerId, regId, via, now).store;
      var s2 := UpdateStatus(s1, organizerId, regId, Approved).store;
      var e := s.events[s.regs[regId].eventId];
      && UpdateStatus(s1, organizerId, regId, Approved).out.Ok?
      && (CheckIn(s2, organizerId, regId, via, now).out.Ok? <==> s.regs[regId].checkinsCount + 1 < Cap(e))
  {
  }

  /** With one row per pair, a canceled row is the only match, so registering
      again while the window is open reactivates it. */
  lemma CanceledRowReactivates(s: Store, userId: Id, eventId: Id, now: int, newId: Id, k: Id)
    requires newId !in s.regs && OnePerPair(s.regs)
    requires k in s.regs && s.regs[k].eventId == eventId && s.regs[k].userId == userId
    requires s.regs[k].status == RegCanceled
    requires eventId in s.events && WindowOpen(s.events[eventId], now)
    ensures
      var r := Register(s, userId, eventId, now, newId);
      && r.out.Ok? && r.out.value.reactivated && r.out.value.id == k
      && Matching(r.store.regs, eventId, userId) == {k}
  {
    assert Matching(s.regs, eventId, userId) == {k};
    var r := Register(s, userId, eventId, now, newId);
    assert r.store.regs.Keys == s.regs.Keys;
  }

  /** Registering, cancelling and registering again reuses the same row: the
      second registration reactivates the first instead of adding another. */
  lemma RegisterCancelRegister(s: Store, userId: Id, eventId: Id, t1: int, f1: Id, t2: int, f2: Id)
    requires f1 !in s.regs && OnePerPair(s.regs)
    requires Register(s, userId, eventId, t1, f1).out.Ok?
    requires eventId in s.events && WindowOpen(s.events[eventId], t2)
    ensures
      var r1 := Register(s, userId, eventId, t1, f1);
      var k := r1.out.value.id;
      var r2 := CancelRegistration(r1.store, userId, k);
      && r2.out.Ok?
      && (f2 !in r2.store.regs ==>
            var r3 := Register(r2.store, userId, eventId, t2, f2);
            && r3.out.Ok? && r3.out.value.reactivated && r3.out.value.id == k
            && Matching(r3.store.regs, eventId, userId) == {k})
  {
    var r1 := Register(s, userId, eventId, t1, f1);
    var k := r1.out.value.id;
    var reg := r1.out.value.registration;
    assert r1.store.regs == s.regs[k := reg];
    assert OnePerPair(r1.store.regs);
    var r2 := CancelRegistration(r1.store, userId, k);
    assert r2.out.Ok?;
    assert r2.store.regs == r1.store.regs[k := reg.(status := RegCanceled)];
    assert OnePerPair(r2.store.regs);
    if f2 !in r2.store.regs {
      CanceledRowReactivates(r2.store, userId, eventId, t2, f2, k);
    }
  }

  /** Cancelling twice is the same as cancelling once. */
  lemma CancelIdempotent(s: Store, userId: Id, regId: Id)
    requires CancelRegistration(s, userId, regId).out.Ok?
    ensures var s1 := CancelRegistration(s, userId, regId).store;
      CancelRegistration(s1, userId, regId) == Reply(s1, CancelRegistration(s, userId, regId).out)
  {
  }
}
