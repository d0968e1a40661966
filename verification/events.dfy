/** The events service: creating an event, the organizer-only edit, and the
    organizer's own event list. The edit writes the fields it is given and
    nothing else; it does not consult the event state machine and does not
    check the dates against each other. */
module Events {
  import opened Enums
  import opened Outcomes
  import opened Schema
  import opened EventStates
  import opened EventDtos
  import opened Registrations

  /** `create`: the caller becomes the organizer; an absent status is stored as
      draft and an absent registration bound as unset; approval is not required
      (the column default, since the body cannot carry it). The event is
      inserted under key `newId`. */
  function CreateEvent(s: Store, userId: Id, dto: CreateEventDto, newId: Id): (r: (Store, Event))
    requires dto.Valid()
    requires newId !in s.events
    ensures r.1.organizerId == userId
    ensures r.1.status == (if dto.status.Some? then dto.status.value else Draft)
    ensures r.1.status == Draft || r.1.status == Published
    ensures r.1.registrationStart == dto.registrationStart && r.1.registrationEnd == dto.registrationEnd
    ensures !r.1.requiresApproval
    ensures r.1.allowedCheckins == dto.allowedCheckins && r.1.title == dto.title
    ensures r.1.startDate == dto.startDate && r.1.endDate == dto.endDate
    ensures r.1.description == dto.description && r.1.maxAttendees == dto.maxAttendees
    ensures r.1.localAddress == dto.localAddress && r.1.localUrl == dto.localUrl
    ensures r.1.price == dto.price && r.1.kind == dto.kind
    ensures r.0 == s.(events := s.events[newId := r.1])
  {
    var e := Event(
      userId, dto.title, dto.description, dto.localAddress, dto.localUrl,
      dto.startDate, dto.endDate, dto.price, dto.kind,
      false, dto.registrationStart, dto.registrationEnd,
      dto.maxAttendees, dto.allowedCheckins,
      if dto.status.Some? then dto.status.value else Draft);
    (s.(events := s.events[newId := e]), e)
  }

  /** `update`: a missing event is not found and only its organizer may edit
      it; then every present field is written, whatever the event's status. */
  function UpdateEvent(s: Store, eventId: Id, userId: Id, dto: UpdateEventDto): (r: Reply<Event>)
    requires dto.Valid()
    ensures r.out.Err? ==> r.store == s
    ensures eventId !in s.events <==> r.out == Err(NotFound(EventRow))
    ensures eventId in s.events && s.events[eventId].organizerId != userId <==> r.out == Err(Forbidden(NotOrganizer))
    ensures r.out.Ok? <==> eventId in s.events && s.events[eventId].organizerId == userId
    ensures r.out.Ok? ==>
      && r.out.value == Apply(s.events[eventId], dto)
      && r.store == s.(events := s.events[eventId := r.out.value])
  {
    if eventId !in s.events then Reply(s, Err(NotFound(EventRow)))
    else if s.events[eventId].organizerId != userId then Reply(s, Err(Forbidden(NotOrganizer)))
    else
      var updated := Apply(s.events[eventId], dto);
      Reply(s.(events := s.events[eventId := updated]), Ok(updated))
  }

  /** `findMyEvents`: an unknown caller is not found; otherwise exactly the
      events the caller organizes. */
  function FindMyEvents(s: Store, userId: Id): (r: Result<map<Id, Event>>)
    ensures userId !in s.users <==> r == Err(NotFound(UserRow))
    ensures r.Ok? <==> userId in s.users
    ensures r.Ok? ==> forall k :: k in r.value <==> k in s.events && s.events[k].organizerId == userId
    ensures r.Ok? ==> forall k :: k in r.value ==> r.value[k] == s.events[k]
  {
    if userId !in s.users then Err(NotFound(UserRow))
    else Ok(map k | k in s.events && s.events[k].organizerId == userId :: s.events[k])
  }

  // ---------------------------------------------------------------------------
  // What the edit does not check.

  /** The edit bypasses the state machine: the organizer of a finished or
      canceled event, which the state machine refuses to update, can still edit
      it, and can even set its status back to published. */
  lemma UpdateIgnoresStateMachine(s: Store, eventId: Id, dto: UpdateEventDto)
    requires dto.Valid()
    requires eventId in s.events
    requires s.events[eventId].status == Finished || s.events[eventId].status == Canceled
    requires dto.status == Some(Published)
    ensures Step(s.events[eventId].status, Action.Update).Err?
    ensures Step(s.events[eventId].status, Publish).Err?
    ensures var r := UpdateEvent(s, eventId, s.events[eventId].organizerId, dto);
      r.out.Ok? && r.store.events[eventId].status == Published
  {
  }

  /** The edit accepts an end date before the start date. */
  lemma UpdateSkipsDateCheck(s: Store, eventId: Id, dto: UpdateEventDto)
    requires eventId in s.events
    requires dto.Valid()
    requires dto.startDate.Some? && dto.endDate.Some? && dto.endDate.value < dto.startDate.value
    ensures
      var r := UpdateEvent(s, eventId, s.events[eventId].organizerId, dto);
      r.out.Ok? && r.store.events[eventId].endDate < r.store.events[eventId].startDate
  {
  }

  /** The edit can lower `allowedCheckins` below what a registration has
      already used: any valid edit whose new bound is below a registration's
      counter leaves that registration over its bound. The other registration
      invariants are untouched by any event edit. */
  lemma UpdateCanBreakCap(s: Store, regId: Id, dto: UpdateEventDto)
    requires Consistent(s)
    requires dto.Valid()
    requires regId in s.regs
    requires Bound(s.events[s.regs[regId].eventId].(allowedCheckins := dto.allowedCheckins.value))
             < s.regs[regId].checkinsCount
    ensures
      var eventId := s.regs[regId].eventId;
      var r := UpdateEvent(s, eventId, s.events[eventId].organizerId, dto);
      && r.out.Ok?
      && !WithinCap(r.store)
      && OnePerPair(r.store.regs) && LedgerAgrees(r.store)
  {
    var eventId := s.regs[regId].eventId;
    var e := s.events[eventId];
    var r := UpdateEvent(s, eventId, e.organizerId, dto);
    var e1 := r.store.events[eventId];
    assert e1.allowedCheckins == dto.allowedCheckins.value;
    assert Bound(e1) == Bound(e.(allowedCheckins := dto.allowedCheckins.value));
    assert r.store.regs[regId].checkinsCount > Bound(e1);
  }

  /** Because validation fills in `allowedCheckins := 1` when the body omits
      it, an edit of the title alone resets the allowance to one: a
      registration that has used two check-ins (possible after re-approval on
      an event allowing more) is then over its bound. */
  lemma TitleEditResetsAllowance(s: Store, regId: Id, title: string)
    requires Consistent(s)
    requires regId in s.regs && s.regs[regId].checkinsCount >= 2
    requires |title| >= 3
    ensures
      var eventId := s.regs[regId].eventId;
      var r := UpdateEvent(s, eventId, s.events[eventId].organizerId, EmptyEdit.(title := Some(title)));
      && r.out.Ok?
      && r.store.events[eventId].allowedCheckins == 1
      && r.store.events[eventId].title == title
      && !WithinCap(r.store)
  {
    var eventId := s.regs[regId].eventId;
    UpdateCanBreakCap(s, regId, EmptyEdit.(title := Some(title)));
  }

  /** Creating an event, or editing one without lowering its allowance, keeps
      every registration invariant. */
  lemma EventWritesKeepConsistent(s: Store, userId: Id, dto: CreateEventDto, newId: Id,
                                  eventId: Id, edit: UpdateEventDto)
    requires Consistent(s)
    requires dto.Valid() && newId !in s.events
    requires edit.Valid()
    requires eventId in s.events ==> edit.allowedCheckins.value >= s.events[eventId].allowedCheckins
    ensures Consistent(CreateEvent(s, userId, dto, newId).0)
    ensures Consistent(UpdateEvent(s, eventId, userId, edit).store)
  {
  }

  /** A newly created event is listed among its creator's events. */
  lemma CreatedEventIsMine(s: Store, userId: Id, dto: CreateEventDto, newId: Id)
    requires dto.Valid() && newId !in s.events
    requires userId in s.users
    ensures var r := CreateEvent(s, userId, dto, newId);
      FindMyEvents(r.0, userId).Ok? && newId in FindMyEvents(r.0, userId).value
  {
  }
}
