/** The request bodies for creating and editing an event, with the constraints
    their validation schemas impose, and how an edit is applied to an event. */
module EventDtos {
  import opened Enums
  import opened Outcomes
  import opened Schema

  /** A validated create-event body. Defaults (price 0, type free, one
      check-in) are already filled in by validation; optional fields that are
      absent take the column default on insert. */
  datatype CreateEventDto = CreateEventDto(
    title: string,
    description: string,
    localAddress: Option<string>,
    localUrl: Option<string>,
    startDate: int,
    endDate: int,
    price: real,
    kind: EventType,
    maxAttendees: Option<int>,
    allowedCheckins: int,
    status: Option<EventStatus>,
    registrationStart: Option<int>,
    registrationEnd: Option<int>)
  {
    /** The constraints validation enforces before the service sees the body. */
    predicate Valid() {
      && |title| >= 3
      && |description| >= 10
      && price >= 0.0
      && (maxAttendees.Some? ==> maxAttendees.value > 0)
      && (status.Some? ==> status.value == Draft || status.value == Published)
    }
  }

  /** A validated update body: present fields are written, absent ones are
      left alone. The update schema makes every field of the create schema
      optional but keeps its defaults, so price, type and allowedCheckins are
      always present: a body that omits them arrives as 0, free and 1. */
  datatype UpdateEventDto = UpdateEventDto(
    title: Option<string>,
    description: Option<string>,
    localAddress: Option<string>,
    localUrl: Option<string>,
    startDate: Option<int>,
    endDate: Option<int>,
    price: Option<real>,
    kind: Option<EventType>,
    maxAttendees: Option<int>,
    allowedCheckins: Option<int>,
    status: Option<EventStatus>,
    registrationStart: Option<int>,
    registrationEnd: Option<int>)
  {
    predicate Valid() {
      && price.Some? && kind.Some? && allowedCheckins.Some?
      && (title.Some? ==> |title.value| >= 3)
      && (description.Some? ==> |description.value| >= 10)
      && (price.Some? ==> price.value >= 0.0)
      && (maxAttendees.Some? ==> maxAttendees.value > 0)
      && (status.Some? ==> status.value == Draft || status.value == Published)
    }
  }

  /** The update body with no field present (no validated body is this one). */
  const NoChanges: UpdateEventDto :=
    UpdateEventDto(None, None, None, None, None, None, None, None, None, None, None, None, None)

  /** What validation makes of an empty update body: the three defaults. */
  const EmptyEdit: UpdateEventDto :=
    NoChanges.(price := Some(0.0), kind := Some(Free), allowedCheckins := Some(1))

  /** The new value when `o` is present, the old one otherwise. */
  function Pick<T>(o: Option<T>, old_: T): T {
    if o.Some? then o.value else old_
  }

  /** Same as `Pick`, for a nullable column: a present value is stored, an
      absent one keeps the column as it was. */
  function PickNullable<T>(o: Option<T>, old_: Option<T>): Option<T> {
    if o.Some? then o else old_
  }

  /** Writes every present field of `p` onto `e` and leaves the rest alone. The
      body has no status guard: a present `status` overwrites the event's. */
  function Apply(e: Event, p: UpdateEventDto): (r: Event)
    ensures r.organizerId == e.organizerId
    ensures r.requiresApproval == e.requiresApproval
    ensures p.status.Some? ==> r.status == p.status.value
    ensures p.status.None? ==> r.status == e.status
    ensures p.allowedCheckins.None? ==> r.allowedCheckins == e.allowedCheckins
  {
    e.(title := Pick(p.title, e.title),
       description := Pick(p.description, e.description),
       localAddress := PickNullable(p.localAddress, e.localAddress),
       localUrl := PickNullable(p.localUrl, e.localUrl),
       startDate := Pick(p.startDate, e.startDate),
       endDate := Pick(p.endDate, e.endDate),
       price := Pick(p.price, e.price),
       kind := Pick(p.kind, e.kind),
       maxAttendees := PickNullable(p.maxAttendees, e.maxAttendees),
       allowedCheckins := Pick(p.allowedCheckins, e.allowedCheckins),
       status := Pick(p.status, e.status),
       registrationStart := PickNullable(p.registrationStart, e.registrationStart),
       registrationEnd := PickNullable(p.registrationEnd, e.registrationEnd))
  }

  /** Two edits in a row as one: fields of `q` win over those of `p`. */
  function Merge(p: UpdateEventDto, q: UpdateEventDto): UpdateEventDto {
    UpdateEventDto(
      PickNullable(q.title, p.title),
      PickNullable(q.description, p.description),
      PickNullable(q.localAddress, p.localAddress),
      PickNullable(q.localUrl, p.localUrl),
      PickNullable(q.startDate, p.startDate),
      PickNullable(q.endDate, p.endDate),
      PickNullable(q.price, p.price),
      PickNullable(q.kind, p.kind),
      PickNullable(q.maxAttendees, p.maxAttendees),
      PickNullable(q.allowedCheckins, p.allowedCheckins),
      PickNullable(q.status, p.status),
      PickNullable(q.registrationStart, p.registrationStart),
      PickNullable(q.registrationEnd, p.registrationEnd))
  }

  /** The edit that sets every editable field, and every nullable one that is
      set, to its value in `e`. */
  function EditTo(e: Event): UpdateEventDto {
    UpdateEventDto(
      Some(e.title), Some(e.description), e.localAddress, e.localUrl,
      Some(e.startDate), Some(e.endDate), Some(e.price), Some(e.kind),
      e.maxAttendees, Some(e.allowedCheckins), Some(e.status),
      e.registrationStart, e.registrationEnd)
  }

  /** Applying an edit is idempotent, the empty edit changes nothing, and two
      edits compose into their merge. */
  lemma ApplyLaws(e: Event, p: UpdateEventDto, q: UpdateEventDto)
    ensures Apply(Apply(e, p), p) == Apply(e, p)
    ensures Apply(e, NoChanges) == e
    ensures Apply(Apply(e, p), q) == Apply(e, Merge(p, q))
  {
  }

  /** Editing any event `x` to the fields of `e` reproduces `e`, provided the
      parts an edit cannot touch (organizer, approval policy) already agree
      and `e` has every nullable field set that `x` has. */
  lemma EditToRoundTrip(x: Event, e: Event)
    requires x.organizerId == e.organizerId
    requires x.requiresApproval == e.requiresApproval
    requires x.localAddress.Some? ==> e.localAddress.Some?
    requires x.localUrl.Some? ==> e.localUrl.Some?
    requires x.maxAttendees.Some? ==> e.maxAttendees.Some?
    requires x.registrationStart.Some? ==> e.registrationStart.Some?
    requires x.registrationEnd.Some? ==> e.registrationEnd.Some?
    ensures Apply(x, EditTo(e)) == e
  {
  }
}
