/** The event context: holds an event and its current state object, delegates
    each action to the state and mirrors the resulting status into the event.
    No service in the repository builds a context; event edits go through the
    events service instead (see module Events). */
module EventContexts {
  import opened Enums
  import opened Outcomes
  import opened Schema
  import opened EventStates
  import opened EventDtos

  datatype EventContext = EventContext(state: EventStatus, event: Event)

  /** The event's stored status agrees with the state object. */
  predicate Mirrors(c: EventContext) {
    c.event.status == c.state
  }

  /** `setState`: installs a new state and copies its status into the event;
      nothing else about the event changes. */
  function SetState(c: EventContext, st: EventStatus): (r: EventContext)
    ensures r.state == st && Mirrors(r)
    ensures r.event.(status := c.event.status) == c.event
  {
    EventContext(st, c.event.(status := st))
  }

  /** A context for a loaded event, its state chosen by the factory from the
      stored status. */
  function Load(e: Event): (r: EventContext)
    ensures r.event == e && r.state == e.status && Mirrors(r)
  {
    CreateInvertsName(e.status);
    SetState(EventContext(Draft, e), Create(e.status.Name()))
  }

  /** `publish`, `cancel`, `finish`, `revertToDraft`: the current state
      decides. On success the context holds the table's target status, mirrored
      into the event; a rejection leaves state and event as they were. */
  function Perform(c: EventContext, a: Action): (r: (EventContext, Outcome))
    requires a != Action.Update
    ensures r.1.Fail? <==> (c.state, a) !in Table
    ensures r.1.Fail? ==> r.0 == c && r.1.error == BadRequest(InvalidTransition(c.state, a))
    ensures r.1.Pass? ==> r.0.state == Table[(c.state, a)] && Mirrors(r.0)
    ensures r.1.Pass? ==> r.0.event.(status := c.event.status) == c.event
  {
    match Step(c.state, a)
    case Ok(t) => (SetState(c, t), Pass)
    case Err(e) => (c, Fail(e))
  }

  /** `update`: the state's guard runs first, so a draft or published event is
      edited and a canceled or finished one is refused with no field written.
      The edit is copied as is, `status` included, and the state object is left
      alone. */
  function Update(c: EventContext, p: UpdateEventDto): (r: (EventContext, Outcome))
    ensures r.1.Fail? <==> c.state == Canceled || c.state == Finished
    ensures r.1.Fail? ==> r.0 == c && r.1.error == BadRequest(InvalidTransition(c.state, Action.Update))
    ensures r.1.Pass? ==> r.0 == EventContext(c.state, Apply(c.event, p))
  {
    match Step(c.state, Action.Update)
    case Ok(_) => (c.(event := Apply(c.event, p)), Pass)
    case Err(e) => (c, Fail(e))
  }

  /** `getStatus`: the current state's status string, from which the factory
      rebuilds the same state. */
  function GetStatus(c: EventContext): (r: string)
    ensures r in {"draft", "published", "finished", "canceled"}
    ensures Create(r) == c.state
  {
    CreateInvertsName(c.state);
    c.state.Name()
  }

  /** An accepted edit that carries a status different from the current state
      leaves the event's stored status out of step with the state object, and
      `getStatus` still reports the old state. */
  lemma UpdateCanDesyncStatus(c: EventContext, p: UpdateEventDto)
    requires Mirrors(c)
    requires c.state == Draft || c.state == Published
    requires p.status.Some? && p.status.value != c.state
    ensures Update(c, p).1.Pass?
    ensures !Mirrors(Update(c, p).0)
    ensures Update(c, p).0.event.status == p.status.value
    ensures Create(GetStatus(Update(c, p).0)) == c.state
  {
  }

  /** Every action of a mirrored context keeps it mirrored except an edit that
      carries a status. */
  lemma MirrorKept(c: EventContext, a: Action, p: UpdateEventDto)
    requires Mirrors(c)
    ensures a != Action.Update ==> Mirrors(Perform(c, a).0)
    ensures p.status.None? ==> Mirrors(Update(c, p).0)
  {
  }
}
