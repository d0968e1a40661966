/** The event status state machine: one behaviour per status (the state
    classes), the factory that picks a state from a stored status string, and
    what runs of actions can and cannot do. */
module EventStates {
  import opened Enums
  import opened Outcomes

  /** The legal moves, written as data: (current status, action) to the
      resulting status. `Update` is allowed exactly where it appears, and never
      moves the event. Every pair not listed is rejected. */
  const Table: map<(EventStatus, Action), EventStatus> :=
    map[
      (Draft, Publish) := Published,
      (Draft, Cancel) := Canceled,
      (Draft, Update) := Draft,
      (Published, Cancel) := Canceled,
      (Published, Finish) := Finished,
      (Published, Update) := Published,
      (Published, RevertToDraft) := Draft,
      (Canceled, RevertToDraft) := Draft
    ]

  /** What the state object for `s` does when asked to perform `a`: the status
      the context is moved to (the current one for an allowed update), or the
      exception it throws. */
  function Step(s: EventStatus, a: Action): (r: Result<EventStatus>)
    ensures r.Ok? <==> (s, a) in Table
    ensures r.Ok? ==> r.value == Table[(s, a)]
    ensures r.Err? ==> r.error == BadRequest(InvalidTransition(s, a))
  {
    var reject := Err(BadRequest(InvalidTransition(s, a)));
    match s
    case Draft =>
      (match a
       case Publish => Ok(Published)
       case Cancel => Ok(Canceled)
       case Update => Ok(Draft)
       case Finish => reject
       case RevertToDraft => reject)
    case Published =>
      (match a
       case Cancel => Ok(Canceled)
       case Finish => Ok(Finished)
       case Update => Ok(Published)
       case RevertToDraft => Ok(Draft)
       case Publish => reject)
    case Canceled =>
      (match a
       case RevertToDraft => Ok(Draft)
       case _ => reject)
    case Finished => reject
  }

  /** The status after attempting `a`: a rejected action leaves it unchanged. */
  function Next(s: EventStatus, a: Action): EventStatus {
    match Step(s, a)
    case Ok(t) => t
    case Err(_) => s
  }

  /** The status after attempting every action of `acts` in order. */
  function Run(s: EventStatus, acts: seq<Action>): EventStatus
    decreases |acts|
  {
    if acts == [] then s else Run(Next(s, acts[0]), acts[1..])
  }

  /** `EventStateFactory.create`: the state for a stored status string; an
      unrecognised string yields a draft. */
  function Create(name: string): (r: EventStatus)
    ensures name in {"draft", "published", "finished", "canceled"} ==> r.Name() == name
    ensures name !in {"published", "finished", "canceled"} ==> r == Draft
  {
    if name == "published" then Published
    else if name == "finished" then Finished
    else if name == "canceled" then Canceled
    else Draft
  }

  /** The factory inverts `getStatus`: re-creating a state from the status it
      reports gives back the same state. */
  lemma CreateInvertsName(s: EventStatus)
    ensures Create(s.Name()) == s
    ensures s != Draft ==> s.Name() != "draft"
  {
  }

  /** A draft can be published or canceled and edited in place; finishing it
      or reverting it to draft is rejected. */
  lemma DraftTransitions()
    ensures Step(Draft, Publish) == Ok(Published)
    ensures Step(Draft, Cancel) == Ok(Canceled)
    ensures Step(Draft, Update) == Ok(Draft)
    ensures Step(Draft, Finish) == Err(BadRequest(InvalidTransition(Draft, Finish)))
    ensures Step(Draft, RevertToDraft) == Err(BadRequest(InvalidTransition(Draft, RevertToDraft)))
    ensures Draft.Name() == "draft"
  {
  }

  /** A published event can be canceled, finished, edited or taken back to
      draft, but not published again. No other status reaches Published except
      through Publish, and no other status reaches Finished except through
      Finish. */
  lemma {:induction false} PublishedTransitions(s: EventStatus, acts: seq<Action>)
    ensures Step(Published, Cancel) == Ok(Canceled)
    ensures Step(Published, Finish) == Ok(Finished)
    ensures Step(Published, Update) == Ok(Published)
    ensures Step(Published, RevertToDraft) == Ok(Draft)
    ensures Step(Published, Publish).Err?
    ensures Step(s, Finish).Ok? <==> s == Published
    ensures s != Published && Run(s, acts) == Published ==> Publish in acts
    ensures s != Finished && Run(s, acts) == Finished ==> Finish in acts
    ensures Published.Name() == "published"
    decreases |acts|
  {
    if acts != [] {
      PublishedTransitions(Next(s, acts[0]), acts[1..]);
    }
  }

  /** A canceled event rejects everything but RevertToDraft, which leads to
      draft; so a run that never reverts stays canceled. */
  lemma {:induction false} CanceledTransitions(acts: seq<Action>)
    ensures forall a :: Step(Canceled, a).Ok? <==> a == RevertToDraft
    ensures Step(Canceled, RevertToDraft) == Ok(Draft)
    ensures Step(Canceled, Update).Err?
    ensures RevertToDraft !in acts ==> Run(Canceled, acts) == Canceled
    ensures Canceled.Name() == "canceled"
    decreases |acts|
  {
    if acts != [] {
      CanceledTransitions(acts[1..]);
    }
  }

  /** Finished is terminal: every action is rejected, so no run ever leaves it. */
  lemma {:induction false} FinishedIsAbsorbing(acts: seq<Action>)
    ensures forall a :: Step(Finished, a).Err?
    ensures Run(Finished, acts) == Finished
    ensures Finished.Name() == "finished"
    decreases |acts|
  {
    if acts != [] {
      FinishedIsAbsorbing(acts[1..]);
    }
  }

  /** Update is the one action that never moves an event: it is allowed exactly
      in draft and published. */
  lemma UpdateNeverMoves(s: EventStatus)
    ensures Step(s, Update).Ok? <==> s == Draft || s == Published
    ensures Next(s, Update) == s
  {
  }

  /** Every status can be reached from a new draft. */
  lemma AllStatusesReachable(t: EventStatus)
    ensures exists acts :: Run(Draft, acts) == t
  {
    match t
    case Draft =>
      assert Run(Draft, []) == Draft;
    case Published =>
      assert Run(Draft, [Publish]) == Published;
    case Canceled =>
      assert Run(Draft, [Cancel]) == Canceled;
    case Finished =>
      assert [Publish, Finish][1..] == [Finish];
      assert Run(Draft, [Publish, Finish]) == Finished;
  }
}
