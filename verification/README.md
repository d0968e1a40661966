# event-sync-backend: event lifecycle and registration engine, in Dafny

This project models the core of the event-sync backend, a NestJS service. It covers:

- the **event status state machine**: draft, published, canceled and finished, with the actions publish, cancel, finish, update and revertToDraft;
- the **event context** that holds a state and mirrors it into the event row;
- the **factory** that rebuilds a state from a stored status string;
- the services built on the same tables: registrations (register, cancel, approve/reject, the virtual card, check-in, the active-participant list), social gating (friend requests, answers, the friend list, messages), reviews, events (create, owner-only edit, "my events") and the organizer dashboard.

The database becomes an immutable `Store`:

- `events`, `regs`, `users` and `friendships` are maps from id to row;
- the append-only `checkins`, `messages` and `reviews` tables are sequences.

Every service operation is a pure function from a store and its arguments to `Reply(store', out)`. Here `out` is `Ok(value)` or `Err(NotFound | Forbidden | BadRequest | Conflict)`, one case per HTTP exception class the code throws. Every failure path is stated to leave the store unchanged.

External inputs are parameters:

- the wall clock is `now: int`;
- a freshly generated uuid is `newId`, with the precondition that it is not yet a key;
- the authenticated caller is a plain `userId`.

Modules, one file each:

| module | file | models |
|---|---|---|
| `Enums` | enums.dfy | the database enums, and the five state actions |
| `Outcomes` | outcomes.dfy | `Option`, `Result`, and the error taxonomy |
| `EventStates` | event_states.dfy | the four state classes as one transition table; the factory |
| `Schema` | schema.dfy | the table rows, the store, and the choice `findFirst` makes |
| `EventDtos` | event_dtos.dfy | the create/update bodies and how an edit is applied |
| `EventContexts` | event_context.dfy | `EventContext` |
| `Registrations` | registrations.dfy | `registrations.service.ts`, plus the table invariants |
| `Social` | social.dfy | `social.service.ts` |
| `Reviews` | reviews.dfy | `reviews.service.ts` |
| `Events` | events.dfy | `events.service.ts` |
| `Dashboard` | dashboard.dfy | `dashboard.service.ts` |

### Modelling decisions

- **`findFirst` without an order.** When several rows match, the model returns the row with the least key (`Schema.FirstKey`). Any fixed choice would do; the Findings below depend only on the lookup being free to return a row other than the one that matters.
- **Check-in cap.** The cap is `allowedCheckins || 1`, so a zero allowance counts as one. A negative allowance stays negative, and every check-in then conflicts. `Registrations.Bound` is that cap clamped at zero; it is the bound the `WithinCap` invariant uses.
- **Foreign keys.** A foreign key appears as a precondition only where the code dereferences a joined row without checking it: `updateStatus`, `getTvCard` and `checkIn` read `registration.event`, and `getTvCard` also reads `registration.user` for the participant's name (src/application/services/registrations.service.ts:177-181, :197), so it requires the holder to exist. The database guarantees those rows exist.
- **Window fields of a new event.** `EventsService.create` reads `dto.registrationStart` and `dto.registrationEnd`, but the validation schema for events does not declare those fields. The model takes them as the service receives them; through the HTTP layer they are always absent, so stored as unset. The update schema is the partial create schema (src/presentation/dtos/event.dto.ts:26), so it declares neither the window fields nor `requiresApproval` either; the window writes at src/application/services/events.service.ts:68-69 cannot be reached over HTTP. `UpdateEventDto` keeps the two window fields, as the create body does, so that those writes are modelled as the service performs them; over HTTP they are always absent. It has no `requiresApproval` field.
- **Defaults in an edit.** The update schema is the create schema made partial (src/presentation/dtos/event.dto.ts:26), and that keeps the defaults of price, type and allowedCheckins (:14, :15, :18). So every validated edit carries those three fields, and an edit that omits them writes 0, free and 1. `UpdateEventDto.Valid` requires them present, and `EventDtos.EmptyEdit` is the edit an empty body becomes. This follows the semantics of the validation library's current major version (the schema uses its `z.iso` API); it is not visible in the repository's own files.
- **`EventContext` is not used by the services.** No service builds a context: `EventsService.update` writes the row directly. The context is therefore modelled on its own (`EventContexts`), and the services model what the services do.

### Behaviour worth knowing

Each item is a property of the code as written, proved in the model:

- `EventsService.update` (src/application/services/events.service.ts:54-77) checks only existence and ownership; it never consults the state machine. A finished or canceled event can be edited and even set back to published (`Events.UpdateIgnoresStateMachine`).
- The same edit does not compare the dates (the TODO at events.service.ts:65), so an event can end before it starts (`Events.UpdateSkipsDateCheck`). Nothing bounds `allowedCheckins` either. An edit whose new bound is below a registration's counter leaves that registration over its cap (`Events.UpdateCanBreakCap`). Because an edit always carries allowedCheckins, editing only the title resets it to 1 (`Events.TitleEditResetsAllowance`).
- `cancelRegistration` looks the registration up by id and owner together (src/application/services/registrations.service.ts:63-70). Someone else's registration is therefore `NotFound`, never `Forbidden` (`Registrations.CancelRegistration`).
- A successful check-in sets the status to `checked_in` (registrations.service.ts:245-249). The eligibility guard at :226 then refuses a repeat before the cap check at :232 is reached (`Registrations.RepeatCheckInRefused`). The cap matters again only after the organizer approves the registration once more (`Registrations.ReapprovalReopensCheckIn`).
- `register` checks the registration window (registrations.service.ts:20-29) but not the event's status.
- `updateStatus` also admits `pending`, because its request schema does (src/presentation/dtos/registration.dto.ts:5).
- `respondToRequest` takes its answer from the raw request body, with no schema (src/presentation/controllers/social.controller.ts:27). Answering `pending` to a pending request succeeds and changes nothing (`Social.PendingAnswerKeepsRequestOpen`).

## Model

| member | source | states |
|---|---|---|
| EventStates.Step | src/domain/events/states/draft.state.ts:11-29 | an action succeeds exactly on the eight table edges (draft: publish, cancel, update; published: cancel, finish, update, revertToDraft; canceled: revertToDraft), moving to the table's target; every other pair is a BadRequest naming the status and action |
| EventStates.DraftTransitions | src/domain/events/states/draft.state.ts:11-33 | publish moves a draft to published, cancel to canceled, update keeps it a draft, finish and revertToDraft are rejected; it reports "draft" |
| EventStates.PublishedTransitions | src/domain/events/states/published.state.ts:11-34 | published can be canceled, finished, updated or reverted to draft, but not published again; finish succeeds only from published; any run that reaches published from elsewhere contains a publish, and any run that reaches finished contains a finish |
| EventStates.CanceledTransitions | src/domain/events/states/canceled.state.ts:9-32 | from canceled exactly revertToDraft succeeds (to draft) and update is refused, so a run without revertToDraft stays canceled |
| EventStates.FinishedIsAbsorbing | src/domain/events/states/finished.state.ts:9-31 | every action on a finished event is rejected, so no run of actions ever leaves finished |
| EventStates.UpdateNeverMoves | src/domain/events/states/draft.state.ts:23-25 | update is permitted exactly in draft and published and never changes the status |
| EventStates.AllStatusesReachable | src/domain/events/states/published.state.ts:19-21 | every status can be reached from a new draft by some run of actions |
| EventStates.Create | src/domain/events/event-state.factory.ts:9-17 | each of the four status strings yields the state that reports it; any other string yields draft |
| EventStates.CreateInvertsName | src/domain/events/event-state.factory.ts:9-17 | re-creating a state from the status it reports gives back the same state |
| Schema.FirstKey | src/application/services/social.service.ts:18-23 | the row `findFirst` picks among several matches is one of them, fixed by the key order |
| EventDtos.Apply | src/domain/events/event-context.ts:36 | an edit keeps the organizer and approval policy, writes a present status and keeps the stored one otherwise, and keeps the allowance when none is given |
| EventDtos.ApplyLaws | src/application/services/events.service.ts:63-74 | applying an edit twice equals applying it once, the empty edit changes nothing, and two edits in a row equal their merge |
| EventDtos.EditToRoundTrip | src/application/services/events.service.ts:63-74 | an edit that lists the fields of an event turns any event with the same organizer and policy into it |
| EventContexts.SetState | src/domain/events/event-context.ts:11-14 | the new state is stored and mirrored into `event.status`, and no other event field changes |
| EventContexts.Load | src/domain/events/event-state.factory.ts:9-17 | a context built from a stored event through the factory holds that event's status, mirrored |
| EventContexts.Perform | src/domain/events/event-context.ts:16-30 | publish, cancel, finish and revertToDraft land on the table's target status and mirror it; a rejected action leaves state and event unchanged |
| EventContexts.Update | src/domain/events/event-context.ts:32-37 | the guard runs first: canceled and finished refuse with nothing written; otherwise every present field is copied and the state object is kept |
| EventContexts.GetStatus | src/domain/events/event-context.ts:39-41 | the reported string is one of the four status names, and it is the one the factory turns back into the current state |
| EventContexts.UpdateCanDesyncStatus | src/domain/events/event-context.ts:36 | an accepted edit carrying a different status overwrites `event.status` while the state and getStatus stay as before |
| EventContexts.MirrorKept | src/domain/events/event-context.ts:11-37 | every action keeps the row mirroring the state, except an edit that carries a status |
| Registrations.Register | src/application/services/registrations.service.ts:14-59 | missing event, registration not started and registration closed fail in that order with no write (both window bounds inclusive); a canceled registration for the pair is reactivated under its own key, keeping its counter; any live one is a conflict; otherwise a new row is inserted; the status is pending exactly when approval is required; at most one row per (event, user) is kept |
| Registrations.CancelRegistration | src/application/services/registrations.service.ts:62-82 | a registration not held by the caller is NotFound; a checked-in one is refused; it succeeds exactly when the caller holds it and it is not checked in, and then only its status becomes canceled |
| Registrations.UpdateStatus | src/application/services/registrations.service.ts:148-170 | a missing registration is NotFound and a non-organizer is Forbidden; it succeeds exactly when the caller organizes the registration's event, and then exactly the given status is written, whatever the current one |
| Registrations.Venue | src/application/services/registrations.service.ts:200 | an empty or unset address reads "Online"; any other address is shown as is |
| Registrations.GetTvCard | src/application/services/registrations.service.ts:173-204 | the holder gets a card exactly when the registration is approved or confirmed, and no one else gets one; the card carries the participant's name, the event's title, start and venue, and the registration id as QR code |
| Registrations.CheckIn | src/application/services/registrations.service.ts:207-257 | NotFound, not the organizer, not approved or confirmed, and count at the cap fail in that order with no write; the check-in succeeds exactly when the caller organizes the event, the registration is approved or confirmed and its counter is below the cap; a success appends one record, increments the counter, marks the registration checked in and returns the participant |
| Registrations.CardMatchesCheckIn | src/application/services/registrations.service.ts:190-192 | the holder gets a card exactly when the organizer's check-in passes every guard but the cap; a card holder is a listed participant; right after a check-in the holder's card is refused |
| Registrations.FindParticipantsByEvent | src/application/services/registrations.service.ts:124-135 | exactly the event's registrations whose status is approved, checked in or confirmed, unchanged |
| Registrations.RegisterKeepsConsistent | src/application/services/registrations.service.ts:32-56 | registering keeps one row per pair, every counter within its cap and every counter equal to its number of check-in records |
| Registrations.CancelKeepsConsistent | src/application/services/registrations.service.ts:76-79 | cancelling keeps the same three invariants |
| Registrations.UpdateStatusKeepsConsistent | src/application/services/registrations.service.ts:164-167 | approving, rejecting or resetting to pending keeps the same three invariants |
| Registrations.CheckInKeepsConsistent | src/application/services/registrations.service.ts:230-251 | a check-in keeps the counter within the cap and equal to the number of records for that registration |
| Registrations.RepeatCheckInRefused | src/application/services/registrations.service.ts:225-249 | right after a successful check-in, another one is refused by the eligibility guard (status checked in) with no write |
| Registrations.ReapprovalReopensCheckIn | src/application/services/registrations.service.ts:226-234 | after re-approval of a checked-in registration, a further check-in succeeds exactly while the counter is below the cap |
| Registrations.RegisterCancelRegister | src/application/services/registrations.service.ts:41-48 | register, cancel and register again reactivates the same row and leaves exactly one row for the pair |
| Registrations.CanceledRowReactivates | src/application/services/registrations.service.ts:41-48 | with one row per pair, registering again while the window is open reactivates the canceled row and leaves it the only row for the pair |
| Registrations.CancelIdempotent | src/application/services/registrations.service.ts:62-81 | cancelling a canceled registration again succeeds and changes nothing |
| Social.SendFriendRequest | src/application/services/social.service.ts:14-53 | a request to oneself is refused; when every friendship between the pair is pending or accepted the request conflicts; when none is, it succeeds exactly if both attend a shared event and otherwise fails with NoSharedEvent, and then inserts one pending request from caller to target |
| Social.SendFriendRequestGuarded | src/application/services/social.service.ts:17-28 | a request succeeds exactly when the users differ, no pending or accepted friendship links them in either direction, and they share an attended event; an accepted link gives AlreadyFriends, else a pending link gives RequestPending, else no shared event gives NoSharedEvent |
| Social.GuardedRequestKeepsOneLive | src/application/services/social.service.ts:17-28 | the guarded request keeps at most one pending or accepted friendship per pair of users |
| Social.DuplicatePendingRequest | src/application/services/social.service.ts:18-28 | A asks B, B rejects it, A asks twice more: the last as-written request goes through and leaves two pending requests, while the guarded request refuses it |
| Social.RespondToRequest | src/application/services/social.service.ts:56-71 | a missing request is NotFound, one addressed to someone else or already answered is refused; the answer succeeds exactly when the caller is the recipient of a pending request, and then only its status becomes the answer, whichever of the three friendship statuses it is; answering "pending" changes nothing |
| Social.AnsweredOnce | src/application/services/social.service.ts:63 | a request accepted or rejected cannot be answered again, whatever the second answer |
| Social.PendingAnswerKeepsRequestOpen | src/application/services/social.service.ts:63-68 | answering "pending" leaves the store unchanged, and the request can still be answered |
| Social.RespondKeepsOneLive | src/application/services/social.service.ts:65-68 | answering never creates a second live friendship for a pair |
| Social.GetFriends | src/application/services/social.service.ts:74-94 | a user is listed exactly when they exist and an accepted friendship links them to the caller in either direction |
| Social.FriendsSymmetric | src/application/services/social.service.ts:76-85 | if x is in u's friend list then u is in x's |
| Social.SendMessage | src/application/services/social.service.ts:108-130 | a message is stored exactly when an accepted friendship links sender and recipient; otherwise nothing is written |
| Social.MessageIffFriend | src/application/services/social.service.ts:110-120 | an existing user can be messaged exactly when they are in the sender's friend list |
| Social.ParticipantsMayBefriend | src/application/services/social.service.ts:31-43 | two distinct active participants of one event, with no friendship between them, can always send a request, guarded or as written |
| Reviews.CreateReview | src/application/services/reviews.service.ts:14-65 | missing event, event not finished, no checked-in registration, and an existing review fail in that order with no write; it succeeds exactly when the event is finished, the caller checked in to it and has not reviewed it; a success appends exactly one review with the given rating and comment |
| Reviews.CreateReviewKeepsOnePerPair | src/application/services/reviews.service.ts:42-59 | at most one review per (user, event) is preserved |
| Reviews.CheckedInMayReview | src/application/services/reviews.service.ts:24-39 | the participant of a successful check-in may review the event once it is finished, if they have not reviewed it yet |
| Events.CreateEvent | src/application/services/events.service.ts:15-30 | the caller becomes the organizer; the status is the given one (draft or published) or draft; the window is as given, unset when absent; approval is not required; title, description, address, url, dates, price, type, attendee limit and allowance are the body's; the event is added under the new key |
| Events.UpdateEvent | src/application/services/events.service.ts:54-77 | a missing event is NotFound and a non-organizer is Forbidden, with no write; the edit succeeds exactly when the event exists and the caller organizes it, and then exactly the present fields are written |
| Events.FindMyEvents | src/application/services/events.service.ts:80-99 | an unknown user is NotFound and a known one always gets a list: exactly the events the caller organizes |
| Events.UpdateIgnoresStateMachine | src/application/services/events.service.ts:54-77 | a finished or canceled event, which the state machine refuses to update or publish, is edited anyway and can be set to published |
| Events.UpdateSkipsDateCheck | src/application/services/events.service.ts:65-69 | any valid edit that sets an end date before its start date is accepted and stored |
| Events.UpdateCanBreakCap | src/application/services/events.service.ts:63-74 | a valid edit whose new bound is below a registration's counter breaks the cap invariant, while the other registration invariants survive |
| Events.TitleEditResetsAllowance | src/application/services/events.service.ts:63-74 | an edit of the title alone sets allowedCheckins to 1, so a registration with two check-ins is then over its cap |
| Events.EventWritesKeepConsistent | src/application/services/events.service.ts:15-30 | creating an event, or editing one without lowering its allowance, keeps every registration invariant |
| Events.CreatedEventIsMine | src/application/services/events.service.ts:95-98 | a created event is listed among its creator's events |
| Dashboard.Earliest | src/application/services/dashboard.service.ts:46-52 | the chosen event is one of the candidates and starts no later than any of them |
| Dashboard.GetStats | src/application/services/dashboard.service.ts:13-63 | totalEvents counts the user's events; totalRegistrations counts the registrations of any status on them; nextEvent is absent exactly when none of them starts after now, and otherwise is one that does, starting no later than any other, exposing its id, title and start |
| Dashboard.TotalMatchesMyEvents | src/application/services/dashboard.service.ts:15-18 | the event total equals the size of the user's "my events" list |
| Dashboard.NoEventsNoStats | src/application/services/dashboard.service.ts:22-25 | a user with no events sees zero events, zero registrations and no next event |
| Dashboard.CancelKeepsStats | src/application/services/dashboard.service.ts:39-42 | cancelling a registration changes no dashboard |
| Dashboard.UpdateStatusKeepsStats | src/application/services/dashboard.service.ts:39-42 | approving, rejecting or resetting to pending changes no dashboard |
| Dashboard.CheckInKeepsStats | src/application/services/dashboard.service.ts:39-42 | a check-in changes no dashboard |
| Dashboard.StatusChangesKeepStats | src/application/services/dashboard.service.ts:39-42 | combines CancelKeepsStats, UpdateStatusKeepsStats and CheckInKeepsStats: cancelling, approving, rejecting or checking in changes no dashboard |
| Dashboard.WriteRegCounts | src/application/services/dashboard.service.ts:39-42 | writing a registration raises the viewer's total by one exactly when its key is new and its event is the viewer's; overwriting a row of the same event changes nothing |
| Dashboard.RegisterCountsOnce | src/application/services/dashboard.service.ts:39-42 | a new registration adds one to its organizer's total and nothing to anyone else's; a reactivation adds nothing |
| Dashboard.CreateEventCountsOnce | src/application/services/dashboard.service.ts:15-18 | creating an event adds one to its creator's event total and no registrations |
| Dashboard.UpdateKeepsCounts | src/application/services/dashboard.service.ts:15-18 | an edit never changes anyone's event or registration totals |

## Left out

- Database access, Drizzle relations, providers and Nest modules: replaced by the in-memory `Store`.
- Events.CreateEvent: the database columns are fixed-width, the model's numbers are not. `allowedCheckins` and `maxAttendees` are 32-bit integer columns (src/infra/database/schema/events.ts:24-25) while the schema's `.int()` admits any safe integer, so a value such as 2147483648 makes the insert fail with nothing written; the model stores it. `price` is a single-precision float column (:17); the model keeps an exact `real`, without its rounding or overflow. These are database failures the model does not represent.
- Events.UpdateEvent: the same column limits apply to an edit, whose write then fails with nothing changed; the model writes the value.
- Events.CreateEvent, Events.UpdateEvent: the schema counts the length of `title` (at least 3) and `description` (at least 10) in UTF-16 code units, while `Valid` counts characters of a Dafny string. A title of two characters outside the Basic Multilingual Plane (two emoji, say) passes the source's check and fails `Valid`; the model does not represent that encoding.
- Ids: every key is a uuid column (src/infra/database/schema/events.ts:6); the model uses natural numbers. A malformed id in a path makes the database reject the query with a syntax error, where the model can only say NotFound.
- Fractional ratings: the review schema bounds the rating to 1..5 but does not require an integer (src/presentation/dtos/review.dto.ts:6), so 3.5 passes validation and is then rejected by the integer column. `CreateReview` takes an integer rating and does not represent that database failure.
- The seed script is I/O. It also inserts a checked-in registration whose counter is 0, which is not a `Consistent` store; it is not treated as an initial state.
- Authentication (password hashing, JWT, the current-user decorator) is foreign crypto and library code. The caller is an opaque id.
- Concurrency: `checkIn` reads the counter outside its transaction and writes back the stale value plus one, so parallel check-ins can pass the cap together. `Registrations.CheckIn` treats a check-in as one atomic step. `Registrations.CheckInKeepsConsistent` holds only for sequential calls and says nothing about that race.
- The organizer rating average (`updateOrganizerRating`) is a SQL average parsed as a float; the model stops after the review insert.
- HTTP controllers, and the social controller's calls to service methods that do not exist (`getSentRequests`, `removeFriendship`, `getEventMessages`, `sendMessageToEvent`).
- Request validation is library code. Its constraints appear as preconditions: `CreateEventDto.Valid`, `UpdateEventDto.Valid`, ratings 1 to 5, and the three admitted registration statuses. The friend-request answer is checked by no schema. Any friendship status is admitted. A string outside the database enum fails at the database with no write; the model's `FriendshipStatus` type cannot express such a string.
- `users.service.ts`: profile reads and updates.
- Read-only queries: `findAll`, `findOne`, `findMyRegistrations`, `getPendingRequests`, `getMessages` and `findOneByUserAndEvent` only filter, join or order rows. `findAllByEvent` also has a not-found check and an organizer-only check (src/application/services/registrations.service.ts:88-93), the same pair `Registrations.UpdateStatus` models, before its latest-check-in sort. None of them writes. The model leaves them out, and with them all ordering. `findOne`'s not-found case is part of `Events.UpdateEvent`.
- Columns no modelled operation reads: the event banner, workload and creation time; the registration payment date and certificate flag; friendship, review and message timestamps other than the message's `now`; message type and attachment; the certificates table.
- Timestamps are integers. Date parsing and the conversion of ISO strings are not modelled.
- `Events.FindMyEvents`: the code's second check (`user.id !== userId`) can never fire after the lookup by that id, so it has no branch in the model.
- `Events.CreateEvent`: the price and type defaults are filled in by validation before the service runs, so the model receives them already set.

## Findings

| source | as written | input that shows it | evidently intended | confidence | as-written member | corrected member |
|---|---|---|---|---|---|---|
| src/application/services/social.service.ts:18-28 | the duplicate check fetches ONE friendship between the two users, in either direction and with no order, and refuses only if that row is pending or accepted | users A and B share an event; A asks B (row 1), B rejects it, A asks again (row 2, pending), A asks a third time while the lookup returns the rejected row 1: a second pending request (row 3) is inserted | any pending or accepted friendship between the pair, in either direction, blocks a new request, so at most one live friendship exists per pair | medium, not executed | Social.SendFriendRequest (counterexample: Social.DuplicatePendingRequest) | Social.SendFriendRequestGuarded (property: Social.GuardedRequestKeepsOneLive) |
