/** The organizer dashboard: how many events the user organizes, how many
    registrations those events hold (in any status), and the organizer's next
    event to start. */
module Dashboard {
  import opened Enums
  import opened Outcomes
  import opened Schema
  import opened EventDtos
  import opened Registrations
  import opened Events

  datatype NextEvent = NextEvent(id: Id, title: string, startDate: int)

  datatype Stats = Stats(totalEvents: nat, totalRegistrations: nat, nextEvent: Option<NextEvent>)

  /** The keys of the events `userId` organizes. */
  function Organized(s: Store, userId: Id): set<Id> {
    set k | k in s.events && s.events[k].organizerId == userId
  }

  /** The keys of the registrations, in any status, held by the events `ids`. */
  function RegsOf(s: Store, ids: set<Id>): set<Id> {
    set k | k in s.regs && s.regs[k].eventId in ids
  }

  /** The organizer's events that start strictly after `now`. */
  function Upcoming(s: Store, userId: Id, now: int): set<Id> {
    set k | k in s.events && s.events[k].organizerId == userId && s.events[k].startDate > now
  }

  /** The event among `ks` that starts first, ties broken by the lower key. */
  function Earliest(s: Store, ks: set<Id>): (r: Id)
    requires ks != {} && ks <= s.events.Keys
    ensures r in ks
    ensures forall k :: k in ks ==> s.events[r].startDate <= s.events[k].startDate
  {
    var rank := j => if j in s.events then s.events[j].startDate else 0;
    var r := MinBy(ks, rank);
    assert forall k :: k in ks ==> rank(k) == s.events[k].startDate;
    r
  }

  /** `getStats`, at clock reading `now`. The registration count is only
      queried when the organizer has at least one event; the next event is the
      upcoming one with the earliest start (ties broken by key). */
  function GetStats(s: Store, userId: Id, now: int): (r: Stats)
    ensures r.totalEvents == |Organized(s, userId)|
    ensures r.totalRegistrations == |RegsOf(s, Organized(s, userId))|
    ensures r.nextEvent.None? <==>
      forall k :: k in s.events && s.events[k].organizerId == userId ==> s.events[k].startDate <= now
    ensures r.nextEvent.Some? ==>
      var v := r.nextEvent.value;
      && v.id in s.events && s.events[v.id].organizerId == userId
      && v.title == s.events[v.id].title && v.startDate == s.events[v.id].startDate
      && v.startDate > now
      && forall k :: k in s.events && s.events[k].organizerId == userId && s.events[k].startDate > now
                     ==> v.startDate <= s.events[k].startDate
  {
    var mine := Organized(s, userId);
    var total := if mine == {} then 0 else |RegsOf(s, mine)|;
    var upcoming := Upcoming(s, userId, now);
    var next :=
      if upcoming == {} then None
      else
        var k := Earliest(s, upcoming);
        Some(NextEvent(k, s.events[k].title, s.events[k].startDate));
    assert upcoming == {} ==> forall k :: k in s.events && s.events[k].organizerId == userId ==> k !in upcoming;
    Stats(|mine|, total, next)
  }

  // ---------------------------------------------------------------------------
  // Partners.

  /** The event total agrees with the organizer's own event list. */
  lemma TotalMatchesMyEvents(s: Store, userId: Id, now: int)
    requires userId in s.users
    ensures FindMyEvents(s, userId).Ok?
    ensures GetStats(s, userId, now).totalEvents == |FindMyEvents(s, userId).value|
  {
    var m := FindMyEvents(s, userId).value;
    assert m.Keys == Organized(s, userId);
  }

  /** A user who organizes nothing sees an empty dashboard. */
  lemma NoEventsNoStats(s: Store, userId: Id, now: int)
    requires forall k :: k in s.events ==> s.events[k].organizerId != userId
    ensures GetStats(s, userId, now) == Stats(0, 0, None)
  {
    assert Organized(s, userId) == {};
  }

  /** Replacing a registration by one for the same event leaves every count
      unchanged. */
  lemma SameEventSameCounts(s: Store, s1: Store, ids: set<Id>)
    requires s1.regs.Keys == s.regs.Keys
    requires forall k :: k in s.regs ==> s1.regs[k].eventId == s.regs[k].eventId
    ensures RegsOf(s1, ids) == RegsOf(s, ids)
  {
  }

  /** Cancelling a registration changes no one's dashboard: the total counts
      rows of any status. */
  lemma CancelKeepsStats(s: Store, userId: Id, regId: Id, now: int, viewer: Id)
    ensures GetStats(CancelRegistration(s, userId, regId).store, viewer, now) == GetStats(s, viewer, now)
  {
    var c := CancelRegistration(s, userId, regId);
    if c.out.Ok? {
      var ids := Organized(s, viewer);
      assert c.store.events == s.events;
      assert Organized(c.store, viewer) == ids;
      SameEventSameCounts(s, c.store, ids);
      assert RegsOf(c.store, ids) == RegsOf(s, ids);
    }
  }

  /** An organizer's status write changes no one's dashboard. */
  lemma UpdateStatusKeepsStats(s: Store, userId: Id, regId: Id, status: RegistrationStatus, now: int, viewer: Id)
    requires status == Approved || status == Rejected || status == Pending
    requires regId in s.regs ==> s.regs[regId].eventId in s.events
    ensures GetStats(UpdateStatus(s, userId, regId, status).store, viewer, now) == GetStats(s, viewer, now)
  {
    var u := UpdateStatus(s, userId, regId, status);
    if u.out.Ok? {
      var ids := Organized(s, viewer);
      assert u.store.events == s.events;
      assert Organized(u.store, viewer) == ids;
      SameEventSameCounts(s, u.store, ids);
      assert RegsOf(u.store, ids) == RegsOf(s, ids);
    }
  }

  /** A check-in changes no one's dashboard. */
  lemma CheckInKeepsStats(s: Store, userId: Id, regId: Id, via: CheckinMethod, now: int, viewer: Id)
    requires regId in s.regs ==> s.regs[regId].eventId in s.events
    ensures GetStats(CheckIn(s, userId, regId, via, now).store, viewer, now) == GetStats(s, viewer, now)
  {
    var ch := CheckIn(s, userId, regId, via, now);
    if ch.out.Ok? {
      var ids := Organized(s, viewer);
      assert ch.store.events == s.events;
      assert Organized(ch.store, viewer) == ids;
      SameEventSameCounts(s, ch.store, ids);
      assert RegsOf(ch.store, ids) == RegsOf(s, ids);
    }
  }

  /** The registration total counts rows of any status, so cancelling,
      approving, rejecting or checking in changes no one's dashboard. */
  lemma StatusChangesKeepStats(s: Store, userId: Id, regId: Id, status: RegistrationStatus,
                               via: CheckinMethod, now: int, viewer: Id)
    requires status == Approved || status == Rejected || status == Pending
    requires regId in s.regs ==> s.regs[regId].eventId in s.events
    ensures GetStats(CancelRegistration(s, userId, regId).store, viewer, now) == GetStats(s, viewer, now)
    ensures GetStats(UpdateStatus(s, userId, regId, status).store, viewer, now) == GetStats(s, viewer, now)
    ensures GetStats(CheckIn(s, userId, regId, via, now).store, viewer, now) == GetStats(s, viewer, now)
  {
    CancelKeepsStats(s, userId, regId, now, viewer);
    UpdateStatusKeepsStats(s, userId, regId, status, now, viewer);
    CheckInKeepsStats(s, userId, regId, via, now, viewer);
  }

  /** Inserting a registration under a fresh key adds that key to the rows of
      the events `ids` exactly when it belongs to one of them. */
  lemma InsertCountsOnce(s: Store, s1: Store, ids: set<Id>, newId: Id, reg: Registration)
    requires newId !in s.regs && s1.regs == s.regs[newId := reg]
    ensures reg.eventId in ids ==> RegsOf(s1, ids) == RegsOf(s, ids) + {newId}
    ensures reg.eventId !in ids ==> RegsOf(s1, ids) == RegsOf(s, ids)
  {
    assert forall k :: k in RegsOf(s, ids) ==> k != newId;
  }

  /** Writing registration `reg` under key `k` changes the viewer's total by
      one exactly when `k` is fresh and `reg` belongs to one of the viewer's
      events; overwriting a row of the same event changes nothing. */
  lemma WriteRegCounts(s: Store, k: Id, reg: Registration, viewer: Id, now: int)
    requires k in s.regs ==> s.regs[k].eventId == reg.eventId
    ensures
      var s1 := s.(regs := s.regs[k := reg]);
      var before := GetStats(s, viewer, now).totalRegistrations;
      var after := GetStats(s1, viewer, now).totalRegistrations;
      after == (if k !in s.regs && reg.eventId in s.events && s.events[reg.eventId].organizerId == viewer
                then before + 1 else before)
  {
    var s1 := s.(regs := s.regs[k := reg]);
    var ids := Organized(s, viewer);
    assert Organized(s1, viewer) == ids;
    if k in s.regs {
      SameEventSameCounts(s, s1, ids);
    } else {
      InsertCountsOnce(s, s1, ids, k, reg);
    }
  }

  /** A first registration adds one to the total of the event's organizer; a
      reactivated one adds nothing. */
  lemma RegisterCountsOnce(s: Store, userId: Id, eventId: Id, now: int, newId: Id, viewer: Id)
    requires newId !in s.regs
    requires Register(s, userId, eventId, now, newId).out.Ok?
    ensures
      var r := Register(s, userId, eventId, now, newId);
      var before := GetStats(s, viewer, now).totalRegistrations;
      var after := GetStats(r.store, viewer, now).totalRegistrations;
      after == (if !r.out.value.reactivated && s.events[eventId].organizerId == viewer then before + 1 else before)
  {
    var r := Register(s, userId, eventId, now, newId);
    var k := r.out.value.id;
    var reg := r.out.value.registration;
    assert r.store == s.(regs := s.regs[k := reg]);
    assert k in s.regs <==> r.out.value.reactivated;
    WriteRegCounts(s, k, reg, viewer, now);
  }

  /** Every registration points at an existing event. */
  predicate RegsReferToEvents(s: Store) {
    forall k :: k in s.regs ==> s.regs[k].eventId in s.events
  }

  /** Creating an event adds one to its creator's event total and, when every
      registration points at an existing event, no registrations. */
  lemma CreateEventCountsOnce(s: Store, userId: Id, dto: CreateEventDto, newId: Id, now: int)
    requires dto.Valid() && newId !in s.events
    requires RegsReferToEvents(s)
    ensures
      var s1 := CreateEvent(s, userId, dto, newId).0;
      && GetStats(s1, userId, now).totalEvents == GetStats(s, userId, now).totalEvents + 1
      && GetStats(s1, userId, now).totalRegistrations == GetStats(s, userId, now).totalRegistrations
  {
    var s1 := CreateEvent(s, userId, dto, newId).0;
    var ids := Organized(s, userId);
    assert Organized(s1, userId) == ids + {newId};
    assert RegsOf(s1, ids + {newId}) == RegsOf(s, ids);
  }

  /** An edit never moves an event to another organizer, so the counts stay. */
  lemma UpdateKeepsCounts(s: Store, eventId: Id, userId: Id, dto: UpdateEventDto, viewer: Id, now: int)
    requires dto.Valid()
    ensures
      var s1 := UpdateEvent(s, eventId, userId, dto).store;
      && GetStats(s1, viewer, now).totalEvents == GetStats(s, viewer, now).totalEvents
      && GetStats(s1, viewer, now).totalRegistrations == GetStats(s, viewer, now).totalRegistrations
  {
    var s1 := UpdateEvent(s, eventId, userId, dto).store;
    assert Organized(s1, viewer) == Organized(s, viewer);
  }
}
