/** The persisted tables, held in memory: rows keyed by id for the tables the
    services look up and update, and append-only logs for check-ins, messages
    and reviews. A row's id is its key in the map. Columns no modelled
    operation reads are left out. */
module Schema {
  import opened Enums
  import opened Outcomes

  /** A row identifier (a uuid in the database). */
  type Id = nat

  datatype User = User(name: string)

  datatype Event = Event(
    organizerId: Id,
    title: string,
    description: string,
    localAddress: Option<string>,
    localUrl: Option<string>,
    startDate: int,
    endDate: int,
    price: real,
    kind: EventType,
    requiresApproval: bool,
    registrationStart: Option<int>,
    registrationEnd: Option<int>,
    maxAttendees: Option<int>,
    allowedCheckins: int,
    status: EventStatus)

  datatype Registration = Registration(
    eventId: Id,
    userId: Id,
    status: RegistrationStatus,
    registrationDate: int,
    checkinsCount: nat)

  /** One entry of the check-in audit trail. */
  datatype Checkin = Checkin(registrationId: Id, via: CheckinMethod, timestamp: int)

  datatype Friendship = Friendship(requesterId: Id, recipientId: Id, status: FriendshipStatus)

  datatype Message = Message(senderId: Id, recipientId: Id, content: string, timestamp: int)

  datatype Review = Review(eventId: Id, userId: Id, rating: int, comment: Option<string>)

  datatype Store = Store(
    users: map<Id, User>,
    events: map<Id, Event>,
    regs: map<Id, Registration>,
    checkins: seq<Checkin>,
    friendships: map<Id, Friendship>,
    messages: seq<Message>,
    reviews: seq<Review>)

  /** A service call's effect: the store afterwards and what the caller gets
      back (a value or the exception thrown). */
  datatype Reply<+T> = Reply(store: Store, out: Result<T>)

  /** `a` comes no later than `b`: a lower rank, or the same rank and a key no
      greater. */
  predicate Before(rank: Id -> int, a: Id, b: Id) {
    rank(a) < rank(b) || (rank(a) == rank(b) && a <= b)
  }

  /** `r` is the member of `ks` that comes first. */
  predicate LeastIn(ks: set<Id>, rank: Id -> int, r: Id) {
    r in ks && forall k :: k in ks ==> Before(rank, r, k)
  }

  /** The key of least rank among `ks`, ties broken by the smaller key. */
  function MinBy(ks: set<Id>, rank: Id -> int): (r: Id)
    requires ks != {}
    ensures LeastIn(ks, rank, r)
  {
    HasLeast(ks, rank);
    var r :| LeastIn(ks, rank, r);
    r
  }

  lemma HasLeast(ks: set<Id>, rank: Id -> int)
    requires ks != {}
    ensures exists m :: LeastIn(ks, rank, m)
  {
    var m := LeastExists(ks, rank);
  }

  /** Every non-empty set has a first member: peel one element off, find the
      first of the rest, and keep whichever of the two comes first. */
  lemma {:induction false} LeastExists(ks: set<Id>, rank: Id -> int) returns (m: Id)
    requires ks != {}
    ensures LeastIn(ks, rank, m)
    decreases |ks|
  {
    var x :| x in ks;
    if ks == {x} {
      m := x;
      assert forall k :: k in ks ==> k == x;
    } else {
      var rest := ks - {x};
      var m0 := LeastExists(rest, rank);
      if Before(rank, x, m0) {
        m := x;
        forall k | k in ks ensures Before(rank, m, k) {
          if k != x { assert Before(rank, m0, k); }
        }
      } else {
        m := m0;
        forall k | k in ks ensures Before(rank, m, k) {
          if k != x { assert k in rest; }
        }
      }
    }
  }

  /** The row `findFirst` returns when several rows match and no order is
      given. The database leaves the choice open; the model fixes the least key. */
  function FirstKey(ks: set<Id>): (r: Id)
    requires ks != {}
    ensures r in ks && forall k :: k in ks ==> r <= k
  {
    MinBy(ks, k => 0)
  }
}
