/** Friend requests and messages, gated on registrations: a request needs a
    shared event both users attend, a message needs an accepted friendship. */
module Social {
  import opened Enums
  import opened Outcomes
  import opened Schema
  import opened Registrations

  /** Both users hold an attending registration (approved, confirmed or checked
      in) for one and the same event. */
  predicate SharesAttendedEvent(s: Store, a: Id, b: Id) {
    exists k1, k2 ::
      && k1 in s.regs && k2 in s.regs
      && s.regs[k1].eventId == s.regs[k2].eventId
      && s.regs[k1].userId == a && s.regs[k2].userId == b
      && Attending(s.regs[k1].status) && Attending(s.regs[k2].status)
  }

  /** Whether friendship `f` links `a` and `b`, in either direction. */
  predicate Links(f: Friendship, a: Id, b: Id) {
    (f.requesterId == a && f.recipientId == b) || (f.requesterId == b && f.recipientId == a)
  }

  /** The keys of the friendships between `a` and `b`, in either direction. */
  function Between(fs: map<Id, Friendship>, a: Id, b: Id): set<Id> {
    set k | k in fs && Links(fs[k], a, b)
  }

  /** A pending or accepted friendship blocks a new request; a rejected one does not. */
  predicate Live(st: FriendshipStatus) {
    st == FriendPending || st == Accepted
  }

  /** The refusal a blocking friendship status produces. */
  function BlockedBy(st: FriendshipStatus): Error
    requires Live(st)
  {
    if st == FriendPending then Conflict(RequestPending) else Conflict(AlreadyFriends)
  }

  /** `sendFriendRequest` as written: a request to oneself is refused; then ONE
      friendship between the two users is fetched, in either direction and with
      no order, and only that row's status is checked; then a shared attended
      event is required; then a pending request from the caller to the target is
      inserted under key `newId`. */
  function SendFriendRequest(s: Store, userId: Id, targetId: Id, newId: Id): (r: Reply<Friendship>)
    requires newId !in s.friendships
    ensures r.out.Err? ==> r.store == s
    ensures userId == targetId <==> r.out == Err(BadRequest(SelfRequest))
    ensures userId != targetId && Between(s.friendships, userId, targetId) != {}
            && (forall k :: k in Between(s.friendships, userId, targetId) ==> Live(s.friendships[k].status))
            ==> r.out.Err? && r.out.error.Conflict?
    ensures userId != targetId && (forall k :: k in Between(s.friendships, userId, targetId) ==> !Live(s.friendships[k].status))
            ==> (r.out.Ok? <==> SharesAttendedEvent(s, userId, targetId))
    ensures userId != targetId && (forall k :: k in Between(s.friendships, userId, targetId) ==> !Live(s.friendships[k].status))
            && !SharesAttendedEvent(s, userId, targetId)
            ==> r.out == Err(BadRequest(NoSharedEvent))
    ensures r.out == Err(BadRequest(NoSharedEvent)) ==> userId != targetId && !SharesAttendedEvent(s, userId, targetId)
    ensures r.out == Err(Conflict(RequestPending)) ==>
              exists k :: k in Between(s.friendships, userId, targetId) && s.friendships[k].status == FriendPending
    ensures r.out == Err(Conflict(AlreadyFriends)) ==>
              exists k :: k in Between(s.friendships, userId, targetId) && s.friendships[k].status == Accepted
    ensures r.out.Ok? ==>
      && userId != targetId && SharesAttendedEvent(s, userId, targetId)
      && r.out.value == Friendship(userId, targetId, FriendPending)
      && r.store == s.(friendships := s.friendships[newId := r.out.value])
  {
    if userId == targetId then Reply(s, Err(BadRequest(SelfRequest)))
    else
      var existing := Between(s.friendships, userId, targetId);
      if existing != {} && Live(s.friendships[FirstKey(existing)].status) then
        Reply(s, Err(BlockedBy(s.friendships[FirstKey(existing)].status)))
      else if !SharesAttendedEvent(s, userId, targetId) then
        Reply(s, Err(BadRequest(NoSharedEvent)))
      else
        var f := Friendship(userId, targetId, FriendPending);
        Reply(s.(friendships := s.friendships[newId := f]), Ok(f))
  }

  /** `sendFriendRequest` with the duplicate check the code evidently intends:
      ANY pending or accepted friendship between the two users, in either
      direction, blocks the request (an accepted one reported first). */
  function SendFriendRequestGuarded(s: Store, userId: Id, targetId: Id, newId: Id): (r: Reply<Friendship>)
    requires newId !in s.friendships
    ensures r.out.Err? ==> r.store == s
    ensures userId == targetId <==> r.out == Err(BadRequest(SelfRequest))
    ensures r.out.Ok? <==>
      && userId != targetId
      && (forall k :: k in Between(s.friendships, userId, targetId) ==> !Live(s.friendships[k].status))
      && SharesAttendedEvent(s, userId, targetId)
    ensures userId != targetId
            && (exists k :: k in Between(s.friendships, userId, targetId) && s.friendships[k].status == Accepted)
            <==> r.out == Err(Conflict(AlreadyFriends))
    ensures userId != targetId
            && (forall k :: k in Between(s.friendships, userId, targetId) ==> s.friendships[k].status != Accepted)
            && (exists k :: k in Between(s.friendships, userId, targetId) && s.friendships[k].status == FriendPending)
            <==> r.out == Err(Conflict(RequestPending))
    ensures userId != targetId
            && (forall k :: k in Between(s.friendships, userId, targetId) ==> !Live(s.friendships[k].status))
            && !SharesAttendedEvent(s, userId, targetId)
            <==> r.out == Err(BadRequest(NoSharedEvent))
    ensures r.out.Ok? ==>
      && r.out.value == Friendship(userId, targetId, FriendPending)
      && r.store == s.(friendships := s.friendships[newId := r.out.value])
  {
    if userId == targetId then Reply(s, Err(BadRequest(SelfRequest)))
    else if exists k :: k in s.friendships && Links(s.friendships[k], userId, targetId) && s.friendships[k].status == Accepted then
      Reply(s, Err(Conflict(AlreadyFriends)))
    else if exists k :: k in s.friendships && Links(s.friendships[k], userId, targetId) && s.friendships[k].status == FriendPending then
      Reply(s, Err(Conflict(RequestPending)))
    else if !SharesAttendedEvent(s, userId, targetId) then
      Reply(s, Err(BadRequest(NoSharedEvent)))
    else
      var f := Friendship(userId, targetId, FriendPending);
      Reply(s.(friendships := s.friendships[newId := f]), Ok(f))
  }

  /** `respondToRequest`: the request must exist, be addressed to the caller
      and still be pending; its status then becomes the answer. The answer is
      the raw request body, checked by no schema, so any friendship status is
      written: answering "pending" succeeds and leaves the request as it was. */
  function RespondToRequest(s: Store, userId: Id, requestId: Id, action: FriendshipStatus): (r: Reply<Friendship>)
    ensures r.out.Err? ==> r.store == s
    ensures requestId !in s.friendships <==> r.out == Err(NotFound(RequestRow))
    ensures requestId in s.friendships && s.friendships[requestId].recipientId != userId
            <==> r.out == Err(BadRequest(NotRecipient))
    ensures requestId in s.friendships && s.friendships[requestId].recipientId == userId
            && s.friendships[requestId].status != FriendPending
            <==> r.out == Err(BadRequest(AlreadyAnswered))
    ensures r.out.Ok? <==>
      && requestId in s.friendships && s.friendships[requestId].recipientId == userId
      && s.friendships[requestId].status == FriendPending
    ensures r.out.Ok? ==>
      && r.out.value == s.friendships[requestId].(status := action)
      && r.store == s.(friendships := s.friendships[requestId := r.out.value])
    ensures r.out.Ok? && action == FriendPending ==> r.store == s && r.out.value == s.friendships[requestId]
  {
    if requestId !in s.friendships then Reply(s, Err(NotFound(RequestRow)))
    else
      var f := s.friendships[requestId];
      if f.recipientId != userId then Reply(s, Err(BadRequest(NotRecipient)))
      else if f.status != FriendPending then Reply(s, Err(BadRequest(AlreadyAnswered)))
      else
        var updated := f.(status := action);
        Reply(s.(friendships := s.friendships[requestId := updated]), Ok(updated))
  }

  /** The other party of a friendship that involves `u`. */
  function Other(f: Friendship, u: Id): Id {
    if f.requesterId == u then f.recipientId else f.requesterId
  }

  /** `getFriends`: the existing users linked to `u` by an accepted friendship,
      in either direction; empty when there are none. */
  function GetFriends(s: Store, u: Id): (r: set<Id>)
    ensures forall x :: x in r <==>
      x in s.users && exists k :: k in s.friendships && s.friendships[k].status == Accepted && Links(s.friendships[k], u, x)
  {
    var friendIds := set k | k in s.friendships && s.friendships[k].status == Accepted
                               && (s.friendships[k].requesterId == u || s.friendships[k].recipientId == u)
                             :: Other(s.friendships[k], u);
    set x | x in friendIds && x in s.users
  }

  /** An accepted friendship between the two users, in either direction. */
  predicate AreFriends(s: Store, a: Id, b: Id) {
    exists k :: k in s.friendships && s.friendships[k].status == Accepted && Links(s.friendships[k], a, b)
  }

  /** `sendMessage`: only friends may message each other; the message is
      appended to the log. */
  function SendMessage(s: Store, senderId: Id, recipientId: Id, content: string, now: int): (r: Reply<Message>)
    ensures r.out.Ok? <==> exists k :: k in s.friendships && s.friendships[k].status == Accepted
                                       && Links(s.friendships[k], senderId, recipientId)
    ensures r.out.Err? ==> r.store == s && r.out.error == BadRequest(NotFriends)
    ensures r.out.Ok? ==>
      && r.out.value == Message(senderId, recipientId, content, now)
      && r.store == s.(messages := s.messages + [r.out.value])
  {
    if !AreFriends(s, senderId, recipientId) then Reply(s, Err(BadRequest(NotFriends)))
    else
      var m := Message(senderId, recipientId, content, now);
      Reply(s.(messages := s.messages + [m]), Ok(m))
  }

  // ---------------------------------------------------------------------------
  // Properties relating the operations.

  /** Friendship is symmetric: each appears in the other's friend list. */
  lemma FriendsSymmetric(s: Store, u: Id, x: Id)
    requires u in s.users && x in GetFriends(s, u)
    ensures u in GetFriends(s, x)
  {
    var k :| k in s.friendships && s.friendships[k].status == Accepted && Links(s.friendships[k], u, x);
    assert Links(s.friendships[k], x, u);
  }

  /** A message can be sent to an existing user exactly when that user is in
      the sender's friend list. */
  lemma MessageIffFriend(s: Store, senderId: Id, recipientId: Id, content: string, now: int)
    requires recipientId in s.users
    ensures SendMessage(s, senderId, recipientId, content, now).out.Ok? <==> recipientId in GetFriends(s, senderId)
  {
  }

  /** Two different users listed as active participants of the same event may
      befriend each other when nothing links them yet. */
  lemma ParticipantsMayBefriend(s: Store, eventId: Id, k1: Id, k2: Id, newId: Id)
    requires newId !in s.friendships
    requires k1 in FindParticipantsByEvent(s, eventId) && k2 in FindParticipantsByEvent(s, eventId)
    requires s.regs[k1].userId != s.regs[k2].userId
    requires Between(s.friendships, s.regs[k1].userId, s.regs[k2].userId) == {}
    ensures SendFriendRequestGuarded(s, s.regs[k1].userId, s.regs[k2].userId, newId).out.Ok?
    ensures SendFriendRequest(s, s.regs[k1].userId, s.regs[k2].userId, newId).out.Ok?
  {
    assert SharesAttendedEvent(s, s.regs[k1].userId, s.regs[k2].userId);
  }

  /** A request accepted or rejected cannot be answered again, whatever the
      second answer. */
  lemma AnsweredOnce(s: Store, userId: Id, requestId: Id, action: FriendshipStatus, again: FriendshipStatus)
    requires action == Accepted || action == FriendRejected
    requires RespondToRequest(s, userId, requestId, action).out.Ok?
    ensures var s1 := RespondToRequest(s, userId, requestId, action).store;
      RespondToRequest(s1, userId, requestId, again) == Reply(s1, Err(BadRequest(AlreadyAnswered)))
  {
  }

  /** Answering "pending" is no answer: the store is unchanged and the
      recipient can still accept or reject the request. */
  lemma PendingAnswerKeepsRequestOpen(s: Store, userId: Id, requestId: Id, again: FriendshipStatus)
    requires RespondToRequest(s, userId, requestId, FriendPending).out.Ok?
    ensures RespondToRequest(s, userId, requestId, FriendPending).store == s
    ensures RespondToRequest(s, userId, requestId, again).out.Ok?
  {
  }

  /** At most one pending or accepted friendship links any two users. */
  predicate AtMostOneLive(fs: map<Id, Friendship>) {
    forall a, b ::
      a in fs && b in fs && a != b && Live(fs[a].status) && Live(fs[b].status)
      ==> !Links(fs[b], fs[a].requesterId, fs[a].recipientId)
  }

  /** The guarded request keeps at most one live friendship per pair. */
  lemma GuardedRequestKeepsOneLive(s: Store, userId: Id, targetId: Id, newId: Id)
    requires newId !in s.friendships
    requires AtMostOneLive(s.friendships)
    ensures AtMostOneLive(SendFriendRequestGuarded(s, userId, targetId, newId).store.friendships)
  {
    var r := SendFriendRequestGuarded(s, userId, targetId, newId);
    if r.out.Ok? {
      var fs := r.store.friendships;
      forall a, b | a in fs && b in fs && a != b && Live(fs[a].status) && Live(fs[b].status)
        ensures !Links(fs[b], fs[a].requesterId, fs[a].recipientId)
      {
        if a == newId {
          assert b !in Between(s.friendships, userId, targetId);
        } else if b == newId {
          assert a !in Between(s.friendships, userId, targetId);
        }
      }
    }
  }

  /** Answering a request never adds a live friendship. */
  lemma RespondKeepsOneLive(s: Store, userId: Id, requestId: Id, action: FriendshipStatus)
    requires AtMostOneLive(s.friendships)
    ensures AtMostOneLive(RespondToRequest(s, userId, requestId, action).store.friendships)
  {
  }

  /** Two users, each approved for event 10, and no friendships yet. */
  const DemoStart: Store := Store(
    map[1 := User("A"), 2 := User("B")],
    map[],
    map[20 := Registration(10, 1, Approved, 0, 0), 21 := Registration(10, 2, Approved, 0, 0)],
    [], map[], [], [])

  lemma DemoShared(s: Store)
    requires s.regs == DemoStart.regs
    ensures SharesAttendedEvent(s, 1, 2)
  {
    assert s.regs[20].eventId == s.regs[21].eventId;
  }

  function DemoWith(fs: map<Id, Friendship>): Store {
    DemoStart.(friendships := fs)
  }

  /** The stores of the scenario below, after each step. */
  const DemoAsked: Store := DemoWith(map[100 := Friendship(1, 2, FriendPending)])
  const DemoRejected: Store := DemoWith(map[100 := Friendship(1, 2, FriendRejected)])
  const DemoAskedAgain: Store :=
    DemoWith(map[100 := Friendship(1, 2, FriendRejected), 101 := Friendship(1, 2, FriendPending)])
  const DemoAskedTwice: Store :=
    DemoWith(map[100 := Friendship(1, 2, FriendRejected), 101 := Friendship(1, 2, FriendPending),
                 102 := Friendship(1, 2, FriendPending)])

  /** A asks B. */
  lemma DemoFirstRequest()
    ensures SendFriendRequest(DemoStart, 1, 2, 100).store == DemoAsked
  {
    DemoShared(DemoStart);
    assert Between(DemoStart.friendships, 1, 2) == {};
  }

  /** B rejects the request. */
  lemma DemoReject()
    ensures RespondToRequest(DemoAsked, 2, 100, FriendRejected).store == DemoRejected
  {
  }

  /** A asks again: the only row between them is the rejected one. */
  lemma DemoSecondRequest()
    ensures SendFriendRequest(DemoRejected, 1, 2, 101).store == DemoAskedAgain
  {
    DemoShared(DemoRejected);
    assert Between(DemoRejected.friendships, 1, 2) == {100};
  }

  /** Both rows link A and B, and the rejected one has the lower key. */
  lemma DemoBetween()
    ensures Between(DemoAskedAgain.friendships, 1, 2) == {100, 101}
    ensures FirstKey(Between(DemoAskedAgain.friendships, 1, 2)) == 100
  {
    var fs := DemoAskedAgain.friendships;
    assert fs.Keys == {100, 101};
    assert Links(fs[100], 1, 2) && Links(fs[101], 1, 2);
  }

  /** A asks once more: the lookup lands on the rejected row, so the request
      is inserted next to the pending one. */
  lemma DemoThirdRequest()
    ensures SendFriendRequest(DemoAskedAgain, 1, 2, 102).out.Ok?
    ensures SendFriendRequest(DemoAskedAgain, 1, 2, 102).store == DemoAskedTwice
  {
    DemoShared(DemoAskedAgain);
    DemoBetween();
  }

  /** The guarded request sees the pending row and refuses. */
  lemma DemoThirdGuarded()
    ensures SendFriendRequestGuarded(DemoAskedAgain, 1, 2, 102).out == Err(Conflict(RequestPending))
  {
    assert Links(DemoAskedAgain.friendships[101], 1, 2);
  }

  /** One live request before the last step, two after it. */
  lemma DemoLiveness()
    ensures AtMostOneLive(DemoAskedAgain.friendships)
    ensures !AtMostOneLive(DemoAskedTwice.friendships)
  {
    var m4 := DemoAskedTwice.friendships;
    assert Links(m4[102], m4[101].requesterId, m4[101].recipientId);
  }

  /** The as-written request can leave two pending requests between the same
      users: A asks B, B rejects it, A asks again, and A asks once more (the
      steps above). On the last call the lookup returns the rejected row (the
      least key here), whose status does not block, so a second pending request
      is inserted. The guarded request refuses that last call. */
  lemma DuplicatePendingRequest()
    ensures SendFriendRequest(DemoStart, 1, 2, 100).store == DemoAsked
    ensures RespondToRequest(DemoAsked, 2, 100, FriendRejected).store == DemoRejected
    ensures SendFriendRequest(DemoRejected, 1, 2, 101).store == DemoAskedAgain
    ensures AtMostOneLive(DemoAskedAgain.friendships)
    ensures
      var r4 := SendFriendRequest(DemoAskedAgain, 1, 2, 102);
      r4.out.Ok? && !AtMostOneLive(r4.store.friendships)
    ensures SendFriendRequestGuarded(DemoAskedAgain, 1, 2, 102).out == Err(Conflict(RequestPending))
  {
    DemoFirstRequest();
    DemoReject();
    DemoSecondRequest();
    DemoThirdRequest();
    DemoThirdGuarded();
    DemoLiveness();
  }
}
