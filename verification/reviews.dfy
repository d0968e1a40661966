/** Reviews: only a participant who checked in to a finished event may review
    it, once. */
module Reviews {
  import opened Enums
  import opened Outcomes
  import opened Schema
  import opened Registrations

  /** The user holds a registration for the event whose status is exactly
      checked in. */
  predicate CheckedInAt(s: Store, userId: Id, eventId: Id) {
    exists k :: k in s.regs && s.regs[k].eventId == eventId && s.regs[k].userId == userId
                && s.regs[k].status == CheckedIn
  }

  /** The user has already reviewed the event. */
  predicate HasReviewed(rs: seq<Review>, userId: Id, eventId: Id) {
    exists i :: 0 <= i < |rs| && rs[i].userId == userId && rs[i].eventId == eventId
  }

  /** `create`: the event must exist and be finished, the caller must have
      checked in to it and must not have reviewed it yet; every check precedes
      the insert, and a success appends exactly one review. */
  function CreateReview(s: Store, userId: Id, eventId: Id, rating: int, comment: Option<string>): (r: Reply<Review>)
    requires 1 <= rating <= 5
    ensures r.out.Err? ==> r.store == s
    ensures eventId !in s.events <==> r.out == Err(NotFound(EventRow))
    ensures eventId in s.events && s.events[eventId].status != Finished
            <==> r.out == Err(BadRequest(EventNotFinished))
    ensures eventId in s.events && s.events[eventId].status == Finished && !CheckedInAt(s, userId, eventId)
            <==> r.out == Err(Forbidden(NotAttended))
    ensures eventId in s.events && s.events[eventId].status == Finished && CheckedInAt(s, userId, eventId)
            && HasReviewed(s.reviews, userId, eventId)
            <==> r.out == Err(Conflict(AlreadyReviewed))
    ensures r.out.Ok? <==>
      && eventId in s.events && s.events[eventId].status == Finished
      && CheckedInAt(s, userId, eventId) && !HasReviewed(s.reviews, userId, eventId)
    ensures r.out.Ok? ==>
      && r.out.value == Review(eventId, userId, rating, comment)
      && r.store == s.(reviews := s.reviews + [r.out.value])
  {
    if eventId !in s.events then Reply(s, Err(NotFound(EventRow)))
    else if s.events[eventId].status != Finished then Reply(s, Err(BadRequest(EventNotFinished)))
    else if !CheckedInAt(s, userId, eventId) then Reply(s, Err(Forbidden(NotAttended)))
    else if HasReviewed(s.reviews, userId, eventId) then Reply(s, Err(Conflict(AlreadyReviewed)))
    else
      var review := Review(eventId, userId, rating, comment);
      Reply(s.(reviews := s.reviews + [review]), Ok(review))
  }

  /** No two reviews by the same user for the same event. */
  predicate OneReviewPerPair(rs: seq<Review>) {
    forall i, j :: 0 <= i < j < |rs| ==> rs[i].userId != rs[j].userId || rs[i].eventId != rs[j].eventId
  }

  lemma CreateReviewKeepsOnePerPair(s: Store, userId: Id, eventId: Id, rating: int, comment: Option<string>)
    requires 1 <= rating <= 5
    requires OneReviewPerPair(s.reviews)
    ensures OneReviewPerPair(CreateReview(s, userId, eventId, rating, comment).store.reviews)
  {
    var r := CreateReview(s, userId, eventId, rating, comment);
    if r.out.Ok? {
      var rs := r.store.reviews;
      forall i, j | 0 <= i < j < |rs|
        ensures rs[i].userId != rs[j].userId || rs[i].eventId != rs[j].eventId
      {
        if j == |s.reviews| {
          assert rs[i] == s.reviews[i];
          assert !(s.reviews[i].userId == userId && s.reviews[i].eventId == eventId);
        }
      }
    }
  }

  /** A participant whose check-in went through can review the event once it is
      finished, provided they have not reviewed it already. */
  lemma CheckedInMayReview(s: Store, organizerId: Id, regId: Id, via: CheckinMethod, now: int,
                           rating: int, comment: Option<string>)
    requires regId in s.regs ==> s.regs[regId].eventId in s.events
    requires 1 <= rating <= 5
    requires CheckIn(s, organizerId, regId, via, now).out.Ok?
    ensures
      var s1 := CheckIn(s, organizerId, regId, via, now).store;
      var reg := s.regs[regId];
      s.events[reg.eventId].status == Finished && !HasReviewed(s.reviews, reg.userId, reg.eventId)
      ==> CreateReview(s1, reg.userId, reg.eventId, rating, comment).out.Ok?
  {
    var s1 := CheckIn(s, organizerId, regId, via, now).store;
    assert s1.regs[regId].status == CheckedIn;
    assert CheckedInAt(s1, s.regs[regId].userId, s.regs[regId].eventId);
  }
}
