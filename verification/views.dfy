/** The friend-request views of `users/views.py`, each one an all-or-nothing transition
    from a state to an outcome and a next state. `me` is the authenticated caller
    (`request.user`); `now` is the clock reading at the moment of the call.
 */
module Views {
  import opened Orm
  import Cache
  import opened Social

  /** The response of a view. `NotFound` is the catch-all error response: an unknown
      user or request makes the ORM's `get` raise, and the handler turns it into a 500. */
  datatype Outcome = Sent | RateLimited | Duplicate | NotFound | Forbidden | Accepted | Rejected

  datatype Transition = Transition(outcome: Outcome, next: State)

  /** The sender's count as the rate check reads it: 0 when absent or expired. */
  function RecentSends(s: State, me: UserId, now: int): int {
    Cache.Get(s.counters, me, 0, now)
  }

  /** Some request from `a` to `b` is on record, whether accepted or not. */
  predicate HasRequest(s: State, a: UserId, b: UserId) {
    exists q :: q in s.ledger && q.from == a && q.to == b
  }

  /** Send a friend request from `me` to the user with id `to`. The recipient is looked
      up first, then the rate counter is read and, below the limit, bumped; only then is
      the ledger checked for an earlier request to the same user. */
  function Send(s: State, me: UserId, to: Option<UserId>, now: int): (t: Transition)
    ensures t.outcome in {Sent, RateLimited, Duplicate, NotFound}
    ensures t.next.users == s.users && t.next.friends == s.friends
    ensures t.outcome in {NotFound, RateLimited} ==> t.next == s
    ensures (to.None? || to.value !in UserIds(s)) ==> t.outcome == NotFound
    ensures UniqueKey(s.users, AccountId) && to.Some? && to.value in UserIds(s) ==> t.outcome != NotFound
    ensures t.outcome != NotFound ==> (t.outcome == RateLimited <==> RecentSends(s, me, now) >= Limit)
    ensures t.outcome in {Sent, Duplicate} ==>
              t.next.counters == s.counters[me := Cache.Entry(RecentSends(s, me, now) + 1, now + Window)]
    ensures t.outcome in {Sent, Duplicate} ==> (t.outcome == Duplicate <==> HasRequest(s, me, to.value))
    ensures t.outcome == Duplicate ==> t.next.ledger == s.ledger && t.next.nextId == s.nextId
    ensures t.outcome == Sent ==>
              && t.next.ledger == s.ledger + [FriendRequest(s.nextId, me, to.value, now, false)]
              && t.next.nextId == s.nextId + 1
  {
    var recipient := UserById(s, to);
    if recipient.None? then Transition(NotFound, s)
    else
      var count := Cache.Get(s.counters, me, 0, now);
      if count >= Limit then Transition(RateLimited, s)
      else
        var counted := s.(counters := Cache.Set(s.counters, me, count + 1, Window, now));
        var target := recipient.value.id;
        if Exists(counted.ledger, (q: FriendRequest) => q.from == me && q.to == target) then
          Transition(Duplicate, counted)
        else
          Transition(Sent, counted.(ledger := counted.ledger + [FriendRequest(s.nextId, me, target, now, false)],
                                    nextId := s.nextId + 1))
  }

  /** The lookup shared by accept and reject: the sender by email, then the one
      unaccepted request from that sender to `me`. */
  function Locate(s: State, me: UserId, email: Option<string>): (r: Option<FriendRequest>)
    ensures r.Some? ==> r.value in s.ledger && r.value.to == me && !r.value.accepted
    ensures r.Some? ==> exists a :: a in s.users && email == Some(a.email) && a.id == r.value.from
    ensures UniqueKey(s.users, AccountEmail) && UniqueKey(s.ledger, RequestPair) ==>
              (r.Some? <==> exists a, q :: a in s.users && email == Some(a.email) && q in s.ledger
                                          && q.from == a.id && q.to == me && !q.accepted)
  {
    var sender := UserByEmail(s, email);
    if sender.None? then None
    else
      var from := sender.value.id;
      var p := (q: FriendRequest) => q.from == from && q.to == me && !q.accepted;
      GetByKey(s.ledger, RequestPair, (from, me), p);
      GetOne(s.ledger, p)
  }

  /** Accept the pending request the user with `email` sent to `me`: mark it accepted
      and make the two users friends of each other. */
  function Accept(s: State, me: UserId, email: Option<string>): (t: Transition)
    ensures t.outcome in {Accepted, NotFound}
    ensures t.outcome == Accepted <==> Locate(s, me, email).Some?
    ensures t.outcome == NotFound ==> t.next == s
    ensures t.next.users == s.users && t.next.counters == s.counters && t.next.nextId == s.nextId
    ensures t.outcome == Accepted ==>
              var q := Locate(s, me, email).value;
              && |t.next.ledger| == |s.ledger|
              && (forall x :: x in t.next.ledger <==> (x in s.ledger && x.id != q.id) || x == q.(accepted := true))
              && FriendsOf(t.next, q.from) == FriendsOf(s, q.from) + {me}
              && FriendsOf(t.next, me) == FriendsOf(s, me) + {q.from}
              && (forall u :: u != me && u != q.from ==> FriendsOf(t.next, u) == FriendsOf(s, u))
  {
    var found := Locate(s, me, email);
    if found.None? then Transition(NotFound, s)
    else if found.value.to != me then Transition(Forbidden, s)
    else
      var q := found.value.(accepted := true);
      var saved := s.(ledger := Replace(s.ledger, (x: FriendRequest) => x.id == q.id, q));
      Transition(Accepted, AddFriend(AddFriend(saved, q.from, q.to), q.to, q.from))
  }

  /** Reject the pending request the user with `email` sent to `me`: delete it. */
  function Reject(s: State, me: UserId, email: Option<string>): (t: Transition)
    ensures t.outcome in {Rejected, NotFound}
    ensures t.outcome == Rejected <==> Locate(s, me, email).Some?
    ensures t.outcome == NotFound ==> t.next == s
    ensures t.next.users == s.users && t.next.friends == s.friends
    ensures t.next.counters == s.counters && t.next.nextId == s.nextId
    ensures t.outcome == Rejected ==>
              var q := Locate(s, me, email).value;
              forall x :: x in t.next.ledger <==> x in s.ledger && x.id != q.id
    ensures NoDup(s.ledger) ==> NoDup(t.next.ledger)
  {
    var found := Locate(s, me, email);
    if found.None? then Transition(NotFound, s)
    else if found.value.to != me then Transition(Forbidden, s)
    else
      var id := found.value.id;
      Transition(Rejected, s.(ledger := Select(s.ledger, (x: FriendRequest) => x.id != id)))
  }

  /** `request.user.friends.all()`. In a valid state these are exactly the users with
      whom `me` has an accepted request, in either direction. */
  function ListFriends(s: State, me: UserId): (r: set<UserId>)
    ensures Valid(s) ==> forall b :: b in r <==> AcceptedBetween(s, me, b)
    ensures Valid(s) ==> forall b :: b in r ==> me in FriendsOf(s, b)
  {
    FriendsOf(s, me)
  }

  /** The unaccepted requests addressed to `me`, in table order. */
  function ListPending(s: State, me: UserId): (r: seq<FriendRequest>)
    ensures forall x :: x in r <==> x in s.ledger && x.to == me && !x.accepted
    ensures NoDup(s.ledger) ==> NoDup(r)
  {
    Select(s.ledger, (x: FriendRequest) => x.to == me && !x.accepted)
  }
}
