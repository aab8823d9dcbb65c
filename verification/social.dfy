/** The stored state the friend-request views read and write: the user table with its
    `friends` relation, the friend-request table, and the per-sender rate counters kept
    in the cache under the key `friend_request_<sender id>`.
 */
module Social {
  import opened Orm
  import Cache

  type UserId = nat

  /** A row of the user table, as far as the friend-request views look at it. */
  datatype Account = Account(id: UserId, email: string)

  /** A row of the friend-request table; `timestamp` is the tick it was sent at. */
  datatype FriendRequest = FriendRequest(id: nat, from: UserId, to: UserId, timestamp: int, accepted: bool)

  /** Users and the friend relation, friend requests with the next primary key, and
      the cache of per-sender rate counters. */
  datatype State = State(
    users: seq<Account>,
    friends: map<UserId, set<UserId>>,
    ledger: seq<FriendRequest>,
    nextId: nat,
    counters: map<UserId, Cache.Entry>)

  /** Counted sends a sender may make while its counter is live. */
  const Limit := 3

  /** Lifetime of the rate counter, in seconds, renewed by every counted send. */
  const Window := 60

  function AccountId(a: Account): UserId { a.id }
  function AccountEmail(a: Account): string { a.email }
  function RequestId(q: FriendRequest): nat { q.id }
  function RequestPair(q: FriendRequest): (UserId, UserId) { (q.from, q.to) }

  function UserIds(s: State): set<UserId> {
    set a | a in s.users :: a.id
  }

  /** `user.friends`: empty for a user never befriended. */
  function FriendsOf(s: State, u: UserId): set<UserId> {
    if u in s.friends then s.friends[u] else {}
  }

  /** `a.friends.add(b)`. */
  function AddFriend(s: State, a: UserId, b: UserId): (r: State)
    ensures FriendsOf(r, a) == FriendsOf(s, a) + {b}
    ensures forall u :: u != a ==> FriendsOf(r, u) == FriendsOf(s, u)
    ensures r.users == s.users && r.ledger == s.ledger && r.nextId == s.nextId && r.counters == s.counters
  {
    s.(friends := s.friends[a := FriendsOf(s, a) + {b}])
  }

  /** Some request between `a` and `b`, in either direction, has been accepted. */
  predicate AcceptedBetween(s: State, a: UserId, b: UserId) {
    exists q :: q in s.ledger && q.accepted && ((q.from == a && q.to == b) || (q.from == b && q.to == a))
  }

  /** Friendship is mutual. */
  ghost predicate Symmetric(s: State) {
    forall a, b :: b in FriendsOf(s, a) <==> a in FriendsOf(s, b)
  }

  /** `b` is a friend of `a` exactly when an accepted request joins them. */
  ghost predicate FriendsMirrorRequests(s: State) {
    forall a, b :: b in FriendsOf(s, a) <==> AcceptedBetween(s, a, b)
  }

  /** Every stored rate counter holds a count between 1 and the limit. */
  ghost predicate CountersBounded(s: State) {
    forall k :: k in s.counters ==> 0 < s.counters[k].value <= Limit
  }

  /** The consistency the views maintain between the tables. */
  ghost predicate Valid(s: State) {
    && UniqueKey(s.users, AccountId)
    && UniqueKey(s.users, AccountEmail)
    && UniqueKey(s.ledger, RequestId)
    && UniqueKey(s.ledger, RequestPair)
    && (forall q :: q in s.ledger ==> q.id < s.nextId && q.from in UserIds(s) && q.to in UserIds(s))
    && FriendsMirrorRequests(s)
    && CountersBounded(s)
  }

  /** `User.objects.get(id=id)`: an absent id matches no row. */
  function UserById(s: State, id: Option<UserId>): (r: Option<Account>)
    ensures r.Some? ==> r.value in s.users && id == Some(r.value.id)
    ensures UniqueKey(s.users, AccountId) ==> (r.Some? <==> id.Some? && id.value in UserIds(s))
  {
    if id.None? then None
    else
      var p := (a: Account) => a.id == id.value;
      GetByKey(s.users, AccountId, id.value, p);
      GetOne(s.users, p)
  }

  /** `User.objects.get(email=email)`: an absent email matches no row. */
  function UserByEmail(s: State, email: Option<string>): (r: Option<Account>)
    ensures r.Some? ==> r.value in s.users && email == Some(r.value.email)
    ensures UniqueKey(s.users, AccountEmail) ==>
              (r.Some? <==> email.Some? && exists a :: a in s.users && a.email == email.value)
  {
    if email.None? then None
    else
      var p := (a: Account) => a.email == email.value;
      GetByKey(s.users, AccountEmail, email.value, p);
      GetOne(s.users, p)
  }

  /** A valid state's friend relation is mutual: it mirrors accepted requests, which
      relate their two parties whichever way they were sent. */
  lemma ValidIsSymmetric(s: State)
    requires Valid(s)
    ensures Symmetric(s)
  {
    forall a, b
      ensures b in FriendsOf(s, a) <==> a in FriendsOf(s, b)
    {
      assert b in FriendsOf(s, a) <==> AcceptedBetween(s, a, b);
      assert a in FriendsOf(s, b) <==> AcceptedBetween(s, b, a);
      assert AcceptedBetween(s, a, b) <==> AcceptedBetween(s, b, a);
    }
  }
}
