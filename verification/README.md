# Friend-request workflow: a Dafny model

This project models the friend-request workflow of a small social-graph backend
(`users/views.py`). The views covered are:

- send a request (`SendFriendRequestView.post`);
- accept a request (`AcceptFriendRequestView.post`);
- reject a request (`RejectFriendRequestView.post`);
- list friends (`ListFriendsView.get_queryset`);
- list pending requests (`ListPendingFriendRequestsView.get_queryset`).

Each of the three writing views (send, accept, reject) is one atomic transition. It
takes a `State` and returns a `Transition`: an `Outcome` tag together with the next
state. The outcome tags are `Sent`, `RateLimited`, `Duplicate`, `NotFound`,
`Forbidden`, `Accepted` and `Rejected`. The two listing views only read the state:
`ListFriends` returns a set of user ids and `ListPending` a sequence of requests.

The state has four parts:

- the user table, a sequence of `Account(id, email)` rows;
- the `friends` relation, a map from user id to a set of user ids;
- the friend-request table, a sequence of `FriendRequest(id, from, to, timestamp, accepted)`
  rows, plus the next primary key;
- the cache of per-sender rate counters, each an `Entry(value, expires)`.

Modules, leaf first:

- `Orm` (orm.dfy): the table operations the views use, over a sequence of rows.
  `Select` is `filter`. `GetOne` is `get`, which fails on zero rows and on several.
  `Exists` is `.exists()`. `Replace` is the row rewrite done by `save()`. The module
  also has lemmas about uniqueness constraints.
- `Cache` (cache.dfy): `cache.get` / `cache.set` with a timeout. Time is an integer
  tick in seconds.
- `Social` (social.dfy): the state, the lookups by id and by email, `friends.add`,
  and the invariant `Valid`.
- `Views` (views.dfy): the five views.
- `Lifecycle` (lifecycle.dfy): invariant preservation for each view, and what stays
  possible after an accept or a reject.
- `Traces` (traces.dfy): sequences of calls, and the rate cap over one minute.
- `Scenarios` (scenarios.dfy): the duplicate and rate-limit scenario.

`Valid` says the following:

- user ids and emails are unique;
- request ids are unique and below the next key;
- there is at most one request per ordered (sender, recipient) pair;
- both ends of every request are users;
- `b` is a friend of `a` exactly when some accepted request joins them, in either
  direction, so friendship is mutual (`ValidIsSymmetric`);
- every stored rate counter holds a value from 1 to 3.

Points where the code behaves differently from what its messages and names suggest:

- The duplicate check (`users/views.py:116`) filters on sender and recipient only and
  ignores `accepted`. An accepted request therefore also blocks a re-send
  (`Lifecycle.AcceptedBlocksResend`).
- There is no self-request check in `users/views.py:101-120`. A user may send a
  request to themselves, and accepting it makes them their own friend
  (`Scenarios.SelfRequest`).
- An unknown recipient, sender or request makes the ORM's `get` raise
  (`users/views.py:104`, `135-136`, `157-158`). Every exception is caught and answered
  with a 500 (`users/views.py:121-122`, `144-145`, `163-164`). The model tags that
  catch-all error `NotFound` and gives it no finer cause.
- The 403 branches at `users/views.py:137-138` and `159-160` test the request's
  recipient against the caller. They sit behind the lookups at `136` and `158`, which
  already select only requests addressed to the caller, so they can never fire.
  `Accept` and `Reject` keep the branch, and their contracts prove it is never taken.

## Model

| member | source | states |
|---|---|---|
| Orm.Select | users/views.py:184 | a filter returns exactly the rows meeting the condition and no others, never more rows than the table, and no duplicates when the table has none |
| Orm.GetOne | users/views.py:135-136 | a `get` that succeeds returns a row meeting the condition, and that row is the only one that does; `get` fails when no row matches; on a duplicate-free table it succeeds exactly when exactly one row matches |
| Orm.Exists | users/views.py:116 | `.exists()` is true exactly when some row meets the condition |
| Orm.Replace | users/views.py:139-140 | `save()` on a row keeps the table's length and order, puts the new row in place of the matched one, and leaves every other row as it was |
| Orm.GetByKey | users/views.py:104 | under a uniqueness constraint, a `get` whose condition fixes the key succeeds exactly when some row meets the whole condition |
| Cache.Get | users/views.py:108 | `cache.get(key, 0)` reads the stored count while its entry is live, and the default 0 when the key is absent or its entry has expired |
| Cache.Set | users/views.py:114 | a value set with a 60-second timeout reads back for the next 60 seconds and then reads as the default; other keys are unaffected |
| Social.UserById | users/views.py:104 | looking a recipient up by id yields a user with that id, and with unique ids it succeeds exactly when the id belongs to a user; a missing id never resolves |
| Social.UserByEmail | users/views.py:134-135 | looking a sender up by email yields a user with that email, and with unique emails it succeeds exactly when some user has it; a missing email never resolves |
| Social.AddFriend | users/views.py:141 | `a.friends.add(b)` adds `b` to `a`'s friends and changes no other user's friends and no other table |
| Social.ValidIsSymmetric | users/views.py:141-142 | in a consistent state, `b` is a friend of `a` exactly when `a` is a friend of `b` |
| Views.Send | users/views.py:97-123 | an unknown or missing recipient fails before the counter is touched and changes nothing; a live count of 3 or more gives RateLimited and changes nothing; otherwise the counter becomes old+1 with expiry now+60, even when the send then fails as a duplicate; Duplicate happens exactly when a request for the pair exists, accepted or not; Sent appends one new unaccepted request with a fresh id; users and friends never change |
| Views.Locate | users/views.py:134-136 | the located request is unaccepted, addressed to the caller, and sent by the user with the given email; with unique emails and one request per pair, a request is found exactly when such a sender has such a request |
| Views.Accept | users/views.py:129-145 | accept never answers Forbidden; it succeeds exactly when the lookup finds a request, and otherwise changes nothing; on success only that request becomes accepted, the two users are added to each other's friends, and no other user's friends, counter or user row change |
| Views.Reject | users/views.py:151-164 | reject never answers Forbidden; it succeeds exactly when the lookup finds a request, and otherwise changes nothing; on success the records left are exactly those with a different id, and friends, counters and users are unchanged |
| Views.ListFriends | users/views.py:174 | in a consistent state, the friends listed are exactly the users with whom the caller has an accepted request in either direction, and each of them lists the caller back |
| Views.ListPending | users/views.py:184 | the pending list holds exactly the requests addressed to the caller that are not accepted, without duplicates |
| Lifecycle.SendPreservesValid | users/views.py:113-120 | a send by a registered user keeps every invariant: at most one request per pair, fresh ids, friendship mirroring accepted requests, counters from 1 to 3 |
| Lifecycle.AcceptPreservesValid | users/views.py:136-142 | an accept keeps every invariant; the accepted request and the new mutual friendship appear together |
| Lifecycle.RejectPreservesValid | users/views.py:158-161 | a reject keeps every invariant; only an unaccepted request disappears |
| Lifecycle.AcceptPreservesSymmetry | users/views.py:141-142 | whatever else holds, if friendship is mutual before an accept, it is mutual after it |
| Lifecycle.RejectRemovesOnlyThat | users/views.py:161 | in a consistent state a successful reject removes exactly the located request: one record fewer and every other record kept |
| Lifecycle.NoActionAfterAccept | users/views.py:136 | after a successful accept, accepting or rejecting the same sender's request again fails with NotFound |
| Lifecycle.NoActionAfterReject | users/views.py:158 | after a successful reject, accepting or rejecting the same sender's request again fails with NotFound |
| Lifecycle.AcceptedBlocksResend | users/views.py:116-117 | after an accept, a new send from the original sender to the same user is a Duplicate, unless the rate limit refuses it first |
| Lifecycle.SendThenAccept | users/views.py:116-142 | a request that was sent and then accepted makes each user list the other as a friend, and it leaves the recipient's pending list |
| Traces.RunPreservesValid | users/views.py:97-164 | any sequence of sends, accepts and rejects by registered users keeps the state consistent |
| Traces.ReachableValid | users/views.py:97-164 | every state reached from a fresh deployment (unique ids and emails, no requests, no friends, empty cache) by calls of registered users is consistent |
| Traces.RateCap | users/views.py:107-114 | of one sender's sends within one minute, at most three get past the rate check, whatever other calls are interleaved |
| Scenarios.DuplicatesUseUpTheLimit | users/views.py:107-117 | a send followed by two duplicates, each within a minute of the previous one, uses up the limit, so a fourth send to a third user is rate-limited; a send made a minute after the last counted send goes through |
| Scenarios.SelfRequest | users/views.py:101-142 | with no self-request check, a user below the rate limit can send a request to themselves and accept it, after which they are listed among their own friends |

## Left out

- Signup, login and token issuance (`SignupView`, `LoginView`, `UserSerializer.create`) are left out. Password hashing, `authenticate` and JWT tokens are library calls.
- `UserSearchView` and `UserPagination` are left out. Their matching depends on database collation, and their paging on the REST framework.
- `users/serializers.py` and `users/urls.py` only declare fields and routes, so they are left out.
- HTTP status codes and response texts are left out. Each response is reduced to its `Outcome` tag: 201 Sent, 429 RateLimited, 400 Duplicate, 500 for the generic error (NotFound), 403 Forbidden, and 200 for Accepted and Rejected.
- Concurrency is left out. The cache read-then-write and the ORM check-then-insert are not atomic in the source; each call is modelled as one atomic step.
- Database failures other than a failed lookup are not modelled. Neither is a non-numeric `to_user_id`; a missing id is modelled as `None`.
- The wall clock is an integer `now` parameter. The request's `timestamp` field is set to `now`.
- `users/models.py` is not part of this model. These things are assumed about it:
  - emails are unique, because login is by email;
  - `timestamp` is filled in at insertion;
  - `accepted` defaults to false: `users/views.py:119` creates the request without it, and the model stores a new request as unaccepted;
  - nothing in the model depends on whether `friends` is a symmetrical many-to-many field. Both `add` calls are modelled, and they give the same relation either way.
- `get(email=...)` (`users/views.py:135`, `157`) is modelled as exact string equality. Whether the database compares emails case-sensitively depends on its collation, which is not part of this model.
- The cache backend and its settings are not part of this model. The model assumes that an entry stays live while the clock is below its expiry instant and that one cache is shared by all requests.
- Traces.RateCap: holds only for that assumed cache. A backend that evicts entries before they expire (such as the local-memory cache culling once it holds its maximum number of entries) or that keeps one cache per worker process can lose a sender's counter early, and then more than three sends per minute pass the check at `users/views.py:108-114`. Neither eviction nor per-process caches are modelled.
- Row order is not modelled beyond this: the friends list is a set, and the pending list keeps table order. The source leaves both orders to the database.
- Display names, passwords and the other user fields are not modelled. The friends list returns user ids.
