/** Sequences of requests served one after another, and the rate cap stated over them:
    within one minute a sender gets at most three sends past the rate check.
 */
module Traces {
  import opened Orm
  import Cache
  import opened Social
  import opened Views
  import opened Lifecycle

  /** One call of a friend-request view by the authenticated user `user`. */
  datatype Op =
    | SendOp(user: UserId, to: Option<UserId>, now: int)
    | AcceptOp(user: UserId, email: Option<string>)
    | RejectOp(user: UserId, email: Option<string>)

  function Step(s: State, op: Op): (t: Transition)
    ensures t.next.users == s.users
  {
    match op
    case SendOp(u, to, now) => Send(s, u, to, now)
    case AcceptOp(u, email) => Accept(s, u, email)
    case RejectOp(u, email) => Reject(s, u, email)
  }

  /** The state after serving `ops` in order. No view adds or removes users. */
  function Run(s: State, ops: seq<Op>): (r: State)
    ensures r.users == s.users
    decreases |ops|
  {
    if ops == [] then s else Run(Step(s, ops[0]).next, ops[1..])
  }

  lemma StepPreservesValid(s: State, op: Op)
    requires Valid(s) && op.user in UserIds(s)
    ensures Valid(Step(s, op).next)
  {
    match op
    case SendOp(u, to, now) => SendPreservesValid(s, u, to, now);
    case AcceptOp(u, email) => AcceptPreservesValid(s, u, email);
    case RejectOp(u, email) => RejectPreservesValid(s, u, email);
  }

  /** Any sequence of calls by authenticated users keeps the state valid. */
  lemma {:induction false} RunPreservesValid(s: State, ops: seq<Op>)
    requires Valid(s)
    requires forall op :: op in ops ==> op.user in UserIds(s)
    ensures Valid(Run(s, ops))
    decreases |ops|
  {
    if ops != [] {
      StepPreservesValid(s, ops[0]);
      assert forall op :: op in ops[1..] ==> op in ops;
      RunPreservesValid(Step(s, ops[0]).next, ops[1..]);
    }
  }

  /** A freshly populated deployment: the registered users, nobody befriended, no
      friend requests and an empty cache. */
  function Initial(users: seq<Account>): State {
    State(users, map[], [], 0, map[])
  }

  /** Every state reachable from a fresh deployment with unique ids and emails, by
      calls of registered users, is valid. */
  lemma ReachableValid(users: seq<Account>, ops: seq<Op>)
    requires UniqueKey(users, AccountId) && UniqueKey(users, AccountEmail)
    requires forall op :: op in ops ==> op.user in UserIds(Initial(users))
    ensures Valid(Run(Initial(users), ops))
  {
    RunPreservesValid(Initial(users), ops);
  }

  /** Sends by `me` in `ops` that got past the rate check: answered Sent or Duplicate. */
  function CountedSends(s: State, ops: seq<Op>, me: UserId): nat
    decreases |ops|
  {
    if ops == [] then 0
    else
      var t := Step(s, ops[0]);
      (if ops[0].SendOp? && ops[0].user == me && t.outcome in {Sent, Duplicate} then 1 else 0)
        + CountedSends(t.next, ops[1..], me)
  }

  /** Every send by `me` in `ops` happens in the minute that begins at `start`. */
  ghost predicate WithinMinute(ops: seq<Op>, me: UserId, start: int) {
    forall op :: op in ops && op.SendOp? && op.user == me ==> start <= op.now < start + Window
  }

  /** The part of `me`'s counter that is certain to last the whole minute from `start`. */
  function Held(s: State, me: UserId, start: int): int {
    if me in s.counters && s.counters[me].expires >= start + Window then s.counters[me].value else 0
  }

  /** One call changes the held count by exactly the sends it lets past the rate check
      (one if it is such a send by `me`, none otherwise), and the bound on stored
      counters survives. */
  lemma StepHeld(s: State, op: Op, me: UserId, start: int)
    requires CountersBounded(s)
    requires op.SendOp? && op.user == me ==> start <= op.now < start + Window
    ensures CountersBounded(Step(s, op).next)
    ensures Held(Step(s, op).next, me, start) <= Limit
    ensures var counted := op.SendOp? && op.user == me && Step(s, op).outcome in {Sent, Duplicate};
            Held(Step(s, op).next, me, start) >= Held(s, me, start) + (if counted then 1 else 0)
  {
    var t := Step(s, op);
    if op.SendOp? && t.outcome in {Sent, Duplicate} {
      var n := RecentSends(s, op.user, op.now);
      assert 0 <= n < Limit;
    }
  }

  /** The rate cap, with the counter carried in: the sends let through plus what the
      counter already holds for the minute never exceed the limit. */
  lemma {:induction false} RateCapFrom(s: State, ops: seq<Op>, me: UserId, start: int)
    requires CountersBounded(s)
    requires WithinMinute(ops, me, start)
    ensures CountedSends(s, ops, me) + Held(s, me, start) <= Limit
    decreases |ops|
  {
    if ops == [] {
      assert Held(s, me, start) <= Limit;
    } else {
      assert ops[0] in ops;
      StepHeld(s, ops[0], me, start);
      assert forall op :: op in ops[1..] ==> op in ops;
      RateCapFrom(Step(s, ops[0]).next, ops[1..], me, start);
    }
  }

  /** Whatever else happens in between, at most three of a sender's sends made within
      one minute get past the rate check; every other one is refused as rate-limited
      (or fails earlier on an unknown recipient). */
  lemma RateCap(s: State, ops: seq<Op>, me: UserId, start: int)
    requires Valid(s)
    requires WithinMinute(ops, me, start)
    ensures CountedSends(s, ops, me) <= Limit
  {
    RateCapFrom(s, ops, me, start);
  }
}
