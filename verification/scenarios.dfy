/** Concrete request sequences from the friend-request workflow, stated for every
    valid state that meets their starting conditions.
 */
module Scenarios {
  import opened Orm
  import Cache
  import opened Social
  import opened Views
  import opened Lifecycle

  /** `a` sends to `b` three times, each send within a minute of the one before:
      the first is sent, the next two are duplicates that still use up the rate
      counter, and a fourth send to a different user `c` is refused as rate-limited,
      even when it comes more than a minute after the first, because every counted
      send pushes the counter's expiry another minute out. Once a minute has passed
      since the last counted send, the counter has expired and a send to `c` goes
      through. */
  lemma DuplicatesUseUpTheLimit(s: State, a: UserId, b: UserId, c: UserId,
                                t0: int, t1: int, t2: int, t3: int, t4: int)
    requires Valid(s)
    requires a in UserIds(s) && b in UserIds(s) && c in UserIds(s) && b != c
    requires RecentSends(s, a, t0) == 0
    requires !HasRequest(s, a, b) && !HasRequest(s, a, c)
    requires t0 <= t1 < t0 + Window && t1 <= t2 < t1 + Window && t2 <= t3 < t2 + Window
    requires t4 >= t2 + Window
    ensures var r1 := Send(s, a, Some(b), t0);
            var r2 := Send(r1.next, a, Some(b), t1);
            var r3 := Send(r2.next, a, Some(b), t2);
            var r4 := Send(r3.next, a, Some(c), t3);
            var r5 := Send(r4.next, a, Some(c), t4);
            && r1.outcome == Sent
            && r2.outcome == Duplicate
            && r3.outcome == Duplicate
            && r4.outcome == RateLimited
            && r5.outcome == Sent
  {
    var r1 := Send(s, a, Some(b), t0);
    assert r1.outcome == Sent;
    assert RecentSends(r1.next, a, t1) == 1;
    assert HasRequest(r1.next, a, b) by {
      assert FriendRequest(s.nextId, a, b, t0, false) in r1.next.ledger;
    }
    var r2 := Send(r1.next, a, Some(b), t1);
    assert r2.outcome == Duplicate;
    assert RecentSends(r2.next, a, t2) == 2;
    var r3 := Send(r2.next, a, Some(b), t2);
    assert r3.outcome == Duplicate;
    assert RecentSends(r3.next, a, t3) == 3;
    var r4 := Send(r3.next, a, Some(c), t3);
    assert r4.outcome == RateLimited;
    assert RecentSends(r4.next, a, t4) == 0;
    assert !HasRequest(r4.next, a, c) by {
      assert forall q :: q in r4.next.ledger ==> q in s.ledger || q.to == b;
    }
  }

  /** Nothing stops a user from sending a request to themselves; once they accept it,
      they are listed among their own friends. */
  lemma SelfRequest(s: State, a: Account, now: int)
    requires Valid(s)
    requires a in s.users
    requires RecentSends(s, a.id, now) < Limit
    requires !HasRequest(s, a.id, a.id)
    ensures var r1 := Send(s, a.id, Some(a.id), now);
            var r2 := Accept(r1.next, a.id, Some(a.email));
            && r1.outcome == Sent
            && r2.outcome == Accepted
            && a.id in ListFriends(r2.next, a.id)
  {
    var r1 := Send(s, a.id, Some(a.id), now);
    assert a.id in UserIds(s);
    assert r1.outcome == Sent;
    SendPreservesValid(s, a.id, Some(a.id), now);
    assert FriendRequest(s.nextId, a.id, a.id, now, false) in r1.next.ledger;
    var r2 := Accept(r1.next, a.id, Some(a.email));
    assert r2.outcome == Accepted;
  }
}
