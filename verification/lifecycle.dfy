/** What each view keeps true and what it leaves possible afterwards: every view
    preserves the table invariants, accept keeps friendship mutual, and a request
    that has been accepted or rejected can be acted on no further.
 */
module Lifecycle {
  import opened Orm
  import Cache
  import opened Social
  import opened Views

  /** A send by an authenticated user keeps the state valid: the new request has a
      fresh id and a pair no earlier request has, it is unaccepted so the friend
      relation still mirrors the accepted requests, and the counter stays within 1..3. */
  lemma SendPreservesValid(s: State, me: UserId, to: Option<UserId>, now: int)
    requires Valid(s)
    requires me in UserIds(s)
    ensures Valid(Send(s, me, to, now).next)
  {
    var t := Send(s, me, to, now);
    var s' := t.next;
    if t.outcome in {Sent, Duplicate} {
      var n := RecentSends(s, me, now);
      assert 0 <= n < Limit;
      assert CountersBounded(s');
      if t.outcome == Sent {
        var q := FriendRequest(s.nextId, me, to.value, now, false);
        assert !HasRequest(s, me, to.value);
        UniqueKeyAppend(s.ledger, RequestId, q);
        UniqueKeyAppend(s.ledger, RequestPair, q);
      }
      forall a, b
        ensures b in FriendsOf(s', a) <==> AcceptedBetween(s', a, b)
      {
        assert AcceptedBetween(s', a, b) <==> AcceptedBetween(s, a, b);
      }
    }
  }

  /** The ledger after a successful accept: the located request, now accepted, in
      place of the unaccepted one, all other requests as they were. */
  lemma AcceptedLedger(s: State, me: UserId, email: Option<string>)
    requires Valid(s)
    requires Locate(s, me, email).Some?
    ensures var q := Locate(s, me, email).value;
            var s' := Accept(s, me, email).next;
            && UniqueKey(s'.ledger, RequestId)
            && UniqueKey(s'.ledger, RequestPair)
            && forall x :: x in s'.ledger <==> (x in s.ledger && x != q) || x == q.(accepted := true)
  {
    var q := Locate(s, me, email).value;
    var q' := q.(accepted := true);
    var p := (x: FriendRequest) => x.id == q.id;
    assert forall z :: z in s.ledger ==> (p(z) <==> z == q) by {
      forall z | z in s.ledger ensures p(z) <==> z == q {
        assert p(z) ==> RequestId(z) == RequestId(q);
      }
    }
    UniqueKeyReplace(s.ledger, RequestId, p, q, q');
    UniqueKeyReplace(s.ledger, RequestPair, p, q, q');
  }

  /** After an accept the friend relation still mirrors the accepted requests: the
      accepted request and the new friendship appear together. */
  lemma AcceptKeepsFriendsMirrored(s: State, me: UserId, email: Option<string>)
    requires FriendsMirrorRequests(s)
    requires Locate(s, me, email).Some?
    requires var q := Locate(s, me, email).value;
             forall x :: x in Accept(s, me, email).next.ledger <==> (x in s.ledger && x != q) || x == q.(accepted := true)
    ensures FriendsMirrorRequests(Accept(s, me, email).next)
  {
    var q := Locate(s, me, email).value;
    MirroredAfterAccepting(s, Accept(s, me, email).next, q);
  }

  /** Marking the unaccepted request `q` accepted while befriending its two parties
      keeps the friend relation mirroring the accepted requests. */
  lemma MirroredAfterAccepting(s: State, s': State, q: FriendRequest)
    requires FriendsMirrorRequests(s)
    requires q in s.ledger && !q.accepted
    requires forall x :: x in s'.ledger <==> (x in s.ledger && x != q) || x == q.(accepted := true)
    requires FriendsOf(s', q.from) == FriendsOf(s, q.from) + {q.to}
    requires FriendsOf(s', q.to) == FriendsOf(s, q.to) + {q.from}
    requires forall u :: u != q.to && u != q.from ==> FriendsOf(s', u) == FriendsOf(s, u)
    ensures FriendsMirrorRequests(s')
  {
    var q' := q.(accepted := true);
    var me := q.to;
    forall a, b
      ensures b in FriendsOf(s', a) <==> AcceptedBetween(s', a, b)
    {
      var pair := (a == q.from && b == me) || (a == me && b == q.from);
      assert AcceptedBetween(s', a, b) ==> AcceptedBetween(s, a, b) || pair;
      assert pair ==> AcceptedBetween(s', a, b) by {
        if pair {
          assert q' in s'.ledger;
        }
      }
      assert AcceptedBetween(s, a, b) ==> AcceptedBetween(s', a, b) by {
        if AcceptedBetween(s, a, b) {
          var w :| w in s.ledger && w.accepted && ((w.from == a && w.to == b) || (w.from == b && w.to == a));
          assert w != q;
        }
      }
    }
  }

  /** Accepting keeps the state valid. */
  lemma AcceptPreservesValid(s: State, me: UserId, email: Option<string>)
    requires Valid(s)
    ensures Valid(Accept(s, me, email).next)
  {
    if Locate(s, me, email).Some? {
      AcceptedLedger(s, me, email);
      AcceptKeepsFriendsMirrored(s, me, email);
    }
  }

  /** Rejecting keeps the state valid: only an unaccepted request disappears. */
  lemma RejectPreservesValid(s: State, me: UserId, email: Option<string>)
    requires Valid(s)
    ensures Valid(Reject(s, me, email).next)
  {
    var t := Reject(s, me, email);
    if t.outcome == Rejected {
      var q := Locate(s, me, email).value;
      var s' := t.next;
      var p := (x: FriendRequest) => x.id != q.id;
      assert s'.ledger == Select(s.ledger, p);
      UniqueKeySelect(s.ledger, RequestId, p);
      UniqueKeySelect(s.ledger, RequestPair, p);
      forall a, b
        ensures b in FriendsOf(s', a) <==> AcceptedBetween(s', a, b)
      {
        assert AcceptedBetween(s, a, b) ==> AcceptedBetween(s', a, b) by {
          if AcceptedBetween(s, a, b) {
            var w :| w in s.ledger && w.accepted && ((w.from == a && w.to == b) || (w.from == b && w.to == a));
            assert w.id != q.id by {
              assert RequestId(w) != RequestId(q) || w == q;
            }
          }
        }
      }
    }
  }

  /** In a valid state reject deletes exactly the located request: one record fewer,
      every other record kept. */
  lemma RejectRemovesOnlyThat(s: State, me: UserId, email: Option<string>)
    requires Valid(s)
    requires Locate(s, me, email).Some?
    ensures var q := Locate(s, me, email).value;
            var s' := Reject(s, me, email).next;
            && |s'.ledger| == |s.ledger| - 1
            && forall x :: x in s'.ledger <==> x in s.ledger && x != q
  {
    var q := Locate(s, me, email).value;
    var p := (x: FriendRequest) => x.id != q.id;
    var k :| 0 <= k < |s.ledger| && s.ledger[k] == q;
    forall i | 0 <= i < |s.ledger|
      ensures !p(s.ledger[i]) <==> i == k
    {
      assert s.ledger[i] in s.ledger;
      assert RequestId(s.ledger[i]) == RequestId(q) ==> s.ledger[i] == q;
      assert i != k ==> s.ledger[i] != s.ledger[k];
    }
    SelectDropsOne(s.ledger, p, k);
    assert Reject(s, me, email).next.ledger == Select(s.ledger, p);
    forall x | x in s.ledger
      ensures x.id != q.id <==> x != q
    {
      assert RequestId(x) == RequestId(q) ==> x == q;
    }
  }

  /** Accept adds both directions of the friendship at once, so a mutual relation stays
      mutual whatever the rest of the state. */
  lemma AcceptPreservesSymmetry(s: State, me: UserId, email: Option<string>)
    requires Symmetric(s)
    ensures Symmetric(Accept(s, me, email).next)
  {
    var t := Accept(s, me, email);
    if t.outcome == Accepted {
      var q := Locate(s, me, email).value;
      forall a, b
        ensures b in FriendsOf(t.next, a) <==> a in FriendsOf(t.next, b)
      {
        assert b in FriendsOf(s, a) <==> a in FriendsOf(s, b);
      }
    }
  }

  /** In a valid state every account with the given email is the sender of the
      request located by that email. */
  lemma SenderOfEmail(s: State, me: UserId, email: Option<string>)
    requires Valid(s)
    requires Locate(s, me, email).Some?
    ensures forall a :: a in s.users && email == Some(a.email) ==> a.id == Locate(s, me, email).value.from
  {
    var b :| b in s.users && email == Some(b.email) && b.id == Locate(s, me, email).value.from;
    forall a | a in s.users && email == Some(a.email)
      ensures a.id == b.id
    {
      assert AccountEmail(a) == AccountEmail(b);
    }
  }

  /** In a valid state the only request from `q.from` to `q.to` is `q` itself. */
  lemma OnlyRequestForPair(s: State, q: FriendRequest)
    requires Valid(s) && q in s.ledger
    ensures forall x :: x in s.ledger && x != q ==> x.from != q.from || x.to != q.to
  {
    forall x | x in s.ledger && x != q
      ensures x.from != q.from || x.to != q.to
    {
      assert RequestPair(x) != RequestPair(q);
    }
  }

  /** Once accepted, a request cannot be accepted or rejected again: the lookup for an
      unaccepted request from that sender now finds nothing. */
  lemma NoActionAfterAccept(s: State, me: UserId, email: Option<string>)
    requires Valid(s)
    requires Locate(s, me, email).Some?
    ensures Accept(Accept(s, me, email).next, me, email).outcome == NotFound
    ensures Reject(Accept(s, me, email).next, me, email).outcome == NotFound
  {
    var q := Locate(s, me, email).value;
    var s' := Accept(s, me, email).next;
    AcceptedLedger(s, me, email);
    AcceptPreservesValid(s, me, email);
    SenderOfEmail(s, me, email);
    OnlyRequestForPair(s, q);
    assert forall x :: x in s'.ledger && x.to == me && !x.accepted ==> x.from != q.from;
    assert Locate(s', me, email).None?;
  }

  /** Once rejected, a request is gone: accepting or rejecting it again fails. */
  lemma NoActionAfterReject(s: State, me: UserId, email: Option<string>)
    requires Valid(s)
    requires Locate(s, me, email).Some?
    ensures Accept(Reject(s, me, email).next, me, email).outcome == NotFound
    ensures Reject(Reject(s, me, email).next, me, email).outcome == NotFound
  {
    var q := Locate(s, me, email).value;
    var s' := Reject(s, me, email).next;
    RejectPreservesValid(s, me, email);
    SenderOfEmail(s, me, email);
    OnlyRequestForPair(s, q);
    assert forall x :: x in s'.ledger && x.to == me ==> x.from != q.from;
    assert Locate(s', me, email).None?;
  }

  /** The duplicate check does not look at `accepted`: after an accept, the original
      sender cannot send to the same user again; the send is refused as a duplicate
      (or earlier, by the rate limit). */
  lemma AcceptedBlocksResend(s: State, me: UserId, email: Option<string>, now: int)
    requires Valid(s)
    requires Locate(s, me, email).Some?
    ensures var q := Locate(s, me, email).value;
            Send(Accept(s, me, email).next, q.from, Some(me), now).outcome in {Duplicate, RateLimited}
  {
    var q := Locate(s, me, email).value;
    var s' := Accept(s, me, email).next;
    AcceptedLedger(s, me, email);
    assert q.(accepted := true) in s'.ledger;
    assert HasRequest(s', q.from, me);
  }

  /** Send, then accept: each user lists the other as a friend and the request has
      left the recipient's pending list. */
  lemma SendThenAccept(s: State, from: Account, to: UserId, now: int)
    requires Valid(s)
    requires from in s.users
    requires Send(s, from.id, Some(to), now).outcome == Sent
    ensures var s1 := Send(s, from.id, Some(to), now).next;
            var t2 := Accept(s1, to, Some(from.email));
            && t2.outcome == Accepted
            && to in ListFriends(t2.next, from.id)
            && from.id in ListFriends(t2.next, to)
            && forall x :: x in ListPending(t2.next, to) ==> x.from != from.id
  {
    var s1 := Send(s, from.id, Some(to), now).next;
    SendPreservesValid(s, from.id, Some(to), now);
    var q := FriendRequest(s.nextId, from.id, to, now, false);
    assert q in s1.ledger;
    var t2 := Accept(s1, to, Some(from.email));
    AcceptPreservesValid(s1, to, Some(from.email));
    assert t2.outcome == Accepted;
    var found := Locate(s1, to, Some(from.email)).value;
    SenderOfEmail(s1, to, Some(from.email));
    NoActionAfterAccept(s1, to, Some(from.email));
    AcceptedLedger(s1, to, Some(from.email));
    OnlyRequestForPair(s1, found);
    assert forall x :: x in ListPending(t2.next, to) ==> x.from != from.id;
  }
}
