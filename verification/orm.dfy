/** The three table operations the friend-request views rely on, with a table held
    as a sequence of rows in storage order: `filter` (Select), `get` (GetOne),
    `exists` (Exists), plus the row rewrite behind `save()` (Replace).
 */
module Orm {

  datatype Option<+T> = None | Some(value: T)

  /** No row occurs twice. */
  predicate NoDup<T(==)>(xs: seq<T>) {
    forall i, j :: 0 <= i < j < |xs| ==> xs[i] != xs[j]
  }

  /** `key` identifies rows: a uniqueness constraint on a column (or pair of columns). */
  predicate UniqueKey<T(==,!new), K(==)>(xs: seq<T>, key: T -> K) {
    && NoDup(xs)
    && forall a, b :: a in xs && b in xs && key(a) == key(b) ==> a == b
  }

  /** Exactly one row satisfies `p`. */
  ghost predicate ExactlyOne<T(!new)>(xs: seq<T>, p: T -> bool) {
    exists x :: x in xs && p(x) && forall y :: y in xs && p(y) ==> y == x
  }

  lemma NoDupCons<T>(x: T, xs: seq<T>)
    requires x !in xs && NoDup(xs)
    ensures NoDup([x] + xs)
  {
    forall i, j | 0 <= i < j < |[x] + xs|
      ensures ([x] + xs)[i] != ([x] + xs)[j]
    {
      if i == 0 {
        assert ([x] + xs)[j] == xs[j - 1];
      }
    }
  }

  /** `filter(p)`: the rows satisfying `p`, in table order. */
  function Select<T(==,!new)>(xs: seq<T>, p: T -> bool): (r: seq<T>)
    ensures |r| <= |xs|
    ensures forall x :: x in r <==> x in xs && p(x)
    ensures NoDup(xs) ==> NoDup(r)
  {
    if xs == [] then []
    else
      var rest := Select(xs[1..], p);
      assert NoDup(xs) ==> NoDup([xs[0]] + rest) by {
        if NoDup(xs) {
          assert NoDup(xs[1..]) && xs[0] !in xs[1..];
          NoDupCons(xs[0], rest);
        }
      }
      if p(xs[0]) then [xs[0]] + rest else rest
  }

  /** The first two rows of a duplicate-free table are two different rows of it. */
  lemma FirstTwo<T>(xs: seq<T>)
    ensures NoDup(xs) && |xs| >= 2 ==> xs[0] != xs[1] && xs[0] in xs && xs[1] in xs
  {
  }

  /** A duplicate-free sequence all of whose elements equal `x`, and that holds `x`, is `[x]`. */
  lemma OnlyElement<T>(xs: seq<T>, x: T)
    requires NoDup(xs) && x in xs
    requires forall y :: y in xs ==> y == x
    ensures xs == [x]
  {
    FirstTwo(xs);
    assert xs[0] in xs;
  }

  /** `get(p)`: the one row satisfying `p`. None stands for both failures of `get`:
      no such row (DoesNotExist) and several such rows (MultipleObjectsReturned). */
  function GetOne<T(==,!new)>(xs: seq<T>, p: T -> bool): (r: Option<T>)
    ensures r.Some? ==> r.value in xs && p(r.value)
    ensures r.Some? ==> forall y :: y in xs && p(y) ==> y == r.value
    ensures (forall y :: y in xs ==> !p(y)) ==> r.None?
    ensures NoDup(xs) ==> (r.Some? <==> ExactlyOne(xs, p))
  {
    var found := Select(xs, p);
    if |found| == 1 then
      assert found == [found[0]];
      Some(found[0])
    else
      assert NoDup(xs) && ExactlyOne(xs, p) ==> |found| == 1 by {
        if NoDup(xs) && ExactlyOne(xs, p) {
          var x :| x in xs && p(x) && forall y :: y in xs && p(y) ==> y == x;
          OnlyElement(found, x);
        }
      }
      None
  }

  /** With at most one matching row in a duplicate-free table, `get` succeeds exactly
      when some row matches. */
  lemma GetOneAtMostOne<T(!new)>(xs: seq<T>, p: T -> bool)
    ensures NoDup(xs) && (forall a, b :: a in xs && b in xs && p(a) && p(b) ==> a == b) ==>
              (GetOne(xs, p).Some? <==> exists x :: x in xs && p(x))
  {
    if NoDup(xs) && (forall a, b :: a in xs && b in xs && p(a) && p(b) ==> a == b) {
      if x :| x in xs && p(x) {
        assert ExactlyOne(xs, p);
      }
    }
  }

  /** Under a uniqueness constraint on `key`, a `get` whose condition fixes the key to
      `k` succeeds exactly when some row meets the condition. */
  lemma GetByKey<T(!new), K>(xs: seq<T>, key: T -> K, k: K, p: T -> bool)
    requires forall x :: p(x) ==> key(x) == k
    ensures UniqueKey(xs, key) ==> (GetOne(xs, p).Some? <==> exists x :: x in xs && p(x))
  {
    GetOneAtMostOne(xs, p);
  }

  /** `filter(p).exists()`. */
  function Exists<T(==,!new)>(xs: seq<T>, p: T -> bool): (b: bool)
    ensures b <==> exists x :: x in xs && p(x)
  {
    var found := Select(xs, p);
    assert |found| > 0 ==> found[0] in found;
    |found| > 0
  }

  /** The rows satisfying `p` replaced by `y`, all others untouched, order kept: what
      `save()` does to the row whose primary key `p` selects. */
  function Replace<T(==,!new)>(xs: seq<T>, p: T -> bool, y: T): (r: seq<T>)
    ensures |r| == |xs|
    ensures forall i :: 0 <= i < |xs| ==> r[i] == (if p(xs[i]) then y else xs[i])
    ensures forall z :: z in r <==> (z in xs && !p(z)) || (z == y && exists w :: w in xs && p(w))
  {
    if xs == [] then []
    else
      var rest := Replace(xs[1..], p, y);
      [if p(xs[0]) then y else xs[0]] + rest
  }
  /** Inserting a row whose key no existing row has keeps the key unique. */
  lemma UniqueKeyAppend<T(!new), K>(xs: seq<T>, key: T -> K, y: T)
    requires UniqueKey(xs, key)
    requires forall x :: x in xs ==> key(x) != key(y)
    ensures UniqueKey(xs + [y], key)
  {
    var r := xs + [y];
    forall i, j | 0 <= i < j < |r|
      ensures r[i] != r[j]
    {
      if j == |xs| {
        assert r[i] in xs;
      }
    }
  }

  /** Deleting rows keeps a key unique. */
  lemma UniqueKeySelect<T(!new), K>(xs: seq<T>, key: T -> K, p: T -> bool)
    requires UniqueKey(xs, key)
    ensures UniqueKey(Select(xs, p), key)
  {
  }

  /** Overwriting the one row `x0` that `p` selects by a row `y` with the same key keeps
      the key unique. */
  lemma UniqueKeyReplace<T(!new), K>(xs: seq<T>, key: T -> K, p: T -> bool, x0: T, y: T)
    requires UniqueKey(xs, key)
    requires x0 in xs
    requires forall z :: z in xs ==> (p(z) <==> z == x0)
    requires key(y) == key(x0)
    ensures UniqueKey(Replace(xs, p, y), key)
  {
    var r := Replace(xs, p, y);
    forall i, j | 0 <= i < j < |r|
      ensures r[i] != r[j]
    {
      assert xs[i] in xs && xs[j] in xs;
      if p(xs[i]) {
        assert key(xs[j]) != key(x0);
      } else if p(xs[j]) {
        assert key(xs[i]) != key(x0);
      }
    }
  }
  /** Deleting the rows `p` rejects, when exactly one row (at index `k`) is rejected,
      shortens the table by one. */
  lemma {:induction false} SelectDropsOne<T(!new)>(xs: seq<T>, p: T -> bool, k: nat)
    requires k < |xs|
    requires forall i :: 0 <= i < |xs| ==> (!p(xs[i]) <==> i == k)
    ensures |Select(xs, p)| == |xs| - 1
  {
    if k == 0 {
      assert forall i :: 0 <= i < |xs[1..]| ==> p(xs[1..][i]);
      SelectKeepsAll(xs[1..], p);
    } else {
      assert forall i :: 0 <= i < |xs[1..]| ==> (!p(xs[1..][i]) <==> i == k - 1);
      SelectDropsOne(xs[1..], p, k - 1);
    }
  }

  /** When every row meets `p`, `filter(p)` keeps them all. */
  lemma {:induction false} SelectKeepsAll<T(!new)>(xs: seq<T>, p: T -> bool)
    requires forall i :: 0 <= i < |xs| ==> p(xs[i])
    ensures Select(xs, p) == xs
  {
    if xs != [] {
      assert forall i :: 0 <= i < |xs[1..]| ==> p(xs[1..][i]);
      SelectKeepsAll(xs[1..], p);
    }
  }
}
