/**
 * The JavaScript array built-ins the board code relies on, as functions on
 * sequences: `indexOf`/`findIndex`, `splice` (removing one element, and
 * inserting a block at an index), plus the filter "drop every element of a
 * given list" that the batch move amounts to.
 */
module Sequences {

  function Min(a: int, b: int): int {
    if a <= b then a else b
  }

  /** No element occurs twice. */
  predicate NoDup<T(==)>(s: seq<T>) {
    forall i, j :: 0 <= i < j < |s| ==> s[i] != s[j]
  }

  /** `s.indexOf(x)` (and `findIndex` by equality): the first position of `x`, or -1. */
  function IndexOf<T(==)>(s: seq<T>, x: T): (i: int)
    ensures -1 <= i < |s|
    ensures i == -1 <==> x !in s
    ensures 0 <= i ==> s[i] == x && x !in s[..i]
  {
    if s == [] then -1
    else if s[0] == x then 0
    else
      var j := IndexOf(s[1..], x);
      if j == -1 then -1
      else
        assert s[..j + 1] == [s[0]] + s[1..][..j];
        j + 1
  }

  /** `s.splice(i, 1)` on a copy: the sequence without its element at `i`. */
  function RemoveAt<T>(s: seq<T>, i: nat): (r: seq<T>)
    requires i < |s|
    ensures |r| == |s| - 1
    ensures multiset(r) + multiset{s[i]} == multiset(s)
    ensures forall k :: 0 <= k < i ==> r[k] == s[k]
    ensures forall k :: i <= k < |r| ==> r[k] == s[k + 1]
  {
    assert s == s[..i] + [s[i]] + s[i + 1..];
    s[..i] + s[i + 1..]
  }

  /**
   * `s.splice(i, 0, ...b)` on a copy: `b` inserted as one block before
   * position `i`; an index past the end appends, as `splice` does.
   */
  function InsertAt<T>(s: seq<T>, i: nat, b: seq<T>): (r: seq<T>)
    ensures |r| == |s| + |b|
    ensures multiset(r) == multiset(s) + multiset(b)
    ensures var j := Min(i, |s|);
      r[..j] == s[..j] && r[j..j + |b|] == b && r[j + |b|..] == s[j..]
  {
    var j := Min(i, |s|);
    assert s == s[..j] + s[j..];
    s[..j] + b + s[j..]
  }

  /** The elements of `s` that are not in `drop`, in their order in `s`. */
  function Without<T(==)>(s: seq<T>, drop: seq<T>): (r: seq<T>)
    ensures forall x :: x in r ==> x in s && x !in drop
    ensures forall x :: x in s && x !in drop ==> x in r
    ensures NoDup(s) ==> NoDup(r)
    ensures |r| <= |s|
  {
    if s == [] then []
    else if s[0] in drop then Without(s[1..], drop)
    else [s[0]] + Without(s[1..], drop)
  }

  lemma {:induction false} NoDupTail<T>(s: seq<T>)
    requires NoDup(s) && s != []
    ensures NoDup(s[1..]) && s[0] !in s[1..]
  {
  }

  /** Dropping an element that does not occur in `s` changes nothing. */
  lemma {:induction false} WithoutAbsent<T>(s: seq<T>, drop: seq<T>, x: T)
    requires x !in s
    ensures Without(s, drop + [x]) == Without(s, drop)
  {
    if s != [] {
      assert s[0] in drop + [x] <==> s[0] in drop;
      WithoutAbsent(s[1..], drop, x);
    }
  }

  /**
   * Dropping one more present element `x` is the same as finding `x` in the
   * previous result and splicing it out: the step of the batch move.
   */
  lemma {:induction false} WithoutSnoc<T>(s: seq<T>, drop: seq<T>, x: T)
    requires NoDup(s) && x in s && x !in drop
    ensures IndexOf(Without(s, drop), x) >= 0
    ensures Without(s, drop + [x]) == RemoveAt(Without(s, drop), IndexOf(Without(s, drop), x))
  {
    NoDupTail(s);
    if s[0] in drop {
      assert Without(s, drop) == Without(s[1..], drop);
      assert Without(s, drop + [x]) == Without(s[1..], drop + [x]);
      WithoutSnoc(s[1..], drop, x);
    } else if s[0] == x {
      var t := Without(s[1..], drop);
      assert Without(s, drop) == [x] + t;
      assert Without(s, drop + [x]) == Without(s[1..], drop + [x]);
      WithoutAbsent(s[1..], drop, x);
    } else {
      var t := Without(s[1..], drop);
      assert Without(s, drop) == [s[0]] + t;
      assert Without(s, drop + [x]) == [s[0]] + Without(s[1..], drop + [x]);
      WithoutSnoc(s[1..], drop, x);
      RemoveAtCons(s[0], t, IndexOf(t, x));
    }
  }

  lemma RemoveAtCons<T>(h: T, t: seq<T>, k: nat)
    requires k < |t|
    ensures RemoveAt([h] + t, k + 1) == [h] + RemoveAt(t, k)
  {
  }

  /**
   * When `drop` lists distinct elements of a duplicate-free `s`, the kept
   * part and the dropped part together are exactly `s`, as a multiset.
   */
  lemma {:induction false} WithoutSplits<T>(s: seq<T>, drop: seq<T>)
    requires NoDup(s) && NoDup(drop)
    requires forall x :: x in drop ==> x in s
    ensures multiset(Without(s, drop)) + multiset(drop) == multiset(s)
  {
    if drop == [] {
      WithoutNothing(s);
    } else {
      var init, x := drop[..|drop| - 1], drop[|drop| - 1];
      assert drop == init + [x];
      assert x !in init;
      assert NoDup(init) by {
        forall i, j | 0 <= i < j < |init| ensures init[i] != init[j] {
          assert init[i] == drop[i] && init[j] == drop[j];
        }
      }
      WithoutSplits(s, init);
      WithoutSnoc(s, init, x);
      var w := Without(s, init);
      var k := IndexOf(w, x);
      assert multiset(RemoveAt(w, k)) + multiset{x} == multiset(w);
    }
  }

  lemma {:induction false} WithoutNothing<T>(s: seq<T>)
    ensures Without(s, []) == s
  {
    if s != [] {
      WithoutNothing(s[1..]);
      assert s == [s[0]] + s[1..];
    }
  }

  /** A sequence is duplicate-free exactly when no element is counted twice. */
  lemma {:induction false} NoDupCounts<T>(s: seq<T>)
    ensures NoDup(s) <==> forall x :: multiset(s)[x] <= 1
  {
    if s == [] {
    } else {
      assert s == [s[0]] + s[1..];
      NoDupCounts(s[1..]);
      if NoDup(s) {
        NoDupTail(s);
        forall x ensures multiset(s)[x] <= 1 {
          if x == s[0] {
            assert multiset(s[1..])[x] == 0;
          }
        }
      } else {
        var i, j :| 0 <= i < j < |s| && s[i] == s[j];
        var x := s[i];
        assert s == s[..j] + s[j..];
        assert x in s[..j];
        assert x in s[j..];
        assert multiset(s)[x] == multiset(s[..j])[x] + multiset(s[j..])[x];
      }
    }
  }
}
