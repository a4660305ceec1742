/**
 * Ascending traversal of the id-keyed maps (std::map<id, ...>) the scene and
 * its entities keep: iteration visits the keys from the smallest up.
 */
module Ordered {
  lemma HasMinimum(s: set<nat>)
    requires s != {}
    ensures exists x :: x in s && forall y :: y in s ==> x <= y
  {
    var a :| a in s;
    MinimumAtLeast(s, a, 0);
  }

  /** Counting up from a lower bound k of s finds its minimum by the time it reaches a in s. */
  lemma {:induction false} MinimumAtLeast(s: set<nat>, a: nat, k: nat)
    requires a in s && k <= a && forall y :: y in s ==> k <= y
    ensures exists x :: x in s && forall y :: y in s ==> x <= y
    decreases a - k
  {
    if k !in s {
      MinimumAtLeast(s, a, k + 1);
    }
  }

  /** The smallest key: what begin() of a non-empty std::map points at. */
  function Min(s: set<nat>): (m: nat)
    requires s != {}
    ensures m in s && forall y :: y in s ==> m <= y
  {
    HasMinimum(s);
    var x :| x in s && forall y :: y in s ==> x <= y;
    x
  }

  predicate StrictlyIncreasing(ks: seq<nat>)
  {
    forall i, j :: 0 <= i < j < |ks| ==> ks[i] < ks[j]
  }

  /** The keys of s in iteration order. */
  function Ascending(s: set<nat>): (ks: seq<nat>)
    ensures StrictlyIncreasing(ks)
    ensures |ks| == |s|
    ensures forall k :: k in s <==> k in ks
    decreases |s|
  {
    if s == {} then []
    else
      var m := Min(s);
      var rest := Ascending(s - {m});
      assert forall k :: k in rest ==> m < k;
      [m] + rest
  }

  /** Every key of s below the key at position i of Ascending(s) comes earlier. */
  lemma AscendingBefore(s: set<nat>, i: nat, k: nat)
    requires i < |Ascending(s)| && k in s && k < Ascending(s)[i]
    ensures exists j :: 0 <= j < i && Ascending(s)[j] == k
  {
    IncreasingBefore(Ascending(s), i, k);
  }

  lemma IncreasingBefore(ks: seq<nat>, i: nat, k: nat)
    requires StrictlyIncreasing(ks) && i < |ks| && k in ks && k < ks[i]
    ensures exists j :: 0 <= j < i && ks[j] == k
  {
    var j :| 0 <= j < |ks| && ks[j] == k;
    assert j < i;
  }

  /** The numbers a + 1 .. b. */
  function Interval(a: nat, b: nat): (r: set<nat>)
    ensures forall k :: k in r <==> a < k <= b
    ensures a <= b ==> |r| == b - a
    decreases b
  {
    if b <= a then {} else Interval(a, b - 1) + {b}
  }

  lemma {:induction false} SubsetSize<T>(a: set<T>, b: set<T>)
    requires a <= b
    ensures |a| <= |b|
    decreases |a|
  {
    if a != {} {
      var x :| x in a;
      SubsetSize(a - {x}, b - {x});
    }
  }

  /** A set that holds every number in (a, b] has at least b - a elements. */
  lemma IntervalWithin(a: nat, b: nat, s: set<nat>)
    requires a <= b && forall k :: a < k <= b ==> k in s
    ensures b - a <= |s|
  {
    SubsetSize(Interval(a, b), s);
  }
}
