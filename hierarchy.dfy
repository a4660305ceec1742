/**
 * Facts about parent links, independent of what the linked things are.  A
 * parent map sends each parented node to its parent; a node that is not a key
 * has no parent.  The hierarchy is acyclic when every walk up the parent links
 * reaches a node without a parent.
 */
module Hierarchy {
  import opened Wrappers

  /** The node k steps up from x, if the walk gets that far. */
  function Walk<T>(par: map<T, T>, x: T, k: nat): Option<T>
    decreases k
  {
    if k == 0 then Some(x) else if x in par then Walk(par, par[x], k - 1) else None
  }

  /** The walk up from x reaches a node without a parent within n steps. */
  ghost predicate Ends<T>(par: map<T, T>, x: T, n: nat)
    decreases n
  {
    x !in par || (n > 0 && Ends(par, par[x], n - 1))
  }

  ghost predicate Acyclic<T>(par: map<T, T>)
  {
    forall x :: x in par ==> exists n: nat :: Ends(par, x, n)
  }

  /** a is x itself or one of its ancestors. */
  ghost predicate AncestorOrSelf<T>(par: map<T, T>, x: T, a: T)
  {
    exists k: nat :: Walk(par, x, k) == Some(a)
  }

  lemma {:induction false} EndsMonotone<T>(par: map<T, T>, x: T, n: nat, m: nat)
    requires Ends(par, x, n) && n <= m
    ensures Ends(par, x, m)
    decreases n
  {
    if x in par {
      EndsMonotone(par, par[x], n - 1, m - 1);
    }
  }

  lemma EndsOf<T>(par: map<T, T>, x: T) returns (n: nat)
    requires Acyclic(par)
    ensures Ends(par, x, n)
  {
    if x in par {
      n :| Ends(par, x, n);
    } else {
      n := 0;
    }
  }

  ghost predicate SubMap<T>(small: map<T, T>, big: map<T, T>)
  {
    forall x :: x in small ==> x in big && small[x] == big[x]
  }

  lemma {:induction false} SubMapEnds<T>(small: map<T, T>, big: map<T, T>, x: T, n: nat)
    requires SubMap(small, big) && Ends(big, x, n)
    ensures Ends(small, x, n)
    decreases n
  {
    if x in small {
      SubMapEnds(small, big, big[x], n - 1);
    }
  }

  /** Dropping links (removing nodes or unparenting them) keeps a hierarchy acyclic. */
  lemma SubMapAcyclic<T>(small: map<T, T>, big: map<T, T>)
    requires SubMap(small, big) && Acyclic(big)
    ensures Acyclic(small)
  {
    forall x | x in small
      ensures exists n: nat :: Ends(small, x, n)
    {
      var n := EndsOf(big, x);
      SubMapEnds(small, big, x, n);
    }
  }

  lemma {:induction false} AvoidingWalkEnds<T>(par: map<T, T>, c: T, v: T, x: T, n: nat)
    requires Ends(par, x, n) && !AncestorOrSelf(par, x, c)
    ensures Ends(par[c := v], x, n)
    decreases n
  {
    assert Walk(par, x, 0) == Some(x);
    if x in par {
      forall k: nat
        ensures Walk(par, par[x], k) != Some(c)
      {
        assert Walk(par, x, k + 1) == Walk(par, par[x], k);
      }
      AvoidingWalkEnds(par, c, v, par[x], n - 1);
    }
  }

  lemma {:induction false} ThroughEnds<T>(par: map<T, T>, c: T, v: T, x: T, n: nat, m: nat)
    requires Ends(par, x, n) && Ends(par[c := v], c, m)
    ensures Ends(par[c := v], x, n + m)
    decreases n
  {
    if x == c {
      EndsMonotone(par[c := v], c, m, n + m);
    } else if x in par {
      ThroughEnds(par, c, v, par[x], n - 1, m);
    }
  }

  /**
   * Giving c the parent p keeps the hierarchy acyclic when c is neither p nor
   * one of p's ancestors: the check SetParent makes before relinking.
   */
  lemma ReparentAcyclic<T>(par: map<T, T>, c: T, p: T)
    requires Acyclic(par) && !AncestorOrSelf(par, p, c)
    ensures Acyclic(par[c := p])
  {
    var par' := par[c := p];
    var np := EndsOf(par, p);
    AvoidingWalkEnds(par, c, p, p, np);
    assert Ends(par', c, np + 1);
    forall x | x in par'
      ensures exists n: nat :: Ends(par', x, n)
    {
      var nx := EndsOf(par, x);
      ThroughEnds(par, c, p, x, nx, np + 1);
    }
  }

  /** Without the acyclicity check the relinking can close a cycle: a parent to b, b made a's parent. */
  lemma ReparentToDescendantCycles(a: int, b: int)
    requires a != b
    ensures AncestorOrSelf(map[a := b], b, b)
    ensures !Acyclic(map[a := b][b := a])
  {
    assert Walk(map[a := b], b, 0) == Some(b);
    var par := map[a := b][b := a];
    if Acyclic(par) {
      var n :| Ends(par, a, n);
      TwoCycleNeverEnds(par, a, b, n);
    }
  }

  lemma {:induction false} TwoCycleNeverEnds(par: map<int, int>, a: int, b: int, n: nat)
    requires a in par && b in par && par[a] == b && par[b] == a
    ensures !Ends(par, a, n) && !Ends(par, b, n)
    decreases n
  {
    if n > 0 {
      TwoCycleNeverEnds(par, a, b, n - 1);
    }
  }

  /** The nodes met walking up from x within n steps: x and its ancestors. */
  ghost function Ancestry<T>(par: map<T, T>, x: T, n: nat): set<T>
    requires Ends(par, x, n)
    decreases n
  {
    if x !in par then {x} else {x} + Ancestry(par, par[x], n - 1)
  }

  lemma {:induction false} AncestryFuel<T>(par: map<T, T>, x: T, n: nat, m: nat)
    requires Ends(par, x, n) && Ends(par, x, m)
    ensures Ancestry(par, x, n) == Ancestry(par, x, m)
    decreases n
  {
    if x in par {
      AncestryFuel(par, par[x], n - 1, m - 1);
    }
  }

  lemma EndsExist<T>(par: map<T, T>, x: T)
    requires Acyclic(par)
    ensures exists n: nat :: Ends(par, x, n)
  {
    var n := EndsOf(par, x);
  }

  /** x together with all its ancestors. */
  ghost function AncestrySet<T>(par: map<T, T>, x: T): set<T>
    requires Acyclic(par)
  {
    EndsExist(par, x);
    var n: nat :| Ends(par, x, n);
    Ancestry(par, x, n)
  }

  lemma AncestrySetIs<T>(par: map<T, T>, x: T, n: nat)
    requires Acyclic(par) && Ends(par, x, n)
    ensures AncestrySet(par, x) == Ancestry(par, x, n)
  {
    var m: nat :| Ends(par, x, m) && AncestrySet(par, x) == Ancestry(par, x, m);
    AncestryFuel(par, x, n, m);
  }

  lemma {:induction false} AncestryWalk<T>(par: map<T, T>, x: T, n: nat, y: T)
    requires Ends(par, x, n) && y in Ancestry(par, x, n)
    ensures exists k: nat :: Walk(par, x, k) == Some(y)
    decreases n
  {
    if y == x {
      assert Walk(par, x, 0) == Some(y);
    } else {
      AncestryWalk(par, par[x], n - 1, y);
      var k: nat :| Walk(par, par[x], k) == Some(y);
      assert Walk(par, x, k + 1) == Some(y);
    }
  }

  lemma {:induction false} WalkEnds<T>(par: map<T, T>, x: T, j: nat, y: T, m: nat)
    requires Walk(par, x, j) == Some(y) && Ends(par, x, m)
    ensures j <= m && Ends(par, y, m - j)
    decreases j
  {
    if j > 0 {
      WalkEnds(par, par[x], j - 1, y, m - 1);
    }
  }

  lemma {:induction false} CycleNeverEnds<T>(par: map<T, T>, c: T, j: nat, m: nat)
    requires j >= 1 && Walk(par, c, j) == Some(c)
    ensures !Ends(par, c, m)
    decreases m
  {
    if Ends(par, c, m) {
      WalkEnds(par, c, j, c, m);
      CycleNeverEnds(par, c, j, m - j);
    }
  }

  /**
   * A child is not among its parent's ancestors, so its ancestry is its
   * parent's plus itself: walking down the hierarchy from parent to child
   * always takes in a new node.
   */
  lemma ChildAncestry<T>(par: map<T, T>, c: T)
    requires Acyclic(par) && c in par
    ensures c !in AncestrySet(par, par[c])
    ensures AncestrySet(par, c) == AncestrySet(par, par[c]) + {c}
  {
    var e := par[c];
    var ne := EndsOf(par, e);
    AncestrySetIs(par, e, ne);
    var nc := ne + 1;
    assert Ends(par, c, nc);
    AncestrySetIs(par, c, nc);
    if c in Ancestry(par, e, ne) {
      AncestryWalk(par, e, ne, c);
      var k: nat :| Walk(par, e, k) == Some(c);
      assert Walk(par, c, k + 1) == Some(c);
      CycleNeverEnds(par, c, k + 1, nc);
    }
  }

  /** One step of the walk SetParent makes up the ancestor chain. */
  lemma AncestorStep<T>(par: map<T, T>, x: T, a: T)
    requires x != a
    ensures AncestorOrSelf(par, x, a) <==> x in par && AncestorOrSelf(par, par[x], a)
  {
    if AncestorOrSelf(par, x, a) {
      var k: nat :| Walk(par, x, k) == Some(a);
      assert k > 0 && x in par && Walk(par, par[x], k - 1) == Some(a);
    }
    if x in par && AncestorOrSelf(par, par[x], a) {
      var k: nat :| Walk(par, par[x], k) == Some(a);
      assert Walk(par, x, k + 1) == Some(a);
    }
  }

  lemma {:induction false} WalkAdd<T>(par: map<T, T>, x: T, j: nat, y: T, k: nat)
    requires Walk(par, x, j) == Some(y)
    ensures Walk(par, x, j + k) == Walk(par, y, k)
    decreases j
  {
    if j > 0 {
      WalkAdd(par, par[x], j - 1, y, k);
    }
  }

  lemma AncestorTransitive<T>(par: map<T, T>, x: T, y: T, z: T)
    requires AncestorOrSelf(par, x, y) && AncestorOrSelf(par, y, z)
    ensures AncestorOrSelf(par, x, z)
  {
    var j: nat :| Walk(par, x, j) == Some(y);
    var k: nat :| Walk(par, y, k) == Some(z);
    WalkAdd(par, x, j, y, k);
  }

  lemma ParentIsAncestor<T>(par: map<T, T>, x: T)
    requires x in par
    ensures AncestorOrSelf(par, x, par[x])
  {
    assert Walk(par, par[x], 0) == Some(par[x]);
    assert Walk(par, x, 1) == Some(par[x]);
  }

  /** The ancestry of x stays inside any set that holds x and every parent. */
  lemma {:induction false} AncestryWithin<T>(par: map<T, T>, x: T, n: nat, s: set<T>)
    requires Ends(par, x, n) && x in s
    requires forall y :: y in par ==> par[y] in s
    ensures Ancestry(par, x, n) <= s
    decreases n
  {
    if x in par {
      AncestryWithin(par, par[x], n - 1, s);
    }
  }

  lemma AncestrySetWithin<T>(par: map<T, T>, x: T, s: set<T>)
    requires Acyclic(par) && x in s
    requires forall y :: y in par ==> par[y] in s
    ensures AncestrySet(par, x) <= s
  {
    var n := EndsOf(par, x);
    AncestrySetIs(par, x, n);
    AncestryWithin(par, x, n, s);
  }

  /** Every node the chain from x reaches lies in x's ancestry. */
  lemma {:induction false} AncestorInAncestrySet<T>(par: map<T, T>, x: T, k: nat, y: T)
    requires Acyclic(par) && Walk(par, x, k) == Some(y)
    ensures y in AncestrySet(par, x)
    decreases k
  {
    var n := EndsOf(par, x);
    AncestrySetIs(par, x, n);
    if k == 0 {
      assert y == x;
    } else {
      AncestorInAncestrySet(par, par[x], k - 1, y);
      ChildAncestry(par, x);
    }
  }
}
