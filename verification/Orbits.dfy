/** Orbits of an iterated function: a value that repeats closes a cycle, and the
    orbit stays in that cycle for ever. */
module Orbits {

  ghost function Orbit(step: nat -> nat, start: nat, k: nat): nat {
    if k == 0 then start else step(Orbit(step, start, k - 1))
  }

  ghost predicate DominatesFrom(step: nat -> nat, start: nat, x: nat, from: nat) {
    forall k: nat | k >= from :: Orbit(step, start, k) <= x
  }

  ghost predicate VisitedAfter(step: nat -> nat, start: nat, x: nat, from: nat) {
    exists k: nat :: k >= from && Orbit(step, start, k) == x
  }

  /** `x` is the largest value the orbit takes infinitely often. */
  ghost predicate IsLimit(step: nat -> nat, start: nat, x: nat) {
    && (exists from: nat :: DominatesFrom(step, start, x, from))
    && (forall from: nat :: VisitedAfter(step, start, x, from))
  }

  lemma LimitUnique(step: nat -> nat, start: nat, x: nat, y: nat)
    requires IsLimit(step, start, x) && IsLimit(step, start, y)
    ensures x == y
  {
    var a: nat :| DominatesFrom(step, start, x, a);
    var b: nat :| DominatesFrom(step, start, y, b);
    assert VisitedAfter(step, start, y, a) && VisitedAfter(step, start, x, b);
  }

  /** Positions `i` and `j` of the orbit hold the same value. */
  ghost predicate Closes(step: nat -> nat, start: nat, i: nat, j: nat) {
    i < j && Orbit(step, start, i) == Orbit(step, start, j)
  }

  lemma {:induction false} Periodic(step: nat -> nat, start: nat, i: nat, j: nat, k: nat)
    requires Closes(step, start, i, j) && k >= i
    ensures Orbit(step, start, k + (j - i)) == Orbit(step, start, k)
  {
    if k > i {
      Periodic(step, start, i, j, k - 1);
    }
  }

  lemma {:induction false} LandsInCycle(step: nat -> nat, start: nat, i: nat, j: nat, k: nat)
    requires Closes(step, start, i, j) && k >= i
    ensures exists r: nat :: i <= r < j && Orbit(step, start, r) == Orbit(step, start, k)
    decreases k
  {
    if k >= j {
      Periodic(step, start, i, j, k - (j - i));
      LandsInCycle(step, start, i, j, k - (j - i));
    }
  }

  lemma {:induction false} CycleVisitedAfter(step: nat -> nat, start: nat, i: nat, j: nat, r: nat, from: nat)
    requires Closes(step, start, i, j) && i <= r
    ensures VisitedAfter(step, start, Orbit(step, start, r), from)
    decreases from - r
  {
    if r < from {
      Periodic(step, start, i, j, r);
      CycleVisitedAfter(step, start, i, j, r + (j - i), from);
    }
  }

  /** The largest value of a closed cycle is the limit. */
  lemma CycleMaximumIsLimit(step: nat -> nat, start: nat, i: nat, j: nat, top: nat)
    requires Closes(step, start, i, j) && i <= top < j
    requires forall r: nat | i <= r < j :: Orbit(step, start, r) <= Orbit(step, start, top)
    ensures IsLimit(step, start, Orbit(step, start, top))
  {
    var x := Orbit(step, start, top);
    forall k: nat | k >= i ensures Orbit(step, start, k) <= x {
      LandsInCycle(step, start, i, j, k);
    }
    assert DominatesFrom(step, start, x, i);
    forall from: nat ensures VisitedAfter(step, start, x, from) {
      CycleVisitedAfter(step, start, i, j, top, from);
    }
  }

  /** A bound on the orbit up to a repetition bounds the whole orbit. */
  lemma CycleBound(step: nat -> nat, start: nat, i: nat, j: nat, bound: nat)
    requires Closes(step, start, i, j)
    requires forall k: nat | k < j :: Orbit(step, start, k) < bound
    ensures forall k: nat :: Orbit(step, start, k) < bound
  {
    forall k: nat ensures Orbit(step, start, k) < bound {
      if k >= j {
        LandsInCycle(step, start, i, j, k);
      }
    }
  }

  ghost function ArgMax(step: nat -> nat, start: nat, i: nat, j: nat): (top: nat)
    requires i < j
    ensures i <= top < j
    ensures forall r: nat | i <= r < j :: Orbit(step, start, r) <= Orbit(step, start, top)
    decreases j
  {
    if i == j - 1 then i else
      var rest := ArgMax(step, start, i, j - 1);
      if Orbit(step, start, rest) < Orbit(step, start, j - 1) then j - 1 else rest
  }

  // ----- Sequences of pairwise different numbers

  ghost predicate Distinct(xs: seq<nat>) {
    forall i, j | 0 <= i < j < |xs| :: xs[i] != xs[j]
  }

  ghost function Elements(xs: seq<nat>): set<nat> {
    set x | x in xs
  }

  lemma {:induction false} DistinctSize(xs: seq<nat>)
    requires Distinct(xs)
    ensures |Elements(xs)| == |xs|
  {
    if xs == [] {
      assert Elements(xs) == {};
    } else {
      var front, last := xs[..|xs| - 1], xs[|xs| - 1];
      DistinctSize(front);
      assert last !in Elements(front);
      assert Elements(xs) == Elements(front) + {last};
    }
  }

  lemma {:induction false} ElementsSize(xs: seq<nat>)
    ensures |Elements(xs)| <= |xs|
  {
    if xs == [] {
      assert Elements(xs) == {};
    } else {
      ElementsSize(xs[..|xs| - 1]);
      assert Elements(xs) == Elements(xs[..|xs| - 1]) + {xs[|xs| - 1]};
    }
  }

  lemma {:induction false} SubsetSize(a: set<nat>, b: set<nat>)
    requires a <= b
    ensures |a| <= |b|
  {
    if a != {} {
      var x :| x in a;
      SubsetSize(a - {x}, b - {x});
    }
  }

  lemma DistinctWithin(xs: seq<nat>, values: set<nat>)
    requires Distinct(xs) && forall x | x in xs :: x in values
    ensures |xs| <= |values|
  {
    DistinctSize(xs);
    SubsetSize(Elements(xs), values);
  }

  ghost function Prefix(step: nat -> nat, start: nat, n: nat): (xs: seq<nat>)
    ensures |xs| == n && forall k | 0 <= k < n :: xs[k] == Orbit(step, start, k)
  {
    if n == 0 then [] else Prefix(step, start, n - 1) + [Orbit(step, start, n - 1)]
  }

  /** An orbit confined to a finite set has a limit. */
  lemma LimitExists(step: nat -> nat, start: nat, values: set<nat>)
    requires forall k: nat :: Orbit(step, start, k) in values
    ensures exists x: nat :: IsLimit(step, start, x)
  {
    var xs := Prefix(step, start, |values| + 1);
    if Distinct(xs) {
      DistinctWithin(xs, values);
    }
    var i, j :| 0 <= i < j < |xs| && xs[i] == xs[j];
    assert Closes(step, start, i, j);
    CycleMaximumIsLimit(step, start, i, j, ArgMax(step, start, i, j));
  }
}
