/** Sequences without repetition, their members, and sums over an index. */
module Collections {

  function Members<T>(xs: seq<T>): set<T> { set x | x in xs }

  ghost predicate Distinct<T>(xs: seq<T>) {
    forall i, j :: 0 <= i < j < |xs| ==> xs[i] != xs[j]
  }

  lemma {:induction false} SubsetSize<T>(a: set<T>, b: set<T>)
    requires a <= b
    ensures |a| <= |b|
    decreases |b|
  {
    if a != {} {
      var x :| x in a;
      SubsetSize(a - {x}, b - {x});
    }
  }

  lemma SameSize<T>(a: set<T>, b: set<T>)
    requires a <= b && |a| == |b|
    ensures a == b
  {
    if x :| x in b && x !in a {
      SubsetSize(a, b - {x});
    }
  }

  lemma {:induction false} DistinctSize<T>(xs: seq<T>)
    requires Distinct(xs)
    ensures |Members(xs)| == |xs|
    decreases |xs|
  {
    if xs != [] {
      DistinctSize(xs[1..]);
      assert xs == [xs[0]] + xs[1..];
      assert Members(xs) == {xs[0]} + Members(xs[1..]);
    }
  }

  /** Distinct members of a set are no more than the set. */
  lemma DistinctWithin<T>(xs: seq<T>, all: set<T>)
    requires Distinct(xs) && forall x :: x in xs ==> x in all
    ensures |xs| <= |all|
  {
    DistinctSize(xs);
    SubsetSize(Members(xs), all);
  }

  // ------------------------------------------------------------------------- sums

  function Sum(f: int -> int, n: nat): int
    decreases n
  {
    if n == 0 then 0 else Sum(f, n - 1) + f(n - 1)
  }

  lemma {:induction false} SumSame(f: int -> int, g: int -> int, n: nat)
    requires forall i :: 0 <= i < n ==> f(i) == g(i)
    ensures Sum(f, n) == Sum(g, n)
    decreases n
  {
    if n > 0 { SumSame(f, g, n - 1); }
  }

  lemma {:induction false} SumOfZeros(f: int -> int, n: nat)
    requires forall i :: 0 <= i < n ==> f(i) == 0
    ensures Sum(f, n) == 0
    decreases n
  {
    if n > 0 { SumOfZeros(f, n - 1); }
  }

  /** Changing one term changes the sum by the difference of that term. */
  lemma {:induction false} SumChange(f: int -> int, g: int -> int, k: nat, n: nat)
    requires forall i :: 0 <= i < n && i != k ==> f(i) == g(i)
    ensures Sum(g, n) == Sum(f, n) + if k < n then g(k) - f(k) else 0
    decreases n
  {
    if n > 0 {
      if k == n - 1 {
        SumSame(f, g, n - 1);
      } else {
        SumChange(f, g, k, n - 1);
      }
    }
  }

  /** A sum of terms of which each is at most the other's differs exactly if some term does. */
  lemma {:induction false} SumBelow(f: int -> int, g: int -> int, n: nat)
    requires forall i :: 0 <= i < n ==> f(i) <= g(i)
    ensures Sum(f, n) <= Sum(g, n)
    ensures Sum(f, n) == Sum(g, n) <==> forall i :: 0 <= i < n ==> f(i) == g(i)
    decreases n
  {
    if n > 0 { SumBelow(f, g, n - 1); }
  }
}
