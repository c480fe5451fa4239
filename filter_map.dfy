/**
  The list shapes of the classification, all in input order: `[f(x) for x in
  xs]`; `[x for x in xs if p(x)]`, keeping the elements that pass a test; and
  `[y for x in xs if (y := f(x)) is not None]`, applying a partial function to
  every element and keeping the results that exist.
 */
module FilterMaps {
  import opened Wrappers

  /** `a` is `b` with some elements left out, in the same order. */
  predicate IsSubsequence<T(==)>(a: seq<T>, b: seq<T>)
    decreases |b|
  {
    if a == [] then true
    else if b == [] then false
    else (a[|a| - 1] == b[|b| - 1] && IsSubsequence(a[..|a| - 1], b[..|b| - 1]))
         || IsSubsequence(a, b[..|b| - 1])
  }

  function Filter<A>(xs: seq<A>, p: A -> bool): seq<A>
  {
    if xs == [] then []
    else Filter(xs[..|xs| - 1], p) + (if p(xs[|xs| - 1]) then [xs[|xs| - 1]] else [])
  }

  /** The kept elements are the input with some left out, in order. */
  lemma {:induction false} FilterSubsequence<A>(xs: seq<A>, p: A -> bool)
    ensures IsSubsequence(Filter(xs, p), xs)
  {
    if xs != [] {
      var init := xs[..|xs| - 1];
      var x := xs[|xs| - 1];
      var prefix := Filter(init, p);
      FilterSubsequence(init, p);
      if p(x) {
        assert (prefix + [x])[..|prefix|] == prefix;
      } else {
        assert prefix + [] == prefix;
      }
    }
  }

  /**
    The kept elements hold each element that passes the test exactly as often
    as the input does, and no other element.
   */
  lemma {:induction false} FilterCount<A>(xs: seq<A>, p: A -> bool, x: A)
    ensures multiset(Filter(xs, p))[x] == if p(x) then multiset(xs)[x] else 0
  {
    if xs != [] {
      var init := xs[..|xs| - 1];
      FilterCount(init, p, x);
      assert xs == init + [xs[|xs| - 1]];
    }
  }

  /** Both properties of the kept elements, for every element. */
  lemma FilterSpec<A>(xs: seq<A>, p: A -> bool)
    ensures IsSubsequence(Filter(xs, p), xs)
    ensures forall x :: multiset(Filter(xs, p))[x] == if p(x) then multiset(xs)[x] else 0
  {
    FilterSubsequence(xs, p);
    forall x {
      FilterCount(xs, p, x);
    }
  }

  /** Filtering one more element appends it when it passes the test. */
  lemma FilterStep<A>(xs: seq<A>, p: A -> bool, i: nat)
    requires i < |xs|
    ensures Filter(xs[..i + 1], p) == Filter(xs[..i], p) + (if p(xs[i]) then [xs[i]] else [])
  {
    assert xs[..i + 1][..i] == xs[..i];
  }

  /** Filtering distributes over concatenation. */
  lemma {:induction false} FilterConcat<A>(a: seq<A>, b: seq<A>, p: A -> bool)
    ensures Filter(a + b, p) == Filter(a, p) + Filter(b, p)
  {
    if b == [] {
      assert a + b == a;
    } else {
      var init := b[..|b| - 1];
      assert (a + b)[..|a + b| - 1] == a + init;
      assert (a + b)[|a + b| - 1] == b[|b| - 1];
      FilterConcat(a, init, p);
    }
  }

  /** Two tests that no element passes together keep at most all elements between them. */
  lemma {:induction false} FilterDisjoint<A>(xs: seq<A>, p: A -> bool, q: A -> bool)
    requires forall x :: !(p(x) && q(x))
    ensures |Filter(xs, p)| + |Filter(xs, q)| <= |xs|
  {
    if xs != [] {
      FilterDisjoint(xs[..|xs| - 1], p, q);
      assert !(p(xs[|xs| - 1]) && q(xs[|xs| - 1]));
    }
  }

  /** `[f(x) for x in xs]`. */
  function Map<A, B>(xs: seq<A>, f: A -> B): seq<B>
  {
    if xs == [] then [] else Map(xs[..|xs| - 1], f) + [f(xs[|xs| - 1])]
  }

  /** One result per element, the `i`-th from the `i`-th element. */
  lemma {:induction false} MapIndex<A, B>(xs: seq<A>, f: A -> B)
    ensures |Map(xs, f)| == |xs|
    ensures forall i :: 0 <= i < |xs| ==> Map(xs, f)[i] == f(xs[i])
  {
    if xs != [] {
      var init := xs[..|xs| - 1];
      MapIndex(init, f);
      assert forall i :: 0 <= i < |init| ==> init[i] == xs[i];
    }
  }

  /** The number of elements that `f` maps to `y`. */
  function CountImage<A, B(==)>(xs: seq<A>, f: A -> B, y: B): nat
  {
    if xs == [] then 0
    else (if f(xs[|xs| - 1]) == y then 1 else 0) + CountImage(xs[..|xs| - 1], f, y)
  }

  /** Each result occurs as often as elements are mapped to it. */
  lemma {:induction false} MapCount<A, B>(xs: seq<A>, f: A -> B, y: B)
    ensures multiset(Map(xs, f))[y] == CountImage(xs, f, y)
  {
    if xs != [] {
      MapCount(xs[..|xs| - 1], f, y);
    }
  }

  /** `y` is among the results exactly when some element is mapped to it. */
  lemma MapMembers<A, B>(xs: seq<A>, f: A -> B, y: B)
    ensures y in Map(xs, f) <==> exists x :: x in xs && f(x) == y
  {
    MapIndex(xs, f);
    if y in Map(xs, f) {
      var i :| 0 <= i < |xs| && Map(xs, f)[i] == y;
      assert xs[i] in xs;
    }
    if x :| x in xs && f(x) == y {
      var i :| 0 <= i < |xs| && xs[i] == x;
      assert Map(xs, f)[i] == y;
    }
  }

  function FilterMap<A, B>(xs: seq<A>, f: A -> Option<B>): seq<B>
  {
    if xs == [] then []
    else
      var prefix := FilterMap(xs[..|xs| - 1], f);
      match f(xs[|xs| - 1])
      case Some(y) => prefix + [y]
      case None => prefix
  }

  /** The number of elements that `f` maps to `y`. */
  function CountTo<A, B(==)>(xs: seq<A>, f: A -> Option<B>, y: B): nat
  {
    if xs == [] then 0
    else (if f(xs[|xs| - 1]) == Some(y) then 1 else 0) + CountTo(xs[..|xs| - 1], f, y)
  }

  /** The number of elements that `f` maps to nothing. */
  function Failures<A, B>(xs: seq<A>, f: A -> Option<B>): nat
  {
    if xs == [] then 0
    else (if f(xs[|xs| - 1]).None? then 1 else 0) + Failures(xs[..|xs| - 1], f)
  }

  /** One result per element that has one. */
  lemma {:induction false} FilterMapLength<A, B>(xs: seq<A>, f: A -> Option<B>)
    ensures |FilterMap(xs, f)| == |xs| - Failures(xs, f)
  {
    if xs != [] {
      FilterMapLength(xs[..|xs| - 1], f);
    }
  }

  /** Each result occurs as often as elements are mapped to it. */
  lemma {:induction false} FilterMapCount<A, B>(xs: seq<A>, f: A -> Option<B>, y: B)
    ensures multiset(FilterMap(xs, f))[y] == CountTo(xs, f, y)
  {
    if xs != [] {
      var prefix := FilterMap(xs[..|xs| - 1], f);
      FilterMapCount(xs[..|xs| - 1], f, y);
      match f(xs[|xs| - 1])
      case Some(z) =>
        assert multiset(prefix + [z])[y] == multiset(prefix)[y] + (if z == y then 1 else 0);
      case None =>
    }
  }

  lemma {:induction false} CountToOfMember<A, B>(xs: seq<A>, f: A -> Option<B>, y: B, x: A)
    requires x in xs && f(x) == Some(y)
    ensures CountTo(xs, f, y) > 0
  {
    var init := xs[..|xs| - 1];
    assert xs == init + [xs[|xs| - 1]];
    if x != xs[|xs| - 1] {
      CountToOfMember(init, f, y, x);
    }
  }

  lemma {:induction false} CountToWitness<A, B>(xs: seq<A>, f: A -> Option<B>, y: B) returns (x: A)
    requires CountTo(xs, f, y) > 0
    ensures x in xs && f(x) == Some(y)
  {
    var init := xs[..|xs| - 1];
    var last := xs[|xs| - 1];
    assert xs == init + [last];
    if f(last) == Some(y) {
      x := last;
    } else {
      x := CountToWitness(init, f, y);
    }
  }

  /** `y` is among the results exactly when some element is mapped to it. */
  lemma FilterMapMembers<A, B>(xs: seq<A>, f: A -> Option<B>, y: B)
    ensures y in FilterMap(xs, f) <==> exists x :: x in xs && f(x) == Some(y)
  {
    FilterMapCount(xs, f, y);
    if x :| x in xs && f(x) == Some(y) {
      CountToOfMember(xs, f, y, x);
    }
    if CountTo(xs, f, y) > 0 {
      var x := CountToWitness(xs, f, y);
    }
  }
}
