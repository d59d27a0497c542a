/** Shared by every module: the `Option` type, where `None` stands for a missing value (pandas
    NaN/NaT, a regex that did not match, a file that could not be read), and row filtering. */
module Base {

  datatype Option<+T> = None | Some(value: T) {

    /** The value, or `default` when missing (pandas `fillna(default)`). */
    function GetOr(default: T): T {
      match this
      case Some(v) => v
      case None => default
    }
  }

  /** A boolean-mask selection `df[mask]`: the rows satisfying `p`, in their original order. */
  function Filter<T(!new)>(xs: seq<T>, p: T -> bool): (r: seq<T>)
    ensures |r| <= |xs|
    ensures forall x :: x in r <==> x in xs && p(x)
  {
    if xs == [] then []
    else (if p(xs[0]) then [xs[0]] else []) + Filter(xs[1..], p)
  }

  /** Selecting from a concatenation selects from each part: the order of rows is kept. */
  lemma {:induction false} FilterAppend<T(!new)>(a: seq<T>, b: seq<T>, p: T -> bool)
    ensures Filter(a + b, p) == Filter(a, p) + Filter(b, p)
  {
    if a != [] {
      assert (a + b)[1..] == a[1..] + b;
      FilterAppend(a[1..], b, p);
    } else {
      assert a + b == b;
    }
  }

  /** Nothing is selected when no row satisfies `p`. */
  lemma {:induction false} FilterNone<T(!new)>(xs: seq<T>, p: T -> bool)
    requires forall x :: x in xs ==> !p(x)
    ensures Filter(xs, p) == []
  {
    if xs != [] {
      assert xs[0] in xs;
      assert forall x :: x in xs[1..] ==> x in xs;
      FilterNone(xs[1..], p);
    }
  }
  /** `r` is `xs` with some elements left out and the rest in their original order. */
  predicate Subsequence<T(==)>(r: seq<T>, xs: seq<T>)
    decreases |xs|
  {
    if r == [] then true
    else if xs == [] then false
    else if r[0] == xs[0] then Subsequence(r[1..], xs[1..])
    else Subsequence(r, xs[1..])
  }

  lemma {:induction false} SubsequenceTail<T>(r: seq<T>, xs: seq<T>)
    requires r != [] && Subsequence(r, xs)
    ensures Subsequence(r[1..], xs)
    decreases |xs|, 0
  {
    if xs != [] && r[0] != xs[0] {
      SubsequenceTail(r, xs[1..]);
      SubsequenceSkip(r[1..], xs[0], xs[1..]);
    } else if xs != [] {
      SubsequenceSkip(r[1..], xs[0], xs[1..]);
    }
  }

  /** An element put in front of `xs` may be skipped. */
  lemma {:induction false} SubsequenceSkip<T>(r: seq<T>, x: T, xs: seq<T>)
    requires Subsequence(r, xs)
    ensures Subsequence(r, [x] + xs)
    decreases |xs|, 1
  {
    assert ([x] + xs)[1..] == xs;
    if r != [] && r[0] == x {
      SubsequenceTail(r, xs);
    }
  }

  /** Concatenation regroups freely. */
  lemma Regroup<T>(a: seq<T>, b: seq<T>, c: seq<T>)
    ensures a + b + c == a + (b + c)
  {
  }

  /** `[g(x) for x in xs if p(x)]`, in order. */
  function FilterMap<A(!new), B(!new)>(xs: seq<A>, p: A -> bool, g: A -> B): (r: seq<B>)
    ensures forall y :: y in r <==> exists x :: x in xs && p(x) && y == g(x)
  {
    if xs == [] then []
    else
      var init, x := xs[..|xs| - 1], xs[|xs| - 1];
      var rest := FilterMap(init, p, g);
      var last := if p(x) then [g(x)] else [];
      forall y ensures y in rest + last <==> exists a :: a in xs && p(a) && y == g(a) {
        if y in rest {
          var a :| a in init && p(a) && y == g(a);
          assert a in xs;
        }
        if exists a :: a in xs && p(a) && y == g(a) {
          var a :| a in xs && p(a) && y == g(a);
          assert a in init || a == x;
        }
      }
      rest + last
  }

  /** A selection is a subsequence of its input: the rows it keeps stay in their original order. */
  lemma {:induction false} FilterSubsequence<T(!new)>(xs: seq<T>, p: T -> bool)
    ensures Subsequence(Filter(xs, p), xs)
  {
    if xs != [] {
      FilterSubsequence(xs[1..], p);
      var rest := Filter(xs[1..], p);
      if p(xs[0]) {
        assert Filter(xs, p) == [xs[0]] + rest;
        assert ([xs[0]] + rest)[1..] == rest;
      } else {
        assert Filter(xs, p) == rest;
        assert xs == [xs[0]] + xs[1..];
        SubsequenceSkip(rest, xs[0], xs[1..]);
      }
    }
  }
}
