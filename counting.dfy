/** `value_counts().sort_index()` and `groupby(key).size()` over integer keys: the distinct keys
    in ascending order, each with the number of rows that carry it. */
module Counting {

  predicate Ascending(ks: seq<int>) {
    forall i, j :: 0 <= i < j < |ks| ==> ks[i] < ks[j]
  }

  /** `k` put into an ascending sequence, unless it is already there. */
  function Insert(k: int, ks: seq<int>): (r: seq<int>)
    requires Ascending(ks)
    ensures Ascending(r)
    ensures forall x :: x in r <==> x == k || x in ks
  {
    if ks == [] then [k]
    else if k == ks[0] then ks
    else if k < ks[0] then [k] + ks
    else
      var rest := Insert(k, ks[1..]);
      assert forall x :: x in rest ==> ks[0] < x;
      assert Ascending([ks[0]] + rest) by {
        forall i, j | 0 <= i < j < |rest| + 1 ensures ([ks[0]] + rest)[i] < ([ks[0]] + rest)[j] {
          if i > 0 {
            assert ([ks[0]] + rest)[i] == rest[i - 1];
          } else {
            assert rest[j - 1] in rest;
          }
        }
      }
      [ks[0]] + rest
  }

  /** The distinct keys, ascending. */
  function Keys(xs: seq<int>): (ks: seq<int>)
    ensures Ascending(ks)
    ensures forall x :: x in ks <==> x in xs
  {
    if xs == [] then []
    else
      assert xs == xs[..|xs| - 1] + [xs[|xs| - 1]];
      Insert(xs[|xs| - 1], Keys(xs[..|xs| - 1]))
  }

  /** The number of rows carrying `k`. */
  function Occurrences(xs: seq<int>, k: int): (n: nat)
    ensures n <= |xs|
    ensures n > 0 <==> k in xs
  {
    if xs == [] then 0
    else
      assert xs == xs[..|xs| - 1] + [xs[|xs| - 1]];
      Occurrences(xs[..|xs| - 1], k) + if xs[|xs| - 1] == k then 1 else 0
  }

  datatype Bin = Bin(key: int, count: nat)

  /** One bin per key of `ks`, with the rows of `xs` carrying it. */
  function Bins(ks: seq<int>, xs: seq<int>): (h: seq<Bin>)
    ensures |h| == |ks|
    ensures forall i :: 0 <= i < |ks| ==> h[i] == Bin(ks[i], Occurrences(xs, ks[i]))
  {
    if ks == [] then [] else [Bin(ks[0], Occurrences(xs, ks[0]))] + Bins(ks[1..], xs)
  }

  /** The counted table: its keys are ascending, a key is present exactly when some row
      carries it (so a key without rows is absent, never a zero bin), and its count is the
      number of rows carrying it. */
  function Histogram(xs: seq<int>): (h: seq<Bin>)
    ensures forall i, j :: 0 <= i < j < |h| ==> h[i].key < h[j].key
    ensures forall k :: (exists i :: 0 <= i < |h| && h[i].key == k) <==> k in xs
    ensures forall i :: 0 <= i < |h| ==> h[i].count == Occurrences(xs, h[i].key) && h[i].count > 0
  {
    var ks := Keys(xs);
    var h := Bins(ks, xs);
    assert forall k :: k in xs ==> exists i :: 0 <= i < |h| && h[i].key == k by {
      forall k | k in xs ensures exists i :: 0 <= i < |h| && h[i].key == k {
        var i :| 0 <= i < |ks| && ks[i] == k;
        assert h[i].key == k;
      }
    }
    assert forall i :: 0 <= i < |h| ==> h[i].key in xs by {
      forall i | 0 <= i < |h| ensures h[i].key in xs {
        assert ks[i] in ks;
      }
    }
    h
  }

  function Total(h: seq<Bin>): nat {
    if h == [] then 0 else h[0].count + Total(h[1..])
  }

  /** How many entries of `ks` equal `x`. */
  function Hits(ks: seq<int>, x: int): nat {
    if ks == [] then 0 else (if ks[0] == x then 1 else 0) + Hits(ks[1..], x)
  }

  lemma {:induction false} HitsAbsent(ks: seq<int>, x: int)
    requires x !in ks
    ensures Hits(ks, x) == 0
  {
    if ks != [] {
      assert forall y :: y in ks[1..] ==> y in ks;
      HitsAbsent(ks[1..], x);
    }
  }

  lemma {:induction false} HitsOnce(ks: seq<int>, x: int)
    requires Ascending(ks) && x in ks
    ensures Hits(ks, x) == 1
  {
    if ks[0] == x {
      assert forall y :: y in ks[1..] ==> x < y;
      HitsAbsent(ks[1..], x);
    } else {
      HitsOnce(ks[1..], x);
    }
  }

  lemma {:induction false} BinsEmpty(ks: seq<int>)
    ensures Total(Bins(ks, [])) == 0
  {
    if ks != [] {
      BinsEmpty(ks[1..]);
    }
  }

  /** One more row adds one to the bin of its key. */
  lemma {:induction false} BinsSnoc(ks: seq<int>, ys: seq<int>, x: int)
    ensures Total(Bins(ks, ys + [x])) == Total(Bins(ks, ys)) + Hits(ks, x)
  {
    assert (ys + [x])[..|ys + [x]| - 1] == ys;
    if ks != [] {
      BinsSnoc(ks[1..], ys, x);
    }
  }

  /** Over keys covering every row, each once, the bins add up to the number of rows. */
  lemma {:induction false} BinsTotal(ks: seq<int>, xs: seq<int>)
    requires Ascending(ks) && forall x :: x in xs ==> x in ks
    ensures Total(Bins(ks, xs)) == |xs|
  {
    if xs == [] {
      BinsEmpty(ks);
    } else {
      var ys, x := xs[..|xs| - 1], xs[|xs| - 1];
      assert xs == ys + [x];
      assert forall y :: y in ys ==> y in xs;
      BinsTotal(ks, ys);
      BinsSnoc(ks, ys, x);
      HitsOnce(ks, x);
    }
  }

  /** The counts add up to the number of rows. */
  lemma HistogramTotal(xs: seq<int>)
    ensures Total(Histogram(xs)) == |xs|
  {
    BinsTotal(Keys(xs), xs);
  }

  /** Counting a concatenation adds the counts of its parts. */
  lemma {:induction false} OccurrencesAppend(a: seq<int>, b: seq<int>, k: int)
    ensures Occurrences(a + b, k) == Occurrences(a, k) + Occurrences(b, k)
  {
    if b == [] {
      assert a + b == a;
    } else {
      var c, x := b[..|b| - 1], b[|b| - 1];
      assert b == c + [x];
      assert (a + b)[..|a + b| - 1] == a + c;
      OccurrencesAppend(a, c, k);
    }
  }
}
