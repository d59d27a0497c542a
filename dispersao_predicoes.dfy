/** `extrai_predicoes_reais` of GRAFICOS/app_dispersao_predicoes.py: the confusion matrix of a
    report, expanded back into one list of true labels and one list of predicted labels. */
module DispersaoPredicoes {
  import Base
  import opened Numbers
  import opened Confusion
  import opened ReportScan
  import MC = MatrizConfusao
  import X = PrevisorXgboost

  /** `[x] * n`. */
  function Copies(x: int, n: nat): (r: seq<int>)
    ensures |r| == n && forall k :: 0 <= k < n ==> r[k] == x
  {
    seq(n, _ => x)
  }

  /** The sum of a row's entries. */
  function Sum(row: seq<nat>): nat {
    if row == [] then 0 else Sum(row[..|row| - 1]) + row[|row| - 1]
  }

  /** The sum of all the matrix's entries. */
  function Total(m: Matrix): nat {
    if m == [] then 0 else Total(m[..|m| - 1]) + Sum(m[|m| - 1])
  }

  // ------------------------------------------------------------------ what the loops build

  /** What row `r` appends to `y_true`: `[r] * row[pred]` for each column `pred` in turn. */
  function RowTrue(row: seq<nat>, r: int): (t: seq<int>)
    ensures |t| == Sum(row) && forall k :: 0 <= k < |t| ==> t[k] == r
  {
    if row == [] then [] else RowTrue(row[..|row| - 1], r) + Copies(r, row[|row| - 1])
  }

  /** What a row appends to `y_pred`: `[pred] * row[pred]` for each column `pred` in turn. */
  function RowPred(row: seq<nat>): (p: seq<int>)
    ensures |p| == Sum(row) && forall k :: 0 <= k < |p| ==> 0 <= p[k] < |row|
  {
    if row == [] then [] else RowPred(row[..|row| - 1]) + Copies(|row| - 1, row[|row| - 1])
  }

  /** `y_true` once the rows of `m` have been expanded in order: as long as the matrix has
      entries in total, with labels among the row indices. */
  function Trues(m: Matrix): (t: seq<int>)
    ensures |t| == Total(m) && forall k :: 0 <= k < |t| ==> 0 <= t[k] < |m|
  {
    if m == [] then [] else Trues(m[..|m| - 1]) + RowTrue(m[|m| - 1], |m| - 1)
  }

  /** `y_pred` once the rows of `m` have been expanded in order: as long as `y_true`. */
  function Preds(m: Matrix): (p: seq<int>)
    ensures |p| == Total(m) && forall k :: 0 <= k < |p| ==> 0 <= p[k]
  {
    if m == [] then [] else Preds(m[..|m| - 1]) + RowPred(m[|m| - 1])
  }

  lemma RowSnoc(row: seq<nat>, r: int, c: nat)
    requires c < |row|
    ensures RowTrue(row[..c + 1], r) == RowTrue(row[..c], r) + Copies(r, row[c])
    ensures RowPred(row[..c + 1]) == RowPred(row[..c]) + Copies(c, row[c])
  {
    assert row[..c + 1][..c] == row[..c];
  }

  lemma MatrixSnoc(m: Matrix, r: nat)
    requires r < |m|
    ensures Trues(m[..r + 1]) == Trues(m[..r]) + RowTrue(m[r], r)
    ensures Preds(m[..r + 1]) == Preds(m[..r]) + RowPred(m[r])
  {
    assert m[..r + 1][..r] == m[..r];
  }

  /** The text read from the report file; `([], [])` when there is no matrix block or when the
      count of its numbers is not a square, and otherwise the two lists the nested loops build
      from the numbers laid out row by row. */
  method ExtractPredictions(text: string) returns (yt: seq<int>, yp: seq<int>)
    ensures !MC.Extract(text).Found? ==> yt == [] && yp == []
    ensures MC.Extract(text).Found? ==>
      yt == Trues(MC.Extract(text).m) && yp == Preds(MC.Extract(text).m)
  {
    var block := FindMatrixText(text);
    if block.None? {
      return [], [];
    }
    var numbers := DigitRuns(block.value);
    var side := ISqrt(|numbers|);
    if side * side != |numbers| {
      return [], [];
    }
    var m := Reshape(numbers, side);
    assert MC.Extract(text) == MC.Found(m);
    yt, yp := ExpandMatrix(m);
  }

  /** The nested loops over `real` and `pred`: `y_true += [real] * matriz[real][pred]` and
      `y_pred += [pred] * matriz[real][pred]`, row by row and column by column. */
  method ExpandMatrix(m: Matrix) returns (yt: seq<int>, yp: seq<int>)
    requires Square(m)
    ensures yt == Trues(m) && yp == Preds(m)
  {
    var side := |m|;
    yt, yp := [], [];
    var actual := 0;
    while actual < side
      invariant 0 <= actual <= side
      invariant yt == Trues(m[..actual]) && yp == Preds(m[..actual])
    {
      var pred := 0;
      while pred < side
        invariant 0 <= pred <= side
        invariant yt == Trues(m[..actual]) + RowTrue(m[actual][..pred], actual)
        invariant yp == Preds(m[..actual]) + RowPred(m[actual][..pred])
      {
        RowSnoc(m[actual], actual, pred);
        Base.Regroup(Trues(m[..actual]), RowTrue(m[actual][..pred], actual), Copies(actual, m[actual][pred]));
        Base.Regroup(Preds(m[..actual]), RowPred(m[actual][..pred]), Copies(pred, m[actual][pred]));
        yt := yt + Copies(actual, m[actual][pred]);
        yp := yp + Copies(pred, m[actual][pred]);
        pred := pred + 1;
      }
      assert m[actual][..side] == m[actual];
      MatrixSnoc(m, actual);
      actual := actual + 1;
    }
    assert m[..side] == m;
  }

  // ------------------------------------------------------------------ counting the pairs back

  /** Counting pairs distributes over the concatenation of equally long lists. */
  lemma {:induction false} PairCountAppend(t1: seq<int>, p1: seq<int>, t2: seq<int>, p2: seq<int>, a: int, b: int)
    requires |t1| == |p1| && |t2| == |p2|
    ensures PairCount(t1 + t2, p1 + p2, a, b) == PairCount(t1, p1, a, b) + PairCount(t2, p2, a, b)
  {
    if t1 != [] {
      var head := if t1[0] == a && p1[0] == b then 1 else 0;
      assert (t1 + t2)[0] == t1[0] && (p1 + p2)[0] == p1[0];
      assert (t1 + t2)[1..] == t1[1..] + t2;
      assert (p1 + p2)[1..] == p1[1..] + p2;
      PairCountAppend(t1[1..], p1[1..], t2, p2, a, b);
      calc {
        PairCount(t1 + t2, p1 + p2, a, b);
        head + PairCount((t1 + t2)[1..], (p1 + p2)[1..], a, b);
        head + PairCount(t1[1..] + t2, p1[1..] + p2, a, b);
        head + PairCount(t1[1..], p1[1..], a, b) + PairCount(t2, p2, a, b);
        PairCount(t1, p1, a, b) + PairCount(t2, p2, a, b);
      }
    } else {
      assert t1 + t2 == t2 && p1 + p2 == p2;
    }
  }

  /** `n` copies of the pair `(x, y)` count `n` for that pair and nothing for any other. */
  lemma {:induction false} PairCountCopies(x: int, y: int, n: nat, a: int, b: int)
    ensures PairCount(Copies(x, n), Copies(y, n), a, b) == if x == a && y == b then n else 0
  {
    if n > 0 {
      assert Copies(x, n)[1..] == Copies(x, n - 1);
      assert Copies(y, n)[1..] == Copies(y, n - 1);
      PairCountCopies(x, y, n - 1, a, b);
    }
  }

  /** The pairs a row contributes: `row[b]` times `(r, b)`, and nothing else. */
  lemma {:induction false} RowPairs(row: seq<nat>, r: int, a: int, b: int)
    ensures PairCount(RowTrue(row, r), RowPred(row), a, b) ==
      if a == r && 0 <= b < |row| then row[b] else 0
  {
    if row != [] {
      var c := |row| - 1;
      RowPairs(row[..c], r, a, b);
      PairCountAppend(RowTrue(row[..c], r), RowPred(row[..c]), Copies(r, row[c]), Copies(c, row[c]), a, b);
      PairCountCopies(r, c, row[c], a, b);
    }
  }

  /** Counting the pairs of the two lists gives back the matrix: exactly `m[a][b]` positions
      hold true label `a` and prediction `b`, and no other pair occurs. */
  lemma {:induction false} MatrixPairs(m: Matrix, a: int, b: int)
    ensures PairCount(Trues(m), Preds(m), a, b) ==
      if 0 <= a < |m| && 0 <= b < |m[a]| then m[a][b] else 0
  {
    if m != [] {
      var r := |m| - 1;
      MatrixPairs(m[..r], a, b);
      PairCountAppend(Trues(m[..r]), Preds(m[..r]), RowTrue(m[r], r), RowPred(m[r]), a, b);
      RowPairs(m[r], r, a, b);
    }
  }

  // ------------------------------------------------------------------ order of the pairs

  /** Pair `(t1, p1)` comes no later than `(t2, p2)`: by true label, then by prediction. */
  predicate NoLater(t1: int, p1: int, t2: int, p2: int) {
    t1 < t2 || (t1 == t2 && p1 <= p2)
  }

  /** `y_true` never decreases, and while it stays the same `y_pred` never decreases. */
  predicate PairsSorted(yt: seq<int>, yp: seq<int>)
    requires |yt| == |yp|
  {
    forall i, j :: 0 <= i < j < |yt| ==> NoLater(yt[i], yp[i], yt[j], yp[j])
  }

  lemma SortedAppend(t1: seq<int>, p1: seq<int>, t2: seq<int>, p2: seq<int>)
    requires |t1| == |p1| && |t2| == |p2|
    requires PairsSorted(t1, p1) && PairsSorted(t2, p2)
    requires forall i, j :: 0 <= i < |t1| && 0 <= j < |t2| ==> NoLater(t1[i], p1[i], t2[j], p2[j])
    ensures PairsSorted(t1 + t2, p1 + p2)
  {
    var t, p := t1 + t2, p1 + p2;
    forall i, j | 0 <= i < j < |t| ensures NoLater(t[i], p[i], t[j], p[j]) {
      if j < |t1| {
        assert t[i] == t1[i] && t[j] == t1[j] && p[i] == p1[i] && p[j] == p1[j];
      } else if i >= |t1| {
        assert t[i] == t2[i - |t1|] && t[j] == t2[j - |t1|];
        assert p[i] == p2[i - |t1|] && p[j] == p2[j - |t1|];
      } else {
        assert t[i] == t1[i] && p[i] == p1[i] && t[j] == t2[j - |t1|] && p[j] == p2[j - |t1|];
      }
    }
  }

  lemma {:induction false} RowSorted(row: seq<nat>, r: int)
    ensures PairsSorted(RowTrue(row, r), RowPred(row))
  {
    if row != [] {
      var c := |row| - 1;
      RowSorted(row[..c], r);
      SortedAppend(RowTrue(row[..c], r), RowPred(row[..c]), Copies(r, row[c]), Copies(c, row[c]));
    }
  }

  /** The expansion lists the pairs in order: by true label, then by prediction. */
  lemma {:induction false} ExpansionSorted(m: Matrix)
    ensures PairsSorted(Trues(m), Preds(m))
  {
    if m != [] {
      var r := |m| - 1;
      ExpansionSorted(m[..r]);
      RowSorted(m[r], r);
      SortedAppend(Trues(m[..r]), Preds(m[..r]), RowTrue(m[r], r), RowPred(m[r]));
    }
  }

  // ------------------------------------------------------------------ with the XGBoost reports

  /** The entries of a 2 by 2 matrix add up to its total. */
  lemma TotalOfTwoByTwo(m: Matrix)
    requires |m| == 2 && |m[0]| == 2 && |m[1]| == 2
    ensures Total(m) == m[0][0] + m[0][1] + m[1][0] + m[1][1]
  {
    assert Total(m[..1][..0]) == 0;
    assert Total(m[..1]) == Sum(m[0]);
    SumOfTwo(m[0]);
    SumOfTwo(m[1]);
  }

  lemma SumOfTwo(row: seq<nat>)
    requires |row| == 2
    ensures Sum(row) == row[0] + row[1]
  {
    assert Sum(row[..1][..0]) == 0;
    assert Sum(row[..1]) == row[0];
  }

  /** Reading back the report the XGBoost script writes for 0/1 test labels and predictions in
      which both classes occur gives lists as long as the test split, holding every (true,
      predicted) pair as often as the test split does. */
  lemma ReportPairs(file: string, yt: seq<int>, yp: seq<int>, report: string, a: int, b: int)
    requires |yt| == |yp| && Binary(yt) && Binary(yp) && 0 in yt + yp && 1 in yt + yp
    requires 'M' !in file
    requires (a == 0 || a == 1) && (b == 0 || b == 1)
    ensures var e := MC.Extract(X.ReportText(file, ConfusionMatrix(yt, yp), report));
      e.Found? && |Trues(e.m)| == |yt| &&
      PairCount(Trues(e.m), Preds(e.m), a, b) == PairCount(yt, yp, a, b)
  {
    var m := ConfusionMatrix(yt, yp);
    BinaryMatrix(yt, yp);
    MC.ReportRoundTrip(file, m, report);
    MatrixPairs(m, a, b);
    TotalOfTwoByTwo(m);
  }
}
