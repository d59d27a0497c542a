/** `extrai_matriz_confusao` of GRAFICOS/app_matriz_confusao.py: the report's matrix block, its
    numbers, and those numbers laid out in a square. */
module MatrizConfusao {
  import opened Base
  import opened Numbers
  import opened Confusion
  import opened ReportScan
  import X = PrevisorXgboost

  /** What the function ends in: no block (`None`), the square matrix, or the `ValueError` of
      `reshape` when the count of numbers is not a square. */
  datatype Extracted = NotFound | Found(m: Matrix) | ReshapeRaises

  /** The block, `[int(n) for n in re.findall(r'\d+', block)]`, `lado = int(len ** 0.5)` and
      `reshape((lado, lado))`. */
  function Extract(text: string): (r: Extracted)
    ensures r == NotFound <==> FindMatrixText(text).None?
    ensures r.Found? ==> Square(r.m)
  {
    match FindMatrixText(text)
    case None => NotFound
    case Some(block) => Layout(DigitRuns(block))
  }

  /** `lado = int(len(numeros) ** 0.5)` and `reshape((lado, lado))`. */
  function Layout(xs: seq<nat>): (r: Extracted)
    ensures r != NotFound
    ensures r.Found? ==> Square(r.m)
  {
    var side := ISqrt(|xs|);
    if side * side != |xs| then ReshapeRaises
    else Found(Reshape(xs, side))
  }

  /** The integer square root squares back to `n` exactly when `n` is a square. */
  lemma SquareCount(n: nat)
    ensures ISqrt(n) * ISqrt(n) == n <==> exists k: nat :: k * k == n
  {
    if exists k: nat :: k * k == n {
      var k: nat :| k * k == n;
      ISqrtOfSquare(k);
    }
  }

  /** Cell `(i, j)` of the square layout is number `i * n + j`. */
  lemma ReshapeCell(xs: seq<nat>, n: nat, i: nat, j: nat)
    requires |xs| == n * n && i < n && j < n
    ensures i * n + j < |xs| && Reshape(xs, n)[i][j] == xs[i * n + j]
  {
    assert Reshape(xs, n)[i] == Slice(xs, n, i);
    MulLe(i + 1, n, n);
    assert (i + 1) * n == i * n + n;
  }

  /** `m` is the square of side `|m|` holding `xs` row by row. */
  predicate RowMajor(m: Matrix, xs: seq<nat>) {
    |m| * |m| == |xs| && forall i, j :: 0 <= i < |m| && 0 <= j < |m| ==> CellAt(m, xs, i, j)
  }

  /** Row `i` of `m` is as long as `m`, and its cell `j` is number `i * |m| + j`. */
  predicate CellAt(m: Matrix, xs: seq<nat>, i: nat, j: nat)
    requires i < |m| && j < |m|
  {
    i * |m| + j < |xs| && |m[i]| == |m| && m[i][j] == xs[i * |m| + j]
  }

  /** `reshape` raises exactly when the count of numbers is not a square; otherwise the matrix
      holds the numbers row by row, its side being the square root of the count. */
  lemma LayoutOf(xs: seq<nat>)
    ensures Layout(xs) == ReshapeRaises <==> forall k: nat :: k * k != |xs|
    ensures Layout(xs).Found? ==> RowMajor(Layout(xs).m, xs)
  {
    SquareCount(|xs|);
    var side := ISqrt(|xs|);
    if side * side == |xs| {
      ReshapeRowMajor(xs, side);
    }
  }

  /** The square layout of `n * n` numbers holds them row by row. */
  lemma ReshapeRowMajor(xs: seq<nat>, n: nat)
    requires |xs| == n * n
    ensures RowMajor(Reshape(xs, n), xs)
  {
    var m := Reshape(xs, n);
    forall i, j | 0 <= i < |m| && 0 <= j < |m| ensures CellAt(m, xs, i, j) {
      ReshapeCellAt(xs, n, m, i, j);
    }
  }

  lemma ReshapeCellAt(xs: seq<nat>, n: nat, m: Matrix, i: nat, j: nat)
    requires |xs| == n * n && m == Reshape(xs, n) && i < |m| && j < |m|
    ensures CellAt(m, xs, i, j)
  {
    ReshapeCell(xs, n, i, j);
  }

  /** A report of the XGBoost script gives back the matrix it was written with. */
  lemma ReportRoundTrip(file: string, m: Matrix, report: string)
    requires m != [] && Square(m) && 'M' !in file
    ensures Extract(X.ReportText(file, m, report)) == Found(m)
  {
    X.ReportMatrixFound(file, m, report);
    PrintedCells(m);
    ReshapeFlatten(m);
    ISqrtOfSquare(|m|);
  }

  /** In particular the confusion matrix of a trained file's report, once there is a test
      label. */
  lemma TrainedReportRoundTrip(file: string, load: X.Loader, fit: X.Learner)
    requires X.TrainFile(file, load, fit).Reported? && 'M' !in file
    requires var f := fit(X.Samples(load(file).value).value).value; f.testLabels != []
    ensures var f := fit(X.Samples(load(file).value).value).value;
      Extract(X.TrainFile(file, load, fit).text) == Found(ConfusionMatrix(f.testLabels, f.predicted))
  {
    var f := fit(X.Samples(load(file).value).value).value;
    X.TrainFileReport(file, load, fit);
    var m := ConfusionMatrix(f.testLabels, f.predicted);
    assert f.testLabels[0] in f.testLabels + f.predicted;
    ReportRoundTrip(file, m, f.report);
  }
}
