/** The confusion matrix as the training scripts print it into their reports
    (`np.array2string`), and as the chart scripts find it there again: the regex
    `Matriz de confusão:\s*\n(\[\[.*?\]\])` searched with DOTALL, then the numbers of the match
    read with `re.findall(r'\d+', ...)`. */
module ReportScan {
  import opened Base
  import opened Text
  import opened Numbers
  import opened Confusion

  // ---------------------------------------------------------------- np.array2string

  /** `str.rjust(w)`. */
  function RJust(s: string, w: nat): (r: string)
    ensures |r| == if |s| >= w then |s| else w
    ensures r[|r| - |s|..] == s && forall k :: 0 <= k < |r| - |s| ==> r[k] == ' '
  {
    if |s| >= w then s else Repeat(' ', w - |s|) + s
  }

  /** The cells of a matrix, row after row. */
  function Flatten(m: Matrix): seq<nat> {
    if m == [] then [] else m[0] + Flatten(m[1..])
  }

  /** The width of the widest rendering among `xs`. */
  function MaxWidth(xs: seq<nat>): (w: nat)
    ensures forall x :: x in xs ==> |NatToString(x)| <= w
    ensures xs != [] ==> exists x :: x in xs && |NatToString(x)| == w
  {
    if xs == [] then 0
    else
      var w := MaxWidth(xs[1..]);
      assert forall x :: x in xs ==> x == xs[0] || x in xs[1..];
      assert forall x :: x in xs[1..] ==> x in xs;
      if |NatToString(xs[0])| >= w then |NatToString(xs[0])| else w
  }

  /** One cell, right-justified to `w`. */
  function Cell(x: nat, w: nat): string {
    RJust(NatToString(x), w)
  }

  /** The cells of a row separated by a space. */
  function CellsText(row: seq<nat>, w: nat): string {
    if row == [] then ""
    else if |row| == 1 then Cell(row[0], w)
    else Cell(row[0], w) + " " + CellsText(row[1..], w)
  }

  /** The rows, each in brackets, separated by a line break and a space. */
  function RowsText(m: Matrix, w: nat): string {
    if m == [] then ""
    else if |m| == 1 then "[" + CellsText(m[0], w) + "]"
    else "[" + CellsText(m[0], w) + "]" + "\n " + RowsText(m[1..], w)
  }

  /** `np.array2string` of a matrix of counts: every cell right-justified to the width of the
      widest, the cells of a row separated by a space, the rows by a line break and a space.
      Rows longer than numpy's 75-column line width, which numpy wraps, are not modelled. */
  function Array2String(m: Matrix): string {
    "[" + RowsText(m, MaxWidth(Flatten(m))) + "]"
  }

  // ---------------------------------------------------------------- re.findall(r'\d+', ...)

  /** The number of a finished run of digits, if one was in progress. */
  function Flush(run: Option<nat>): (r: seq<nat>)
    ensures |r| <= 1
  {
    if run.Some? then [run.value] else []
  }

  /** The scan of `s`, `run` holding the value of the digits read just before it. */
  function Runs(s: string, run: Option<nat>): seq<nat>
    decreases |s|
  {
    if s == [] then Flush(run)
    else if IsDigit(s[0]) then Runs(s[1..], Some(run.GetOr(0) * 10 + DigitValue(s[0])))
    else Flush(run) + Runs(s[1..], None)
  }

  /** `[int(n) for n in re.findall(r'\d+', s)]`: the values of the maximal runs of digits, left
      to right. */
  function DigitRuns(s: string): seq<nat> {
    Runs(s, None)
  }

  predicate NoDigits(s: string) {
    forall k :: 0 <= k < |s| ==> !IsDigit(s[k])
  }

  /** Text without digits adds no number. */
  lemma {:induction false} RunsAfterNoDigits(a: string, s: string)
    requires NoDigits(a)
    ensures DigitRuns(a + s) == DigitRuns(s)
    decreases |a|
  {
    if a != [] {
      assert (a + s)[0] == a[0];
      assert (a + s)[1..] == a[1..] + s;
      assert Runs(a + s, None) == [] + Runs(a[1..] + s, None);
      RunsAfterNoDigits(a[1..], s);
      assert [] + Runs(a[1..] + s, None) == Runs(a[1..] + s, None);
    } else {
      assert a + s == s;
    }
  }

  /** Digits read one after the other build the decimal value of the run. */
  lemma {:induction false} RunsOfDigits(d: string, s: string)
    requires |d| > 0 && AllDigits(d)
    ensures Runs(d + s, None) == Runs(s, Some(DigitsValue(d)))
    decreases |d|
  {
    var c := d[|d| - 1];
    var d0 := d[..|d| - 1];
    var t := [c] + s;
    assert t[0] == c && t[1..] == s;
    assert d + s == d0 + t;
    if d0 != [] {
      RunsOfDigits(d0, t);
    }
  }

  /** A numeral followed by a non-digit is read as one number. */
  lemma RunsOfNumeral(d: string, s: string)
    requires |d| > 0 && AllDigits(d) && (s == [] || !IsDigit(s[0]))
    ensures DigitRuns(d + s) == [DigitsValue(d)] + DigitRuns(s)
  {
    RunsOfDigits(d, s);
    if s != [] {
      assert Runs(s, None) == [] + Runs(s[1..], None);
      assert [] + Runs(s[1..], None) == Runs(s[1..], None);
    }
  }

  lemma Regroup4(a: string, b: string, c: string, d: string)
    ensures a + b + c + d == a + (b + (c + d))
  {
  }

  lemma RegroupHead(xs: seq<nat>, tail: seq<nat>)
    requires xs != []
    ensures [xs[0]] + (xs[1..] + tail) == xs + tail
  {
  }

  lemma FlattenHead(m: Matrix, tail: seq<nat>)
    requires m != []
    ensures m[0] + (Flatten(m[1..]) + tail) == Flatten(m) + tail
  {
  }

  lemma RunsOfPadded(pad: string, d: string, s: string)
    requires NoDigits(pad) && |d| > 0 && AllDigits(d) && (s == [] || !IsDigit(s[0]))
    ensures DigitRuns(pad + (d + s)) == [DigitsValue(d)] + DigitRuns(s)
  {
    RunsOfNumeral(d, s);
    RunsAfterNoDigits(pad, d + s);
  }

  lemma RunsOfCell(x: nat, w: nat, s: string)
    requires s == [] || !IsDigit(s[0])
    ensures DigitRuns(Cell(x, w) + s) == [x] + DigitRuns(s)
  {
    var d := NatToString(x);
    var c := Cell(x, w);
    var pad := c[..|c| - |d|];
    assert c == pad + d;
    Regroup(pad, d, s);
    RunsOfPadded(pad, d, s);
  }

  lemma RunsOfCellsStep(row: seq<nat>, w: nat, s: string)
    requires |row| > 1 && (s == [] || !IsDigit(s[0]))
    requires DigitRuns(CellsText(row[1..], w) + s) == row[1..] + DigitRuns(s)
    ensures DigitRuns(CellsText(row, w) + s) == row + DigitRuns(s)
  {
    var cells := CellsText(row[1..], w);
    assert CellsText(row, w) == Cell(row[0], w) + " " + cells;
    RunsOfCellThen(row[0], w, cells, s, row[1..] + DigitRuns(s));
    RegroupHead(row, DigitRuns(s));
  }

  /** A cell, a space and more text read as the cell's number followed by that text's. */
  lemma RunsOfCellThen(x: nat, w: nat, cells: string, s: string, rest: seq<nat>)
    requires DigitRuns(cells + s) == rest
    ensures DigitRuns(Cell(x, w) + " " + cells + s) == [x] + rest
  {
    Regroup4(Cell(x, w), " ", cells, s);
    RunsOfCell(x, w, " " + (cells + s));
    RunsAfterNoDigits(" ", cells + s);
  }

  lemma {:induction false} RunsOfCells(row: seq<nat>, w: nat, s: string)
    requires s == [] || !IsDigit(s[0])
    ensures DigitRuns(CellsText(row, w) + s) == row + DigitRuns(s)
    decreases |row|
  {
    if row == [] {
      assert CellsText(row, w) + s == s;
    } else if |row| == 1 {
      RunsOfCell(row[0], w, s);
      assert row == [row[0]];
    } else {
      RunsOfCells(row[1..], w, s);
      RunsOfCellsStep(row, w, s);
    }
  }

  /** One bracketed row followed by `tail`. */
  lemma RunsOfRow(row: seq<nat>, w: nat, tail: string)
    requires tail == [] || !IsDigit(tail[0])
    ensures DigitRuns("[" + CellsText(row, w) + "]" + tail) == row + DigitRuns(tail)
  {
    var cells := CellsText(row, w);
    Regroup4("[", cells, "]", tail);
    RunsAfterNoDigits("[", cells + ("]" + tail));
    RunsOfCells(row, w, "]" + tail);
    RunsAfterNoDigits("]", tail);
  }

  lemma RunsOfRowsStep(m: Matrix, w: nat, s: string)
    requires |m| > 1 && (s == [] || !IsDigit(s[0]))
    requires DigitRuns(RowsText(m[1..], w) + s) == Flatten(m[1..]) + DigitRuns(s)
    ensures DigitRuns(RowsText(m, w) + s) == Flatten(m) + DigitRuns(s)
  {
    var rows := RowsText(m[1..], w);
    var r := "[" + CellsText(m[0], w) + "]";
    Regroup4(r, "\n ", rows, s);
    RunsOfRow(m[0], w, "\n " + (rows + s));
    RunsAfterNoDigits("\n ", rows + s);
    FlattenHead(m, DigitRuns(s));
  }

  lemma RunsOfLastRow(m: Matrix, w: nat, s: string)
    requires |m| == 1 && (s == [] || !IsDigit(s[0]))
    ensures DigitRuns(RowsText(m, w) + s) == Flatten(m) + DigitRuns(s)
  {
    var row := m[0];
    assert RowsText(m, w) == "[" + CellsText(row, w) + "]";
    RunsOfRow(row, w, s);
    assert Flatten(m) == row by {
      assert m[1..] == [];
      assert Flatten(m) == row + Flatten(m[1..]);
    }
  }

  lemma {:induction false} RunsOfRows(m: Matrix, w: nat, s: string)
    requires s == [] || !IsDigit(s[0])
    ensures DigitRuns(RowsText(m, w) + s) == Flatten(m) + DigitRuns(s)
    decreases |m|
  {
    if m == [] {
      assert RowsText(m, w) + s == s;
    } else if |m| == 1 {
      RunsOfLastRow(m, w, s);
    } else {
      RunsOfRows(m[1..], w, s);
      RunsOfRowsStep(m, w, s);
    }
  }

  /** The numbers of a printed matrix are its cells, row after row, whatever their widths. */
  lemma PrintedCells(m: Matrix)
    ensures DigitRuns(Array2String(m)) == Flatten(m)
  {
    var inner := RowsText(m, MaxWidth(Flatten(m)));
    Regroup("[", inner, "]");
    RunsAfterNoDigits("[", inner + "]");
    RunsOfRows(m, MaxWidth(Flatten(m)), "]");
    RunsAfterNoDigits("]", "");
    assert "]" + "" == "]";
  }

  // ---------------------------------------------------------------- the square reshape

  lemma MulLe(a: nat, b: nat, n: nat)
    requires a <= b
    ensures a * n <= b * n
  {
  }

  /** Row `i` of the `n` by `n` layout of `xs`. */
  function Slice(xs: seq<nat>, n: nat, i: nat): (r: seq<nat>)
    requires |xs| == n * n && i < n
    ensures |r| == n
  {
    MulLe(i + 1, n, n);
    assert (i + 1) * n == i * n + n;
    xs[i * n..(i + 1) * n]
  }

  /** `[xs[i*n:(i+1)*n] for i in range(n)]`, and `reshape((n, n))`, of exactly `n * n` numbers. */
  function Reshape(xs: seq<nat>, n: nat): (m: Matrix)
    requires |xs| == n * n
    ensures |m| == n && Square(m)
  {
    seq(n, i requires 0 <= i < n => Slice(xs, n, i))
  }

  lemma {:induction false} FlattenLength(m: Matrix, n: nat)
    requires forall i :: 0 <= i < |m| ==> |m[i]| == n
    ensures |Flatten(m)| == |m| * n
    decreases |m|
  {
    if m != [] {
      FlattenLength(m[1..], n);
      assert |m| * n == n + (|m| - 1) * n;
    }
  }

  lemma {:induction false} FlattenSlice(m: Matrix, n: nat, i: nat)
    requires forall k :: 0 <= k < |m| ==> |m[k]| == n
    requires i < |m|
    ensures (i + 1) * n <= |Flatten(m)| && Flatten(m)[i * n..(i + 1) * n] == m[i]
    decreases i
  {
    FlattenLength(m, n);
    MulLe(i + 1, |m|, n);
    var rest := Flatten(m[1..]);
    assert Flatten(m) == m[0] + rest;
    if i > 0 {
      FlattenSlice(m[1..], n, i - 1);
      assert i * n == n + (i - 1) * n;
      assert (i + 1) * n == n + i * n;
      assert Flatten(m)[i * n..(i + 1) * n] == rest[(i - 1) * n..i * n];
    }
  }

  /** Laying the cells of a square matrix out again gives the matrix back. */
  lemma ReshapeFlatten(m: Matrix)
    requires Square(m)
    ensures |Flatten(m)| == |m| * |m| && Reshape(Flatten(m), |m|) == m
  {
    FlattenLength(m, |m|);
    forall i | 0 <= i < |m| ensures Reshape(Flatten(m), |m|)[i] == m[i] {
      FlattenSlice(m, |m|, i);
    }
  }

  // ---------------------------------------------------------------- the regex search

  const Marker := "Matriz de confus\U{E3}o:"

  /** The end of the run of blanks that starts at `i`. */
  function SpaceEnd(s: string, i: nat): (e: nat)
    requires i <= |s|
    ensures i <= e <= |s| && (e < |s| ==> !IsSpace(s[e]))
    ensures forall k :: i <= k < e ==> IsSpace(s[k])
    decreases |s| - i
  {
    if i < |s| && IsSpace(s[i]) then SpaceEnd(s, i + 1) else i
  }

  predicate ClosesAt(s: string, k: int) {
    0 <= k && k + 1 < |s| && s[k] == ']' && s[k + 1] == ']'
  }

  /** The first "]]" at or after `i`. */
  function CloseFrom(s: string, i: nat): (q: Option<nat>)
    ensures q.Some? ==> i <= q.value && ClosesAt(s, q.value)
    ensures q.None? <==> forall k :: i <= k < |s| ==> !ClosesAt(s, k)
    decreases |s| - i
  {
    if i + 1 >= |s| then None
    else if ClosesAt(s, i) then Some(i)
    else CloseFrom(s, i + 1)
  }

  /** The pattern tried at `p`: the marker, blanks ending in a line break, then the text from
      "[[" to the first "]]" after it. The greedy `\s*` can only give the line break back when
      "[[" follows it at once, so the line break is the last blank of the run. */
  function MatchAt(s: string, p: nat): (g: Option<string>)
    ensures g.Some? ==> OccursAt(s, Marker, p) && |g.value| >= 4
  {
    if !OccursAt(s, Marker, p) then None
    else
      var e := SpaceEnd(s, p + |Marker|);
      if e == p + |Marker| || s[e - 1] != '\n' || !OccursAt(s, "[[", e) then None
      else match CloseFrom(s, e + 2)
        case None => None
        case Some(q) => Some(s[e..q + 2])
  }

  function SearchFrom(s: string, p: nat): (g: Option<string>)
    decreases |s| - p
  {
    if p > |s| then None
    else if MatchAt(s, p).Some? then MatchAt(s, p)
    else SearchFrom(s, p + 1)
  }

  /** `re.search(...)` and `group(1)`: the match that starts first. */
  function FindMatrixText(s: string): Option<string> {
    SearchFrom(s, 0)
  }

  /** A text without the marker has no matrix block. */
  lemma {:induction false} NoMarkerNoMatch(s: string, p: nat)
    requires !Contains(s, Marker)
    ensures SearchFrom(s, p) == None
    decreases |s| - p
  {
    if p <= |s| {
      NoMarkerNoMatch(s, p + 1);
    }
  }

  lemma {:induction false} SearchFindsFirst(s: string, p: nat, k: nat)
    requires p <= k <= |s| && MatchAt(s, k).Some?
    requires forall j :: p <= j < k ==> !OccursAt(s, Marker, j)
    ensures SearchFrom(s, p) == MatchAt(s, k)
    decreases k - p
  {
    if p < k {
      SearchFindsFirst(s, p + 1, k);
    }
  }

  // ---------------------------------------------------------------- the printed matrix found again

  predicate NoDoubleClose(s: string) {
    forall k :: 0 <= k < |s| - 1 ==> !(s[k] == ']' && s[k + 1] == ']')
  }

  lemma NoDoubleCloseAppend(a: string, b: string)
    requires NoDoubleClose(a) && NoDoubleClose(b)
    requires a == [] || b == [] || a[|a| - 1] != ']' || b[0] != ']'
    ensures NoDoubleClose(a + b)
  {
    var s := a + b;
    forall k | 0 <= k < |s| - 1 ensures !(s[k] == ']' && s[k + 1] == ']') {
      if k + 1 < |a| {
        assert s[k] == a[k] && s[k + 1] == a[k + 1];
      } else if k >= |a| {
        assert s[k] == b[k - |a|] && s[k + 1] == b[k + 1 - |a|];
      }
    }
  }

  lemma CellNoBracket(x: nat, w: nat)
    ensures ']' !in Cell(x, w)
  {
    var d := NatToString(x);
    var c := Cell(x, w);
    forall k | 0 <= k < |c| ensures c[k] != ']' {
      if k >= |c| - |d| {
        assert c[k] == c[|c| - |d|..][k - (|c| - |d|)] == d[k - (|c| - |d|)];
      }
    }
  }

  lemma {:induction false} CellsNoBracket(row: seq<nat>, w: nat)
    ensures ']' !in CellsText(row, w)
    decreases |row|
  {
    if row != [] {
      CellNoBracket(row[0], w);
      if |row| > 1 {
        CellsNoBracket(row[1..], w);
      }
    }
  }

  /** The bracketed row: it opens with '[', and its only ']' is its last character. */
  lemma RowShape(row: seq<nat>, w: nat)
    ensures var r := "[" + CellsText(row, w) + "]";
      r[0] == '[' && r[|r| - 1] == ']' && NoDoubleClose(r)
  {
    var j := CellsText(row, w);
    var r := "[" + j + "]";
    CellsNoBracket(row, w);
    forall k | 0 <= k < |r| - 1 ensures r[k] != ']' {
      if k > 0 {
        assert r[k] == j[k - 1];
      }
    }
  }

  lemma {:induction false} RowsShape(m: Matrix, w: nat)
    requires m != []
    ensures var i := RowsText(m, w);
      |i| >= 2 && i[0] == '[' && i[|i| - 1] == ']' && NoDoubleClose(i)
    decreases |m|
  {
    var r := "[" + CellsText(m[0], w) + "]";
    RowShape(m[0], w);
    if |m| > 1 {
      RowsShape(m[1..], w);
      var rest := RowsText(m[1..], w);
      assert NoDoubleClose("\n ");
      NoDoubleCloseAppend(r, "\n ");
      NoDoubleCloseAppend(r + "\n ", rest);
      assert RowsText(m, w) == (r + "\n ") + rest;
    }
  }

  lemma {:induction false} CloseFromFirst(s: string, i: nat, q: nat)
    requires i <= q && ClosesAt(s, q)
    requires forall k :: i <= k < q ==> !ClosesAt(s, k)
    ensures CloseFrom(s, i) == Some(q)
    decreases q - i
  {
    if i < q {
      CloseFromFirst(s, i + 1, q);
    }
  }

  /** Text that opens with "[[" and whose first "]]" is its last two characters. */
  predicate Block(a: string) {
    |a| >= 4 && a[0] == '[' && a[1] == '[' && a[|a| - 2] == ']' && a[|a| - 1] == ']' &&
    forall k :: 0 <= k < |a| - 2 ==> !(a[k] == ']' && a[k + 1] == ']')
  }

  lemma PrintedShape(m: Matrix)
    requires m != []
    ensures Block(Array2String(m))
  {
    var a := Array2String(m);
    var inner := RowsText(m, MaxWidth(Flatten(m)));
    RowsShape(m, MaxWidth(Flatten(m)));
    assert a == "[" + inner + "]";
    forall k | 0 <= k < |a| - 2 ensures !(a[k] == ']' && a[k + 1] == ']') {
      if k > 0 {
        assert a[k] == inner[k - 1] && a[k + 1] == inner[k];
      }
    }
  }

  /** A block found at `e` in `s` closes at its own last two characters. */
  lemma ClosesAtEnd(s: string, e: nat, a: string)
    requires Block(a) && e + |a| <= |s| && s[e..e + |a|] == a
    ensures CloseFrom(s, e + 2) == Some(e + |a| - 2)
  {
    var q := e + |a| - 2;
    forall k | e + 2 <= k < q ensures !ClosesAt(s, k) {
      assert s[k] == a[k - e] && s[k + 1] == a[k + 1 - e];
    }
    assert s[q] == a[|a| - 2] && s[q + 1] == a[|a| - 1];
    CloseFromFirst(s, e + 2, q);
  }

  /** The pattern tried where the marker, a line break and a block follow each other. */
  lemma MatchPrinted(s: string, p: nat, a: string)
    requires Block(a) && OccursAt(s, Marker, p)
    requires p + |Marker| + 1 + |a| <= |s| && s[p + |Marker|] == '\n'
    requires s[p + |Marker| + 1..p + |Marker| + 1 + |a|] == a
    ensures MatchAt(s, p) == Some(a)
  {
    var e := p + |Marker| + 1;
    assert s[e] == a[0] && s[e + 1] == a[1];
    assert SpaceEnd(s, e) == e;
    assert SpaceEnd(s, e - 1) == e;
    assert OccursAt(s, "[[", e);
    ClosesAtEnd(s, e, a);
  }

  /** No marker starts inside `pre` when none starts there before the marker is appended. */
  lemma MarkerFirst(pre: string, rest: string)
    requires forall p :: 0 <= p < |pre| ==> !OccursAt(pre + Marker, Marker, p)
    ensures forall j :: 0 <= j < |pre| ==> !OccursAt(pre + Marker + rest, Marker, j)
    ensures OccursAt(pre + Marker + rest, Marker, |pre|)
  {
    var s := pre + Marker + rest;
    forall j | 0 <= j < |pre| ensures !OccursAt(s, Marker, j) {
      assert !OccursAt(pre + Marker, Marker, j);
      assert j + |Marker| <= |pre + Marker|;
      assert s[j..j + |Marker|] == (pre + Marker)[j..j + |Marker|];
    }
    assert s[|pre|..|pre| + |Marker|] == Marker;
  }

  /** A report holding the marker, a line break and a block, with no earlier marker, gives
      back exactly the block. */
  lemma FindBlock(pre: string, a: string, post: string)
    requires Block(a)
    requires forall p :: 0 <= p < |pre| ==> !OccursAt(pre + Marker, Marker, p)
    ensures FindMatrixText(pre + Marker + ("\n" + a + post)) == Some(a)
  {
    var rest := "\n" + a + post;
    var s := pre + Marker + rest;
    MarkerFirst(pre, rest);
    var e := |pre| + |Marker| + 1;
    assert s[e - 1] == rest[0] == '\n';
    assert s[e..e + |a|] == rest[1..1 + |a|] == a;
    MatchPrinted(s, |pre|, a);
    SearchFindsFirst(s, 0, |pre|);
  }

  /** The printed matrix is found again in a report that holds it after the marker. */
  lemma FindPrinted(pre: string, m: Matrix, post: string)
    requires m != []
    requires forall p :: 0 <= p < |pre| ==> !OccursAt(pre + Marker, Marker, p)
    ensures FindMatrixText(pre + Marker + ("\n" + Array2String(m) + post)) == Some(Array2String(m))
  {
    PrintedShape(m);
    FindBlock(pre, Array2String(m), post);
  }
}
