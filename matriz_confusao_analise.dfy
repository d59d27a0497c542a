/** `parse_report` of GRAFICOS/ANALISE/app_matriz_confusao_analise.py: the model and the city
    named by a report's file name, and the first 2 by 2 confusion matrix of its text. */
module MatrizConfusaoAnalise {
  import opened Base
  import opened Text
  import opened Numbers
  import opened Confusion
  import RS = ReportScan
  import X = PrevisorXgboost
  import RF = RandomForestTraining

  /** The dictionary `parse_report` returns. */
  datatype Report = Report(city: string, model: string, matrix: Matrix)

  // ---------------------------------------------------------------- the model name

  /** Checked in this order on the lower-cased base name. */
  function ModelName(base: string): string {
    if Contains(LowerStr(base), "xgboost") then "XGBOOST"
    else if Contains(LowerStr(base), "random_forest") then "RANDOM FOREST"
    else "Desconhecido"
  }

  // ---------------------------------------------------------------- the city name

  /** The pattern text `lit` matches `s` at `i` under `re.IGNORECASE`. */
  predicate MatchesAt(s: string, lit: string, i: nat) {
    i + |lit| <= |s| && forall k :: 0 <= k < |lit| ==> Lower(s[i + k]) == Lower(lit[k])
  }

  const Prefix := "relatorio_"

  /** `_(xgboost|random_forest)\.txt` matches at `q`. */
  predicate SuffixAt(s: string, q: nat) {
    MatchesAt(s, "_xgboost.txt", q) || MatchesAt(s, "_random_forest.txt", q)
  }

  /** Where `.` stops matching: the first line break at or after `i`. */
  function LineEnd(s: string, i: nat): (e: nat)
    requires i <= |s|
    ensures i <= e <= |s| && (e < |s| ==> s[e] == '\n')
    ensures forall k :: i <= k < e ==> s[k] != '\n'
    decreases |s| - i
  {
    if i == |s| || s[i] == '\n' then i else LineEnd(s, i + 1)
  }

  /** The greedy `(.*)` gives back one character at a time: the last suffix at or before `q`. */
  function LastSuffix(s: string, lo: nat, q: nat): (r: Option<nat>)
    requires lo <= q
    ensures r.Some? ==> lo <= r.value <= q && SuffixAt(s, r.value)
    ensures r.Some? ==> forall k :: r.value < k <= q ==> !SuffixAt(s, k)
    ensures r.None? ==> forall k :: lo <= k <= q ==> !SuffixAt(s, k)
    decreases q - lo
  {
    if SuffixAt(s, q) then Some(q)
    else if q == lo then None
    else LastSuffix(s, lo, q - 1)
  }

  /** The pattern `relatorio_(.*)_(xgboost|random_forest)\.txt` tried at `p`, and its group. */
  function CityAt(s: string, p: nat): (g: Option<string>)
  {
    if !MatchesAt(s, Prefix, p) then None
    else
      var lo := p + |Prefix|;
      match LastSuffix(s, lo, LineEnd(s, lo))
      case None => None
      case Some(q) => Some(s[lo..q])
  }

  function CityFrom(s: string, p: nat): Option<string>
    decreases |s| - p
  {
    if p > |s| then None
    else if CityAt(s, p).Some? then CityAt(s, p)
    else CityFrom(s, p + 1)
  }

  /** The group with '_' turned into spaces, in title case; 'Desconhecida' without a match. */
  function CityName(base: string): string {
    match CityFrom(base, 0)
    case None => "Desconhecida"
    case Some(g) => Title(ReplaceChar(g, '_', ' '))
  }

  // ---------------------------------------------------------------- names of a written report

  const RandomForestSuffix := "_random_forest.txt"

  /** `s` is `relatorio_<city with ' ' turned into '_'>_random_forest.txt`, character by
      character. */
  predicate IsReportFile(s: string, city: string) {
    var n := |city|;
    |s| == |Prefix| + n + |RandomForestSuffix| &&
    (forall k :: 0 <= k < |Prefix| ==> s[k] == Prefix[k]) &&
    (forall k :: 0 <= k < n ==> s[|Prefix| + k] == if city[k] == ' ' then '_' else city[k]) &&
    (forall k :: 0 <= k < |RandomForestSuffix| ==> s[|Prefix| + n + k] == RandomForestSuffix[k])
  }

  lemma ReportFileChars(city: string)
    requires '/' !in city
    ensures IsReportFile(RF.ReportFile(city), city)
    ensures RF.SafeName(city) == ReplaceChar(city, ' ', '_')
  {
    RemoveAbsentChar(ReplaceChar(city, ' ', '_'), '/');
  }

  /** The line `.` may cover runs to the end of a text without line breaks. */
  lemma {:induction false} LineEndIs(s: string, i: nat)
    requires i <= |s| && forall k :: i <= k < |s| ==> s[k] != '\n'
    ensures LineEnd(s, i) == |s|
    decreases |s| - i
  {
    if i < |s| {
      LineEndIs(s, i + 1);
    }
  }

  /** The last suffix position is the one after which no suffix matches. */
  lemma {:induction false} LastSuffixIs(s: string, lo: nat, q: nat, r: nat)
    requires lo <= r <= q && SuffixAt(s, r) && forall k :: r < k <= q ==> !SuffixAt(s, k)
    ensures LastSuffix(s, lo, q) == Some(r)
    decreases q - r
  {
    if r < q {
      LastSuffixIs(s, lo, q - 1, r);
    }
  }

  /** A pattern whose first character differs does not match. */
  lemma FirstCharMismatch(s: string, lit: string, k: nat)
    requires 0 < |lit| && k < |s| && Lower(s[k]) != Lower(lit[0])
    ensures !MatchesAt(s, lit, k)
  {
  }

  /** The six characters after the suffix's leading underscore are letters of "random". */
  lemma SuffixHeadLetters()
    ensures forall j :: 1 <= j <= 6 ==> Lower(RandomForestSuffix[j]) != '_'
  {
    assert RandomForestSuffix[1] == 'r' && RandomForestSuffix[2] == 'a' && RandomForestSuffix[3] == 'n';
    assert RandomForestSuffix[4] == 'd' && RandomForestSuffix[5] == 'o' && RandomForestSuffix[6] == 'm';
  }

  /** In a report file name, the suffix starts right after the city and nowhere later. */
  lemma ReportSuffix(s: string, city: string)
    requires IsReportFile(s, city)
    ensures SuffixAt(s, |Prefix| + |city|)
    ensures forall k :: |Prefix| + |city| < k <= |s| ==> !SuffixAt(s, k)
  {
    var q := |Prefix| + |city|;
    assert MatchesAt(s, "_random_forest.txt", q);
    forall k | q < k <= |s| ensures !SuffixAt(s, k) {
      if k + 12 <= |s| {
        SuffixHeadLetters();
        assert s[k] == RandomForestSuffix[k - q];
        FirstCharMismatch(s, "_xgboost.txt", k);
        FirstCharMismatch(s, "_random_forest.txt", k);
      }
    }
  }

  /** The city group of a normal Random Forest report is the safe name the script wrote. */
  lemma ReportCityGroup(city: string)
    requires '/' !in city && '\n' !in city
    ensures CityAt(RF.ReportFile(city), 0) == Some(RF.SafeName(city))
  {
    var s := RF.ReportFile(city);
    ReportFileChars(city);
    var lo, q := |Prefix|, |Prefix| + |city|;
    assert MatchesAt(s, Prefix, 0);
    forall k | lo <= k < |s| ensures s[k] != '\n' {
      if k < q {
        assert city[k - lo] in city;
      }
    }
    LineEndIs(s, lo);
    ReportSuffix(s, city);
    LastSuffixIs(s, lo, |s|, q);
    assert s[lo..q] == RF.SafeName(city);
  }

  /** ... so the plotted city is the name the report was written for, in title case. */
  lemma ReportCityName(city: string)
    requires '/' !in city && '_' !in city && '\n' !in city
    ensures CityName(RF.ReportFile(city)) == Title(city)
  {
    ReportCityGroup(city);
    RF.SafeNameInverse(city);
  }

  /** Around the city, a report file name has no 'x' before the extension and a '_' right
      after the city; "xgboost" has no '_'. */
  lemma CharsAroundCity(s: string, city: string)
    requires IsReportFile(s, city)
    ensures forall j :: 0 <= j < |Prefix| ==> LowerStr(s)[j] != 'x'
    ensures forall j :: |Prefix| + |city| <= j < |Prefix| + |city| + 12 ==> LowerStr(s)[j] != 'x'
    ensures LowerStr(s)[|Prefix| + |city|] == '_'
    ensures forall j :: 0 <= j < 7 ==> "xgboost"[j] != '_'
  {
    var q := |Prefix| + |city|;
    forall j | 0 <= j < |Prefix| ensures LowerStr(s)[j] != 'x' {
      var c := Prefix[j];
      assert s[j] == c && c in Prefix;
    }
    forall j | q <= j < q + 12 ensures LowerStr(s)[j] != 'x' {
      var c := RandomForestSuffix[j - q];
      assert RandomForestSuffix[..12] == "_random_fore";
      assert s[j] == c && c in "_random_fore";
    }
    assert s[q + 0] == RandomForestSuffix[0];
  }

  /** Where "xgboost" can occur in a lower-cased report file name: only inside the city. */
  lemma XgboostInReportFile(s: string, city: string, i: nat)
    requires IsReportFile(s, city) && OccursAt(LowerStr(s), "xgboost", i)
    ensures OccursAt(LowerStr(city), "xgboost", i - |Prefix|)
  {
    var t, q := LowerStr(s), |Prefix| + |city|;
    CharsAroundCity(s, city);
    assert t[i + 0] == 'x';
    assert |Prefix| <= i < q;
    assert i + 7 <= q by {
      assert forall k :: 0 <= k < 7 ==> t[i + k] == "xgboost"[k];
    }
    forall k | 0 <= k < 7 ensures LowerStr(city)[i - |Prefix| + k] == "xgboost"[k] {
      assert t[i + k] == Lower(s[i + k]);
    }
  }

  /** A report file name for a city whose name does not spell "xgboost" does not either. */
  lemma NoXgboostInReportFile(city: string)
    requires '/' !in city && !Contains(LowerStr(city), "xgboost")
    ensures !Contains(LowerStr(RF.ReportFile(city)), "xgboost")
  {
    var s := RF.ReportFile(city);
    ReportFileChars(city);
    if Contains(LowerStr(s), "xgboost") {
      var i :| 0 <= i <= |LowerStr(s)| - 7 && OccursAt(LowerStr(s), "xgboost", i);
      XgboostInReportFile(s, city, i);
    }
  }

  /** "random_forest" follows the city and its '_' in a report file name. */
  lemma RandomForestAfterCity(s: string, city: string)
    requires IsReportFile(s, city)
    ensures OccursAt(LowerStr(s), "random_forest", |Prefix| + |city| + 1)
  {
    var t, q := LowerStr(s), |Prefix| + |city| + 1;
    LowerSuffixWord();
    forall k | 0 <= k < 13 ensures t[q + k] == "random_forest"[k] {
      assert s[q + k] == RandomForestSuffix[1 + k];
    }
    assert t[q..q + 13] == "random_forest";
  }

  /** The suffix, lower-cased, spells "random_forest" after its '_'. */
  lemma LowerSuffixWord()
    ensures forall k :: 0 <= k < 13 ==> Lower(RandomForestSuffix[1 + k]) == "random_forest"[k]
  {
    assert RandomForestSuffix[1..14] == "random_forest";
    forall k | 0 <= k < 13 ensures Lower(RandomForestSuffix[1 + k]) == "random_forest"[k] {
      var c := "random_forest"[k];
      assert RandomForestSuffix[1 + k] == c && c in "random_forest";
    }
  }

  /** ... so the name contains it. */
  lemma RandomForestInReportFile(city: string)
    requires '/' !in city
    ensures Contains(LowerStr(RF.ReportFile(city)), "random_forest")
  {
    ReportFileChars(city);
    RandomForestAfterCity(RF.ReportFile(city), city);
  }

  /** A normal Random Forest report is labelled as such, unless the city's own name spells
      "xgboost", which is checked first. */
  lemma ReportModelName(city: string)
    requires '/' !in city && !Contains(LowerStr(city), "xgboost")
    ensures ModelName(RF.ReportFile(city)) == "RANDOM FOREST"
  {
    NoXgboostInReportFile(city);
    RandomForestInReportFile(city);
  }

  // ---------------------------------------------------------------- the 2 by 2 matrix

  /** The end of the run of digits that starts at `i`. */
  function DigitEnd(s: string, i: nat): (e: nat)
    requires i <= |s|
    ensures i <= e <= |s| && (e < |s| ==> !IsDigit(s[e]))
    decreases |s| - i
  {
    if i < |s| && IsDigit(s[i]) then DigitEnd(s, i + 1) else i
  }

  /** The value of the digits `s[d..e]`, read by position. */
  function ValueAt(s: string, d: nat, e: nat): nat
    requires d <= e <= |s|
    decreases e - d
  {
    if e == d then 0 else ValueAt(s, d, e - 1) * 10 + (if IsDigit(s[e - 1]) then DigitValue(s[e - 1]) else 0)
  }

  /** Reading by position agrees with the value of the slice. */
  lemma {:induction false} ValueAtSlice(s: string, d: nat, e: nat)
    requires d <= e <= |s| && forall k :: d <= k < e ==> IsDigit(s[k])
    ensures AllDigits(s[d..e]) && ValueAt(s, d, e) == DigitsValue(s[d..e])
    decreases e - d
  {
    if e > d {
      ValueAtSlice(s, d, e - 1);
      assert s[d..e][..e - 1 - d] == s[d..e - 1];
    }
  }

  datatype Number = Number(value: nat, end: nat)

  /** `\s*(\d+)` at `i`: the value of the digits and where they end. Blanks and digits never
      overlap, so each greedy run is the only one the rest of the pattern can follow. */
  function NumberAt(s: string, i: nat): (r: Option<Number>)
    requires i <= |s|
    ensures r.Some? ==> i < r.value.end <= |s|
  {
    var d := RS.SpaceEnd(s, i);
    var e := DigitEnd(s, d);
    if e == d then None else Some(Number(ValueAt(s, d, e), e))
  }

  datatype RowMatch = RowMatch(a: nat, b: nat, end: nat)

  /** `\s*(\d+)\s+(\d+)\]` at `i`: `\s+` followed by `\s*` is `\s*` after a first blank. */
  function RowAt(s: string, i: nat): (r: Option<RowMatch>)
    requires i <= |s|
    ensures r.Some? ==> i < r.value.end <= |s|
  {
    match NumberAt(s, i)
    case None => None
    case Some(n1) =>
      if n1.end == |s| || !IsSpace(s[n1.end]) then None
      else match NumberAt(s, n1.end)
        case None => None
        case Some(n2) =>
          if n2.end == |s| || s[n2.end] != ']' then None
          else Some(RowMatch(n1.value, n2.value, n2.end + 1))
  }

  datatype Counts = Counts(tn: nat, fp: nat, fn: nat, tp: nat)

  predicate OpensAt(s: string, p: nat) {
    p + 1 < |s| && s[p] == '[' && s[p + 1] == '['
  }

  /** `\[\[\s*(\d+)\s+(\d+)\]\s*\[\s*(\d+)\s+(\d+)\]\]` at `p`. */
  function TwoByTwoAt(s: string, p: nat): (c: Option<Counts>)
    ensures c.Some? ==> OpensAt(s, p)
  {
    if !OpensAt(s, p) then None else AfterFirstRow(s, RowAt(s, p + 2))
  }

  /** `\s*\[\s*(\d+)\s+(\d+)\]\]` after the first row. */
  function AfterFirstRow(s: string, first: Option<RowMatch>): Option<Counts>
    requires first.Some? ==> first.value.end <= |s|
  {
    match first
    case None => None
    case Some(r1) =>
      var j := RS.SpaceEnd(s, r1.end);
      if j == |s| || s[j] != '[' then None
      else Closing(s, r1, RowAt(s, j + 1))
  }

  /** The final `\]` after the second row. */
  function Closing(s: string, r1: RowMatch, second: Option<RowMatch>): Option<Counts> {
    match second
    case None => None
    case Some(r2) =>
      if r2.end >= |s| || s[r2.end] != ']' then None
      else Some(Counts(r1.a, r1.b, r2.a, r2.b))
  }

  function TwoByTwoFrom(s: string, p: nat): Option<Counts>
    decreases |s| - p
  {
    if p > |s| then None
    else if TwoByTwoAt(s, p).Some? then TwoByTwoAt(s, p)
    else TwoByTwoFrom(s, p + 1)
  }

  /** `re.search(...)`: the match that starts first. */
  function FindTwoByTwo(s: string): Option<Counts> {
    TwoByTwoFrom(s, 0)
  }

  /** `content` is what reading the file gave, `None` when opening or decoding it raised; the
      handler then returns `None`, as it does when the text holds no 2 by 2 matrix. */
  function ParseReport(path: string, content: Option<string>): (r: Option<Report>)
    ensures r.Some? ==> content.Some? && FindTwoByTwo(content.value).Some?
    ensures r.Some? ==> |r.value.matrix| == 2 && |r.value.matrix[0]| == 2 && |r.value.matrix[1]| == 2
  {
    if content.None? then None
    else
      var base := Basename(path);
      match FindTwoByTwo(content.value)
      case None => None
      case Some(c) => Some(Report(CityName(base), ModelName(base), [[c.tn, c.fp], [c.fn, c.tp]]))
  }

  // ---------------------------------------------------------------- texts without a matrix

  lemma {:induction false} NoBracketsFrom(s: string, p: nat)
    requires !Contains(s, "[[")
    ensures TwoByTwoFrom(s, p) == None
    decreases |s| - p
  {
    if p <= |s| {
      if p + 2 <= |s| {
        assert s[p..p + 2] == [s[p], s[p + 1]];
        assert !OccursAt(s, "[[", p);
      }
      assert TwoByTwoAt(s, p) == None;
      NoBracketsFrom(s, p + 1);
    }
  }

  /** A text without "[[" parses to `None`. */
  lemma NoBracketsNoReport(path: string, text: string)
    requires !Contains(text, "[[")
    ensures ParseReport(path, Some(text)) == None
  {
    NoBracketsFrom(text, 0);
  }

  /** The single-class report of the Random Forest script holds no bracket matrix, so it is
      never plotted. */
  lemma SingleClassReportSkipped(path: string, city: string, samples: nat, positives: int)
    requires '[' !in city
    ensures ParseReport(path, Some(RF.SingleClassText(city, samples, positives))) == None
  {
    RF.SingleClassHasNoMatrix(city, samples, positives);
    NoBracketsNoReport(path, RF.SingleClassText(city, samples, positives));
  }

  // ---------------------------------------------------------------- a printed matrix read back

  lemma OccursSplit(s: string, a: string, b: string, i: nat)
    requires OccursAt(s, a + b, i)
    ensures OccursAt(s, a, i) && OccursAt(s, b, i + |a|)
  {
    assert s[i..i + |a|] == (a + b)[..|a|];
    assert s[i + |a|..i + |a| + |b|] == (a + b)[|a|..];
  }

  lemma SpaceEndIs(s: string, i: nat, j: nat)
    requires i <= j <= |s| && (j < |s| ==> !IsSpace(s[j]))
    requires forall k :: i <= k < j ==> IsSpace(s[k])
    ensures RS.SpaceEnd(s, i) == j
  {
  }

  lemma {:induction false} DigitEndIs(s: string, i: nat, j: nat)
    requires i <= j <= |s| && (j < |s| ==> !IsDigit(s[j]))
    requires forall k :: i <= k < j ==> IsDigit(s[k])
    ensures DigitEnd(s, i) == j
    decreases j - i
  {
    if i < j {
      DigitEndIs(s, i + 1, j);
    }
  }

  /** `c` is `n` digits worth `x`, right-justified with blanks. */
  predicate IsCell(c: string, n: nat, x: nat) {
    0 < n <= |c| && (forall k :: 0 <= k < |c| - n ==> c[k] == ' ') &&
    AllDigits(c[|c| - n..]) && DigitsValue(c[|c| - n..]) == x
  }

  lemma CellIsCell(x: nat, w: nat)
    ensures IsCell(RS.Cell(x, w), |NatToString(x)|, x)
  {
    var c, d := RS.Cell(x, w), NatToString(x);
    assert c[|c| - |d|..] == d;
  }

  /** The scan reads a cell's number back when the cell is not followed by a digit. */
  lemma CellRead(s: string, i: nat, c: string, n: nat, x: nat)
    requires OccursAt(s, c, i) && IsCell(c, n, x)
    requires i + |c| < |s| && !IsDigit(s[i + |c|])
    ensures NumberAt(s, i) == Some(Number(x, i + |c|))
  {
    var e := i + |c|;
    var d := c[|c| - n..];
    forall k | i <= k < e ensures s[k] == c[k - i] {
    }
    forall k | e - n <= k < e ensures IsDigit(s[k]) {
      assert s[k] == d[k - (e - n)];
    }
    SpaceEndIs(s, i, e - n);
    DigitEndIs(s, e - n, e);
    ValueAtSlice(s, e - n, e);
    assert s[e - n..e] == c[|c| - n..];
  }

  /** A blank in front of `\s*` is taken by it. */
  lemma NumberAfterBlank(s: string, i: nat)
    requires i < |s| && IsSpace(s[i])
    ensures NumberAt(s, i) == NumberAt(s, i + 1)
  {
    assert RS.SpaceEnd(s, i) == RS.SpaceEnd(s, i + 1);
  }

  /** Two cells, a blank between them and a closing bracket read back as a row. */
  lemma RowRead(s: string, i: nat, u: string, nu: nat, x: nat, v: string, nv: nat, y: nat)
    requires IsCell(u, nu, x) && IsCell(v, nv, y)
    requires OccursAt(s, u, i) && i + |u| < |s| && s[i + |u|] == ' '
    requires OccursAt(s, v, i + |u| + 1) && i + |u| + 1 + |v| < |s| && s[i + |u| + 1 + |v|] == ']'
    ensures RowAt(s, i) == Some(RowMatch(x, y, i + |u| + |v| + 2))
  {
    CellRead(s, i, u, nu, x);
    SecondCellRead(s, i + |u|, v, nv, y);
    RowOfNumbers(s, i, x, y, i + |u|, i + |u| + 1 + |v|);
  }

  lemma SecondCellRead(s: string, e: nat, v: string, nv: nat, y: nat)
    requires IsCell(v, nv, y) && e < |s| && s[e] == ' '
    requires OccursAt(s, v, e + 1) && e + 1 + |v| < |s| && s[e + 1 + |v|] == ']'
    ensures NumberAt(s, e) == Some(Number(y, e + 1 + |v|))
  {
    NumberAfterBlank(s, e);
    CellRead(s, e + 1, v, nv, y);
  }

  lemma RowOfNumbers(s: string, i: nat, x: nat, y: nat, e1: nat, e2: nat)
    requires i <= |s| && NumberAt(s, i) == Some(Number(x, e1))
    requires e1 < |s| && IsSpace(s[e1]) && NumberAt(s, e1) == Some(Number(y, e2))
    requires e2 < |s| && s[e2] == ']'
    ensures RowAt(s, i) == Some(RowMatch(x, y, e2 + 1))
  {
  }

  /** The two rows as `np.array2string` lays them out. */
  function TwoRowsText(c0: string, c1: string): string {
    "[" + ("[" + c0 + "]" + "\n " + ("[" + c1 + "]")) + "]"
  }

  lemma CellsOfTwo(row: seq<nat>, w: nat)
    requires |row| == 2
    ensures RS.CellsText(row, w) == RS.Cell(row[0], w) + " " + RS.Cell(row[1], w)
  {
    assert row[1..] == [row[1]];
  }

  lemma PrintedTwoRows(m: Matrix)
    requires |m| == 2
    ensures var w := RS.MaxWidth(RS.Flatten(m));
      RS.Array2String(m) == TwoRowsText(RS.CellsText(m[0], w), RS.CellsText(m[1], w))
  {
    var w := RS.MaxWidth(RS.Flatten(m));
    assert m[1..] == [m[1]];
    assert RS.RowsText(m[1..], w) == "[" + RS.CellsText(m[1], w) + "]";
  }

  /** Splits a row `u + " " + v` printed at `i` into character facts. */
  lemma RowSplit(s: string, i: nat, u: string, v: string)
    requires OccursAt(s, u + " " + v, i)
    ensures OccursAt(s, u, i) && s[i + |u|] == ' ' && OccursAt(s, v, i + |u| + 1)
  {
    OccursSplit(s, u + " ", v, i);
    OccursSplit(s, u, " ", i);
  }

  /** Where the pieces of the two printed rows sit in `s`. */
  lemma TwoRowsPlaced(s: string, p: nat, c0: string, c1: string)
    requires OccursAt(s, TwoRowsText(c0, c1), p)
    ensures p + 1 < |s| && s[p] == '[' && s[p + 1] == '[' && RowClosed(s, p + 2, c0)
    ensures SecondRowLaid(s, p + 3 + |c0|, c1)
  {
    var r1, r0 := "[" + c1 + "]", "[" + c0 + "]" + "\n ";
    OccursSplit(s, "[" + (r0 + r1), "]", p);
    OccursSplit(s, "[", r0 + r1, p);
    OccursSplit(s, r0, r1, p + 1);
    FirstRowPlaced(s, p + 1, c0);
    Bracketed(s, p + 1 + |r0|, c1);
  }

  /** The first printed row, its closing bracket, then a line break and a blank. */
  lemma FirstRowPlaced(s: string, i: nat, c0: string)
    requires OccursAt(s, "[" + c0 + "]" + "\n ", i)
    ensures s[i] == '[' && RowClosed(s, i + 1, c0)
    ensures s[i + 2 + |c0|] == '\n' && s[i + 3 + |c0|] == ' '
  {
    OccursSplit(s, "[" + c0 + "]", "\n ", i);
    Bracketed(s, i, c0);
  }

  /** `"[" + c + "]"` at `i`. */
  lemma Bracketed(s: string, i: nat, c: string)
    requires OccursAt(s, "[" + c + "]", i)
    ensures s[i] == '[' && OccursAt(s, c, i + 1) && s[i + 1 + |c|] == ']'
  {
    OccursSplit(s, "[" + c, "]", i);
    OccursSplit(s, "[", c, i);
  }

  /** The row text `c` holds the two cells `u` and `v`, a blank apart. */
  predicate RowCells(c: string, u: string, nu: nat, x: nat, v: string, nv: nat, y: nat) {
    c == u + " " + v && IsCell(u, nu, x) && IsCell(v, nv, y)
  }

  /** The row text `c` is at `i`, followed by a closing bracket. */
  predicate RowClosed(s: string, i: nat, c: string) {
    i + |c| < |s| && OccursAt(s, c, i) && s[i + |c|] == ']'
  }

  /** After the first row's end `e`: a line break, a blank, the row text `c1` in brackets and
      the final closing bracket. */
  predicate SecondRowLaid(s: string, e: nat, c1: string) {
    e + 4 + |c1| < |s| && s[e] == '\n' && s[e + 1] == ' ' && s[e + 2] == '[' &&
    RowClosed(s, e + 3, c1) && s[e + 4 + |c1|] == ']'
  }

  /** A row printed as `u + " " + v` at `i`, followed by a closing bracket, reads back. */
  lemma PrintedRowRead(s: string, i: nat, c: string, u: string, nu: nat, x: nat, v: string, nv: nat, y: nat)
    requires RowCells(c, u, nu, x, v, nv, y) && RowClosed(s, i, c)
    ensures RowAt(s, i) == Some(RowMatch(x, y, i + |c| + 1))
  {
    OccursSplit(s, u + " ", v, i);
    OccursSplit(s, u, " ", i);
    RowRead(s, i, u, nu, x, v, nv, y);
  }

  /** The pattern after a first row: a line break, a blank, the second row and the closing
      bracket. */
  lemma AfterFirstRowOf(s: string, r1: RowMatch, r2: RowMatch)
    requires r1.end + 2 < |s| && s[r1.end] == '\n' && s[r1.end + 1] == ' ' && s[r1.end + 2] == '['
    requires RowAt(s, r1.end + 3) == Some(r2) && r2.end < |s| && s[r2.end] == ']'
    ensures AfterFirstRow(s, Some(r1)) == Some(Counts(r1.a, r1.b, r2.a, r2.b))
  {
    SpaceEndIs(s, r1.end, r1.end + 2);
  }

  lemma TwoByTwoOfRows(s: string, p: nat, r1: RowMatch, r2: RowMatch)
    requires p + 1 < |s| && s[p] == '[' && s[p + 1] == '['
    requires RowAt(s, p + 2) == Some(r1) && r1.end + 2 < |s|
    requires s[r1.end] == '\n' && s[r1.end + 1] == ' ' && s[r1.end + 2] == '['
    requires RowAt(s, r1.end + 3) == Some(r2) && r2.end < |s| && s[r2.end] == ']'
    ensures TwoByTwoAt(s, p) == Some(Counts(r1.a, r1.b, r2.a, r2.b))
  {
    AfterFirstRowOf(s, r1, r2);
  }

  /** Once the brackets open and the first row matches, the rest decides the match. */
  lemma FirstRowThen(s: string, p: nat, r1: RowMatch, c: Counts)
    requires OpensAt(s, p) && RowAt(s, p + 2) == Some(r1) && AfterFirstRow(s, Some(r1)) == Some(c)
    ensures TwoByTwoAt(s, p) == Some(c)
  {
  }

  /** The second printed row, after the first row's match `r1`, completes the pattern. */
  lemma SecondRowRead(s: string, e: nat, a: nat, b: nat, c1: string, u2: string, n2: nat, x2: nat, u3: string, n3: nat, x3: nat)
    requires RowCells(c1, u2, n2, x2, u3, n3, x3) && SecondRowLaid(s, e, c1)
    ensures AfterFirstRow(s, Some(RowMatch(a, b, e))) == Some(Counts(a, b, x2, x3))
  {
    var r1, r2 := RowMatch(a, b, e), RowMatch(x2, x3, e + 4 + |c1|);
    assert r1.end + 2 < |s| && s[r1.end] == '\n' && s[r1.end + 1] == ' ' && s[r1.end + 2] == '[';
    assert r2.end < |s| && s[r2.end] == ']';
    assert RowAt(s, r1.end + 3) == Some(r2) by {
      PrintedRowRead(s, e + 3, c1, u2, n2, x2, u3, n3, x3);
    }
    AfterFirstRowOf(s, r1, r2);
  }

  /** A first printed row at `p + 2`, after the two opening brackets, hands the match over to
      what follows it. */
  lemma FirstRowRead(s: string, p: nat, c0: string, u0: string, n0: nat, x0: nat, u1: string, n1: nat, x1: nat, c: Counts)
    requires RowCells(c0, u0, n0, x0, u1, n1, x1)
    requires p + 1 < |s| && s[p] == '[' && s[p + 1] == '[' && RowClosed(s, p + 2, c0)
    requires AfterFirstRow(s, Some(RowMatch(x0, x1, p + 3 + |c0|))) == Some(c)
    ensures TwoByTwoAt(s, p) == Some(c)
  {
    PrintedRowRead(s, p + 2, c0, u0, n0, x0, u1, n1, x1);
    FirstRowThen(s, p, RowMatch(x0, x1, p + 3 + |c0|), c);
  }

  /** Two rows of two cells each, laid out as `np.array2string` does, read back as the 2 by 2
      match. */
  lemma TwoRowsRead(s: string, p: nat, c0: string, c1: string, u0: string, n0: nat, x0: nat, u1: string, n1: nat, x1: nat,
                    u2: string, n2: nat, x2: nat, u3: string, n3: nat, x3: nat)
    requires RowCells(c0, u0, n0, x0, u1, n1, x1) && RowCells(c1, u2, n2, x2, u3, n3, x3)
    requires p + 1 < |s| && s[p] == '[' && s[p + 1] == '[' && RowClosed(s, p + 2, c0)
    requires SecondRowLaid(s, p + 3 + |c0|, c1)
    ensures TwoByTwoAt(s, p) == Some(Counts(x0, x1, x2, x3))
  {
    SecondRowRead(s, p + 3 + |c0|, x0, x1, c1, u2, n2, x2, u3, n3, x3);
    FirstRowRead(s, p, c0, u0, n0, x0, u1, n1, x1, Counts(x0, x1, x2, x3));
  }

  lemma {:induction false} TwoByTwoSkip(s: string, p: nat, k: nat)
    requires p <= k <= |s|
    requires forall j :: p <= j < k ==> TwoByTwoAt(s, j).None?
    ensures TwoByTwoFrom(s, p) == TwoByTwoFrom(s, k)
    decreases k - p
  {
    if p < k {
      TwoByTwoSkip(s, p + 1, k);
    }
  }

  /** The two rows of cells `u0 u1` and `u2 u3`, printed at `p`, match there. */
  lemma CellsAt(s: string, p: nat, u0: string, n0: nat, x0: nat, u1: string, n1: nat, x1: nat,
                u2: string, n2: nat, x2: nat, u3: string, n3: nat, x3: nat)
    requires IsCell(u0, n0, x0) && IsCell(u1, n1, x1) && IsCell(u2, n2, x2) && IsCell(u3, n3, x3)
    requires OccursAt(s, TwoRowsText(u0 + " " + u1, u2 + " " + u3), p)
    ensures TwoByTwoAt(s, p) == Some(Counts(x0, x1, x2, x3))
  {
    var c0, c1 := u0 + " " + u1, u2 + " " + u3;
    TwoRowsPlaced(s, p, c0, c1);
    TwoRowsRead(s, p, c0, c1, u0, n0, x0, u1, n1, x1, u2, n2, x2, u3, n3, x3);
  }

  /** A printed 2 by 2 matrix matches where it is printed: TN, FP on the first row, FN, TP on
      the second. */
  lemma PrintedMatrixAt(s: string, p: nat, m: Matrix)
    requires |m| == 2 && |m[0]| == 2 && |m[1]| == 2 && OccursAt(s, RS.Array2String(m), p)
    ensures TwoByTwoAt(s, p) == Some(Counts(m[0][0], m[0][1], m[1][0], m[1][1]))
  {
    var w := RS.MaxWidth(RS.Flatten(m));
    PrintedTwoRows(m);
    CellsOfTwo(m[0], w);
    CellsOfTwo(m[1], w);
    CellIsCell(m[0][0], w);
    CellIsCell(m[0][1], w);
    CellIsCell(m[1][0], w);
    CellIsCell(m[1][1], w);
    CellsAt(s, p, RS.Cell(m[0][0], w), |NatToString(m[0][0])|, m[0][0],
      RS.Cell(m[0][1], w), |NatToString(m[0][1])|, m[0][1],
      RS.Cell(m[1][0], w), |NatToString(m[1][0])|, m[1][0],
      RS.Cell(m[1][1], w), |NatToString(m[1][1])|, m[1][1]);
  }

  /** A 2 by 2 matrix printed after a text without '[' is the first match, and it reads back
      as the matrix. */
  lemma PrintedTwoByTwo(pre: string, m: Matrix, post: string)
    requires |m| == 2 && |m[0]| == 2 && |m[1]| == 2 && '[' !in pre
    ensures FindTwoByTwo(pre + RS.Array2String(m) + post) == Some(Counts(m[0][0], m[0][1], m[1][0], m[1][1]))
  {
    var a := RS.Array2String(m);
    var s := pre + a + post;
    assert s[|pre|..|pre| + |a|] == a;
    PrintedMatrixAt(s, |pre|, m);
    forall j | 0 <= j < |pre| ensures TwoByTwoAt(s, j).None? {
      assert s[j] == pre[j];
    }
    TwoByTwoSkip(s, 0, |pre|);
  }
  /** A report the XGBoost step writes, for a file name without '[', is read back with the
      matrix it printed, whatever the report's name. */
  lemma XgboostReportRead(path: string, file: string, m: Matrix, report: string)
    requires |m| == 2 && |m[0]| == 2 && |m[1]| == 2 && '[' !in file
    ensures ParseReport(path, Some(X.ReportText(file, m, report))).Some?
    ensures ParseReport(path, Some(X.ReportText(file, m, report))).value.matrix == m
  {
    var text := X.ReportText(file, m, report);
    var c := Counts(m[0][0], m[0][1], m[1][0], m[1][1]);
    assert FindTwoByTwo(text) == Some(c) by {
      var pre := X.Header(file) + RS.Marker + "\n";
      assert text == pre + RS.Array2String(m) + (X.Section + report);
      HeaderHasNoBracket(file);
      PrintedTwoByTwo(pre, m, X.Section + report);
    }
    TwoByTwoRebuilt(m);
  }

  lemma TwoByTwoRebuilt(m: Matrix)
    requires |m| == 2 && |m[0]| == 2 && |m[1]| == 2
    ensures m == [[m[0][0], m[0][1]], [m[1][0], m[1][1]]]
  {
    assert m[0] == [m[0][0], m[0][1]] && m[1] == [m[1][0], m[1][1]];
  }

  /** What the XGBoost step writes before the matrix holds no '[' when the file name has none. */
  lemma HeaderHasNoBracket(file: string)
    requires '[' !in file
    ensures '[' !in X.Header(file) + RS.Marker + "\n"
  {
    var pre := X.Header(file) + RS.Marker + "\n";
    forall k | 0 <= k < |pre| ensures pre[k] != '[' {
      if 9 <= k < 9 + |file| {
        assert pre[k] == file[k - 9];
      }
    }
  }


}
