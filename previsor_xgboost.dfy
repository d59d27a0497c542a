/** PREVISOR/app_xgboost.py: the same pairing and right join as PREVISOR/app.py, then per city
    the rain and gust read as numbers with 0 for anything missing or unreadable, the two
    levels, and the city's file; afterwards `treinar_xgboost` reads each file back, keeps the
    complete rows, maps the rain level to a binary target, skips a file with too little data,
    and writes the confusion matrix of an XGBoost classifier into a report. */
module PrevisorXgboost {
  import opened Base
  import opened Text
  import opened Numbers
  import opened PrevisorRules
  import opened Confusion
  import P = Previsor
  import PJ = PrevisorJoin
  import InmetFilter
  import RS = ReportScan

  // ---------------------------------------------------------------- one city's rows

  /** A written row: `data`, `hora`, `chuva_mm`, the gust and the two levels. */
  datatype XRow = XRow(data: string, hora: Option<string>, rain: real, gust: real,
                       rainRisk: Risk, windRisk: Risk)

  /** One row of the concatenated frame: the date normalised, the rain and the gust coerced to
      numbers with 0 standing for an absent column, an empty cell or unreadable text, and the
      levels of the two. */
  function RowOf(r: P.Row): (x: XRow)
    ensures x.data == NormaliseDate(r.data) && x.hora == r.hora
    ensures x.rainRisk != Unknown && x.rainRisk != Critico && x.windRisk != Unknown
  {
    var mm := CoercedAmount(r.rain);
    var g := CoercedAmount(r.gust);
    XRow(NormaliseDate(r.data), r.hora, mm, g, RainRisk(mm), GustRisk(g))
  }

  /** The city's file: every concatenated row, in the order of the frames (nothing is
      sorted here). */
  function CityRows(frames: seq<PJ.Frame>): (r: seq<XRow>)
    ensures |r| == |P.Concat(frames)|
  {
    var rows := P.Concat(frames);
    seq(|rows|, i requires 0 <= i < |rows| => RowOf(rows[i]))
  }

  /** Where the sibling script raises for want of a rain column, this one reads every rain as 0
      and every rain level as 'baixo'. */
  lemma NoRainColumn(frames: seq<PJ.Frame>)
    requires P.CityRows(frames).None?
    ensures forall x :: x in CityRows(frames) ==> x.rain == 0.0 && x.rainRisk == Baixo
  {
    var all := P.Columns(frames);
    P.ConcatRows(frames, all);
    var rows := P.Concat(frames);
    forall x | x in CityRows(frames) ensures x.rain == 0.0 && x.rainRisk == Baixo {
      var i :| 0 <= i < |rows| && CityRows(frames)[i] == x;
      assert rows[i] in rows;
    }
  }

  /** Where the sibling script's wind level is 'unknown' (no gust column, an empty cell, text
      that is not a number), the gust here is 0 and its level 'baixo'. */
  lemma UnknownWindIsLow(r: P.Row)
    requires P.WindRisk(r.gust) == Unknown
    ensures RowOf(r).gust == 0.0 && RowOf(r).windRisk == Baixo
  {
    if r.gust.Text? {
      assert ParseDecimal(ReplaceChar(r.gust.text, ',', '.')).None?;
    }
  }

  /** Otherwise both scripts give a row the same wind level. */
  lemma WindLevelsAgree(r: P.Row)
    requires P.WindRisk(r.gust) != Unknown
    ensures RowOf(r).windRisk == P.WindRisk(r.gust)
  {
    var t := ReplaceChar(CellText(r.gust, ""), ',', '.');
    assert ParseFloat(t).Some? && ParseFloat(t).value.Finite?;
    assert r.gust.Text?;
  }

  // ---------------------------------------------------------------- the cities' files

  datatype Written = Written(name: string, rows: seq<XRow>)

  /** The files of the cities, in order: one per city, since nothing here raises. */
  function Files(cities: seq<string>, groups: map<string, seq<PJ.Frame>>): (r: seq<Written>)
    requires forall c :: c in cities ==> c in groups
    ensures |r| == |cities|
    ensures forall k :: 0 <= k < |r| ==> r[k].name == P.OutputName(cities[k])
  {
    seq(|cities|, k requires 0 <= k < |cities| =>
      Written(P.OutputName(cities[k]), CityRows(groups[cities[k]])))
  }

  /** The loop over `cidades_consolidadas.items()`. */
  method WriteCities(cities: seq<string>, groups: map<string, seq<PJ.Frame>>)
    returns (written: seq<Written>)
    requires forall c :: c in cities ==> c in groups
    ensures written == Files(cities, groups)
  {
    written := [];
    var i := 0;
    while i < |cities|
      invariant 0 <= i <= |cities|
      invariant written == Files(cities[..i], groups)
    {
      assert cities[..i + 1][..i] == cities[..i];
      assert cities[i] in cities;
      written := written + [Written(P.OutputName(cities[i]), CityRows(groups[cities[i]]))];
      i := i + 1;
    }
    assert cities[..|cities|] == cities;
  }

  /** The files the sibling script writes before it stops are the first files written here,
      under the same names, with the same number of rows. */
  lemma SiblingFilesFirst(cities: seq<string>, groups: map<string, seq<PJ.Frame>>)
    requires forall c :: c in cities ==> c in groups
    ensures var ws := P.WriteSpec(cities, P.Results(groups)).0;
      |ws| <= |cities| &&
      forall k :: 0 <= k < |ws| ==>
        ws[k].name == Files(cities, groups)[k].name &&
        |ws[k].rows| == |Files(cities, groups)[k].rows|
  {
    var ws := P.WriteSpec(cities, P.Results(groups)).0;
    P.WriteSpecStops(cities, P.Results(groups));
    forall k | 0 <= k < |ws|
      ensures ws[k].name == Files(cities, groups)[k].name
      ensures |ws[k].rows| == |Files(cities, groups)[k].rows|
    {
      assert cities[k] in cities;
      assert P.Results(groups)(cities[k]) == P.CityRows(groups[cities[k]]);
    }
  }

  /** `juntar_datasets` of PREVISOR/app_xgboost.py: the pairing of PREVISOR/app.py, then one
      file per city in the order the cities were first met. */
  method JoinDatasets(listing: seq<string>, walk: seq<InmetFilter.Dir>, read: PJ.Tables)
    returns (written: seq<Written>)
    ensures var ms := PJ.AllFrames(PJ.AneelFiles(listing), PJ.InmetFiles(walk), read);
      written == Files(PJ.Order(ms), PJ.Groups(ms))
  {
    var aneels := PJ.AneelFiles(listing);
    var inmets := PJ.ListInmetFiles(walk);
    var order, groups := PJ.Collect(aneels, inmets, read);
    written := WriteCities(order, groups);
  }

  // ---------------------------------------------------------------- a file read back

  /** A row of a city's file as `read_csv` gives it back: the text of the cells `chuva_mm`,
      `raj. vento (m/s)` and `risco de chuva`, `None` for an empty one. */
  datatype CsvRow = CsvRow(rain: Option<string>, gust: Option<string>, risk: Option<string>)

  /** A file read back: which of the three columns it has, and its rows. */
  datatype CsvTable = CsvTable(hasRain: bool, hasGust: bool, hasRisk: bool, rows: seq<CsvRow>)

  /** `pd.to_numeric(df.get(column, np.nan), errors='coerce')` on one cell: NaN (`None`) for a
      missing column, an empty cell or text that is not a number. */
  function Numeric(has: bool, cell: Option<string>): (r: Option<real>)
    ensures r.Some? <==> has && cell.Some? && ParseDecimal(cell.value).Some?
  {
    if has && cell.Some? then ParseDecimal(cell.value) else None
  }

  /** `map({'baixo': 0, 'moderado': 0, 'alto': 1, 'muito_alto': 1})`: NaN (`None`) for any
      other text. */
  function Target(risk: string): (r: Option<int>)
    ensures r == Some(1) <==> risk == "alto" || risk == "muito_alto"
    ensures r == Some(0) <==> risk == "baixo" || risk == "moderado"
    ensures r.None? <==> risk !in {"baixo", "moderado", "alto", "muito_alto"}
  {
    if risk == "baixo" || risk == "moderado" then Some(0)
    else if risk == "alto" || risk == "muito_alto" then Some(1)
    else None
  }

  /** The target of a rain level written by the first step is 1 exactly when the rain reached
      15 mm, and the critical and unknown levels, which the rain never gets, have none. */
  lemma TargetOfRainLevel(mm: real)
    ensures Target(Name(RainRisk(mm))) == Some(if mm >= 15.0 then 1 else 0)
    ensures Target(Name(Critico)).None? && Target(Name(Unknown)).None?
  {
  }

  /** A training sample: the two features and the target. */
  datatype Sample = Sample(rain: real, gust: real, target: Option<int>)

  /** A row survives `dropna(subset=['chuva_mm', 'raj. vento (m/s)', 'risco de chuva'])`. */
  predicate Complete(t: CsvTable, row: CsvRow) {
    Numeric(t.hasRain, row.rain).Some? && Numeric(t.hasGust, row.gust).Some? && row.risk.Some?
  }

  function SampleOf(t: CsvTable, row: CsvRow): Sample
    requires Complete(t, row)
  {
    Sample(Numeric(t.hasRain, row.rain).value, Numeric(t.hasGust, row.gust).value,
           Target(row.risk.value))
  }

  /** The samples of the complete rows, in file order, or `None` for the `KeyError` `dropna`
      raises when there is no 'risco de chuva' column. */
  function Samples(t: CsvTable): (r: Option<seq<Sample>>)
    ensures r.None? <==> !t.hasRisk
    ensures r.Some? ==> |r.value| <= |t.rows|
  {
    if !t.hasRisk then None
    else
      var kept := Filter(t.rows, row => Complete(t, row));
      assert forall i :: 0 <= i < |kept| ==> Complete(t, kept[i]) by {
        forall i | 0 <= i < |kept| ensures Complete(t, kept[i]) {
          var row := kept[i];
          assert row in kept;
          assert (row => Complete(t, row))(row);
        }
      }
      Some(seq(|kept|, i requires 0 <= i < |kept| => SampleOf(t, kept[i])))
  }

  /** Each sample is a complete row's, and every complete row gives one. */
  lemma SamplesOfCompleteRows(t: CsvTable)
    requires t.hasRisk
    ensures forall s :: s in Samples(t).value ==>
      exists row :: row in t.rows && Complete(t, row) && s == SampleOf(t, row)
    ensures forall row :: row in t.rows && Complete(t, row) ==> SampleOf(t, row) in Samples(t).value
  {
    var kept := Filter(t.rows, row => Complete(t, row));
    var ss := Samples(t).value;
    forall row | row in t.rows && Complete(t, row) ensures SampleOf(t, row) in ss {
      assert (row => Complete(t, row))(row);
      assert row in kept;
      var i :| 0 <= i < |kept| && kept[i] == row;
      assert ss[i] == SampleOf(t, row);
    }
    forall s | s in ss ensures exists row :: row in t.rows && Complete(t, row) && s == SampleOf(t, row) {
      var i :| 0 <= i < |ss| && ss[i] == s;
      assert kept[i] in kept;
    }
  }

  /** A file without the `chuva_mm` column, or without the gust column, keeps no row. */
  lemma NoFeatureNoSamples(t: CsvTable)
    requires t.hasRisk && (!t.hasRain || !t.hasGust)
    ensures Samples(t) == Some([])
  {
    FilterNone(t.rows, row => Complete(t, row));
  }

  /** The distinct targets, NaN counted once as `np.unique` does. */
  function Classes(ss: seq<Sample>): set<Option<int>> {
    set s | s in ss :: s.target
  }

  /** `len(X) < 2 or len(np.unique(y)) < 2`. */
  predicate Insufficient(ss: seq<Sample>) {
    |ss| < 2 || |Classes(ss)| < 2
  }

  /** Too little data means fewer than two samples, or samples that all share one target. */
  lemma InsufficientIff(ss: seq<Sample>)
    ensures Insufficient(ss) <==>
      |ss| < 2 || forall i :: 0 <= i < |ss| ==> ss[i].target == ss[0].target
  {
    if |ss| >= 2 {
      if forall i :: 0 <= i < |ss| ==> ss[i].target == ss[0].target {
        assert Classes(ss) == {ss[0].target};
      } else {
        var i :| 0 <= i < |ss| && ss[i].target != ss[0].target;
        assert ss[0] in ss && ss[i] in ss;
        var rest := Classes(ss) - {ss[0].target};
        assert ss[i].target in rest;
        assert Classes(ss) == rest + {ss[0].target};
      }
    }
  }

  // ---------------------------------------------------------------- training and the report

  /** What the classifier gives back: the test labels of `train_test_split(X, y, test_size=0.2,
      random_state=42)`, the predictions of the fitted `XGBClassifier` on the test features,
      and the text of `classification_report`. */
  datatype Fitted = Fitted(testLabels: seq<int>, predicted: seq<int>, report: string)

  /** The split, the fit, the prediction and the report on the samples; `None` when one of
      them raises. */
  type Learner = seq<Sample> -> Option<Fitted>

  /** `read_csv` of a file of the directory; `None` when it raises. */
  type Loader = string -> Option<CsvTable>

  /** `relatorio_<file without .csv>.txt`, in the `RelatorioClassificacao` directory. */
  function ReportName(file: string): string {
    "relatorio_" + Replace(file, ".csv", "") + ".txt"
  }

  /** The report of a city file written by the first step keeps the city part of its name. */
  lemma ReportNameOfCityFile(city: string)
    requires '.' !in city
    ensures ReportName(P.OutputName(city)) ==
      "relatorio_cidade_" + ReplaceChar(ReplaceChar(city, ' ', '_'), '/', '_') + ".txt"
  {
    var safe := ReplaceChar(ReplaceChar(city, ' ', '_'), '/', '_');
    assert forall k :: 0 <= k < |safe| ==> safe[k] != '.';
    assert '.' !in "cidade_" + safe;
    assert P.OutputName(city) == ("cidade_" + safe) + ".csv";
    ReplaceAppend("cidade_" + safe, ".csv", "");
    assert ("cidade_" + safe) + "" == "cidade_" + safe;
  }

  /** The report's first line. */
  function Header(file: string): string {
    "Arquivo: " + file + "\n"
  }

  const Section := "\n\nRelat\U{F3}rio de classifica\U{E7}\U{E3}o:\n"

  /** The report: the file's name, the marker line, the matrix as `np.array2string` prints it,
      then the classification report. */
  function ReportText(file: string, m: Matrix, report: string): (r: string)
    ensures OccursAt(r, RS.Marker, |Header(file)|)
  {
    var r := Header(file) + RS.Marker + ("\n" + RS.Array2String(m) + (Section + report));
    assert r[|Header(file)|..|Header(file)| + |RS.Marker|] == RS.Marker;
    r
  }

  /** No marker starts in the header of a file whose name has no 'M'. */
  lemma HeaderHasNoMarker(file: string)
    requires 'M' !in file
    ensures forall p :: 0 <= p < |Header(file)| ==> !OccursAt(Header(file) + RS.Marker, RS.Marker, p)
  {
    var h := Header(file);
    forall p | 0 <= p < |h| ensures !OccursAt(h + RS.Marker, RS.Marker, p) {
      assert (h + RS.Marker)[p] == h[p];
      if p >= 9 && p < 9 + |file| {
        assert h[p] == file[p - 9];
      }
    }
  }

  /** The matrix text the chart scripts search for is found again, exactly, in the report. */
  lemma ReportMatrixFound(file: string, m: Matrix, report: string)
    requires m != [] && 'M' !in file
    ensures RS.FindMatrixText(ReportText(file, m, report)) == Some(RS.Array2String(m))
  {
    HeaderHasNoMarker(file);
    RS.FindPrinted(Header(file), m, Section + report);
  }

  /** The files the training loop reads: the ones written by the first step are all there,
      lower-case apart from the prefix and so free of 'M'. */
  lemma CityFileHasNoM(city: string)
    requires 'M' !in city
    ensures 'M' !in P.OutputName(city)
  {
    var safe := ReplaceChar(ReplaceChar(city, ' ', '_'), '/', '_');
    assert forall k :: 0 <= k < |safe| ==> safe[k] != 'M';
  }

  /** The outcome for one file of the directory. */
  datatype Outcome = Skipped | Reported(name: string, text: string) | Raised

  /** The body of the loop for one ".csv" file: reading, the row filter and the target, the
      guard, the classifier, `confusion_matrix` (which raises on lists of different lengths)
      and the report. */
  function TrainFile(file: string, load: Loader, fit: Learner): (o: Outcome)
    ensures o.Reported? ==> o.name == ReportName(file)
  {
    match load(file)
    case None => Raised
    case Some(t) =>
      match Samples(t)
      case None => Raised
      case Some(ss) =>
        if Insufficient(ss) then Skipped
        else match fit(ss)
          case None => Raised
          case Some(f) =>
            if |f.testLabels| != |f.predicted| then Raised
            else Reported(ReportName(file), ReportText(file, ConfusionMatrix(f.testLabels, f.predicted), f.report))
  }

  /** A file is skipped, without report, exactly when it reads and has the target column but
      too little data; a file without the rain or the gust column is always skipped. */
  lemma TrainFileSkips(file: string, load: Loader, fit: Learner)
    ensures TrainFile(file, load, fit) == Skipped <==>
      load(file).Some? && load(file).value.hasRisk && Insufficient(Samples(load(file).value).value)
    ensures load(file).Some? && load(file).value.hasRisk &&
            (!load(file).value.hasRain || !load(file).value.hasGust) ==>
      TrainFile(file, load, fit) == Skipped
  {
    if load(file).Some? && load(file).value.hasRisk &&
       (!load(file).value.hasRain || !load(file).value.hasGust) {
      NoFeatureNoSamples(load(file).value);
    }
  }

  /** A report holds the confusion matrix of the test labels against the predictions, and
      with 0/1 labels of which both occur it is the 2 by 2 `[[TN, FP], [FN, TP]]`. */
  lemma TrainFileReport(file: string, load: Loader, fit: Learner)
    requires TrainFile(file, load, fit).Reported?
    ensures var t := load(file).value; var f := fit(Samples(t).value).value;
      && TrainFile(file, load, fit).text ==
           ReportText(file, ConfusionMatrix(f.testLabels, f.predicted), f.report)
      && !Insufficient(Samples(t).value)
      && (Binary(f.testLabels) && Binary(f.predicted) && 0 in f.testLabels + f.predicted &&
          1 in f.testLabels + f.predicted ==>
            ConfusionMatrix(f.testLabels, f.predicted) ==
              [[PairCount(f.testLabels, f.predicted, 0, 0), PairCount(f.testLabels, f.predicted, 0, 1)],
               [PairCount(f.testLabels, f.predicted, 1, 0), PairCount(f.testLabels, f.predicted, 1, 1)]])
  {
    var t := load(file).value;
    var f := fit(Samples(t).value).value;
    if Binary(f.testLabels) && Binary(f.predicted) && 0 in f.testLabels + f.predicted &&
       1 in f.testLabels + f.predicted {
      BinaryMatrix(f.testLabels, f.predicted);
    }
  }

  // ---------------------------------------------------------------- treinar_xgboost

  datatype Report = Report(name: string, text: string)

  /** The outcome of every file, for the given reader and classifier. */
  function Outcomes(load: Loader, fit: Learner): string -> Outcome {
    f => TrainFile(f, load, fit)
  }

  /** The loop over the directory listing, `outcome(f)` standing for file `f`'s outcome:
      non-".csv" entries are passed over, a skipped file writes nothing, a report is written
      per trained file, and the first file that raises ends the function. The flag tells
      whether that happened. */
  function TrainSpec(files: seq<string>, outcome: string -> Outcome): (r: (seq<Report>, bool))
    ensures |r.0| <= |files|
  {
    if files == [] then ([], false)
    else
      var rest := TrainSpec(files[1..], outcome);
      if !PJ.IsCsv(files[0]) then rest
      else match outcome(files[0])
        case Raised => ([], true)
        case Skipped => rest
        case Reported(n, x) => ([Report(n, x)] + rest.0, rest.1)
  }

  predicate Raises(f: string, outcome: string -> Outcome) {
    PJ.IsCsv(f) && outcome(f).Raised?
  }

  /** Every report comes from a ".csv" file of the listing that trained. */
  predicate FromTrained(rs: seq<Report>, files: seq<string>, outcome: string -> Outcome) {
    forall r :: r in rs ==>
      exists k :: 0 <= k < |files| && PJ.IsCsv(files[k]) && outcome(files[k]) == Reported(r.name, r.text)
  }

  /** Every ".csv" file of the listing that trained has its report. */
  predicate AllTrained(rs: seq<Report>, files: seq<string>, outcome: string -> Outcome) {
    forall k :: 0 <= k < |files| && PJ.IsCsv(files[k]) && outcome(files[k]).Reported? ==>
      Report(outcome(files[k]).name, outcome(files[k]).text) in rs
  }

  predicate SomeRaises(files: seq<string>, outcome: string -> Outcome) {
    exists k :: 0 <= k < |files| && Raises(files[k], outcome)
  }

  /** The function ends early exactly when some ".csv" file raises; every report comes from a
      ".csv" file that trained; and when nothing raises, every such file has its report. */
  lemma {:induction false} TrainSpecStops(files: seq<string>, outcome: string -> Outcome)
    ensures var (rs, failed) := TrainSpec(files, outcome);
      (failed <==> SomeRaises(files, outcome)) && FromTrained(rs, files, outcome) &&
      (!failed ==> AllTrained(rs, files, outcome))
  {
    if files != [] {
      TrainSpecStops(files[1..], outcome);
      TrainSpecStopsStep(files, outcome);
    }
  }

  lemma TrainSpecStopsStep(files: seq<string>, outcome: string -> Outcome)
    requires files != []
    requires var (rs, failed) := TrainSpec(files[1..], outcome);
      (failed <==> SomeRaises(files[1..], outcome)) && FromTrained(rs, files[1..], outcome) &&
      (!failed ==> AllTrained(rs, files[1..], outcome))
    ensures var (rs, failed) := TrainSpec(files, outcome);
      (failed <==> SomeRaises(files, outcome)) && FromTrained(rs, files, outcome) &&
      (!failed ==> AllTrained(rs, files, outcome))
  {
    var tail := files[1..];
    assert forall k :: 0 <= k < |tail| ==> tail[k] == files[k + 1];
    assert forall k :: 0 < k < |files| ==> files[k] == tail[k - 1];
  }

  /** One step of the loop: with the reports of the files before `files[i]` written, a file
      that raises ends the function with them. */
  lemma TrainSpecStop(files: seq<string>, outcome: string -> Outcome, i: nat, reports: seq<Report>)
    requires i < |files| && Raises(files[i], outcome)
    requires TrainSpec(files, outcome).0 == reports + TrainSpec(files[i..], outcome).0
    requires TrainSpec(files, outcome).1 == TrainSpec(files[i..], outcome).1
    ensures TrainSpec(files, outcome).0 == reports && TrainSpec(files, outcome).1
  {
    assert files[i..][0] == files[i];
    assert reports + [] == reports;
  }

  /** Otherwise the file adds its report, if it has one, and the loop goes on. */
  lemma TrainSpecNext(files: seq<string>, outcome: string -> Outcome, i: nat, reports: seq<Report>)
    requires i < |files| && !Raises(files[i], outcome)
    requires TrainSpec(files, outcome).0 == reports + TrainSpec(files[i..], outcome).0
    requires TrainSpec(files, outcome).1 == TrainSpec(files[i..], outcome).1
    ensures var o := outcome(files[i]);
      var next := if PJ.IsCsv(files[i]) && o.Reported? then reports + [Report(o.name, o.text)] else reports;
      && TrainSpec(files, outcome).0 == next + TrainSpec(files[i + 1..], outcome).0
      && TrainSpec(files, outcome).1 == TrainSpec(files[i + 1..], outcome).1
  {
    var ys := files[i..];
    assert ys[1..] == files[i + 1..] && ys[0] == files[i];
    TrainSpecCons(ys, outcome);
    var o := outcome(files[i]);
    if PJ.IsCsv(files[i]) && o.Reported? {
      Regroup(reports, [Report(o.name, o.text)], TrainSpec(ys[1..], outcome).0);
    }
  }

  /** A file that does not raise puts its report, if any, in front of the rest's. */
  lemma TrainSpecCons(ys: seq<string>, outcome: string -> Outcome)
    requires ys != [] && !Raises(ys[0], outcome)
    ensures var o := outcome(ys[0]);
      TrainSpec(ys, outcome) ==
        if PJ.IsCsv(ys[0]) && o.Reported? then ([Report(o.name, o.text)] + TrainSpec(ys[1..], outcome).0, TrainSpec(ys[1..], outcome).1)
        else TrainSpec(ys[1..], outcome)
  {
  }

  /** `treinar_xgboost`: the directory's entries in listing order. */
  method TrainAll(files: seq<string>, load: Loader, fit: Learner)
    returns (reports: seq<Report>, failed: bool)
    ensures reports == TrainSpec(files, Outcomes(load, fit)).0
    ensures failed == TrainSpec(files, Outcomes(load, fit)).1
  {
    reports, failed := TrainEach(files, load, fit, Outcomes(load, fit));
  }

  /** The same loop, `outcome` standing for the outcome each file gets. */
  method TrainEach(files: seq<string>, load: Loader, fit: Learner, ghost outcome: string -> Outcome)
    returns (reports: seq<Report>, failed: bool)
    requires forall f :: outcome(f) == TrainFile(f, load, fit)
    ensures reports == TrainSpec(files, outcome).0
    ensures failed == TrainSpec(files, outcome).1
  {
    reports, failed := [], false;
    var i := 0;
    assert files[0..] == files;
    assert [] + TrainSpec(files, outcome).0 == TrainSpec(files, outcome).0;
    while i < |files| && !failed
      invariant 0 <= i <= |files|
      invariant !failed ==> TrainSpec(files, outcome).0 == reports + TrainSpec(files[i..], outcome).0
      invariant !failed ==> TrainSpec(files, outcome).1 == TrainSpec(files[i..], outcome).1
      invariant failed ==> TrainSpec(files, outcome).0 == reports && TrainSpec(files, outcome).1
      decreases |files| - i, if failed then 0 else 1
    {
      if Raises(files[i], outcome) {
        TrainSpecStop(files, outcome, i, reports);
      } else {
        TrainSpecNext(files, outcome, i, reports);
      }
      if PJ.IsCsv(files[i]) {
        var o := TrainFile(files[i], load, fit);
        assert o == outcome(files[i]);
        if o.Raised? {
          failed := true;
        } else if o.Reported? {
          reports := reports + [Report(o.name, o.text)];
        }
      }
      if !failed {
        i := i + 1;
      }
    }
    if !failed {
      assert files[i..] == [];
      assert reports + [] == reports;
    }
  }
}
