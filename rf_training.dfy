/** `load_aneel_data`, `load_inmet_data_for_city`, `train_and_evaluate_model` and `main` of
    ANALISE/app_random_forest.py: the yearly files are loaded and tagged, each city's labelled
    hourly frame is built, and the training step chooses between doing nothing, writing a
    single-class report, returning silently, or writing the normal report. The learner itself
    (`train_test_split`, `GridSearchCV`, the forest, `roc_auc_score`) is a given oracle. */
module RandomForestTraining {
  import opened Base
  import opened Text
  import opened Numbers
  import opened Confusion
  import opened RandomForestWeather
  import opened RandomForestLabels

  // ---------------------------------------------------------------- loading the yearly files

  /** `ANOS = list(range(2020, 2024))`. */
  const Years: seq<int> := [2020, 2021, 2022, 2023]

  /** A row with its `AnoFonte` column. */
  datatype Tagged<T> = Tagged(year: int, row: T)

  function TagAll<T>(year: int, rows: seq<T>): (r: seq<Tagged<T>>)
    ensures |r| == |rows| && forall i :: 0 <= i < |rows| ==> r[i] == Tagged(year, rows[i])
  {
    seq(|rows|, i requires 0 <= i < |rows| => Tagged(year, rows[i]))
  }

  /** The frames read for `years`, in order: `read(y)` is the content of year `y`'s file, or
      `None` when reading it raised (`FileNotFoundError` or any other exception). */
  function Frames<T>(years: seq<int>, read: int -> Option<seq<T>>): seq<seq<Tagged<T>>> {
    if years == [] then []
    else
      var y := years[|years| - 1];
      Frames(years[..|years| - 1], read) + (if read(y).Some? then [TagAll(y, read(y).value)] else [])
  }

  /** `pd.concat(frames, ignore_index=True)`. */
  function Flatten<T>(frames: seq<seq<T>>): seq<T> {
    if frames == [] then [] else Flatten(frames[..|frames| - 1]) + frames[|frames| - 1]
  }

  predicate AnyRead<T>(years: seq<int>, read: int -> Option<seq<T>>) {
    exists k :: 0 <= k < |years| && read(years[k]).Some?
  }

  lemma {:induction false} FramesEmpty<T>(years: seq<int>, read: int -> Option<seq<T>>)
    ensures Frames(years, read) == [] <==> !AnyRead(years, read)
  {
    if years != [] {
      var init := years[..|years| - 1];
      FramesEmpty(init, read);
      if AnyRead(init, read) {
        var k :| 0 <= k < |init| && read(init[k]).Some?;
        assert years[k] == init[k];
      }
      if AnyRead(years, read) && read(years[|years| - 1]).None? {
        var k :| 0 <= k < |years| && read(years[k]).Some?;
        assert k < |init| && init[k] == years[k];
      }
    }
  }

  /** Both loaders: every year's file is tried in turn, an unreadable file is skipped, the rows
      of each file read are tagged with its year, and when no file could be read there is no
      frame at all. */
  method LoadYears<T>(years: seq<int>, read: int -> Option<seq<T>>)
    returns (r: Option<seq<Tagged<T>>>)
    ensures r.None? <==> !AnyRead(years, read)
    ensures r.Some? ==> r.value == Flatten(Frames(years, read))
  {
    var frames: seq<seq<Tagged<T>>> := [];
    var i := 0;
    while i < |years|
      invariant 0 <= i <= |years|
      invariant frames == Frames(years[..i], read)
    {
      assert years[..i + 1][..i] == years[..i];
      var content := read(years[i]);
      if content.Some? {
        frames := frames + [TagAll(years[i], content.value)];
      }
      i := i + 1;
    }
    assert years[..i] == years;
    FramesEmpty(years, read);
    if frames == [] {
      return None;
    }
    return Some(Flatten(frames));
  }

  lemma FlattenSnoc<T>(frames: seq<seq<T>>, f: seq<T>)
    ensures Flatten(frames + [f]) == Flatten(frames) + f
  {
    assert (frames + [f])[..|frames|] == frames;
  }

  lemma FramesSnoc<T>(years: seq<int>, read: int -> Option<seq<T>>)
    requires years != []
    ensures var init, last := years[..|years| - 1], years[|years| - 1];
      Flatten(Frames(years, read)) == Flatten(Frames(init, read)) +
        (if read(last).Some? then TagAll(last, read(last).value) else [])
  {
    var init, last := years[..|years| - 1], years[|years| - 1];
    if read(last).Some? {
      FlattenSnoc(Frames(init, read), TagAll(last, read(last).value));
    } else {
      assert Frames(years, read) == Frames(init, read);
    }
  }

  /** A loaded row carries the year of the file it came from, and every row of every file
      read is loaded. */
  lemma {:induction false} LoadedRows<T>(years: seq<int>, read: int -> Option<seq<T>>, y: int, x: T)
    ensures Tagged(y, x) in Flatten(Frames(years, read)) <==>
      y in years && read(y).Some? && x in read(y).value
  {
    if years != [] {
      var init, last := years[..|years| - 1], years[|years| - 1];
      LoadedRows(init, read, y, x);
      FramesSnoc(years, read);
      assert years == init + [last];
      if read(last).Some? {
        var rows := read(last).value;
        assert Tagged(y, x) in TagAll(last, rows) <==> y == last && x in rows by {
          if y == last && x in rows {
            var i :| 0 <= i < |rows| && rows[i] == x;
            assert TagAll(last, rows)[i] == Tagged(y, x);
          }
        }
      }
    }
  }

  /** The number of loaded rows is the sum of the sizes of the files read. */
  lemma {:induction false} LoadedCount<T>(years: seq<int>, read: int -> Option<seq<T>>)
    ensures |Flatten(Frames(years, read))| == RowsRead(years, read)
  {
    if years != [] {
      LoadedCount(years[..|years| - 1], read);
      FramesSnoc(years, read);
    }
  }

  function RowsRead<T>(years: seq<int>, read: int -> Option<seq<T>>): nat {
    if years == [] then 0
    else
      var y := years[|years| - 1];
      RowsRead(years[..|years| - 1], read) + if read(y).Some? then |read(y).value| else 0
  }

  // ---------------------------------------------------------------- report names and texts

  /** `cidade_nome.replace(" ", "_").replace("/", "")`. */
  function SafeName(city: string): (r: string)
    ensures ' ' !in r && '/' !in r
  {
    RemoveChar(ReplaceChar(city, ' ', '_'), '/')
  }

  /** For a name without '/' or '_', the safe name gives the name back when its '_' are turned
      into spaces again. */
  lemma SafeNameInverse(city: string)
    requires '/' !in city && '_' !in city
    ensures ReplaceChar(SafeName(city), '_', ' ') == city
  {
    var u := ReplaceChar(city, ' ', '_');
    assert '/' !in u;
    RemoveAbsentChar(u, '/');
  }

  function SingleClassFile(city: string): string {
    "relatorio_" + SafeName(city) + "_random_forest_ERRO_CLASSE_UNICA.txt"
  }

  function ReportFile(city: string): string {
    "relatorio_" + SafeName(city) + "_random_forest.txt"
  }

  /** The fixed lines of the single-class report. */
  const Rule := Repeat('=', 56)
  const Dashes := Repeat('-', 56)
  const TitleLine := "  RELAT\U{D3}RIO DE " + "TREINAMENTO " + "RANDOM FOREST " + "(CLASSE \U{DA}NICA)"
  const MetricsText :=
    "A avalia\U{E7}\U{E3}o do " + "desempenho dos " + "modelos foi " + "realizada por " +
    "meio das " + "m\U{E9}tricas: " + "\\textit{acur\U{E1}cia}, " + "\\textit{precis\U{E3}o}, " +
    "\\textit{revoca\U{E7}\U{E3}o " + "(recall)}, " + "\\textit{F1-score} " + "e \\textit{matriz " +
    "de confus\U{E3}o}."
  const CityLabel := "Modelo treinado " + "para a cidade: "
  const FeaturesLabel := "Features " + "utilizadas: "
  const TargetLabel := "Target Column " + "(Alvo): "
  const Target := "interrupcao_real"
  const AbortedLine := "ERRO: Treinamento " + "abortado."
  const ClassZeroLine := "O dataset S\U{D3} " + "cont\U{E9}m a classe 0 " + "(Sem Interrup\U{E7}\U{E3}o)."
  const SamplesLabel := "Total de " + "amostras: "
  const EventsLabel := "Total de eventos " + "de interrup\U{E7}\U{E3}o " + "real: "

  /** Python's `str` of a list of strings: `['a', 'b']`. */
  function PyListRepr(items: seq<string>): string {
    "[" + QuotedItems(items) + "]"
  }

  function QuotedItems(items: seq<string>): string {
    if items == [] then ""
    else "'" + items[0] + "'" + (if |items| > 1 then ", " + QuotedItems(items[1..]) else "")
  }

  /** The lines of the single-class report; the text opens and ends with a line break. */
  function SingleClassLines(city: string, samples: nat, positives: int): seq<string> {
    SingleClassHead(city) + [ClassZeroLine] + SingleClassTail(samples, positives)
  }

  /** The banner, the metrics text, the city, features and target, and the abort notice. */
  function SingleClassHead(city: string): (r: seq<string>)
    ensures |r| == 11
  {
    ["", Rule, TitleLine, Rule, MetricsText, Dashes, CityLabel + city,
     FeaturesLabel + PyListRepr(Features), TargetLabel + Target, "        ", AbortedLine]
  }

  /** The counts of samples and positive events, and the closing rule. */
  function SingleClassTail(samples: nat, positives: int): (r: seq<string>)
    ensures |r| == 4
  {
    [SamplesLabel + NatToString(samples), EventsLabel + IntToString(positives), Rule, ""]
  }

  function SingleClassText(city: string, samples: nat, positives: int): string {
    Join(SingleClassLines(city, samples, positives), "\n")
  }

  /** Every '[' of a text is followed by a character other than '['. */
  predicate SingleBrackets(t: string) {
    forall i :: 0 <= i < |t| && t[i] == '[' ==> i + 1 < |t| && t[i + 1] != '['
  }

  lemma SingleBracketsAppend(a: string, b: string)
    requires SingleBrackets(a) && SingleBrackets(b)
    ensures SingleBrackets(a + b)
  {
    var t := a + b;
    forall i | 0 <= i < |t| && t[i] == '[' ensures i + 1 < |t| && t[i + 1] != '[' {
      if i < |a| {
        assert a[i] == '[';
        assert t[i + 1] == a[i + 1];
      } else {
        assert b[i - |a|] == '[';
        assert t[i + 1] == b[i - |a| + 1];
      }
    }
  }

  lemma NoBracket(t: string)
    requires '[' !in t
    ensures SingleBrackets(t)
  {
    forall i | 0 <= i < |t| ensures t[i] != '[' {
      assert t[i] in t;
    }
  }

  lemma {:induction false} SingleBracketsJoin(lines: seq<string>)
    requires forall k :: 0 <= k < |lines| ==> SingleBrackets(lines[k])
    ensures SingleBrackets(Join(lines, "\n"))
  {
    if |lines| > 1 {
      SingleBracketsJoin(lines[1..]);
      NoBracket("\n");
      SingleBracketsAppend(lines[0], "\n");
      SingleBracketsAppend(lines[0] + "\n", Join(lines[1..], "\n"));
    }
  }

  /** A text whose brackets all stand alone holds no "[[". */
  lemma SingleBracketsNoMatrix(t: string)
    requires SingleBrackets(t)
    ensures !Contains(t, "[[")
  {
    forall i | 0 <= i <= |t| - 2 ensures !OccursAt(t, "[[", i) {
      assert t[i..i + 2] == [t[i], t[i + 1]];
    }
  }

  lemma {:induction false} QuotedItemsNoBracket(items: seq<string>)
    requires forall k :: 0 <= k < |items| ==> '[' !in items[k]
    ensures '[' !in QuotedItems(items)
  {
    if items != [] {
      QuotedItemsNoBracket(items[1..]);
    }
  }

  lemma ListReprSingleBrackets(items: seq<string>)
    requires forall k :: 0 <= k < |items| ==> '[' !in items[k]
    ensures SingleBrackets(PyListRepr(items))
  {
    QuotedItemsNoBracket(items);
    NoBracket(QuotedItems(items));
    NoBracket("]");
    SingleBracketsAppend(QuotedItems(items), "]");
    var t := PyListRepr(items);
    assert t == "[" + (QuotedItems(items) + "]");
    assert t[1] != '[';
  }

  // The pieces of the fixed texts are checked a few at a time: a long literal is costly to
  // search for a character.

  lemma MetricsOpeningNoBracket()
    ensures '[' !in "A avalia\U{E7}\U{E3}o do " && '[' !in "desempenho dos "
    ensures '[' !in "modelos foi " && '[' !in "realizada por "
  {
  }

  lemma MetricsMiddleNoBracket()
    ensures '[' !in "meio das " && '[' !in "m\U{E9}tricas: " && '[' !in "\\textit{acur\U{E1}cia}, "
  {
  }

  lemma MetricsListNoBracket()
    ensures '[' !in "\\textit{precis\U{E3}o}, " && '[' !in "\\textit{revoca\U{E7}\U{E3}o "
    ensures '[' !in "(recall)}, "
  {
  }

  lemma MetricsClosingNoBracket()
    ensures '[' !in "\\textit{F1-score} " && '[' !in "e \\textit{matriz " && '[' !in "de confus\U{E3}o}."
  {
  }

  lemma MetricsNoBracket()
    ensures '[' !in MetricsText
  {
    MetricsOpeningNoBracket();
    MetricsMiddleNoBracket();
    MetricsListNoBracket();
    MetricsClosingNoBracket();
  }

  lemma TitleNoBracket()
    ensures '[' !in "  RELAT\U{D3}RIO DE " && '[' !in "TREINAMENTO " && '[' !in "RANDOM FOREST "
    ensures '[' !in "(CLASSE \U{DA}NICA)"
  {
  }

  lemma ClassZeroNoBracket()
    ensures '[' !in "O dataset S\U{D3} " && '[' !in "cont\U{E9}m a classe 0 "
    ensures '[' !in "(Sem Interrup\U{E7}\U{E3}o)."
  {
  }

  lemma AbortedNoBracket()
    ensures '[' !in "ERRO: Treinamento " && '[' !in "abortado." && '[' !in "        "
  {
  }

  lemma FixedLinesNoBracket()
    ensures '[' !in Rule && '[' !in Dashes && '[' !in TitleLine && '[' !in AbortedLine
    ensures '[' !in ClassZeroLine && '[' !in "        " && '[' !in ""
  {
    TitleNoBracket();
    ClassZeroNoBracket();
    AbortedNoBracket();
  }

  lemma CityLineSingleBrackets(city: string)
    requires '[' !in city
    ensures SingleBrackets(CityLabel + city)
  {
    NoBracket(CityLabel + city);
  }

  lemma FeaturesLineSingleBrackets()
    ensures SingleBrackets(FeaturesLabel + PyListRepr(Features))
  {
    forall k | 0 <= k < |Features| ensures '[' !in Features[k] { }
    ListReprSingleBrackets(Features);
    NoBracket(FeaturesLabel);
    SingleBracketsAppend(FeaturesLabel, PyListRepr(Features));
  }

  lemma TargetLineSingleBrackets()
    ensures SingleBrackets(TargetLabel + Target)
  {
    NoBracket(TargetLabel + Target);
  }

  lemma SamplesLineSingleBrackets(samples: nat)
    ensures SingleBrackets(SamplesLabel + NatToString(samples))
  {
    var a := NatToString(samples);
    assert forall i :: 0 <= i < |a| ==> a[i] != '[';
    NoBracket(a);
    NoBracket(SamplesLabel);
    SingleBracketsAppend(SamplesLabel, a);
  }

  lemma EventsLabelSingleBrackets()
    ensures SingleBrackets(EventsLabel)
  {
    NoBracket(EventsLabel);
  }

  lemma EventsLineSingleBrackets(positives: int)
    ensures SingleBrackets(EventsLabel + IntToString(positives))
  {
    var b := IntToString(positives);
    assert forall i :: 0 <= i < |b| ==> b[i] != '[';
    NoBracket(b);
    EventsLabelSingleBrackets();
    SingleBracketsAppend(EventsLabel, b);
  }

  /** The single-class report holds no "[[" when the city name has no '[': there is no
      bracketed matrix in it for a report reader to find. */
  lemma SingleClassHasNoMatrix(city: string, samples: nat, positives: int)
    requires '[' !in city
    ensures !Contains(SingleClassText(city, samples, positives), "[[")
  {
    var head, tail := SingleClassHead(city), SingleClassTail(samples, positives);
    HeadSingleBrackets(city);
    TailSingleBrackets(samples, positives);
    FixedLinesNoBracket();
    NoBracket(ClassZeroLine);
    AllSingleBracketsAppend(head, [ClassZeroLine]);
    AllSingleBracketsAppend(head + [ClassZeroLine], tail);
    SingleBracketsJoin(head + [ClassZeroLine] + tail);
    SingleBracketsNoMatrix(Join(head + [ClassZeroLine] + tail, "\n"));
  }

  predicate AllSingleBrackets(lines: seq<string>) {
    forall k :: 0 <= k < |lines| ==> SingleBrackets(lines[k])
  }

  lemma AllSingleBracketsAppend(a: seq<string>, b: seq<string>)
    requires AllSingleBrackets(a) && AllSingleBrackets(b)
    ensures AllSingleBrackets(a + b)
  {
    forall k | 0 <= k < |a + b| ensures SingleBrackets((a + b)[k]) {
      if k >= |a| {
        assert (a + b)[k] == b[k - |a|];
      }
    }
  }

  lemma HeadSingleBrackets(city: string)
    requires '[' !in city
    ensures AllSingleBrackets(SingleClassHead(city))
  {
    var head := SingleClassHead(city);
    MetricsNoBracket();
    FixedLinesNoBracket();
    NoBracket(Rule);
    NoBracket(Dashes);
    NoBracket(TitleLine);
    NoBracket(MetricsText);
    NoBracket(AbortedLine);
    NoBracket("        ");
    NoBracket("");
    CityLineSingleBrackets(city);
    FeaturesLineSingleBrackets();
    TargetLineSingleBrackets();
    assert head[0] == "" && head[1] == Rule && head[2] == TitleLine && head[3] == Rule;
    assert head[4] == MetricsText && head[5] == Dashes && head[6] == CityLabel + city;
    assert head[7] == FeaturesLabel + PyListRepr(Features) && head[8] == TargetLabel + Target;
    assert head[9] == "        " && head[10] == AbortedLine;
  }

  lemma TailSingleBrackets(samples: nat, positives: int)
    ensures AllSingleBrackets(SingleClassTail(samples, positives))
  {
    var tail := SingleClassTail(samples, positives);
    FixedLinesNoBracket();
    NoBracket(Rule);
    NoBracket("");
    SamplesLineSingleBrackets(samples);
    EventsLineSingleBrackets(positives);
    assert tail[0] == SamplesLabel + NatToString(samples);
    assert tail[1] == EventsLabel + IntToString(positives);
    assert tail[2] == Rule && tail[3] == "";
  }

  /** The single-class report always says that the data holds only class 0, whichever class
      it actually holds. */
  lemma SingleClassSaysClassZero(city: string, samples: nat, positives: int)
    ensures Contains(SingleClassText(city, samples, positives), ClassZeroLine)
  {
    var lines := SingleClassLines(city, samples, positives);
    ClassZeroLineAt(city, samples, positives);
    JoinHasLine(lines, 11, ClassZeroLine);
  }

  lemma ClassZeroLineAt(city: string, samples: nat, positives: int)
    ensures |SingleClassLines(city, samples, positives)| == 16
    ensures SingleClassLines(city, samples, positives)[11] == ClassZeroLine
  {
    var head := SingleClassHead(city);
    assert (head + [ClassZeroLine])[11] == ClassZeroLine;
  }

  /** A line of the report occurs in its text. */
  lemma JoinHasLine(lines: seq<string>, k: nat, line: string)
    requires k < |lines| && lines[k] == line
    ensures Contains(Join(lines, "\n"), line)
  {
    JoinContains(lines, "\n", k);
  }

  // ---------------------------------------------------------------- training

  /** The arguments of a `train_test_split` call: `test_size`, `random_state`, and whether
      `stratify=y` is passed. */
  datatype SplitRequest = SplitRequest(testSize: real, seed: int, stratify: bool)

  const Stratified := SplitRequest(0.2, 42, true)
  const Unstratified := SplitRequest(0.2, 42, false)

  /** What the control flow sees of a split: the training and the test labels. */
  datatype Split = Split(trainLabels: seq<int>, testLabels: seq<int>)

  /** The learner of one city's frame. `split` is `train_test_split` (`None` when it raises
      `ValueError`), `fit` says whether `GridSearchCV.fit` returned normally (it raised
      `ValueError` otherwise), `predict` is `best_estimator_.predict(X_test)`, and `auc` is
      `roc_auc_score` on `predict_proba` (`None` when either raised). */
  datatype Learner = Learner(split: SplitRequest -> Option<Split>, fit: Split -> bool,
                             predict: Split -> seq<int>, auc: Split -> Option<real>)

  /** What `train_and_evaluate_model` ends in. Only `SingleClassReport` and `Report` write a
      file; `Raised` is an exception leaving the function (a second failed split, metrics
      over lists of different lengths, or a classification report over a single class). */
  datatype Training =
    | NoAction
    | SingleClassReport(file: string, text: string)
    | Raised
    | TrainSingleClass
    | FitFailed
    | Report(file: string, auc: real, matrix: Matrix)

  function Targets(rows: seq<LabelledRow>): (ys: seq<int>)
    ensures |ys| == |rows| && forall i :: 0 <= i < |rows| ==> ys[i] == rows[i].target
  {
    seq(|rows|, i requires 0 <= i < |rows| => rows[i].target)
  }

  /** `np.unique(y)`, as a set. */
  function Classes(ys: seq<int>): set<int> {
    set y | y in ys
  }

  /** `df_final[TARGET].sum()`. */
  function SumInts(ys: seq<int>): int {
    if ys == [] then 0 else ys[0] + SumInts(ys[1..])
  }

  /** The `target_names` given to `classification_report`, which raises `ValueError` when the
      test labels and the predictions together hold a different number of classes. */
  const TargetNames := ["0 (Sem Interrup\U{E7}\U{E3}o)", "1 (Com Interrup\U{E7}\U{E3}o)"]

  function Train(frame: Option<seq<LabelledRow>>, city: string, l: Learner): Training {
    if frame.None? || frame.value == [] then NoAction
    else
      var ys := Targets(frame.value);
      if |Classes(ys)| < 2 then
        SingleClassReport(SingleClassFile(city), SingleClassText(city, |ys|, SumInts(ys)))
      else
        var first := l.split(Stratified);
        var chosen := if first.Some? then first else l.split(Unstratified);
        if chosen.None? then Raised
        else
          var s := chosen.value;
          if |Classes(s.trainLabels)| < 2 then TrainSingleClass
          else if !l.fit(s) then FitFailed
          else
            var predicted := l.predict(s);
            if |predicted| != |s.testLabels| then Raised
            else if |Classes(s.testLabels + predicted)| != |TargetNames| then Raised
            else Report(ReportFile(city), l.auc(s).GetOr(0.0),
                        ConfusionMatrix(s.testLabels, predicted))
  }

  /** Fewer than two classes means every label is the same one. */
  lemma ClassesBelowTwo(ys: seq<int>)
    requires ys != []
    ensures |Classes(ys)| < 2 <==> forall i :: 0 <= i < |ys| ==> ys[i] == ys[0]
  {
    if forall i :: 0 <= i < |ys| ==> ys[i] == ys[0] {
      assert Classes(ys) == {ys[0]};
    } else {
      var i :| 0 <= i < |ys| && ys[i] != ys[0];
      var rest := Classes(ys) - {ys[0]};
      assert ys[i] in rest;
      assert Classes(ys) == rest + {ys[0]};
    }
  }

  /** No frame, or an empty one, does nothing; a frame whose rows all carry the same label
      gets only the single-class report, named after the safe city name, whatever that label
      is. */
  lemma TrainEarlyReturns(frame: Option<seq<LabelledRow>>, city: string, l: Learner)
    ensures Train(frame, city, l) == NoAction <==> frame.None? || frame.value == []
    ensures frame.Some? && frame.value != [] ==>
      var rows := frame.value;
      (Train(frame, city, l).SingleClassReport? <==>
         forall i :: 0 <= i < |rows| ==> rows[i].target == rows[0].target) &&
      (Train(frame, city, l).SingleClassReport? ==>
         Train(frame, city, l) == SingleClassReport(SingleClassFile(city),
           SingleClassText(city, |rows|, SumInts(Targets(rows)))))
  {
    if frame.Some? && frame.value != [] {
      ClassesBelowTwo(Targets(frame.value));
    }
  }

  /** With two classes: the stratified split (test size 0.2, seed 42) is tried first and, only
      when it raises, the same split without stratification; a training split with one class
      or a failed grid-search fit ends without a report; otherwise the report is named
      `relatorio_<safe>_random_forest.txt`, holds the AUC (exactly 0.0 when it could not be
      computed) and the confusion matrix of the test labels against the predictions. */
  lemma TrainAfterSplit(rows: seq<LabelledRow>, city: string, l: Learner, s: Split)
    requires rows != [] && exists i :: 0 <= i < |rows| && rows[i].target != rows[0].target
    requires l.split(Stratified) == Some(s) ||
             (l.split(Stratified).None? && l.split(Unstratified) == Some(s))
    ensures var t := Train(Some(rows), city, l);
      && (t == TrainSingleClass <==>
            forall i :: 0 <= i < |s.trainLabels| ==> s.trainLabels[i] == s.trainLabels[0])
      && (t == FitFailed <==> |Classes(s.trainLabels)| >= 2 && !l.fit(s))
      && (t.Report? <==>
            |Classes(s.trainLabels)| >= 2 && l.fit(s) && |l.predict(s)| == |s.testLabels| &&
            |Classes(s.testLabels + l.predict(s))| == 2)
      && (t == Raised <==>
            |Classes(s.trainLabels)| >= 2 && l.fit(s) &&
            (|l.predict(s)| != |s.testLabels| || |Classes(s.testLabels + l.predict(s))| != 2))
      && (t.Report? ==> t.file == ReportFile(city) &&
                        t.auc == (if l.auc(s).Some? then l.auc(s).value else 0.0) &&
                        t.matrix == ConfusionMatrix(s.testLabels, l.predict(s)))
  {
    var ys := Targets(rows);
    ClassesBelowTwo(ys);
    if s.trainLabels != [] {
      ClassesBelowTwo(s.trainLabels);
    }
  }

  /** A test split and predictions that are all class 0 (a rare positive class the split left
      out of the test part, and a forest that never predicts it) end in the `ValueError` of
      the classification report: no report is written and `main` stops. */
  lemma TrainOneTestClassRaises(rows: seq<LabelledRow>, city: string, l: Learner, s: Split)
    requires rows != [] && exists i :: 0 <= i < |rows| && rows[i].target != rows[0].target
    requires l.split(Stratified) == Some(s)
    requires |Classes(s.trainLabels)| >= 2 && l.fit(s)
    requires |l.predict(s)| == |s.testLabels|
    requires forall k :: 0 <= k < |s.testLabels| ==> s.testLabels[k] == 0 && l.predict(s)[k] == 0
    ensures Train(Some(rows), city, l) == Raised
  {
    var both := s.testLabels + l.predict(s);
    assert Classes(both) <= {0} by {
      forall y | y in Classes(both) ensures y == 0 {
        var k :| 0 <= k < |both| && both[k] == y;
        if k >= |s.testLabels| {
          assert both[k] == l.predict(s)[k - |s.testLabels|];
        }
      }
    }
    assert |Classes(both)| <= |{0}| by {
      SubsetCardinality(Classes(both), {0});
    }
    TrainAfterSplit(rows, city, l, s);
  }

  lemma SubsetCardinality(a: set<int>, b: set<int>)
    requires a <= b
    ensures |a| <= |b|
  {
    assert b == a + (b - a);
  }

  /** When both splits raise, the `ValueError` of the second leaves the function. */
  lemma TrainBothSplitsFail(rows: seq<LabelledRow>, city: string, l: Learner)
    requires rows != [] && exists i :: 0 <= i < |rows| && rows[i].target != rows[0].target
    requires l.split(Stratified).None? && l.split(Unstratified).None?
    ensures Train(Some(rows), city, l) == Raised
  {
    ClassesBelowTwo(Targets(rows));
  }

  // ---------------------------------------------------------------- the pipeline over cities

  /** `CIDADES_CONFIG`: the name used to filter the outages, and the INMET file of the city. */
  const Cities: seq<(string, string)> := [
    ("Lagoa Vermelha", "LagoaVermelha_filtrado.csv"),
    ("Passo Fundo", "PassoFundo_filtrado.csv"),
    ("Porto Alegre", "PortoAlegre_filtrado.csv"),
    ("Santa Maria", "SantaMaria_filtrado.csv")]

  /** What `main` does for one city. */
  datatype CityStep = NoWeather | NotPrepared | KeyErrorRaised | Trained(outcome: Training)

  /** The step ends `main` with an exception. */
  predicate Stops(step: CityStep) {
    step.KeyErrorRaised? || (step.Trained? && step.outcome.Raised?)
  }

  /** The city's INMET table (what `load_inmet_data_for_city` returned), the frame
      `preprocess_and_merge_data` made of it, and the training. */
  function StepOf(city: (string, string), outages: seq<Outage>,
                  weatherOf: string -> Option<WeatherTable>, parse: ColumnParser,
                  learnerOf: string -> Learner): CityStep
    requires forall f :: weatherOf(f).Some? ==> WellFormed(weatherOf(f).value)
    requires Aligned(parse)
  {
    var (name, file) := city;
    match weatherOf(file)
    case None => NoWeather
    case Some(t) =>
      match Preprocess(t, outages, name, parse)
      case NoData => NotPrepared
      case KeyError => KeyErrorRaised
      case Frame(rows) =>
        if rows == [] then NotPrepared else Trained(Train(Some(rows), name, learnerOf(name)))
  }

  /** The steps of `cities` taken in order, up to and including the first that raises. */
  function Run(cities: seq<(string, string)>, outages: seq<Outage>,
               weatherOf: string -> Option<WeatherTable>, parse: ColumnParser,
               learnerOf: string -> Learner): seq<CityStep>
    requires forall f :: weatherOf(f).Some? ==> WellFormed(weatherOf(f).value)
    requires Aligned(parse)
  {
    if cities == [] then []
    else
      var step := StepOf(cities[0], outages, weatherOf, parse, learnerOf);
      [step] + if Stops(step) then [] else Run(cities[1..], outages, weatherOf, parse, learnerOf)
  }

  /** `main`: nothing happens when the output directory cannot be created or no ANEEL file
      could be loaded; otherwise every city is processed in turn until one raises. */
  method ProcessCities(outputDirMade: bool, outages: Option<seq<Outage>>,
                       weatherOf: string -> Option<WeatherTable>, parse: ColumnParser,
                       learnerOf: string -> Learner) returns (steps: seq<CityStep>)
    requires forall f :: weatherOf(f).Some? ==> WellFormed(weatherOf(f).value)
    requires Aligned(parse)
    ensures !outputDirMade || outages.None? ==> steps == []
    ensures outputDirMade && outages.Some? ==>
      steps == Run(Cities, outages.value, weatherOf, parse, learnerOf)
  {
    steps := [];
    if !outputDirMade || outages.None? {
      return;
    }
    var i := 0;
    while i < |Cities|
      invariant 0 <= i <= |Cities|
      invariant steps + Run(Cities[i..], outages.value, weatherOf, parse, learnerOf) ==
                Run(Cities, outages.value, weatherOf, parse, learnerOf)
    {
      var step := StepOf(Cities[i], outages.value, weatherOf, parse, learnerOf);
      ghost var rest := Cities[i..];
      assert rest[0] == Cities[i] && rest[1..] == Cities[i + 1..];
      RunCons(rest, outages.value, weatherOf, parse, learnerOf);
      Regroup(steps, [step], if Stops(step) then [] else Run(rest[1..], outages.value, weatherOf, parse, learnerOf));
      steps := steps + [step];
      if Stops(step) {
        return;
      }
      i := i + 1;
    }
  }

  /** One step of the run: the first city's step, then the rest unless it raised. */
  lemma RunCons(cities: seq<(string, string)>, outages: seq<Outage>,
                weatherOf: string -> Option<WeatherTable>, parse: ColumnParser,
                learnerOf: string -> Learner)
    requires cities != []
    requires forall f :: weatherOf(f).Some? ==> WellFormed(weatherOf(f).value)
    requires Aligned(parse)
    ensures var step := StepOf(cities[0], outages, weatherOf, parse, learnerOf);
      Run(cities, outages, weatherOf, parse, learnerOf) ==
        [step] + if Stops(step) then [] else Run(cities[1..], outages, weatherOf, parse, learnerOf)
  {
  }

  /** The run takes the cities in order, one step each, stops right after the first step that
      raises, and reaches every city when none raises. */
  lemma {:induction false} RunShape(cities: seq<(string, string)>, outages: seq<Outage>,
                                    weatherOf: string -> Option<WeatherTable>,
                                    parse: ColumnParser, learnerOf: string -> Learner)
    requires forall f :: weatherOf(f).Some? ==> WellFormed(weatherOf(f).value)
    requires Aligned(parse)
    ensures var r := Run(cities, outages, weatherOf, parse, learnerOf);
      && |r| <= |cities|
      && (forall i :: 0 <= i < |r| ==> r[i] == StepOf(cities[i], outages, weatherOf, parse, learnerOf))
      && (forall i :: 0 <= i < |r| - 1 ==> !Stops(r[i]))
      && (|r| < |cities| ==> r != [] && Stops(r[|r| - 1]))
  {
    if cities != [] {
      RunShape(cities[1..], outages, weatherOf, parse, learnerOf);
    }
  }
}
