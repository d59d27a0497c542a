/** GRAFICOS/app_serie_temporal_interrupcoes.py: the outage dates of the yearly files are
    collected, the ones that do not parse are dropped, and the outages are counted per month and
    per quarter. */
module SerieTemporal {
  import opened Base
  import opened Counting
  import opened Calendar
  import RF = RandomForestTraining
  import L = AneelLoader

  /** What a file holds for the series: its `DatGeracaoConjuntoDados` and `DatInicioInterrupcao`
      columns, each `None` when the file lacks it; a cell is `None` when it is empty (NaN). */
  datatype Sheet = Sheet(geracao: Option<seq<Option<string>>>, inicio: Option<seq<Option<string>>>)

  /** Lines 25-32: the date column the script uses, `None` when the file has neither. */
  function DateColumn(s: Sheet): Option<seq<Option<string>>> {
    if s.geracao.Some? then s.geracao else s.inicio
  }

  /** `pd.to_datetime(col, errors='coerce')`, with `parse` the reading of one text (`None` when it
      is not a date); an empty cell stays NaT. */
  function ToDatetime(col: seq<Option<string>>, parse: string -> Option<Timestamp>): (r: seq<Option<Timestamp>>)
    ensures |r| == |col|
    ensures forall i :: 0 <= i < |col| ==> r[i] == if col[i].None? then None else parse(col[i].value)
  {
    seq(|col|, i requires 0 <= i < |col| => if col[i].None? then None else parse(col[i].value))
  }

  /** A file the loop keeps: it exists and has a date column. */
  function Usable(read: string -> Option<Sheet>): string -> bool {
    f => read(f).Some? && DateColumn(read(f).value).Some?
  }

  /** The `data` columns of the frames kept from `files`, in order. */
  function Frames(files: seq<string>, read: string -> Option<Sheet>, parse: string -> Option<Timestamp>)
    : seq<seq<Option<Timestamp>>>
  {
    if files == [] then []
    else
      var f := files[|files| - 1];
      Frames(files[..|files| - 1], read, parse) +
        if Usable(read)(f) then [ToDatetime(DateColumn(read(f).value).value, parse)] else []
  }

  /** The loop of lines 18-37 and the concatenation of line 40: the `data` column of all kept
      files, or `None` when no file was kept and the script exits. `read(f)` is the content of
      file `f`, `None` when it does not exist. */
  method LoadDates(files: seq<string>, read: string -> Option<Sheet>, parse: string -> Option<Timestamp>)
    returns (r: Option<seq<Option<Timestamp>>>)
    ensures r.None? <==> Frames(files, read, parse) == []
    ensures r.Some? ==> r.value == RF.Flatten(Frames(files, read, parse))
  {
    var dfs: seq<seq<Option<Timestamp>>> := [];
    var i := 0;
    while i < |files|
      invariant 0 <= i <= |files|
      invariant dfs == Frames(files[..i], read, parse)
    {
      assert files[..i + 1][..i] == files[..i];
      var sheet := read(files[i]);
      if sheet.None? {
        i := i + 1;
        continue;
      }
      var data: seq<Option<Timestamp>>;
      if sheet.value.geracao.Some? {
        data := ToDatetime(sheet.value.geracao.value, parse);
      } else if sheet.value.inicio.Some? {
        data := ToDatetime(sheet.value.inicio.value, parse);
      } else {
        i := i + 1;
        continue;
      }
      dfs := dfs + [data];
      i := i + 1;
    }
    assert files[..i] == files;
    if dfs == [] {
      return None;
    }
    r := Some(RF.Flatten(dfs));
  }

  /** No frame is kept exactly when no file both exists and has a date column. */
  lemma {:induction false} FramesEmpty(files: seq<string>, read: string -> Option<Sheet>, parse: string -> Option<Timestamp>)
    ensures Frames(files, read, parse) == [] <==> !L.AnyFile(files, Usable(read))
  {
    if files != [] {
      FramesEmpty(files[..|files| - 1], read, parse);
      L.AnyFileSnoc(files, Usable(read));
    }
  }

  /** `dropna(subset=['data'])`: the dates that parsed, in order. */
  function Present(dates: seq<Option<Timestamp>>): (ts: seq<Timestamp>)
    ensures |ts| <= |dates|
    ensures forall t :: t in ts <==> Some(t) in dates
  {
    if dates == [] then []
    else
      var init, d := dates[..|dates| - 1], dates[|dates| - 1];
      assert dates == init + [d];
      Present(init) + if d.Some? then [d.value] else []
  }

  /** `to_period('M')`: the month, numbered consecutively across years. */
  function MonthKey(t: Timestamp): int {
    t.year * 12 + (t.month - 1)
  }

  /** `to_period('Q')`: the quarter, numbered consecutively across years. */
  function QuarterKey(t: Timestamp): int {
    t.year * 4 + (t.month - 1) / 3
  }

  function MonthKeys(ts: seq<Timestamp>): (ks: seq<int>)
    ensures |ks| == |ts| && forall i :: 0 <= i < |ts| ==> ks[i] == MonthKey(ts[i])
  {
    seq(|ts|, i requires 0 <= i < |ts| => MonthKey(ts[i]))
  }

  function QuarterKeys(ts: seq<Timestamp>): (ks: seq<int>)
    ensures |ks| == |ts| && forall i :: 0 <= i < |ts| ==> ks[i] == QuarterKey(ts[i])
  {
    seq(|ts|, i requires 0 <= i < |ts| => QuarterKey(ts[i]))
  }

  /** A month key names its year and month, and month keys are ordered as the months are. */
  lemma MonthKeyOrder(a: Timestamp, b: Timestamp)
    requires 1 <= a.month <= 12 && 1 <= b.month <= 12
    ensures MonthKey(a) / 12 == a.year && MonthKey(a) % 12 + 1 == a.month
    ensures MonthKey(a) == MonthKey(b) <==> a.year == b.year && a.month == b.month
    ensures MonthKey(a) < MonthKey(b) <==> a.year < b.year || (a.year == b.year && a.month < b.month)
  {
  }

  /** The quarter of a date is its month key divided by three. */
  lemma QuarterOfMonth(t: Timestamp)
    requires 1 <= t.month <= 12
    ensures QuarterKey(t) == MonthKey(t) / 3
  {
    var k := t.month - 1;
    assert MonthKey(t) == 3 * (t.year * 4 + k / 3) + k % 3;
  }

  /** Every date names one of the twelve months. */
  predicate CalendarMonths(ts: seq<Timestamp>) {
    forall i :: 0 <= i < |ts| ==> 1 <= ts[i].month <= 12
  }

  /** A quarter counts the rows of its three months. */
  lemma QuarterCounts(ts: seq<Timestamp>, q: int)
    requires CalendarMonths(ts)
    ensures Occurrences(QuarterKeys(ts), q) == MonthsOfQuarter(MonthKeys(ts), q)
  {
    var qs, ms := QuarterKeys(ts), MonthKeys(ts);
    forall i | 0 <= i < |ts| ensures qs[i] == ms[i] / 3 {
      QuarterOfMonth(ts[i]);
    }
    ThirdsCounts(qs, ms, q);
  }

  /** The month keys `3q`, `3q+1` and `3q+2` of quarter `q`, counted in `ms`. */
  function MonthsOfQuarter(ms: seq<int>, q: int): nat {
    Occurrences(ms, 3 * q) + Occurrences(ms, 3 * q + 1) + Occurrences(ms, 3 * q + 2)
  }

  /** Each key of `qs` is the key of `ms` at the same place divided by three. */
  predicate Thirds(qs: seq<int>, ms: seq<int>) {
    |qs| == |ms| && forall i :: 0 <= i < |ms| ==> qs[i] == ms[i] / 3
  }

  /** Keys that are other keys divided by three count, for `q`, the keys `3q`, `3q+1`, `3q+2`. */
  lemma {:induction false} ThirdsCounts(qs: seq<int>, ms: seq<int>, q: int)
    requires Thirds(qs, ms)
    ensures Occurrences(qs, q) == MonthsOfQuarter(ms, q)
  {
    if ms != [] {
      var n := |ms| - 1;
      var qi, mi := qs[..n], ms[..n];
      assert Thirds(qi, mi);
      ThirdsCounts(qi, mi, q);
      DivThree(ms[n], q);
    }
  }

  lemma DivThree(m: int, q: int)
    ensures m / 3 == q <==> m == 3 * q || m == 3 * q + 1 || m == 3 * q + 2
  {
  }

  /** The script exits (line 37), or draws the monthly and the quarterly series. */
  datatype Outcome = NoData | Series(monthly: seq<Bin>, quarterly: seq<Bin>)

  /** The script, given the content of each file and the date reading. */
  function Run(read: string -> Option<Sheet>, parse: string -> Option<Timestamp>): Outcome {
    var frames := Frames(L.Files, read, parse);
    if frames == [] then NoData
    else
      var ts := Present(RF.Flatten(frames));
      Series(Histogram(MonthKeys(ts)), Histogram(QuarterKeys(ts)))
  }

  /** It exits exactly when no listed file exists with a date column. */
  lemma RunNoData(read: string -> Option<Sheet>, parse: string -> Option<Timestamp>)
    ensures Run(read, parse) == NoData <==> !L.AnyFile(L.Files, Usable(read))
  {
    FramesEmpty(L.Files, read, parse);
  }

  /** Both series count every date that parsed once: their counts add up to the rows that
      survive `dropna`. */
  lemma SeriesTotals(read: string -> Option<Sheet>, parse: string -> Option<Timestamp>)
    requires Run(read, parse).Series?
    ensures var ts := Present(RF.Flatten(Frames(L.Files, read, parse)));
      Total(Run(read, parse).monthly) == |ts| && Total(Run(read, parse).quarterly) == |ts|
  {
    var ts := Present(RF.Flatten(Frames(L.Files, read, parse)));
    HistogramTotal(MonthKeys(ts));
    HistogramTotal(QuarterKeys(ts));
  }

  /** A month key occurs exactly when some date falls in that month. */
  lemma MonthKeysOf(ts: seq<Timestamp>, k: int)
    ensures k in MonthKeys(ts) <==> exists t :: t in ts && MonthKey(t) == k
  {
    if exists t :: t in ts && MonthKey(t) == k {
      var t :| t in ts && MonthKey(t) == k;
      var i :| 0 <= i < |ts| && ts[i] == t;
      assert MonthKeys(ts)[i] == k;
    }
    if k in MonthKeys(ts) {
      var i :| 0 <= i < |ts| && MonthKeys(ts)[i] == k;
      assert ts[i] in ts;
    }
  }

  /** The monthly series has a point for a month exactly when some date that parsed falls in it,
      so months without outages are absent rather than zero. */
  lemma MonthsDrawn(read: string -> Option<Sheet>, parse: string -> Option<Timestamp>, k: int)
    requires Run(read, parse).Series?
    ensures var ts := Present(RF.Flatten(Frames(L.Files, read, parse)));
      var h := Run(read, parse).monthly;
      (exists i :: 0 <= i < |h| && h[i].key == k) <==> exists t :: t in ts && MonthKey(t) == k
  {
    MonthKeysOf(Present(RF.Flatten(Frames(L.Files, read, parse))), k);
  }

  /** With a date reading that yields calendar dates, each quarter's bar is the sum of its three
      months' points. */
  lemma SeriesQuarters(read: string -> Option<Sheet>, parse: string -> Option<Timestamp>)
    requires forall s :: parse(s).Some? ==> Valid(parse(s).value)
    requires Run(read, parse).Series?
    ensures var ts := Present(RF.Flatten(Frames(L.Files, read, parse)));
      var q := Run(read, parse).quarterly;
      forall i :: 0 <= i < |q| ==>
        q[i].count == MonthsOfQuarter(MonthKeys(ts), q[i].key)
  {
    var ts := Present(RF.Flatten(Frames(L.Files, read, parse)));
    PresentDatesValid(L.Files, read, parse);
    QuarterBars(ts);
    assert Run(read, parse).quarterly == Histogram(QuarterKeys(ts));
  }

  /** The dates that survive `dropna` are dates the reading produced. */
  lemma PresentDatesValid(files: seq<string>, read: string -> Option<Sheet>, parse: string -> Option<Timestamp>)
    requires forall s :: parse(s).Some? ==> Valid(parse(s).value)
    ensures var ts := Present(RF.Flatten(Frames(files, read, parse)));
      CalendarMonths(ts)
  {
    var ts := Present(RF.Flatten(Frames(files, read, parse)));
    forall i | 0 <= i < |ts| ensures 1 <= ts[i].month <= 12 {
      assert ts[i] in ts;
      FlattenedDates(files, read, parse, ts[i]);
    }
  }

  /** Each bar of the quarterly histogram is the sum of its three months. */
  lemma QuarterBars(ts: seq<Timestamp>)
    requires CalendarMonths(ts)
    ensures var q := Histogram(QuarterKeys(ts));
      forall i :: 0 <= i < |q| ==>
        q[i].count == MonthsOfQuarter(MonthKeys(ts), q[i].key)
  {
    var q := Histogram(QuarterKeys(ts));
    forall i | 0 <= i < |q| ensures q[i].count == MonthsOfQuarter(MonthKeys(ts), q[i].key) {
      QuarterCounts(ts, q[i].key);
    }
  }

  /** Every date in the concatenated column came out of `parse`. */
  lemma {:induction false} FlattenedDates(files: seq<string>, read: string -> Option<Sheet>,
                                          parse: string -> Option<Timestamp>, t: Timestamp)
    requires Some(t) in RF.Flatten(Frames(files, read, parse))
    ensures exists s :: parse(s) == Some(t)
  {
    if files != [] {
      var init := files[..|files| - 1];
      var frames := Frames(init, read, parse);
      var f := files[|files| - 1];
      if Usable(read)(f) {
        var part := ToDatetime(DateColumn(read(f).value).value, parse);
        assert Frames(files, read, parse) == frames + [part];
        RF.FlattenSnoc(frames, part);
        if Some(t) in part {
          var i :| 0 <= i < |part| && part[i] == Some(t);
        } else {
          FlattenedDates(init, read, parse, t);
        }
      } else {
        assert Frames(files, read, parse) == frames;
        FlattenedDates(init, read, parse, t);
      }
    }
  }
}
