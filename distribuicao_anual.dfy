/** GRAFICOS/ANEEL/app_distribuicao_anual_interrupcoes.py: the outages of the listed years are
    loaded and counted per year, `df_total['Ano'].value_counts().sort_index()`, for the line
    chart. */
module DistribuicaoAnual {
  import opened Base
  import opened Counting
  import RF = RandomForestTraining
  import L = AneelLoader

  /** The script raises (in the loader), stops on an empty frame, or draws the yearly counts. */
  datatype Outcome = Raised | NoData | Chart(perYear: seq<Bin>)

  /** The `Ano` column. */
  function YearsOf<T>(rows: seq<RF.Tagged<T>>): (ys: seq<int>)
    ensures |ys| == |rows| && forall i :: 0 <= i < |rows| ==> ys[i] == rows[i].year
  {
    if rows == [] then [] else YearsOf(rows[..|rows| - 1]) + [rows[|rows| - 1].year]
  }

  /** The script, given the content of each file (`None` for a missing file). */
  function Run<T>(read: string -> Option<seq<T>>): Outcome {
    match L.Load(L.Files, read)
    case None => Raised
    case Some(rows) => if rows == [] then NoData else Chart(Histogram(YearsOf(rows)))
  }

  /** It raises exactly when none of the five files exists. */
  lemma RunRaises<T>(read: string -> Option<seq<T>>)
    ensures Run(read) == Raised <==> !L.AnyRead(L.Files, read)
  {
    L.ListedLoadRaises(read);
  }

  /** It stops without a chart exactly when files exist but hold no row. */
  lemma RunNoData<T>(read: string -> Option<seq<T>>)
    ensures Run(read) == NoData <==> L.AnyRead(L.Files, read) && L.RowsRead(L.Files, read) == 0
  {
    L.ListedLoadRaises(read);
    if L.Load(L.Files, read).Some? {
      L.LoadSize(L.Files, read);
    }
  }

  /** The rows of the files read whose name carries the year `y`. */
  function RowsOfYear<T>(files: seq<string>, read: string -> Option<seq<T>>, yearOf: string -> Option<int>, y: int): nat {
    if files == [] then 0
    else
      var f := files[|files| - 1];
      RowsOfYear(files[..|files| - 1], read, yearOf, y) +
        (if read(f).Some? && yearOf(f) == Some(y) then |read(f).value| else 0)
  }

  lemma YearsOfAppend<T>(a: seq<RF.Tagged<T>>, b: seq<RF.Tagged<T>>)
    ensures YearsOf(a + b) == YearsOf(a) + YearsOf(b)
  {
    assert forall i :: 0 <= i < |a + b| ==> YearsOf(a + b)[i] == (YearsOf(a) + YearsOf(b))[i];
  }

  /** A frame of one year counts all its rows for that year and none for another. */
  lemma {:induction false} TaggedOccurrences<T>(year: int, rows: seq<T>, y: int)
    ensures Occurrences(YearsOf(RF.TagAll(year, rows)), y) == if y == year then |rows| else 0
  {
    if rows != [] {
      var init := rows[..|rows| - 1];
      TaggedOccurrences(year, init, y);
      assert YearsOf(RF.TagAll(year, rows)) == YearsOf(RF.TagAll(year, init)) + [year];
      OccurrencesAppend(YearsOf(RF.TagAll(year, init)), [year], y);
    } else {
      assert YearsOf(RF.TagAll(year, rows)) == [];
    }
  }

  /** The count of a year in the concatenated frames is the number of rows of that year's
      files. */
  lemma {:induction false} FramesOccurrences<T>(files: seq<string>, read: string -> Option<seq<T>>,
                                                yearOf: string -> Option<int>, y: int)
    requires L.Frames(files, read, yearOf).Some?
    ensures Occurrences(YearsOf(RF.Flatten(L.Frames(files, read, yearOf).value)), y) == RowsOfYear(files, read, yearOf, y)
  {
    if files != [] {
      var init, f := files[..|files| - 1], files[|files| - 1];
      L.FlatFramesSnoc(files, read, yearOf);
      FramesOccurrences(init, read, yearOf, y);
      var flat := RF.Flatten(L.Frames(init, read, yearOf).value);
      var part := if read(f).Some? then RF.TagAll(yearOf(f).value, read(f).value) else [];
      YearsOfAppend(flat, part);
      OccurrencesAppend(YearsOf(flat), YearsOf(part), y);
      if read(f).Some? {
        TaggedOccurrences(yearOf(f).value, read(f).value, y);
      } else {
        assert YearsOf(part) == [];
      }
    }
  }

  /** When the other files carry other years, the rows of a file's year are its own rows. */
  lemma {:induction false} RowsOfOwnYear<T>(files: seq<string>, read: string -> Option<seq<T>>,
                                            yearOf: string -> Option<int>, k: nat, y: int)
    requires k < |files| && yearOf(files[k]) == Some(y)
    requires forall i :: 0 <= i < |files| && i != k ==> yearOf(files[i]) != Some(y)
    ensures RowsOfYear(files, read, yearOf, y) == if read(files[k]).Some? then |read(files[k]).value| else 0
  {
    var init, f := files[..|files| - 1], files[|files| - 1];
    if k < |files| - 1 {
      RowsOfOwnYear(init, read, yearOf, k, y);
    } else {
      RowsOfOtherYear(init, read, yearOf, y);
    }
  }

  lemma {:induction false} RowsOfOtherYear<T>(files: seq<string>, read: string -> Option<seq<T>>,
                                              yearOf: string -> Option<int>, y: int)
    requires forall i :: 0 <= i < |files| ==> yearOf(files[i]) != Some(y)
    ensures RowsOfYear(files, read, yearOf, y) == 0
  {
    if files != [] {
      RowsOfOtherYear(files[..|files| - 1], read, yearOf, y);
    }
  }

  /** The chart has one point per year whose file holds rows, in ascending year order, at the
      number of rows of that file; the points add up to all rows read. */
  lemma ChartCounts<T>(read: string -> Option<seq<T>>, k: nat)
    requires Run(read).Chart? && k < |L.Files|
    ensures var h := Run(read).perYear;
      (forall i, j :: 0 <= i < j < |h| ==> h[i].key < h[j].key) &&
      Total(h) == L.RowsRead(L.Files, read) &&
      ((exists i :: 0 <= i < |h| && h[i].key == 2020 + k) <==> read(L.Files[k]).Some? && read(L.Files[k]).value != []) &&
      (forall i :: 0 <= i < |h| && h[i].key == 2020 + k ==> h[i].count == |read(L.Files[k]).value|)
  {
    ChartTotal(read);
    ChartYear(read, k);
  }

  lemma ChartTotal<T>(read: string -> Option<seq<T>>)
    requires Run(read).Chart?
    ensures Total(Run(read).perYear) == L.RowsRead(L.Files, read)
  {
    var rows := L.Load(L.Files, read).value;
    L.LoadSize(L.Files, read);
    HistogramTotal(YearsOf(rows));
  }

  lemma ChartYear<T>(read: string -> Option<seq<T>>, k: nat)
    requires Run(read).Chart? && k < |L.Files|
    ensures var h := Run(read).perYear;
      ((exists i :: 0 <= i < |h| && h[i].key == 2020 + k) <==> read(L.Files[k]).Some? && read(L.Files[k]).value != []) &&
      (forall i :: 0 <= i < |h| && h[i].key == 2020 + k ==> h[i].count == |read(L.Files[k]).value|)
  {
    var rows := L.Load(L.Files, read).value;
    ListedYearCount(read, k);
    HistogramKey(YearsOf(rows), 2020 + k);
  }

  /** A key's bin is there exactly when the key occurs, and counts its occurrences. */
  lemma HistogramKey(xs: seq<int>, y: int)
    ensures var h := Histogram(xs);
      ((exists i :: 0 <= i < |h| && h[i].key == y) <==> Occurrences(xs, y) > 0) &&
      (forall i :: 0 <= i < |h| && h[i].key == y ==> h[i].count == Occurrences(xs, y))
  {
    var h := Histogram(xs);
    assert (exists i :: 0 <= i < |h| && h[i].key == y) <==> y in xs;
    assert Occurrences(xs, y) > 0 <==> y in xs;
  }

  /** The loaded rows of a listed year are the rows of that year's file. */
  lemma ListedYearCount<T>(read: string -> Option<seq<T>>, k: nat)
    requires L.Load(L.Files, read).Some? && k < |L.Files|
    ensures Occurrences(YearsOf(L.Load(L.Files, read).value), 2020 + k) ==
      if read(L.Files[k]).Some? then |read(L.Files[k]).value| else 0
  {
    L.ListedYears();
    var files := L.Files;
    assert forall i :: 0 <= i < |files| && i != k ==> L.YearOf(files[i]) != Some(2020 + k);
    OwnYearCount(files, read, L.YearOf, k, 2020 + k);
  }

  /** When the other files carry other years, a file's year counts exactly its rows. */
  lemma OwnYearCount<T>(files: seq<string>, read: string -> Option<seq<T>>,
                        yearOf: string -> Option<int>, k: nat, y: int)
    requires L.Frames(files, read, yearOf).Some? && k < |files| && yearOf(files[k]) == Some(y)
    requires forall i :: 0 <= i < |files| && i != k ==> yearOf(files[i]) != Some(y)
    ensures Occurrences(YearsOf(RF.Flatten(L.Frames(files, read, yearOf).value)), y) ==
      if read(files[k]).Some? then |read(files[k]).value| else 0
  {
    FramesOccurrences(files, read, yearOf, y);
    RowsOfOwnYear(files, read, yearOf, k, y);
  }
}
