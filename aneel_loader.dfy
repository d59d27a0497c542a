/** `carregar_e_agregar_dados`, the loader shared by
    GRAFICOS/ANEEL/app_graficos_contagem_total_interrupcoes_cidade.py and
    GRAFICOS/ANEEL/app_distribuicao_anual_interrupcoes.py: each listed file that exists is read
    and its rows get the `Ano` column, the integer between the last '_' and the first '.' of
    the file name; the frames are then concatenated. Only a missing file is skipped: a name
    whose year is not an integer raises, and so does concatenating no frame at all. */
module AneelLoader {
  import opened Base
  import opened Text
  import opened Numbers
  import RF = RandomForestTraining

  const Stem := "interrupcoes_rge_sul_filtrado"

  /** The name of the filtered file of `year`, as the ANEEL filter step writes it. */
  function FileName(year: nat): string {
    Stem + "_" + NatToString(year) + ".csv"
  }

  /** `arquivos_csv`, the same list in both scripts: "interrupcoes_rge_sul_filtrado_2020.csv"
      to "interrupcoes_rge_sul_filtrado_2024.csv", one per year. */
  const Files: seq<string> := [FileName(2020), FileName(2021), FileName(2022), FileName(2023), FileName(2024)]

  /** `int(arquivo.split('_')[-1].split('.')[0])`; `None` stands for the `ValueError`. */
  function YearOf(name: string): Option<int> {
    ParseInt(FirstSegment(LastSegment(name, '_'), '.'))
  }

  /** A name `<stem>_<digits>.csv` carries the year its digits spell. */
  lemma YearOfName(stem: string, digits: string)
    requires |digits| > 0 && AllDigits(digits)
    ensures YearOf(stem + "_" + digits + ".csv") == Some(DigitsValue(digits))
  {
    var tail := digits + ".csv";
    assert stem + "_" + digits + ".csv" == stem + ['_'] + tail;
    assert '_' !in tail by {
      forall k | 0 <= k < |tail| ensures tail[k] != '_' {
        if k < |digits| {
          assert tail[k] == digits[k];
        }
      }
    }
    LastSegmentAppend(stem, '_', tail);
    assert '.' !in digits by {
      forall k | 0 <= k < |digits| ensures digits[k] != '.' {
        assert IsDigit(digits[k]);
      }
    }
    DotCsv(digits);
    FirstSegmentAppend(digits, '.', "csv");
    DigitsParseInt(digits);
  }

  lemma DotCsv(d: string)
    ensures d + ".csv" == d + ['.'] + "csv"
  {
    assert ".csv" == ['.'] + "csv";
  }

  /** A file name the filter step writes carries its year. */
  lemma YearOfFileName(year: nat)
    ensures YearOf(FileName(year)) == Some(year)
  {
    YearOfName(Stem, NatToString(year));
  }

  /** The listed files are the years 2020 to 2024, in order. */
  lemma ListedYears()
    ensures forall k :: 0 <= k < |Files| ==> YearOf(Files[k]) == Some(2020 + k)
  {
    forall k | 0 <= k < |Files| ensures YearOf(Files[k]) == Some(2020 + k) {
      var name := Files[k];
      assert name == FileName(2020 + k);
      YearOfFileName(2020 + k);
    }
  }

  /** The frames read so far, each row tagged with the year `yearOf` gives its file; `None`
      once `yearOf` failed on the name of a file that was read. `read(f)` is the content of
      file `f`, `None` when it does not exist (the `FileNotFoundError` the loop catches). */
  function Frames<T>(files: seq<string>, read: string -> Option<seq<T>>, yearOf: string -> Option<int>)
    : Option<seq<seq<RF.Tagged<T>>>>
  {
    if files == [] then Some([])
    else
      var f := files[|files| - 1];
      match Frames(files[..|files| - 1], read, yearOf)
      case None => None
      case Some(frames) =>
        if read(f).None? then Some(frames)
        else match yearOf(f)
          case None => None
          case Some(y) => Some(frames + [RF.TagAll(y, read(f).value)])
  }

  /** The whole loader: `None` when it raises, on a name without an integer year or because no
      file was read and `pd.concat` gets an empty list. */
  function Load<T>(files: seq<string>, read: string -> Option<seq<T>>): Option<seq<RF.Tagged<T>>> {
    match Frames(files, read, YearOf)
    case None => None
    case Some(frames) => if frames == [] then None else Some(RF.Flatten(frames))
  }

  /** The loop of `carregar_e_agregar_dados`. */
  method LoadFiles<T>(files: seq<string>, read: string -> Option<seq<T>>) returns (r: Option<seq<RF.Tagged<T>>>)
    ensures r == Load(files, read)
  {
    var dfs: seq<seq<RF.Tagged<T>>> := [];
    var i := 0;
    while i < |files|
      invariant 0 <= i <= |files|
      invariant Frames(files[..i], read, YearOf) == Some(dfs)
    {
      assert files[..i + 1][..i] == files[..i];
      var content := read(files[i]);
      if content.Some? {
        var year := YearOf(files[i]);
        if year.None? {
          FramesRaised(files, read, YearOf, i + 1);
          return None;
        }
        dfs := dfs + [RF.TagAll(year.value, content.value)];
      }
      i := i + 1;
    }
    assert files[..i] == files;
    if dfs == [] {
      return None;
    }
    r := Some(RF.Flatten(dfs));
  }

  /** Once the loader raised, reading more files does not help. */
  lemma {:induction false} FramesRaised<T>(files: seq<string>, read: string -> Option<seq<T>>,
                                           yearOf: string -> Option<int>, i: nat)
    requires i <= |files| && Frames(files[..i], read, yearOf).None?
    ensures Frames(files, read, yearOf).None?
    decreases |files| - i
  {
    if i < |files| {
      assert files[..i + 1][..i] == files[..i];
      FramesRaised(files, read, yearOf, i + 1);
    } else {
      assert files[..i] == files;
    }
  }

  /** Some file of the list satisfies `p`. */
  predicate AnyFile(files: seq<string>, p: string -> bool) {
    exists k :: 0 <= k < |files| && p(files[k])
  }

  lemma AnyFileSnoc(files: seq<string>, p: string -> bool)
    requires files != []
    ensures AnyFile(files, p) <==> AnyFile(files[..|files| - 1], p) || p(files[|files| - 1])
  {
    var init := files[..|files| - 1];
    if AnyFile(files, p) {
      var k :| 0 <= k < |files| && p(files[k]);
      if k < |init| {
        assert init[k] == files[k];
      }
    }
    if AnyFile(init, p) {
      var k :| 0 <= k < |init| && p(init[k]);
      assert files[k] == init[k];
    }
  }

  /** A file that was read and whose name carries no year. */
  predicate BadYear<T>(files: seq<string>, read: string -> Option<seq<T>>, yearOf: string -> Option<int>) {
    AnyFile(files, f => read(f).Some? && yearOf(f).None?)
  }

  /** Some listed file exists. */
  predicate AnyRead<T>(files: seq<string>, read: string -> Option<seq<T>>) {
    AnyFile(files, f => read(f).Some?)
  }

  /** The frames stop only on a bad year, and there is one frame per file read. */
  lemma {:induction false} FramesShape<T>(files: seq<string>, read: string -> Option<seq<T>>, yearOf: string -> Option<int>)
    ensures Frames(files, read, yearOf).None? <==> BadYear(files, read, yearOf)
    ensures Frames(files, read, yearOf).Some? ==> (Frames(files, read, yearOf).value == [] <==> !AnyRead(files, read))
  {
    if files != [] {
      FramesShape(files[..|files| - 1], read, yearOf);
      AnyFileSnoc(files, f => read(f).Some? && yearOf(f).None?);
      AnyFileSnoc(files, f => read(f).Some?);
    }
  }

  /** The loader raises exactly when a file it read has a name without an integer year, or
      when no listed file exists. */
  lemma LoadRaises<T>(files: seq<string>, read: string -> Option<seq<T>>)
    ensures Load(files, read).None? <==> BadYear(files, read, YearOf) || !AnyRead(files, read)
  {
    FramesShape(files, read, YearOf);
  }

  /** The listed names all carry their year, so loading them raises only when none exists. */
  lemma ListedLoadRaises<T>(read: string -> Option<seq<T>>)
    ensures Load(Files, read).None? <==> !AnyRead(Files, read)
  {
    ListedYears();
    LoadRaises(Files, read);
  }

  /** A file that was read, carries the year `y` and holds the row `x`. */
  predicate FromFile<T(==)>(files: seq<string>, read: string -> Option<seq<T>>, yearOf: string -> Option<int>, y: int, x: T) {
    AnyFile(files, f => read(f).Some? && yearOf(f) == Some(y) && x in read(f).value)
  }

  /** The loaded rows are the rows of the files read, each tagged with its file's year. */
  lemma {:induction false} LoadedRows<T>(files: seq<string>, read: string -> Option<seq<T>>,
                                         yearOf: string -> Option<int>, y: int, x: T)
    requires Frames(files, read, yearOf).Some?
    ensures RF.Tagged(y, x) in RF.Flatten(Frames(files, read, yearOf).value) <==> FromFile(files, read, yearOf, y, x)
  {
    if files != [] {
      var init, f := files[..|files| - 1], files[|files| - 1];
      LoadedRows(init, read, yearOf, y, x);
      AnyFileSnoc(files, f => read(f).Some? && yearOf(f) == Some(y) && x in read(f).value);
      if read(f).Some? {
        var rows, year := read(f).value, yearOf(f).value;
        RF.FlattenSnoc(Frames(init, read, yearOf).value, RF.TagAll(year, rows));
        assert RF.Tagged(y, x) in RF.TagAll(year, rows) <==> y == year && x in rows by {
          if y == year && x in rows {
            var i :| 0 <= i < |rows| && rows[i] == x;
            assert RF.TagAll(year, rows)[i] == RF.Tagged(y, x);
          }
        }
      }
    }
  }

  /** The number of rows read from the files, in order. */
  function RowsRead<T>(files: seq<string>, read: string -> Option<seq<T>>): nat {
    if files == [] then 0
    else RowsRead(files[..|files| - 1], read) + (if read(files[|files| - 1]).Some? then |read(files[|files| - 1]).value| else 0)
  }

  /** Concatenating loses no row and adds none. */
  lemma {:induction false} LoadedCount<T>(files: seq<string>, read: string -> Option<seq<T>>, yearOf: string -> Option<int>)
    requires Frames(files, read, yearOf).Some?
    ensures |RF.Flatten(Frames(files, read, yearOf).value)| == RowsRead(files, read)
  {
    if files != [] {
      var init, f := files[..|files| - 1], files[|files| - 1];
      LoadedCount(init, read, yearOf);
      if read(f).Some? {
        RF.FlattenSnoc(Frames(init, read, yearOf).value, RF.TagAll(yearOf(f).value, read(f).value));
      }
    }
  }

  /** One more file adds its tagged rows, if it was read, after the rows loaded before it. */
  lemma FlatFramesSnoc<T>(files: seq<string>, read: string -> Option<seq<T>>, yearOf: string -> Option<int>)
    requires files != [] && Frames(files, read, yearOf).Some?
    ensures var init, f := files[..|files| - 1], files[|files| - 1];
      && Frames(init, read, yearOf).Some?
      && (read(f).Some? ==> yearOf(f).Some?)
      && RF.Flatten(Frames(files, read, yearOf).value) ==
         RF.Flatten(Frames(init, read, yearOf).value) +
           (if read(f).Some? then RF.TagAll(yearOf(f).value, read(f).value) else [])
  {
    var init, f := files[..|files| - 1], files[|files| - 1];
    if read(f).Some? {
      RF.FlattenSnoc(Frames(init, read, yearOf).value, RF.TagAll(yearOf(f).value, read(f).value));
    }
  }

  /** What the loader returns: every row of every file read, tagged with the file's year, and
      nothing else; as many rows as the files hold. */
  lemma LoadContents<T>(files: seq<string>, read: string -> Option<seq<T>>, y: int, x: T)
    requires Load(files, read).Some?
    ensures RF.Tagged(y, x) in Load(files, read).value <==> FromFile(files, read, YearOf, y, x)
  {
    LoadedRows(files, read, YearOf, y, x);
  }

  lemma LoadSize<T>(files: seq<string>, read: string -> Option<seq<T>>)
    requires Load(files, read).Some?
    ensures |Load(files, read).value| == RowsRead(files, read)
  {
    LoadedCount(files, read, YearOf);
  }
}
