/** INMET/app.py: each raw INMET station table keeps the listed weather columns it has, in the
    order of the list, and only the rows where every kept column other than the date and the
    hour has a value; the result goes to a mirror of the directory tree under "Filtrados". */
module InmetFilter {
  import opened Base
  import opened Text

  const DateColumn := "Data"
  const HourColumn := "Hora (UTC)"

  const Principal: seq<string> := [
    DateColumn, HourColumn, "Temp. Ins. (C)", "Temp. Max. (C)", "Temp. Min. (C)",
    "Umi. Ins. (%)", "Umi. Max. (%)", "Umi. Min. (%)",
    "Pto Orvalho Ins. (C)", "Pto Orvalho Max. (C)", "Pto Orvalho Min. (C)",
    "Pressao Ins. (hPa)", "Pressao Max. (hPa)", "Pressao Min. (hPa)",
    "Vel. Vento (m/s)", "Dir. Vento (m/s)", "Raj. Vento (m/s)",
    "Radiacao (KJ/m\U{B2})", "Chuva (mm)"
  ]

  type Line = seq<Option<string>>

  /** A table as `read_csv` returns it: distinct column names and one cell per column. */
  datatype Table = Table(columns: seq<string>, rows: seq<Line>)

  predicate WellFormed(t: Table) {
    && (forall i, j :: 0 <= i < j < |t.columns| ==> t.columns[i] != t.columns[j])
    && (forall k :: 0 <= k < |t.rows| ==> |t.rows[k]| == |t.columns|)
  }

  /** The position of a column. */
  function IndexOf(cs: seq<string>, c: string): (k: nat)
    requires c in cs
    ensures k < |cs| && cs[k] == c
  {
    if cs[0] == c then 0 else 1 + IndexOf(cs[1..], c)
  }

  /** With distinct names, the position of the name at `k` is `k`. */
  lemma IndexOfDistinct(cs: seq<string>, k: nat)
    requires k < |cs| && forall i, j :: 0 <= i < j < |cs| ==> cs[i] != cs[j]
    ensures IndexOf(cs, cs[k]) == k
  {
    var m := IndexOf(cs, cs[k]);
    assert cs[m] == cs[k];
  }

  /** The selected columns: the listed ones that are present, in the order of the list. */
  function KeptColumns(columns: seq<string>): (r: seq<string>)
    ensures forall c :: c in r <==> c in Principal && c in columns
    ensures Subsequence(r, Principal)
  {
    var present := (c: string) => c in columns;
    FilterSubsequence(Principal, present);
    Filter(Principal, present)
  }

  /** The columns `dropna` looks at: the kept ones other than the date and the hour. */
  function CheckedColumns(columns: seq<string>): (r: seq<string>)
    ensures forall c :: c in r <==> c in Principal && c in columns && c != DateColumn && c != HourColumn
  {
    Filter(Principal, (c: string) => c in columns && c != DateColumn && c != HourColumn)
  }

  /** No checked column of the line is missing. */
  predicate Complete(t: Table, line: Line)
    requires |line| == |t.columns|
  {
    forall c :: c in CheckedColumns(t.columns) ==> line[IndexOf(t.columns, c)].Some?
  }

  /** The line restricted to the kept columns. */
  function Project(t: Table, line: Line): (r: Line)
    requires |line| == |t.columns|
    ensures |r| == |KeptColumns(t.columns)|
  {
    var kept := KeptColumns(t.columns);
    seq(|kept|, k requires 0 <= k < |kept| => line[IndexOf(t.columns, kept[k])])
  }

  /** The line has a cell per column and none of its checked cells is missing. */
  predicate Kept(t: Table, line: Line) {
    |line| == |t.columns| && Complete(t, line)
  }

  /** The complete rows, in order. */
  function CompleteRows(t: Table): (r: seq<Line>)
    ensures forall line :: line in r <==> line in t.rows && Kept(t, line)
    ensures Subsequence(r, t.rows)
  {
    var ok := (line: Line) => Kept(t, line);
    FilterSubsequence(t.rows, ok);
    Filter(t.rows, ok)
  }

  /** `filtrar_dados_csv`: `None` when the file cannot be read (nothing is written), otherwise
      the projected table of the complete rows. */
  function FilterTable(read: Option<Table>): (r: Option<Table>)
    requires read.Some? ==> WellFormed(read.value)
    ensures r.None? <==> read.None?
    ensures r.Some? ==> r.value.columns == KeptColumns(read.value.columns)
  {
    match read
    case None => None
    case Some(t) =>
      var rows := CompleteRows(t);
      assert forall k :: 0 <= k < |rows| ==> rows[k] in rows;
      Some(Table(KeptColumns(t.columns), seq(|rows|, k requires 0 <= k < |rows| => Project(t, rows[k]))))
  }

  /** A line is complete exactly when every listed column of it other than the date and the
      hour has a value: a missing date or hour never removes a line, and unlisted columns do
      not count. */
  lemma CompleteIff(t: Table, line: Line)
    requires WellFormed(t) && |line| == |t.columns|
    ensures Complete(t, line) <==>
      forall j :: (0 <= j < |t.columns| && t.columns[j] in Principal &&
                   t.columns[j] != DateColumn && t.columns[j] != HourColumn) ==> line[j].Some?
  {
    forall j | 0 <= j < |t.columns| ensures IndexOf(t.columns, t.columns[j]) == j {
      IndexOfDistinct(t.columns, j);
    }
  }

  /** Each written row is a complete input row, restricted to the kept columns, and the rows
      keep their relative order; every cell is the input cell of the same column. */
  lemma FilterTableRows(t: Table)
    requires WellFormed(t)
    ensures var r := FilterTable(Some(t)).value;
      && |r.rows| == |CompleteRows(t)|
      && forall k, i :: 0 <= k < |r.rows| && 0 <= i < |r.columns| ==>
           && |r.rows[k]| == |r.columns| && |CompleteRows(t)[k]| == |t.columns|
           && r.rows[k][i] == CompleteRows(t)[k][IndexOf(t.columns, r.columns[i])]
  {
    var rows := CompleteRows(t);
    assert forall k :: 0 <= k < |rows| ==> rows[k] in rows;
  }

  // ---------------------------------------------------------------- the directory tree

  const Skip := "Filtrados"
  const Suffix := "_filtrado.csv"

  /** `os.path.join(a, b)`. */
  function PathJoin(a: string, b: string): string {
    if b != [] && b[0] == '/' then b
    else if a == [] || a[|a| - 1] == '/' then a + b
    else a + "/" + b
  }

  predicate AllDots(s: string) {
    forall i :: 0 <= i < |s| ==> s[i] == '.'
  }

  /** `os.path.splitext(file)[0]` for a name ending in ".csv": the name without it, unless
      only dots come before it (a leading dot does not start an extension). */
  function CsvBase(file: string): (r: string)
    requires EndsWith(file, ".csv")
    ensures r == file || file == r + ".csv"
  {
    var stem := file[..|file| - 4];
    assert file == stem + ".csv";
    if AllDots(stem) then file else stem
  }

  /** One directory visited by `os.walk`, with its path relative to the data directory
      (`os.path.relpath`, "." for the data directory itself) and its file names. */
  datatype Dir = Dir(root: string, rel: string, files: seq<string>)

  datatype Job = Job(input: string, output: string)

  /** `out_dir` / `<base>_filtrado.csv`, where `out_dir` mirrors the relative directory. */
  function OutputPath(filtrados: string, rel: string, file: string): string
    requires EndsWith(file, ".csv")
  {
    var outDir := if rel != "." then PathJoin(filtrados, rel) else filtrados;
    PathJoin(outDir, CsvBase(file) + Suffix)
  }

  /** The job for a file of a directory: none unless its name ends in ".csv". */
  function JobOf(filtrados: string, d: Dir, f: string): (r: seq<Job>)
    ensures |r| <= 1
  {
    if EndsWith(f, ".csv") then [Job(PathJoin(d.root, f), OutputPath(filtrados, d.rel, f))] else []
  }

  /** `job` is the job of the ".csv" file `f`. */
  predicate JobFor(filtrados: string, d: Dir, f: string, job: Job) {
    EndsWith(f, ".csv") && job == Job(PathJoin(d.root, f), OutputPath(filtrados, d.rel, f))
  }

  /** The files of one directory that are filtered, in listing order. */
  function DirJobs(filtrados: string, d: Dir): (r: seq<Job>)
    ensures Contains(d.root, Skip) ==> r == []
    ensures |r| <= |d.files|
  {
    if Contains(d.root, Skip) then []
    else FileJobs(filtrados, d, d.files)
  }

  function FileJobs(filtrados: string, d: Dir, files: seq<string>): (r: seq<Job>)
    ensures |r| <= |files|
  {
    if files == [] then []
    else FileJobs(filtrados, d, files[..|files| - 1]) + JobOf(filtrados, d, files[|files| - 1])
  }

  function Jobs(filtrados: string, walk: seq<Dir>): seq<Job> {
    if walk == [] then [] else Jobs(filtrados, walk[..|walk| - 1]) + DirJobs(filtrados, walk[|walk| - 1])
  }

  /** The jobs of one directory, one file at a time. */
  method CollectJobs(filtrados: string, d: Dir) returns (here: seq<Job>)
    ensures here == DirJobs(filtrados, d)
  {
    here := [];
    if Contains(d.root, Skip) {
      return;
    }
    var j := 0;
    while j < |d.files|
      invariant 0 <= j <= |d.files|
      invariant here == FileJobs(filtrados, d, d.files[..j])
    {
      FileJobsStep(filtrados, d, j);
      var f := d.files[j];
      if EndsWith(f, ".csv") {
        here := here + [Job(PathJoin(d.root, f), OutputPath(filtrados, d.rel, f))];
      }
      j := j + 1;
    }
    assert d.files[..|d.files|] == d.files;
  }

  /** One more file of the listing adds its job, if it has one. */
  lemma FileJobsStep(filtrados: string, d: Dir, j: nat)
    requires j < |d.files|
    ensures FileJobs(filtrados, d, d.files[..j + 1]) ==
            FileJobs(filtrados, d, d.files[..j]) + JobOf(filtrados, d, d.files[j])
  {
    assert d.files[..j + 1][..j] == d.files[..j];
  }

  /** Filters the input of every job and writes the tables that could be read. */
  method RunJobs(jobs: seq<Job>, read: string -> Option<Table>) returns (written: seq<(string, Table)>)
    requires forall p :: read(p).Some? ==> WellFormed(read(p).value)
    ensures written == Written(jobs, read)
  {
    written := [];
    var k := 0;
    while k < |jobs|
      invariant 0 <= k <= |jobs|
      invariant written == Written(jobs[..k], read)
    {
      assert jobs[..k + 1][..k] == jobs[..k];
      var t := FilterTable(read(jobs[k].input));
      if t.Some? {
        written := written + [(jobs[k].output, t.value)];
      }
      k := k + 1;
    }
    assert jobs[..|jobs|] == jobs;
  }

  /** `filtrar_todos_csvs`: for every ".csv" file of every directory whose path does not
      contain "Filtrados", the filtered table is written to its mirrored path; a file that
      cannot be read produces nothing. `read` stands for reading the file at a path. */
  method FilterAll(filtrados: string, walk: seq<Dir>, read: string -> Option<Table>)
    returns (jobs: seq<Job>, written: seq<(string, Table)>)
    requires forall p :: read(p).Some? ==> WellFormed(read(p).value)
    ensures jobs == Jobs(filtrados, walk)
    ensures written == Written(jobs, read)
  {
    jobs := [];
    var i := 0;
    while i < |walk|
      invariant 0 <= i <= |walk|
      invariant jobs == Jobs(filtrados, walk[..i])
    {
      assert walk[..i + 1][..i] == walk[..i];
      var here := CollectJobs(filtrados, walk[i]);
      jobs := jobs + here;
      i := i + 1;
    }
    assert walk[..|walk|] == walk;
    written := RunJobs(jobs, read);
  }

  /** The outputs of the jobs whose input could be read. */
  function Written(jobs: seq<Job>, read: string -> Option<Table>): (r: seq<(string, Table)>)
    requires forall p :: read(p).Some? ==> WellFormed(read(p).value)
    ensures |r| <= |jobs|
  {
    if jobs == [] then []
    else
      var j := jobs[|jobs| - 1];
      Written(jobs[..|jobs| - 1], read) +
      match FilterTable(read(j.input))
      case None => []
      case Some(t) => [(j.output, t)]
  }

  /** A file is filtered exactly when it ends in ".csv", and its output is named after it. */
  lemma {:induction false} FileJobsIff(filtrados: string, d: Dir, files: seq<string>)
    ensures forall job :: job in FileJobs(filtrados, d, files) <==>
      exists f :: f in files && JobFor(filtrados, d, f, job)
  {
    if files != [] {
      var init, f := files[..|files| - 1], files[|files| - 1];
      assert files == init + [f];
      FileJobsIff(filtrados, d, init);
      forall job | job in FileJobs(filtrados, d, files)
        ensures exists g :: g in files && JobFor(filtrados, d, g, job)
      {
        if job in FileJobs(filtrados, d, init) {
          var g :| g in init && JobFor(filtrados, d, g, job);
          assert g in files;
        } else {
          assert JobFor(filtrados, d, f, job);
        }
      }
      forall job, g | g in files && JobFor(filtrados, d, g, job)
        ensures job in FileJobs(filtrados, d, files)
      {
        if g in init {
          assert job in FileJobs(filtrados, d, init);
        }
      }
    }
  }

  /** A table written to the data directory itself lands directly in the output directory,
      and one in a year directory lands in the same-named directory below it, named
      `<base>_filtrado.csv`. */
  lemma OutputPathShape(filtrados: string, rel: string, base: string)
    requires filtrados != [] && filtrados[|filtrados| - 1] != '/'
    requires rel != [] && rel[0] != '/' && rel[|rel| - 1] != '/'
    requires base != [] && !AllDots(base) && '/' !in base
    ensures OutputPath(filtrados, ".", base + ".csv") == filtrados + "/" + base + Suffix
    ensures rel != "." ==>
      OutputPath(filtrados, rel, base + ".csv") == filtrados + "/" + rel + "/" + base + Suffix
  {
    var file := base + ".csv";
    assert file[..|file| - 4] == base;
    assert EndsWith(file, ".csv");
    assert CsvBase(file) == base;
    assert (base + Suffix)[0] == base[0] && base[0] in base;
    assert (rel + "/" + base + Suffix) == rel + "/" + (base + Suffix);
  }
}
