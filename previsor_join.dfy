/** The first half of `juntar_datasets` (PREVISOR/app.py and PREVISOR/app_xgboost.py, which
    share it line for line): every filtered ANEEL table is paired with the filtered INMET
    tables of the same year, its outages are narrowed to the city of the INMET table, and the
    two are right-joined on (data, hora (utc)); the joined frames are collected per city. */
module PrevisorJoin {
  import opened Base
  import opened Text
  import opened Numbers
  import AneelFilter
  import InmetFilter

  // ---------------------------------------------------------------- keys from file names

  /** `''.join(filter(str.isdigit, aneel_file))`: the year an ANEEL file is paired by. */
  function YearKey(aneelFile: string): (r: string)
    ensures AllDigits(r) && |r| <= |aneelFile|
  {
    DigitsOnly(aneelFile)
  }

  /** The ANEEL filter's output for the published table of a year is paired by that year. */
  lemma YearKeyOfFilterOutput(year: string)
    requires AllDigits(year)
    ensures YearKey(AneelFilter.OutputName(AneelFilter.InputPrefix + year + AneelFilter.Csv)) == year
  {
    assert '-' !in year && '.' !in year by {
      assert forall i :: 0 <= i < |year| ==> IsDigit(year[i]);
    }
    AneelFilter.StandardName(year);
    YearKeyOfOutputName(year);
  }

  lemma YearKeyOfOutputName(year: string)
    requires AllDigits(year)
    ensures YearKey(AneelFilter.OutputPrefix + year + AneelFilter.Csv) == year
  {
    var prefix := AneelFilter.OutputPrefix;
    OutputAffixesHaveNoDigits();
    DigitsOnlyAppend(prefix, year);
    DigitsOnlyAppend(prefix + year, AneelFilter.Csv);
    DigitsOnlyOfDigits(year);
  }

  lemma OutputPrefixDigitFree()
    ensures forall i :: 0 <= i < |AneelFilter.OutputPrefix| ==> !IsDigit(AneelFilter.OutputPrefix[i])
  {
  }

  lemma CsvDigitFree()
    ensures forall i :: 0 <= i < |AneelFilter.Csv| ==> !IsDigit(AneelFilter.Csv[i])
  {
  }

  lemma OutputAffixesHaveNoDigits()
    ensures DigitsOnly(AneelFilter.OutputPrefix) == [] && DigitsOnly(AneelFilter.Csv) == []
  {
    OutputPrefixDigitFree();
    DigitsOnlyNoDigits(AneelFilter.OutputPrefix);
    CsvDigitFree();
    DigitsOnlyNoDigits(AneelFilter.Csv);
  }

  /** `inmet_file.replace('_filtrado.csv', '').lower()`: the city an INMET file belongs to. */
  function CityKey(inmetFile: string): string {
    LowerStr(Replace(inmetFile, InmetFilter.Suffix, ""))
  }

  /** The INMET filter's output `<base>_filtrado.csv` belongs to the lower-cased base name,
      when the base does not itself run into "_filtrado.csv" earlier. */
  lemma CityKeyOfFilterOutput(base: string)
    requires forall i :: 0 <= i < |base| ==> !OccursAt(base + InmetFilter.Suffix, InmetFilter.Suffix, i)
    ensures CityKey(base + InmetFilter.Suffix) == LowerStr(base)
  {
    ReplaceSuffix(base, InmetFilter.Suffix, "");
    assert base + "" == base;
  }

  // ---------------------------------------------------------------- the listings

  predicate IsCsv(f: string) { EndsWith(f, ".csv") }

  /** `[f for f in os.listdir(aneel_dir) if f.endswith('.csv')]`. */
  function AneelFiles(listing: seq<string>): (r: seq<string>)
    ensures forall f :: f in r <==> f in listing && IsCsv(f)
    ensures Subsequence(r, listing)
  {
    FilterSubsequence(listing, IsCsv);
    Filter(listing, IsCsv)
  }

  /** A file found in a directory of the walk: its year is the directory's own name. */
  function Found(d: InmetFilter.Dir, f: string): InmetFile {
    InmetFile(Basename(d.root), InmetFilter.PathJoin(d.root, f), f)
  }

  /** The ".csv" files among `files` of the directory `d`, in listing order. */
  function DirFiles(d: InmetFilter.Dir, files: seq<string>): (r: seq<InmetFile>)
    ensures forall x :: x in r <==> exists f :: f in files && IsCsv(f) && x == Found(d, f)
  {
    FilterMap(files, IsCsv, f => Found(d, f))
  }

  /** The INMET files the walk finds, directory by directory. */
  function InmetFiles(walk: seq<InmetFilter.Dir>): (r: seq<InmetFile>) {
    if walk == [] then [] else InmetFiles(walk[..|walk| - 1]) + DirFiles(walk[|walk| - 1], walk[|walk| - 1].files)
  }

  /** Every INMET file found is a ".csv" file listed in some directory of the walk, named by
      that directory and reached by joining the two. */
  lemma {:induction false} InmetFilesFrom(walk: seq<InmetFilter.Dir>)
    ensures forall x :: x in InmetFiles(walk) ==>
      IsCsv(x.name) && exists d :: d in walk && x.name in d.files && x == Found(d, x.name)
  {
    if walk != [] {
      var init, d := walk[..|walk| - 1], walk[|walk| - 1];
      InmetFilesFrom(init);
      assert forall e :: e in init ==> e in walk;
    }
  }

  /** The walk loop of `juntar_datasets`: the ".csv" files of each directory in turn. */
  method ListInmetFiles(walk: seq<InmetFilter.Dir>) returns (files: seq<InmetFile>)
    ensures files == InmetFiles(walk)
  {
    files := [];
    var i := 0;
    while i < |walk|
      invariant 0 <= i <= |walk|
      invariant files == InmetFiles(walk[..i])
    {
      assert walk[..i + 1][..i] == walk[..i];
      var here := ScanDir(walk[i]);
      files := files + here;
      i := i + 1;
    }
    assert walk[..|walk|] == walk;
  }

  /** The inner loop over one directory's listing: its ".csv" files, in listing order. */
  method ScanDir(d: InmetFilter.Dir) returns (here: seq<InmetFile>)
    ensures here == DirFiles(d, d.files)
  {
    here := [];
    var j := 0;
    while j < |d.files|
      invariant 0 <= j <= |d.files|
      invariant here == DirFiles(d, d.files[..j])
    {
      assert d.files[..j + 1][..j] == d.files[..j];
      if IsCsv(d.files[j]) {
        here := here + [Found(d, d.files[j])];
      }
      j := j + 1;
    }
    assert d.files[..|d.files|] == d.files;
  }

  // ---------------------------------------------------------------- the ANEEL side

  /** An outage row, with the two columns the join reads (`datiniciointerrupcao` and
      `municipio`, after the column names are stripped and lower-cased). */
  datatype Outage = Outage(start: Option<string>, municipio: Option<string>)

  datatype AneelTable = AneelTable(hasStart: bool, hasMunicipio: bool, rows: seq<Outage>)

  /** `s[:n]`. */
  function Take(s: string, n: nat): (r: string)
    ensures |r| <= n && |r| <= |s| && r == s[..|r|]
  {
    if |s| <= n then s else s[..n]
  }

  /** `s[n:]`. */
  function Drop(s: string, n: nat): (r: string)
    ensures |s| <= n ==> r == []
    ensures |s| > n ==> r == s[n..]
  {
    if |s| <= n then [] else s[n..]
  }

  datatype Key = Key(data: string, hora: string)

  /** `data` and `hora (utc)` of an outage: the start as text (a missing start reads "nan"),
      its first ten characters, and the digits from the twelfth on, zero-filled to four. */
  function OutageKey(start: Option<string>): (k: Key)
    ensures |k.data| <= 10 && |k.hora| >= 4 && AllDigits(k.hora)
  {
    var s := start.GetOr("nan");
    var d := DigitsOnly(Drop(s, 11));
    var h := ZFill(d, 4);
    assert |d| < 4 ==> h == Repeat('0', 4 - |d|) + d;
    Key(Take(s, 10), h)
  }

  /** A start "<date> <time>" with a ten-character date splits into the date and the digits
      of the time ("2020-01-05 14:30:00" gives "2020-01-05" and "143000"). */
  lemma OutageKeyOfStart(date: string, sep: char, time: string)
    requires |date| == 10
    ensures OutageKey(Some(date + [sep] + time)) == Key(date, ZFill(DigitsOnly(time), 4))
  {
    var s := date + [sep] + time;
    assert s[..10] == date;
    assert s[11..] == time;
  }

  /** A missing start gives the key ("nan", "0000"). */
  lemma OutageKeyOfMissing()
    ensures OutageKey(None) == Key("nan", "0000")
  {
    assert Drop("nan", 11) == [];
  }

  /** `municipio.str.lower().str.contains(cidade, na=False)` when the column exists: the
      outages whose lower-cased municipality contains the city key; all outages otherwise.
      `str.contains` reads the key as a regular expression; here it is a literal substring,
      which agrees for keys without regex metacharacters. */
  function CityOutages(t: AneelTable, city: string): (r: seq<Outage>)
    ensures t.hasMunicipio ==> forall o :: o in r <==>
      o in t.rows && o.municipio.Some? && Contains(LowerStr(o.municipio.value), city)
    ensures !t.hasMunicipio ==> r == t.rows
  {
    if t.hasMunicipio then
      Filter(t.rows, (o: Outage) => o.municipio.Some? && Contains(LowerStr(o.municipio.value), city))
    else t.rows
  }

  // ---------------------------------------------------------------- the INMET side

  /** An hourly INMET reading: the two key columns and the four weather columns the risks
      read, as text (`dtype=str`), `None` where the cell is empty. */
  datatype Reading = Reading(data: Option<string>, hora: Option<string>, rain: Option<string>,
                             speed: Option<string>, direction: Option<string>, gust: Option<string>)

  datatype Field = Rain | Speed | Direction | Gust

  /** A table with whether it has both key columns and which weather columns it has. */
  datatype InmetTable = InmetTable(hasKeys: bool, fields: set<Field>, rows: seq<Reading>)

  // ---------------------------------------------------------------- the right join

  /** Equal (data, hora (utc)) values; an empty key cell of a reading equals nothing. */
  predicate KeyMatches(k: Key, x: Reading) {
    x.data == Some(k.data) && x.hora == Some(k.hora)
  }

  /** The outages with the reading's key, in their order. */
  function Matches(os: seq<Outage>, x: Reading): (r: seq<Outage>)
    ensures forall o :: o in r <==> o in os && KeyMatches(OutageKey(o.start), x)
  {
    Filter(os, (o: Outage) => KeyMatches(OutageKey(o.start), x))
  }

  /** A row of the joined frame: the outage it was matched with, if any, and the reading. */
  datatype Joined = Joined(outage: Option<Outage>, reading: Reading)

  function JoinOne(os: seq<Outage>, x: Reading): (r: seq<Joined>)
    ensures |r| >= 1
  {
    var ms := Matches(os, x);
    if ms == [] then [Joined(None, x)]
    else seq(|ms|, k requires 0 <= k < |ms| => Joined(Some(ms[k]), x))
  }

  /** `pd.merge(outages, readings, on=['data', 'hora (utc)'], how='right')`: the readings in
      order, each once per matching outage, or once with no outage when none matches. */
  function RightJoin(os: seq<Outage>, xs: seq<Reading>): (r: seq<Joined>)
    ensures |r| >= |xs|
  {
    if xs == [] then [] else RightJoin(os, xs[..|xs| - 1]) + JoinOne(os, xs[|xs| - 1])
  }

  /** The join keeps every reading and nothing else: each row is a reading with either a
      matching outage or, when no outage matches it, none; each reading appears with each of
      its matching outages, and alone when it has none. */
  lemma {:induction false} RightJoinRows(os: seq<Outage>, xs: seq<Reading>)
    ensures JoinedRows(os, xs, RightJoin(os, xs))
  {
    if xs != [] {
      var init, x := xs[..|xs| - 1], xs[|xs| - 1];
      RightJoinRows(os, init);
      JoinOneRows(os, x);
      JoinedRowsSnoc(os, init, x, RightJoin(os, init), JoinOne(os, x));
      assert init + [x] == xs;
    }
  }

  /** `r` holds the rows of the right join of `os` and `xs`, in the sense of `RightJoinRows`. */
  predicate JoinedRows(os: seq<Outage>, xs: seq<Reading>, r: seq<Joined>) {
    && (forall j :: j in r ==> j.reading in xs)
    && (forall j :: j in r && j.outage.Some? ==>
          j.outage.value in os && KeyMatches(OutageKey(j.outage.value.start), j.reading))
    && (forall j :: j in r && j.outage.None? ==> Matches(os, j.reading) == [])
    && (forall x, o :: x in xs && o in Matches(os, x) ==> Joined(Some(o), x) in r)
    && (forall x :: x in xs && Matches(os, x) == [] ==> Joined(None, x) in r)
  }

  /** The rows of one reading are the rows of its join. */
  lemma JoinOneRows(os: seq<Outage>, x: Reading)
    ensures JoinedRows(os, [x], JoinOne(os, x))
  {
    var ms := Matches(os, x);
    var one := JoinOne(os, x);
    assert forall j :: j in one ==> j.reading == x && (j.outage.None? <==> ms == []) &&
                                    (j.outage.Some? ==> j.outage.value in ms);
    forall o | o in ms ensures Joined(Some(o), x) in one {
      var k :| 0 <= k < |ms| && ms[k] == o;
      assert one[k] == Joined(Some(o), x);
    }
  }

  /** Joining one more reading appends its rows. */
  lemma JoinedRowsSnoc(os: seq<Outage>, xs: seq<Reading>, x: Reading, r: seq<Joined>, one: seq<Joined>)
    requires JoinedRows(os, xs, r) && JoinedRows(os, [x], one)
    ensures JoinedRows(os, xs + [x], r + one)
  {
    forall y, o | y in xs + [x] && o in Matches(os, y) ensures Joined(Some(o), y) in r + one {
      if y != x {
        assert y in xs;
      } else {
        assert y in [x];
      }
    }
    forall y | y in xs + [x] && Matches(os, y) == [] ensures Joined(None, y) in r + one {
      if y != x {
        assert y in xs;
      } else {
        assert y in [x];
      }
    }
  }

  /** The number of rows: one per reading, plus one more for each further matching outage. */
  function JoinSize(os: seq<Outage>, xs: seq<Reading>): nat {
    if xs == [] then 0
    else
      var m := |Matches(os, xs[|xs| - 1])|;
      JoinSize(os, xs[..|xs| - 1]) + if m == 0 then 1 else m
  }

  lemma {:induction false} RightJoinSize(os: seq<Outage>, xs: seq<Reading>)
    ensures |RightJoin(os, xs)| == JoinSize(os, xs)
  {
    if xs != [] {
      RightJoinSize(os, xs[..|xs| - 1]);
    }
  }

  /** When no outage shares a key with any reading, the joined frame is the readings alone. */
  lemma {:induction false} RightJoinNoMatch(os: seq<Outage>, xs: seq<Reading>)
    requires Unmatched(os, xs)
    ensures |RightJoin(os, xs)| == |xs|
    ensures forall k :: 0 <= k < |xs| ==> RightJoin(os, xs)[k] == Joined(None, xs[k])
  {
    if xs != [] {
      var init, x := xs[..|xs| - 1], xs[|xs| - 1];
      UnmatchedSnoc(os, xs);
      RightJoinNoMatch(os, init);
      AloneSnoc(RightJoin(os, init), init, x);
      assert init + [x] == xs;
    }
  }

  /** No outage matches any of the readings. */
  predicate Unmatched(os: seq<Outage>, xs: seq<Reading>) {
    forall x :: x in xs ==> Matches(os, x) == []
  }

  /** Unmatched readings stay unmatched without the last one, and the last one comes alone. */
  lemma UnmatchedSnoc(os: seq<Outage>, xs: seq<Reading>)
    requires xs != [] && Unmatched(os, xs)
    ensures Unmatched(os, xs[..|xs| - 1])
    ensures JoinOne(os, xs[|xs| - 1]) == [Joined(None, xs[|xs| - 1])]
  {
    assert forall y :: y in xs[..|xs| - 1] ==> y in xs;
    assert xs[|xs| - 1] in xs;
  }

  /** Rows without outages, one per reading, stay so when one more reading comes alone. */
  lemma AloneSnoc(r: seq<Joined>, xs: seq<Reading>, x: Reading)
    requires |r| == |xs| && forall k :: 0 <= k < |xs| ==> r[k] == Joined(None, xs[k])
    ensures |r + [Joined(None, x)]| == |xs + [x]|
    ensures forall k :: 0 <= k < |xs| + 1 ==> (r + [Joined(None, x)])[k] == Joined(None, (xs + [x])[k])
  {
  }

  /** An INMET hour with a character other than a digit ("0000 UTC") matches no outage: the
      outage hours are digits only. */
  lemma NonDigitHourUnmatched(os: seq<Outage>, x: Reading, i: nat)
    requires x.hora.Some? && i < |x.hora.value| && !IsDigit(x.hora.value[i])
    ensures Matches(os, x) == []
  {
    forall o | o in os ensures !KeyMatches(OutageKey(o.start), x) {
      var k := OutageKey(o.start);
      if |k.hora| > i {
        assert IsDigit(k.hora[i]);
      }
    }
    FilterNone(os, (o: Outage) => KeyMatches(OutageKey(o.start), x));
  }

  // ---------------------------------------------------------------- pairing and collecting

  /** The joined frame of one pair, with the weather columns it has. */
  datatype Frame = Frame(fields: set<Field>, rows: seq<Joined>)

  /** One pair: nothing unless the outages have a start column and the readings both keys. */
  function Merge(a: AneelTable, t: InmetTable, city: string): (r: Option<Frame>)
    ensures r.Some? <==> a.hasStart && t.hasKeys
    ensures r.Some? ==> r.value.fields == t.fields && |r.value.rows| >= |t.rows|
  {
    if a.hasStart && t.hasKeys then Some(Frame(t.fields, RightJoin(CityOutages(a, city), t.rows)))
    else None
  }

  /** An INMET file found by the walk: the name of its directory (the year), its path and
      its name. */
  datatype InmetFile = InmetFile(year: string, path: string, name: string)

  type Tables = (string -> AneelTable, string -> InmetTable)

  /** The frames one ANEEL file contributes, city by city, in the order of the INMET files. */
  function PairFrames(a: string, inmets: seq<InmetFile>, read: Tables): (r: seq<(string, Frame)>)
    ensures |r| <= |inmets|
  {
    if inmets == [] then []
    else PairFrames(a, inmets[..|inmets| - 1], read) + PairFrame(a, inmets[|inmets| - 1], read)
  }

  /** The frame of one ANEEL file and one INMET file, if they pair and can be merged. */
  function PairFrame(a: string, f: InmetFile, read: Tables): (r: seq<(string, Frame)>)
    ensures |r| <= 1
  {
    if f.year != YearKey(a) then []
    else match Merge(read.0(a), read.1(f.path), CityKey(f.name))
      case None => []
      case Some(m) => [(CityKey(f.name), m)]
  }

  /** All frames in the order the nested loops produce them. */
  function AllFrames(aneels: seq<string>, inmets: seq<InmetFile>, read: Tables): seq<(string, Frame)> {
    if aneels == [] then []
    else AllFrames(aneels[..|aneels| - 1], inmets, read) + PairFrames(aneels[|aneels| - 1], inmets, read)
  }

  /** A frame comes from an ANEEL file and an INMET file of the same year, and belongs to the
      INMET file's city. */
  lemma {:induction false} PairFramesFrom(a: string, inmets: seq<InmetFile>, read: Tables)
    ensures forall p :: p in PairFrames(a, inmets, read) ==>
      exists f :: f in inmets && f.year == YearKey(a) && p.0 == CityKey(f.name) &&
                  Merge(read.0(a), read.1(f.path), p.0) == Some(p.1)
  {
    if inmets != [] {
      var init, f := inmets[..|inmets| - 1], inmets[|inmets| - 1];
      PairFramesFrom(a, init, read);
      assert forall g :: g in init ==> g in inmets;
      assert f in inmets;
    }
  }

  /** The dictionary's keys in insertion order. */
  function Order(ms: seq<(string, Frame)>): (r: seq<string>)
    ensures forall c :: c in r <==> exists k :: 0 <= k < |ms| && ms[k].0 == c
    ensures forall i, j :: 0 <= i < j < |r| ==> r[i] != r[j]
  {
    if ms == [] then []
    else
      var init := Order(ms[..|ms| - 1]);
      var c := ms[|ms| - 1].0;
      assert forall k :: 0 <= k < |ms| - 1 ==> ms[..|ms| - 1][k] == ms[k];
      if c in init then init else init + [c]
  }

  /** The frames of one city, in order. */
  function FramesOf(ms: seq<(string, Frame)>, c: string): (r: seq<Frame>)
    ensures |r| <= |ms|
  {
    if ms == [] then []
    else FramesOf(ms[..|ms| - 1], c) + if ms[|ms| - 1].0 == c then [ms[|ms| - 1].1] else []
  }

  /** `cidades_consolidadas`: each city with the list its frames were appended to. */
  function Groups(ms: seq<(string, Frame)>): (g: map<string, seq<Frame>>)
    ensures forall c :: c in g <==> c in Order(ms)
  {
    if ms == [] then map[]
    else
      var g := Groups(ms[..|ms| - 1]);
      var c := ms[|ms| - 1].0;
      g[c := (if c in g then g[c] else []) + [ms[|ms| - 1].1]]
  }

  /** Each city's list holds exactly that city's frames, in the order they were produced. */
  lemma {:induction false} GroupsHoldFrames(ms: seq<(string, Frame)>)
    ensures forall c :: c in Groups(ms) ==> Groups(ms)[c] == FramesOf(ms, c)
    ensures forall c :: c !in Groups(ms) ==> FramesOf(ms, c) == []
  {
    if ms != [] {
      GroupsHoldFrames(ms[..|ms| - 1]);
    }
  }

  /** One step of the inner loop: when the INMET file is of the ANEEL file's year and the two
      merge, the frame is appended to its city's list, the city being added the first time. */
  method AddPair(a: string, f: InmetFile, read: Tables, ghost ms: seq<(string, Frame)>,
                 order0: seq<string>, groups0: map<string, seq<Frame>>)
    returns (order: seq<string>, groups: map<string, seq<Frame>>)
    requires Collected(ms, order0, groups0)
    ensures Collected(ms + PairFrame(a, f, read), order, groups)
  {
    order, groups := order0, groups0;
    if f.year == YearKey(a) {
      var city := CityKey(f.name);
      var m := Merge(read.0(a), read.1(f.path), city);
      if m.Some? {
        PairedFrame(ms, a, f, read, m.value, order, groups);
        if city !in groups {
          order := order + [city];
          groups := groups[city := []];
        }
        ListStarted(groups0, groups, city, m.value);
        groups := groups[city := groups[city] + [m.value]];
        return;
      }
    }
    UnpairedFrame(ms, a, f, read);
  }

  /** Appending to a list started empty when missing is appending to the list or to `[]`. */
  lemma ListStarted<K, V>(g0: map<K, seq<V>>, g: map<K, seq<V>>, k: K, v: V)
    requires g == if k in g0 then g0 else g0[k := []]
    ensures k in g
    ensures g[k := g[k] + [v]] == g0[k := (if k in g0 then g0[k] else []) + [v]]
  {
  }

  /** A merged pair appends its frame to its city's list. */
  lemma PairedFrame(ms: seq<(string, Frame)>, a: string, f: InmetFile, read: Tables, m: Frame,
                    order: seq<string>, groups: map<string, seq<Frame>>)
    requires f.year == YearKey(a) && Merge(read.0(a), read.1(f.path), CityKey(f.name)) == Some(m)
    requires Collected(ms, order, groups)
    ensures var c := CityKey(f.name);
      Collected(ms + PairFrame(a, f, read), if c in groups then order else order + [c],
                groups[c := (if c in groups then groups[c] else []) + [m]])
  {
    assert PairFrame(a, f, read) == [(CityKey(f.name), m)];
    AppendFrame(ms, CityKey(f.name), m, order, groups);
  }

  /** A pair of other years, or one that does not merge, adds nothing. */
  lemma UnpairedFrame(ms: seq<(string, Frame)>, a: string, f: InmetFile, read: Tables)
    requires f.year != YearKey(a) || Merge(read.0(a), read.1(f.path), CityKey(f.name)).None?
    ensures ms + PairFrame(a, f, read) == ms
  {
    assert PairFrame(a, f, read) == [];
    assert ms + [] == ms;
  }

  /** The city list and the per-city lists are those of the frames `ms`. */
  predicate Collected(ms: seq<(string, Frame)>, order: seq<string>, groups: map<string, seq<Frame>>) {
    order == Order(ms) && groups == Groups(ms)
  }

  /** The inner loop of `juntar_datasets` for one ANEEL file: each INMET file of its year
      adds its frame to its city's list, the city being added the first time. */
  method AddPairs(a: string, inmets: seq<InmetFile>, read: Tables, ghost done: seq<(string, Frame)>,
                  order0: seq<string>, groups0: map<string, seq<Frame>>)
    returns (order: seq<string>, groups: map<string, seq<Frame>>)
    requires Collected(done, order0, groups0)
    ensures Collected(done + PairFrames(a, inmets, read), order, groups)
  {
    order, groups := order0, groups0;
    ghost var ms := done;
    var j := 0;
    while j < |inmets|
      invariant 0 <= j <= |inmets|
      invariant ms == done + PairFrames(a, inmets[..j], read)
      invariant Collected(ms, order, groups)
    {
      order, groups := AddPair(a, inmets[j], read, ms, order, groups);
      PairFramesStep(done, a, inmets, j, read);
      ms := ms + PairFrame(a, inmets[j], read);
      j := j + 1;
    }
    assert inmets[..|inmets|] == inmets;
  }

  lemma PairFramesStep(done: seq<(string, Frame)>, a: string, inmets: seq<InmetFile>, j: nat, read: Tables)
    requires j < |inmets|
    ensures done + PairFrames(a, inmets[..j + 1], read) ==
            done + PairFrames(a, inmets[..j], read) + PairFrame(a, inmets[j], read)
  {
    assert inmets[..j + 1][..j] == inmets[..j];
  }

  /** The nested loops of `juntar_datasets`: every ".csv" ANEEL file against every INMET
      file, collecting the frames per city. */
  method Collect(aneels: seq<string>, inmets: seq<InmetFile>, read: Tables)
    returns (order: seq<string>, groups: map<string, seq<Frame>>)
    ensures order == Order(AllFrames(aneels, inmets, read))
    ensures groups == Groups(AllFrames(aneels, inmets, read))
  {
    order, groups := [], map[];
    var i := 0;
    while i < |aneels|
      invariant 0 <= i <= |aneels|
      invariant Collected(AllFrames(aneels[..i], inmets, read), order, groups)
    {
      assert aneels[..i + 1][..i] == aneels[..i];
      order, groups := AddPairs(aneels[i], inmets, read, AllFrames(aneels[..i], inmets, read), order, groups);
      i := i + 1;
    }
    assert aneels[..|aneels|] == aneels;
  }

  /** One more frame: its city is added at the end when new, and the frame is appended to
      the city's list. */
  lemma AppendFrame(ms: seq<(string, Frame)>, c: string, f: Frame,
                    order: seq<string>, groups: map<string, seq<Frame>>)
    requires Collected(ms, order, groups)
    ensures Collected(ms + [(c, f)], if c in groups then order else order + [c],
                      groups[c := (if c in groups then groups[c] else []) + [f]])
  {
    assert (ms + [(c, f)])[..|ms|] == ms;
  }
}
