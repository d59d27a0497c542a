/** The weather half of `preprocess_and_merge_data` (ANALISE/app_random_forest.py): the five
    INMET feature columns are cleaned column by column, rows missing a present feature are
    dropped, every reading is stamped from `Data` and the zero-padded `Hora`, duplicate stamps
    keep their first reading, and the readings of each clock hour are averaged. */
module RandomForestWeather {
  import opened Base
  import opened Text
  import opened Numbers
  import opened Calendar

  /** `FEATURES`, which is also `COLS_METEO_PARA_CONVERTER`: the columns are addressed by their
      position in this list. */
  const Features: seq<string> :=
    ["Temp. Ins. (C)", "Vel. Vento (m/s)", "Raj. Vento (m/s)", "Pressao Ins. (hPa)", "Chuva (mm)"]
  const FeatureCount := 5

  /** A cell of a feature column as `read_csv` left it: text, a number it already converted with
      `decimal=','`, or NaN. */
  datatype Cell = Raw(text: string) | Num(v: real) | Missing

  /** One INMET row: the `Data` text (NaN is `None`), the text form of `Hora (UTC)` (what
      `astype(str)` gives, "nan" for a missing hour) and the five feature cells. */
  datatype Reading = Reading(data: Option<string>, hora: string, cells: seq<Cell>)

  /** The concatenated INMET table of one city. `present[c]` says whether feature column `c`
      exists. `stampable` says whether `Data + ' ' + Hora` can be built at all: it is false
      when `Data` or `Hora (UTC)` is absent or `Data` is not a text column, which raises. */
  datatype WeatherTable = WeatherTable(present: seq<bool>, stampable: bool, rows: seq<Reading>)

  predicate Shaped(rows: seq<Reading>) {
    forall r :: r in rows ==> |r.cells| == FeatureCount
  }

  predicate WellFormed(t: WeatherTable) {
    |t.present| == FeatureCount && Shaped(t.rows)
  }

  // ---------------------------------------------------------------- cleaning one value

  /** `.str.replace('"', '').str.replace(',', '.')`. */
  function CleanText(s: string): (r: string)
    ensures '"' !in r && ',' !in r
  {
    var u := RemoveChar(s, '"');
    var r := ReplaceChar(u, ',', '.');
    assert forall i :: 0 <= i < |r| ==> r[i] != '"' by {
      forall i | 0 <= i < |r| ensures r[i] != '"' {
        assert u[i] in u;
      }
    }
    r
  }

  /** Cleaning distributes over concatenation ... */
  lemma CleanTextAppend(a: string, b: string)
    ensures CleanText(a + b) == CleanText(a) + CleanText(b)
  {
    RemoveCharAppend(a, b, '"');
  }

  /** ... and acts on single characters by dropping a quote, turning a comma into a point and
      keeping everything else, so these two facts determine it. */
  lemma CleanTextChar(c: char)
    ensures CleanText([c]) == if c == '"' then "" else if c == ',' then "." else [c]
  {
    assert [c][1..] == [];
  }

  /** `astype(str)`, the two replacements, `replace('', NaN)` and
      `pd.to_numeric(errors='coerce')` on one cell. A number already converted is rendered by
      `repr` and read back unchanged; NaN becomes "nan", which reads back as NaN. */
  function CleanCell(c: Cell): (r: Cell)
    ensures !r.Raw?
  {
    match c
    case Raw(s) =>
      var t := CleanText(s);
      if t == "" then Missing
      else
        (match ParseDecimal(t)
         case Some(v) => Num(v)
         case None => Missing)
    case Num(v) => Num(v)
    case Missing => Missing
  }

  /** A decimal comma is read as a decimal point: "21,5" is 21.5. */
  lemma DecimalComma(a: string, b: string)
    requires AllDigits(a) && AllDigits(b) && |a| > 0
    ensures CleanCell(Raw(a + "," + b)) == Num(DecimalOf(a, b))
  {
    var s := a + "," + b;
    CleanTextAppend(a + ",", b);
    CleanTextAppend(a, ",");
    CleanTextChar(',');
    CleanTextOfDigits(a);
    CleanTextOfDigits(b);
    assert CleanText(s) == a + "." + b;
    DecimalValue(a, b);
  }

  lemma CleanTextOfDigits(s: string)
    requires AllDigits(s)
    ensures CleanText(s) == s
  {
    RemoveAbsentChar(s, '"');
  }

  /** Quotes around a value are ignored. */
  lemma QuotesIgnored(s: string)
    ensures CleanCell(Raw("\"" + s + "\"")) == CleanCell(Raw(s))
  {
    CleanTextAppend("\"" + s, "\"");
    CleanTextAppend("\"", s);
    CleanTextChar('"');
    assert CleanText("\"" + s + "\"") == CleanText(s);
  }

  /** A value that is empty once its quotes are gone is missing. */
  lemma OnlyQuotesMissing(s: string)
    requires forall i :: 0 <= i < |s| ==> s[i] == '"'
    ensures CleanCell(Raw(s)) == Missing
  {
    QuotesRemoved(s);
  }

  lemma {:induction false} QuotesRemoved(s: string)
    requires forall i :: 0 <= i < |s| ==> s[i] == '"'
    ensures RemoveChar(s, '"') == []
  {
    if s != [] {
      QuotesRemoved(s[1..]);
    }
  }

  /** A value with a letter in it cannot be read and becomes missing instead of raising. */
  lemma LetterMissing(s: string, i: nat)
    requires i < |s| && IsAsciiLetter(s[i])
    ensures CleanCell(Raw(s)) == Missing
  {
    var u := RemoveChar(s, '"');
    assert s[i] in s;
    assert s[i] in u;
    var k :| 0 <= k < |u| && u[k] == s[i];
    var t := CleanText(s);
    assert t[k] == s[i];
    NonNumeralNotParsed(t, k);
  }

  // ---------------------------------------------------------------- cleaning the table

  /** A row after the first `k` feature columns have been cleaned. */
  function CleanedUpTo(present: seq<bool>, r: Reading, k: nat): Reading
    requires |present| == FeatureCount && |r.cells| == FeatureCount && k <= FeatureCount
  {
    r.(cells := seq(FeatureCount, c requires 0 <= c < FeatureCount =>
      if c < k && present[c] then CleanCell(r.cells[c]) else r.cells[c]))
  }

  /** A row after the cleaning loop. */
  function CleanReading(present: seq<bool>, r: Reading): Reading
    requires |present| == FeatureCount && |r.cells| == FeatureCount
  {
    CleanedUpTo(present, r, FeatureCount)
  }

  /** A row that `dropna(subset=cols_presentes)` keeps: every present feature is a number. */
  predicate Complete(present: seq<bool>, r: Reading)
    requires |present| == FeatureCount && |r.cells| == FeatureCount
  {
    forall c :: 0 <= c < FeatureCount && present[c] ==> r.cells[c].Num?
  }

  /** The cleaned rows that keep all their present features, in their original order. */
  function Cleaned(present: seq<bool>, rows: seq<Reading>): (r: seq<Reading>)
    requires |present| == FeatureCount && Shaped(rows)
    ensures Shaped(r) && |r| <= |rows|
    ensures forall x :: x in r ==> Complete(present, x)
  {
    if rows == [] then []
    else
      var last := CleanReading(present, rows[|rows| - 1]);
      Cleaned(present, rows[..|rows| - 1]) + if Complete(present, last) then [last] else []
  }

  /** The rows kept are exactly the cleaned rows without a missing present feature. */
  lemma {:induction false} CleanedMembers(present: seq<bool>, rows: seq<Reading>, x: Reading)
    requires |present| == FeatureCount && Shaped(rows)
    ensures x in Cleaned(present, rows) <==>
      exists i :: 0 <= i < |rows| && x == CleanReading(present, rows[i]) && Complete(present, x)
  {
    if rows != [] {
      var init := rows[..|rows| - 1];
      CleanedMembers(present, init, x);
      if x in Cleaned(present, rows) && x !in Cleaned(present, init) {
        assert x == CleanReading(present, rows[|rows| - 1]);
      }
      if exists i :: 0 <= i < |rows| && x == CleanReading(present, rows[i]) && Complete(present, x) {
        var i :| 0 <= i < |rows| && x == CleanReading(present, rows[i]) && Complete(present, x);
        if i < |rows| - 1 {
          assert init[i] == rows[i];
        }
      }
    }
  }

  /** Cleaning a concatenation cleans the parts: kept rows keep their relative order. */
  lemma {:induction false} CleanedAppend(present: seq<bool>, a: seq<Reading>, b: seq<Reading>)
    requires |present| == FeatureCount && Shaped(a) && Shaped(b)
    ensures Shaped(a + b)
    ensures Cleaned(present, a + b) == Cleaned(present, a) + Cleaned(present, b)
    decreases |b|
  {
    if b == [] {
      assert a + b == a;
    } else {
      assert (a + b)[..|a + b| - 1] == a + b[..|b| - 1];
      CleanedAppend(present, a, b[..|b| - 1]);
    }
  }

  lemma CleanStep(present: seq<bool>, r: Reading, c: nat)
    requires |present| == FeatureCount && |r.cells| == FeatureCount && c < FeatureCount
    ensures var u := CleanedUpTo(present, r, c);
      CleanedUpTo(present, r, c + 1) ==
        if present[c] then u.(cells := u.cells[c := CleanCell(u.cells[c])]) else u
  {
  }

  /** The cleaning loop (lines 130-139) reassigns each present feature column in turn; then
      `dropna(inplace=True)` (line 142) removes the rows missing a present feature. */
  method CleanFeatures(present: seq<bool>, rows: seq<Reading>) returns (kept: seq<Reading>)
    requires |present| == FeatureCount && Shaped(rows)
    ensures kept == Cleaned(present, rows)
  {
    var table := rows;
    for c := 0 to FeatureCount
      invariant |table| == |rows|
      invariant forall i :: 0 <= i < |rows| ==> table[i] == CleanedUpTo(present, rows[i], c)
    {
      if present[c] {
        table := seq(|table|, i requires 0 <= i < |table| =>
          table[i].(cells := table[i].cells[c := CleanCell(table[i].cells[c])]));
      }
      forall i | 0 <= i < |rows| ensures table[i] == CleanedUpTo(present, rows[i], c + 1) {
        CleanStep(present, rows[i], c);
      }
    }
    kept := [];
    var i := 0;
    while i < |table|
      invariant i <= |table|
      invariant kept == Cleaned(present, rows[..i])
    {
      assert rows[..i + 1][..i] == rows[..i];
      if Complete(present, table[i]) {
        kept := kept + [table[i]];
      }
      i := i + 1;
    }
    assert rows[..i] == rows;
  }

  // ---------------------------------------------------------------- stamping

  /** `pd.to_datetime(Data + ' ' + Hora.astype(str).str.zfill(4), format='%d/%m/%Y %H%M',
      errors='coerce')` on one row; `None` is NaT. */
  function Stamp(r: Reading): (t: Option<Timestamp>)
    ensures t.Some? ==> Valid(t.value) && InRange(t.value) && t.value.second == 0
  {
    match r.data
    case None => None
    case Some(d) => ParseDmyHm(d + " " + ZFill(r.hora, 4))
  }

  /** An hour read as the integer HHMM (`Hora (UTC)` 0, 100, ..., 2300) is padded back to four
      digits. */
  lemma PaddedHour(h: nat, m: nat)
    requires h < 24 && m < 60
    ensures ZFill(NatToString(100 * h + m), 4) == TwoDigits(h) + TwoDigits(m)
  {
    var n := 100 * h + m;
    var s := NatToString(n);
    assert Pow10(4) == 10000;
    NatToStringLength(n, 4);
    var z := ZFill(s, 4);
    assert z == Repeat('0', 4 - |s|) + s;
    DigitsValueLeadingZeros(4 - |s|, s);
    var w := TwoDigits(h) + TwoDigits(m);
    TwoDigitsValue(h);
    TwoDigitsValue(m);
    DigitsValueAppend(TwoDigits(h), TwoDigits(m));
    assert Pow10(2) == 100;
    DigitsValueInjective(z, w);
  }

  /** A row whose `Data` is 'dd/mm/yyyy' and whose `Hora` is the integer HHMM is stamped with
      exactly that minute. */
  lemma {:induction false} StampOfCanonicalRow(t: Timestamp, cells: seq<Cell>)
    requires Valid(t) && InRange(t) && t.second == 0
    ensures var text := FormatDmyHm(t);
      Stamp(Reading(Some(text[..10]), NatToString(100 * t.hour + t.minute), cells)) == Some(t)
  {
    var text := FormatDmyHm(t);
    PaddedHour(t.hour, t.minute);
    assert text[..10] + " " + (TwoDigits(t.hour) + TwoDigits(t.minute)) == text;
    FormatParseRoundTrip(t);
  }

  /** A row without a date, or with an ISO date such as "2020-01-01", gets no stamp. */
  lemma NoSlashNoStamp(r: Reading)
    requires r.data.Some? ==> '/' !in r.data.value && '/' !in r.hora
    ensures Stamp(r) == None
  {
    if r.data.Some? {
      var s := r.data.value + " " + ZFill(r.hora, 4);
      assert '/' !in ZFill(r.hora, 4) by {
        if |r.hora| < 4 && r.hora != [] && (r.hora[0] == '+' || r.hora[0] == '-') {
          assert ZFill(r.hora, 4) == [r.hora[0]] + Repeat('0', 4 - |r.hora|) + r.hora[1..];
        }
      }
      NoSlashNoTimestamp(s);
    }
  }

  // ---------------------------------------------------------------- stamped samples

  /** A row with its `Datetime` column. */
  datatype StampedRow = StampedRow(row: Reading, when: Option<Timestamp>)

  /** `df_clima['Datetime'] = ...`: every row gets its stamp, or NaT. */
  function AddStamps(rows: seq<Reading>): (r: seq<StampedRow>)
    ensures |r| == |rows|
    ensures forall i :: 0 <= i < |r| ==> r[i].row == rows[i] && r[i].when == Stamp(rows[i])
  {
    seq(|rows|, i requires 0 <= i < |rows| => StampedRow(rows[i], Stamp(rows[i])))
  }

  /** A stamped reading with its five feature values. */
  datatype Sample = Sample(at: Timestamp, values: seq<real>)

  predicate AllNumbers(r: Reading) {
    |r.cells| == FeatureCount && forall c :: 0 <= c < FeatureCount ==> r.cells[c].Num?
  }

  function Values(r: Reading): (vs: seq<real>)
    requires AllNumbers(r)
    ensures |vs| == FeatureCount
  {
    seq(FeatureCount, c requires 0 <= c < FeatureCount => r.cells[c].v)
  }

  predicate Samples(ss: seq<Sample>) {
    forall s :: s in ss ==> |s.values| == FeatureCount
  }

  predicate Numeric(xs: seq<StampedRow>) {
    forall x :: x in xs ==> AllNumbers(x.row)
  }

  /** `dropna(subset=['Datetime'])`: the rows that got a stamp, as samples, in order. */
  function DropUnstamped(xs: seq<StampedRow>): (r: seq<Sample>)
    requires Numeric(xs)
    ensures Samples(r) && |r| <= |xs|
  {
    if xs == [] then []
    else
      var last := xs[|xs| - 1];
      DropUnstamped(xs[..|xs| - 1]) +
        if last.when.Some? then [Sample(last.when.value, Values(last.row))] else []
  }

  predicate HasStamp(ss: seq<Sample>, t: Timestamp) {
    exists k :: 0 <= k < |ss| && ss[k].at == t
  }

  predicate StampedWith(xs: seq<StampedRow>, t: Timestamp) {
    exists i :: 0 <= i < |xs| && xs[i].when == Some(t)
  }

  /** A sample carries the stamp of a row, and every row that got a stamp gives a sample. */
  lemma {:induction false} DropUnstampedStamps(xs: seq<StampedRow>, t: Timestamp)
    requires Numeric(xs)
    ensures HasStamp(DropUnstamped(xs), t) <==> StampedWith(xs, t)
  {
    if xs != [] {
      var init := xs[..|xs| - 1];
      var last := xs[|xs| - 1];
      DropUnstampedStamps(init, t);
      var p, q := DropUnstamped(init), DropUnstamped(xs);
      if HasStamp(q, t) {
        var k :| 0 <= k < |q| && q[k].at == t;
        if k < |p| {
          assert p[k].at == t;
          var i :| 0 <= i < |init| && init[i].when == Some(t);
          assert xs[i].when == Some(t);
        } else {
          assert last.when == Some(t);
        }
      }
      if StampedWith(xs, t) {
        var i :| 0 <= i < |xs| && xs[i].when == Some(t);
        if i < |init| {
          assert init[i].when == Some(t);
          var k :| 0 <= k < |p| && p[k].at == t;
          assert q[k].at == t;
        } else {
          assert q[|q| - 1].at == t;
        }
      }
    }
  }

  // ---------------------------------------------------------------- drop_duplicates

  /** `drop_duplicates(subset=['Datetime'])`: the first sample of every stamp, in order. */
  function KeepFirst(ss: seq<Sample>): (r: seq<Sample>)
    ensures forall x :: x in r ==> x in ss
  {
    if ss == [] then []
    else
      var init := ss[..|ss| - 1];
      var last := ss[|ss| - 1];
      if HasStamp(init, last.at) then KeepFirst(init) else KeepFirst(init) + [last]
  }

  /** No stamp is lost and none is invented ... */
  lemma {:induction false} KeepFirstStamps(ss: seq<Sample>, t: Timestamp)
    ensures HasStamp(KeepFirst(ss), t) <==> HasStamp(ss, t)
  {
    if ss != [] {
      var init := ss[..|ss| - 1];
      var last := ss[|ss| - 1];
      KeepFirstStamps(init, t);
      var p, r := KeepFirst(init), KeepFirst(ss);
      if HasStamp(r, t) {
        var k :| 0 <= k < |r| && r[k].at == t;
        if k < |p| {
          assert p[k].at == t;
          var j :| 0 <= j < |init| && init[j].at == t;
          assert ss[j].at == t;
        } else {
          assert ss[|ss| - 1].at == t;
        }
      }
      if HasStamp(ss, t) {
        var k :| 0 <= k < |ss| && ss[k].at == t;
        if k < |init| {
          assert init[k].at == t;
        } else {
          KeepFirstStamps(init, last.at);
        }
        if HasStamp(p, t) {
          var j :| 0 <= j < |p| && p[j].at == t;
          assert r[j].at == t;
        } else {
          assert r[|r| - 1].at == t;
        }
      }
    }
  }

  /** ... at most one sample per stamp remains ... */
  lemma {:induction false} KeepFirstDistinct(ss: seq<Sample>)
    ensures var r := KeepFirst(ss);
      forall i, j :: 0 <= i < j < |r| ==> r[i].at != r[j].at
  {
    if ss != [] {
      var init := ss[..|ss| - 1];
      var last := ss[|ss| - 1];
      KeepFirstDistinct(init);
      var p := KeepFirst(init);
      if !HasStamp(init, last.at) {
        KeepFirstStamps(init, last.at);
        assert !HasStamp(p, last.at);
        var r := KeepFirst(ss);
        forall i, j | 0 <= i < j < |r| ensures r[i].at != r[j].at {
          assert r[i] == p[i];
          if j < |p| {
            assert r[j] == p[j];
          }
        }
      }
    }
  }

  /** ... and it is the first sample that carried that stamp. */
  lemma {:induction false} KeepFirstIsFirst(ss: seq<Sample>, x: Sample)
    requires x in KeepFirst(ss)
    ensures exists k :: 0 <= k < |ss| && ss[k] == x && !HasStamp(ss[..k], x.at)
  {
    var init := ss[..|ss| - 1];
    var last := ss[|ss| - 1];
    var p := KeepFirst(init);
    if x in p {
      KeepFirstIsFirst(init, x);
      var k :| 0 <= k < |init| && init[k] == x && !HasStamp(init[..k], x.at);
      assert ss[k] == x && ss[..k] == init[..k];
    } else {
      assert x == last && !HasStamp(init, last.at);
      assert ss[..|ss| - 1] == init;
    }
  }

  // ---------------------------------------------------------------- hourly means

  function HourOf(s: Sample): Timestamp {
    FloorHour(s.at)
  }

  predicate HasReading(ss: seq<Sample>, h: Timestamp) {
    exists k :: 0 <= k < |ss| && HourOf(ss[k]) == h
  }

  /** The hours that received at least one reading, in increasing order (`resample('H')`
      followed by `dropna`, which removes the hours without readings). */
  function Hours(ss: seq<Sample>): (hs: seq<Timestamp>)
    ensures Increasing(hs)
    ensures forall h :: h in hs <==> HasReading(ss, h)
  {
    var floors := seq(|ss|, k requires 0 <= k < |ss| => HourOf(ss[k]));
    assert forall h :: h in floors <==> HasReading(ss, h) by {
      forall h ensures h in floors <==> HasReading(ss, h) {
        if HasReading(ss, h) {
          var k :| 0 <= k < |ss| && HourOf(ss[k]) == h;
          assert floors[k] == h;
        }
      }
    }
    SortDistinct(floors)
  }

  /** The samples of hour `h`, in order. */
  function Bucket(ss: seq<Sample>, h: Timestamp): (b: seq<Sample>)
    ensures forall x :: x in b <==> x in ss && HourOf(x) == h
  {
    if ss == [] then []
    else
      var last := ss[|ss| - 1];
      assert ss == ss[..|ss| - 1] + [last];
      Bucket(ss[..|ss| - 1], h) + if HourOf(last) == h then [last] else []
  }

  lemma BucketOfReading(ss: seq<Sample>, h: Timestamp)
    requires HasReading(ss, h)
    ensures Bucket(ss, h) != []
  {
    var k :| 0 <= k < |ss| && HourOf(ss[k]) == h;
    assert ss[k] in Bucket(ss, h);
  }

  function Sum(ss: seq<Sample>, c: nat): real
    requires Samples(ss) && c < FeatureCount
  {
    if ss == [] then 0.0 else Sum(ss[..|ss| - 1], c) + ss[|ss| - 1].values[c]
  }

  /** `mean()`: the average of a non-empty bucket. */
  function Mean(ss: seq<Sample>, c: nat): (m: real)
    requires Samples(ss) && ss != [] && c < FeatureCount
    ensures m * |ss| as real == Sum(ss, c)
  {
    Sum(ss, c) / |ss| as real
  }

  /** One row of the hourly table: the hour and the mean of each feature over its readings. */
  datatype HourRow = HourRow(hour: Timestamp, means: seq<real>)

  /** `df_clima[cols_presentes].resample('H').mean().dropna(subset=FEATURES)`. */
  function HourlyMeans(ss: seq<Sample>): (r: seq<HourRow>)
    requires Samples(ss)
    ensures |r| == |Hours(ss)|
    ensures forall i :: 0 <= i < |r| ==> r[i].hour == Hours(ss)[i] && |r[i].means| == FeatureCount
  {
    var hs := Hours(ss);
    seq(|hs|, i requires 0 <= i < |hs| =>
      var b := Bucket(ss, hs[i]);
      assert b != [] by {
        assert hs[i] in hs;
        BucketOfReading(ss, hs[i]);
      }
      HourRow(hs[i], seq(FeatureCount, c requires 0 <= c < FeatureCount => Mean(b, c))))
  }

  predicate HasHourRow(r: seq<HourRow>, h: Timestamp) {
    exists i :: 0 <= i < |r| && r[i].hour == h
  }

  /** One row per hour that received a reading, never one for an hour without: the rows are in
      increasing hour order, each on the hour, and each feature is the mean of that hour's
      readings. */
  lemma HourlyMeansMeaning(ss: seq<Sample>)
    requires Samples(ss)
    ensures var r := HourlyMeans(ss);
      && (forall i, j :: 0 <= i < j < |r| ==> Before(r[i].hour, r[j].hour))
      && (forall h :: HasHourRow(r, h) <==> HasReading(ss, h))
      && (forall i :: 0 <= i < |r| ==> OnTheHour(r[i].hour) && Bucket(ss, r[i].hour) != [])
      && (forall i, c :: 0 <= i < |r| && 0 <= c < FeatureCount ==>
            r[i].means[c] == Mean(Bucket(ss, r[i].hour), c))
  {
    var r := HourlyMeans(ss);
    var hs := Hours(ss);
    forall h ensures HasHourRow(r, h) <==> HasReading(ss, h) {
      if HasReading(ss, h) {
        assert h in hs;
        var i :| 0 <= i < |hs| && hs[i] == h;
        assert r[i].hour == h;
      }
      if HasHourRow(r, h) {
        var i :| 0 <= i < |r| && r[i].hour == h;
        assert hs[i] in hs;
      }
    }
    forall i | 0 <= i < |r| ensures OnTheHour(r[i].hour) && Bucket(ss, r[i].hour) != [] {
      assert hs[i] in hs;
      var k :| 0 <= k < |ss| && HourOf(ss[k]) == hs[i];
      BucketOfReading(ss, hs[i]);
    }
    forall i, c | 0 <= i < |r| && 0 <= c < FeatureCount
      ensures Bucket(ss, r[i].hour) != [] && r[i].means[c] == Mean(Bucket(ss, r[i].hour), c)
    {
      var b := Bucket(ss, hs[i]);
      assert b != [] by {
        assert hs[i] in hs;
        BucketOfReading(ss, hs[i]);
      }
      assert r[i].means[c] == Mean(b, c);
    }
  }

  /** The mean lies between any bounds of the readings it averages. */
  lemma MeanBounds(ss: seq<Sample>, c: nat, lo: real, hi: real)
    requires Samples(ss) && ss != [] && c < FeatureCount
    requires forall x :: x in ss ==> lo <= x.values[c] <= hi
    ensures lo <= Mean(ss, c) <= hi
  {
    var n := |ss| as real;
    var m, total := Mean(ss, c), Sum(ss, c);
    assert m * n == total;
    assert lo * n <= total <= hi * n by {
      SumBounds(ss, c, lo, hi);
      ScaleProduct(lo, |ss|);
      ScaleProduct(hi, |ss|);
    }
    CancelPositive(lo, m, n);
    CancelPositive(m, hi, n);
  }

  /** `n` copies of `a` added up. */
  function Scale(a: real, n: nat): real {
    if n == 0 then 0.0 else Scale(a, n - 1) + a
  }

  lemma {:induction false} ScaleProduct(a: real, n: nat)
    ensures Scale(a, n) == a * n as real
  {
    if n > 0 {
      ScaleProduct(a, n - 1);
      assert a * n as real == a * (n - 1) as real + a;
    }
  }

  lemma CancelPositive(a: real, b: real, n: real)
    requires n > 0.0 && a * n <= b * n
    ensures a <= b
  {
  }

  lemma {:induction false} SumBounds(ss: seq<Sample>, c: nat, lo: real, hi: real)
    requires Samples(ss) && c < FeatureCount
    requires forall x :: x in ss ==> lo <= x.values[c] <= hi
    ensures Scale(lo, |ss|) <= Sum(ss, c) <= Scale(hi, |ss|)
  {
    if ss != [] {
      var init := ss[..|ss| - 1];
      assert ss[|ss| - 1] in ss;
      assert forall x :: x in init ==> x in ss;
      SumBounds(init, c, lo, hi);
    }
  }

  // ---------------------------------------------------------------- the weather side

  /** What the weather half ends in: `return None` when the stamp text cannot be built (the
      fallback at lines 153-156 builds the same text and raises again), a `KeyError` from
      `dropna(subset=FEATURES)` when a feature column is absent, or the hourly table. */
  datatype WeatherOutcome = StampFailure | MissingFeature | Hourly(rows: seq<HourRow>)

  const AllPresent: seq<bool> := [true, true, true, true, true]

  /** The samples of a table whose feature columns are all present. */
  function TableSamples(rows: seq<Reading>): (ss: seq<Sample>)
    requires Shaped(rows)
    ensures Samples(ss)
  {
    var kept := Cleaned(AllPresent, rows);
    var xs := AddStamps(kept);
    KeptNumeric(rows);
    KeepFirst(DropUnstamped(xs))
  }

  /** The cleaned rows of a table with every feature present hold five numbers each. */
  lemma KeptNumeric(rows: seq<Reading>)
    requires Shaped(rows)
    ensures Numeric(AddStamps(Cleaned(AllPresent, rows)))
  {
    assert AllPresent[0] && AllPresent[1] && AllPresent[2] && AllPresent[3] && AllPresent[4];
    StampedNumeric(AllPresent, Cleaned(AllPresent, rows));
  }

  /** Rows complete for a selection of every feature hold numbers only, stamped or not. */
  lemma StampedNumeric(present: seq<bool>, kept: seq<Reading>)
    requires |present| == FeatureCount && forall c :: 0 <= c < FeatureCount ==> present[c]
    requires Shaped(kept) && forall x :: x in kept ==> Complete(present, x)
    ensures Numeric(AddStamps(kept))
  {
    var xs := AddStamps(kept);
    forall x | x in xs ensures AllNumbers(x.row) {
      var i :| 0 <= i < |xs| && xs[i] == x;
      assert kept[i] in kept;
    }
  }

  function PrepareWeather(t: WeatherTable): (r: WeatherOutcome)
    requires WellFormed(t)
    ensures r.Hourly? <==> t.stampable && false !in t.present
    ensures r.Hourly? ==> forall i :: 0 <= i < |r.rows| ==> |r.rows[i].means| == FeatureCount
  {
    if !t.stampable then StampFailure
    else if false in t.present then MissingFeature
    else Hourly(HourlyMeans(TableSamples(t.rows)))
  }

  /** The hour a raw row contributes to, when it reaches the hourly table: all five features
      read as numbers and the stamp parsed. */
  function RowHour(r: Reading): Option<Timestamp>
    requires |r.cells| == FeatureCount
  {
    var c := CleanReading(AllPresent, r);
    if Complete(AllPresent, c) && Stamp(c).Some? then Some(FloorHour(Stamp(c).value)) else None
  }

  predicate SomeRowHour(rows: seq<Reading>, h: Timestamp)
    requires Shaped(rows)
  {
    exists j :: 0 <= j < |rows| && RowHour(rows[j]) == Some(h)
  }

  /** End to end: with every feature column present and the stamp text buildable, the hourly
      table has a row for hour `h` exactly when some raw row contributes to `h`. */
  lemma PrepareWeatherHours(t: WeatherTable, h: Timestamp)
    requires WellFormed(t) && t.stampable && false !in t.present
    ensures PrepareWeather(t).Hourly?
    ensures HasHourRow(PrepareWeather(t).rows, h) <==> SomeRowHour(t.rows, h)
  {
    forall c | 0 <= c < FeatureCount ensures t.present[c] {
      assert t.present[c] in t.present;
    }
    assert t.present == AllPresent;
    var ss := TableSamples(t.rows);
    HourlyMeansMeaning(ss);
    assert HasHourRow(PrepareWeather(t).rows, h) <==> HasReading(ss, h);
    SamplesHours(t.rows, h);
  }

  lemma SamplesHours(rows: seq<Reading>, h: Timestamp)
    requires Shaped(rows)
    ensures HasReading(TableSamples(rows), h) <==> SomeRowHour(rows, h)
  {
    var kept := Cleaned(AllPresent, rows);
    var xs := AddStamps(kept);
    KeptNumeric(rows);
    var st := DropUnstamped(xs);
    var ss := KeepFirst(st);
    if HasReading(ss, h) {
      var k :| 0 <= k < |ss| && HourOf(ss[k]) == h;
      var at := ss[k].at;
      assert HasStamp(ss, at);
      KeepFirstStamps(st, at);
      DropUnstampedStamps(xs, at);
      var i :| 0 <= i < |xs| && xs[i].when == Some(at);
      RowOfKept(rows, kept[i], h);
    }
    if SomeRowHour(rows, h) {
      var j :| 0 <= j < |rows| && RowHour(rows[j]) == Some(h);
      RowToSample(rows, j, h);
    }
  }

  lemma RowToSample(rows: seq<Reading>, j: nat, h: Timestamp)
    requires Shaped(rows) && j < |rows| && RowHour(rows[j]) == Some(h)
    ensures HasReading(TableSamples(rows), h)
  {
    var kept := Cleaned(AllPresent, rows);
    var xs := AddStamps(kept);
    KeptNumeric(rows);
    var st := DropUnstamped(xs);
    var ss := KeepFirst(st);
    var c := CleanReading(AllPresent, rows[j]);
    CleanedMembers(AllPresent, rows, c);
    var i :| 0 <= i < |kept| && kept[i] == c;
    var at := Stamp(c).value;
    assert xs[i].when == Some(at);
    DropUnstampedStamps(xs, at);
    KeepFirstStamps(st, at);
    var k :| 0 <= k < |ss| && ss[k].at == at;
    assert HourOf(ss[k]) == h;
  }

  lemma RowOfKept(rows: seq<Reading>, x: Reading, h: Timestamp)
    requires Shaped(rows) && x in Cleaned(AllPresent, rows)
    requires Stamp(x).Some? && FloorHour(Stamp(x).value) == h
    ensures SomeRowHour(rows, h)
  {
    CleanedMembers(AllPresent, rows, x);
    var j :| 0 <= j < |rows| && x == CleanReading(AllPresent, rows[j]) && Complete(AllPresent, x);
    assert RowHour(rows[j]) == Some(h);
  }
}
