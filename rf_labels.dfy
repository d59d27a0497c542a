/** The outage half of `preprocess_and_merge_data` (ANALISE/app_random_forest.py) and the label:
    outages are narrowed to one city by a whole-word, case-insensitive match on the consumer
    area name, then to the "real" outages (motive 0, unscheduled, environmental cause); their
    start times are floored to the hour, and an hour of the weather table is labelled 1 exactly
    when it is one of those hours. */
module RandomForestLabels {
  import opened Base
  import opened Text
  import opened Calendar
  import opened RandomForestWeather

  // ---------------------------------------------------------------- the city filter

  /** `str.replace(r'[^\w\s]', '', regex=True)`: only word characters and whitespace remain. */
  function Sanitize(city: string): (r: string)
    ensures forall c :: c in r <==> c in city && (IsWordChar(c) || IsSpace(c))
  {
    if city == [] then []
    else (if IsWordChar(city[0]) || IsSpace(city[0]) then [city[0]] else []) + Sanitize(city[1..])
  }

  /** The regex `\b` at position `p`: exactly one of the characters around `p` is a word
      character (outside the text counts as a non-word character). */
  predicate Boundary(s: string, p: int) {
    (0 < p <= |s| && IsWordChar(s[p - 1])) != (0 <= p < |s| && IsWordChar(s[p]))
  }

  /** `\b` + `w` + `\b` matches at `i`, ignoring case. */
  predicate WholeWordAt(s: string, w: string, i: int) {
    OccursAt(LowerStr(s), LowerStr(w), i) && Boundary(s, i) && Boundary(s, i + |w|)
  }

  /** `DscConjuntoUnidadeConsumidora.str.contains(r'\b' + Sanitize(city) + r'\b', case=False,
      na=False)`: a missing area name never matches. */
  predicate CityMatches(city: string, area: Option<string>) {
    area.Some? && exists i :: 0 <= i <= |area.value| && WholeWordAt(area.value, Sanitize(city), i)
  }

  /** An area name that starts with the city's name, in any case, followed by nothing or by a
      non-word character ("PORTO ALEGRE - CENTRO" for "Porto Alegre") matches, provided the
      name starts and ends with a word character. */
  lemma NameThenSeparatorMatches(city: string, name: string, rest: string)
    requires var w := Sanitize(city);
      w != [] && IsWordChar(w[0]) && IsWordChar(w[|w| - 1]) && LowerStr(name) == LowerStr(w)
    requires rest == [] || !IsWordChar(rest[0])
    ensures CityMatches(city, Some(name + rest))
  {
    WordAtStart(Sanitize(city), name, rest);
  }

  /** The whole-word match at the start, for any word. */
  lemma WordAtStart(w: string, name: string, rest: string)
    requires w != [] && IsWordChar(w[0]) && IsWordChar(w[|w| - 1]) && LowerStr(name) == LowerStr(w)
    requires rest == [] || !IsWordChar(rest[0])
    ensures WholeWordAt(name + rest, w, 0)
  {
    var s := name + rest;
    SameLowerWordEnds(name, w);
    LowerOfPrefix(name, rest);
    assert s[0] == name[0] && s[|w| - 1] == name[|name| - 1];
    assert Boundary(s, 0);
    assert Boundary(s, |w|);
  }

  /** Two texts equal once lowered agree on whether their ends are word characters. */
  lemma SameLowerWordEnds(a: string, b: string)
    requires b != [] && LowerStr(a) == LowerStr(b)
    ensures |a| == |b|
    ensures IsWordChar(a[0]) <==> IsWordChar(b[0])
    ensures IsWordChar(a[|a| - 1]) <==> IsWordChar(b[|b| - 1])
  {
    assert Lower(a[0]) == LowerStr(a)[0];
    assert Lower(a[|a| - 1]) == LowerStr(a)[|a| - 1];
  }

  /** Lowering a text and taking its first part commute. */
  lemma LowerOfPrefix(a: string, b: string)
    ensures LowerStr(a + b)[0..|a|] == LowerStr(a)
  {
    var l := LowerStr(a + b);
    forall k | 0 <= k < |a| ensures l[0..|a|][k] == LowerStr(a)[k] {
      assert (a + b)[k] == a[k];
    }
  }

  /** The word boundary keeps a city from matching the start of a longer word: "Porto Alegre"
      does not match at the start of "PORTO ALEGRETE". */
  lemma NameThenWordCharDoesNotMatch(city: string, name: string, rest: string)
    requires var w := Sanitize(city);
      w != [] && IsWordChar(w[|w| - 1]) && LowerStr(name) == LowerStr(w)
    requires rest != [] && IsWordChar(rest[0])
    ensures !WholeWordAt(name + rest, Sanitize(city), 0)
  {
    var w := Sanitize(city);
    var s := name + rest;
    assert Lower(name[|name| - 1]) == Lower(w[|w| - 1]);
    assert s[|w| - 1] == name[|name| - 1] && s[|w|] == rest[0];
  }

  lemma {:induction false} SanitizeKeeps(city: string)
    requires forall i :: 0 <= i < |city| ==> IsWordChar(city[i]) || IsSpace(city[i])
    ensures Sanitize(city) == city
  {
    if city != [] {
      SanitizeKeeps(city[1..]);
    }
  }

  // ---------------------------------------------------------------- the real outages

  /** One ANEEL interruption row: the consumer area name, the motive id read as a number (text
      that is not a number never equals 0), the interruption type, the triggering cause and the
      start text. */
  datatype Outage = Outage(area: Option<string>, motive: Option<real>, kind: Option<string>,
                           cause: Option<string>, start: Option<string>)

  const Unscheduled := "N\U{E3}o Programada"

  /** Motive 0, type exactly 'Não Programada', and 'Meio ambiente' in the cause, ignoring case;
      a missing cause does not qualify. */
  predicate Qualifies(o: Outage) {
    o.motive == Some(0.0) && o.kind == Some(Unscheduled) &&
    o.cause.Some? && ContainsIgnoreCase(o.cause.value, "Meio ambiente")
  }

  /** The real outages of the city. */
  function RealOutages(city: string, outages: seq<Outage>): (r: seq<Outage>)
    ensures forall o :: o in r <==> o in outages && CityMatches(city, o.area) && Qualifies(o)
  {
    Filter(Filter(outages, (o: Outage) => CityMatches(city, o.area)), Qualifies)
  }

  // ---------------------------------------------------------------- start hours

  /** `pd.to_datetime(column, errors='coerce')` without a format infers one format for the whole
      column, so it is taken as a given function from a column to a column of the same length. */
  type ColumnParser = seq<Option<string>> -> seq<Option<Timestamp>>

  ghost predicate Aligned(parse: ColumnParser) {
    forall col :: |parse(col)| == |col|
  }

  function Starts(os: seq<Outage>): (col: seq<Option<string>>)
    ensures |col| == |os|
  {
    seq(|os|, k requires 0 <= k < |os| => os[k].start)
  }

  /** `dropna`, `dt.floor('H')` and `unique()`: the hours in which a parsed start falls. */
  function OutageHours(os: seq<Outage>, parse: ColumnParser): (hours: set<Timestamp>)
    requires Aligned(parse)
    ensures forall h :: h in hours <==>
      exists k :: 0 <= k < |os| && parse(Starts(os))[k].Some? && FloorHour(parse(Starts(os))[k].value) == h
  {
    var ts := parse(Starts(os));
    set k | 0 <= k < |ts| && ts[k].Some? :: FloorHour(ts[k].value)
  }

  // ---------------------------------------------------------------- the labelled table

  /** A row of the returned frame: the five features and `interrupcao_real`. */
  datatype LabelledRow = LabelledRow(hour: Timestamp, features: seq<real>, target: int)

  /** `df_final.index.isin(hours).astype(int)`. */
  function Label(hourly: seq<HourRow>, hours: set<Timestamp>): (r: seq<LabelledRow>)
    ensures |r| == |hourly|
    ensures forall i :: 0 <= i < |r| ==>
      r[i].hour == hourly[i].hour && r[i].features == hourly[i].means &&
      r[i].target == if hourly[i].hour in hours then 1 else 0
  {
    seq(|hourly|, i requires 0 <= i < |hourly| =>
      LabelledRow(hourly[i].hour, hourly[i].means, if hourly[i].hour in hours then 1 else 0))
  }

  /** What `preprocess_and_merge_data` returns: `None`, a `KeyError` raised (see
      `WeatherOutcome`), or the labelled hourly frame. */
  datatype Prepared = NoData | KeyError | Frame(rows: seq<LabelledRow>)

  function Preprocess(weather: WeatherTable, outages: seq<Outage>, city: string,
                      parse: ColumnParser): (r: Prepared)
    requires WellFormed(weather) && Aligned(parse)
  {
    match PrepareWeather(weather)
    case StampFailure => NoData
    case MissingFeature => KeyError
    case Hourly(hourly) =>
      var cityRows := Filter(outages, (o: Outage) => CityMatches(city, o.area));
      if cityRows == [] then Frame(Label(hourly, {}))
      else
        var genuine := Filter(cityRows, Qualifies);
        if genuine == [] then Frame(Label(hourly, {}))
        else Frame(Label(hourly, OutageHours(genuine, parse)))
  }

  /** The frame has the rows of the hourly weather table, in order, with their five features,
      and a 0/1 target that is 1 exactly when the hour is the floored start of a real outage of
      the city. The two early returns agree with this: with no real outage every target is 0. */
  lemma PreprocessLabels(weather: WeatherTable, outages: seq<Outage>, city: string,
                         parse: ColumnParser)
    requires WellFormed(weather) && Aligned(parse)
    requires PrepareWeather(weather).Hourly?
    ensures var hourly := PrepareWeather(weather).rows;
      var genuine := RealOutages(city, outages);
      var p := Preprocess(weather, outages, city, parse);
      && p.Frame? && |p.rows| == |hourly|
      && forall i :: 0 <= i < |hourly| ==>
           && p.rows[i].hour == hourly[i].hour && p.rows[i].features == hourly[i].means
           && |p.rows[i].features| == FeatureCount
           && (p.rows[i].target == 1 || p.rows[i].target == 0)
           && (p.rows[i].target == 1 <==> hourly[i].hour in OutageHours(genuine, parse))
  {
    PreprocessIsLabel(weather, outages, city, parse);
  }

  /** Both early returns give the frame the general case would give: no real outage means no
      outage hour. */
  lemma PreprocessIsLabel(weather: WeatherTable, outages: seq<Outage>, city: string,
                          parse: ColumnParser)
    requires WellFormed(weather) && Aligned(parse)
    requires PrepareWeather(weather).Hourly?
    ensures Preprocess(weather, outages, city, parse) ==
      Frame(Label(PrepareWeather(weather).rows, OutageHours(RealOutages(city, outages), parse)))
  {
    var cityRows := Filter(outages, (o: Outage) => CityMatches(city, o.area));
    var genuine := RealOutages(city, outages);
    assert genuine == Filter(cityRows, Qualifies);
    if cityRows == [] || genuine == [] {
      NoOutageNoHours(genuine, parse);
    }
  }

  /** No outage, no hour. */
  lemma NoOutageNoHours(os: seq<Outage>, parse: ColumnParser)
    requires os == [] && Aligned(parse)
    ensures OutageHours(os, parse) == {}
  {
    assert |parse(Starts(os))| == 0;
  }

  /** When no outage of the city qualifies, every hour is labelled 0. */
  lemma NoRealOutageAllZero(weather: WeatherTable, outages: seq<Outage>, city: string,
                            parse: ColumnParser)
    requires WellFormed(weather) && Aligned(parse)
    requires PrepareWeather(weather).Hourly?
    requires forall o :: o in outages && CityMatches(city, o.area) ==> !Qualifies(o)
    ensures var p := Preprocess(weather, outages, city, parse);
      p.Frame? && forall i :: 0 <= i < |p.rows| ==> p.rows[i].target == 0
  {
    PreprocessLabels(weather, outages, city, parse);
    var cityRows := Filter(outages, (o: Outage) => CityMatches(city, o.area));
    FilterNone(cityRows, Qualifies);
  }
}
