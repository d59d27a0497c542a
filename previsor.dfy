/** The second half of `juntar_datasets` in PREVISOR/app.py: the frames of each city are
    concatenated, their dates normalised, the rain and wind levels computed row by row, the
    rows sorted by their timestamp, the rain of the last 24 rows summed, the vegetation level
    computed from it, and the city's file written. */
module Previsor {
  import opened Base
  import opened Text
  import opened Calendar
  import opened PrevisorRules
  import PJ = PrevisorJoin
  import InmetFilter

  // ---------------------------------------------------------------- concatenation

  /** A row of a city's concatenated frame: the two key columns and the four weather cells. */
  datatype Row = Row(data: Option<string>, hora: Option<string>,
                     rain: Cell, speed: Cell, direction: Cell, gust: Cell)

  /** The weather columns of `pd.concat(frames)`: those of any frame. */
  function Columns(frames: seq<PJ.Frame>): (r: set<PJ.Field>)
    ensures forall f :: f in r <==> exists k :: 0 <= k < |frames| && f in frames[k].fields
  {
    if frames == [] then {}
    else
      var init := frames[..|frames| - 1];
      assert forall k :: 0 <= k < |init| ==> init[k] == frames[k];
      Columns(init) + frames[|frames| - 1].fields
  }

  /** A cell after concatenation: absent when no frame has the column, empty when the row's
      own frame lacks it or the value is empty, and the text otherwise. */
  function CellOf(f: PJ.Field, fields: set<PJ.Field>, all: set<PJ.Field>, v: Option<string>): (c: Cell)
    ensures c.Absent? <==> f !in all
  {
    if f !in all then Absent
    else if f !in fields || v.None? then Missing
    else Text(v.value)
  }

  function RowOf(fields: set<PJ.Field>, all: set<PJ.Field>, j: PJ.Joined): Row {
    var x := j.reading;
    Row(x.data, x.hora,
        CellOf(PJ.Rain, fields, all, x.rain), CellOf(PJ.Speed, fields, all, x.speed),
        CellOf(PJ.Direction, fields, all, x.direction), CellOf(PJ.Gust, fields, all, x.gust))
  }

  function FrameRows(fr: PJ.Frame, all: set<PJ.Field>): (r: seq<Row>)
    ensures |r| == |fr.rows|
    ensures forall i :: 0 <= i < |r| ==> r[i] == RowOf(fr.fields, all, fr.rows[i])
  {
    seq(|fr.rows|, i requires 0 <= i < |fr.rows| => RowOf(fr.fields, all, fr.rows[i]))
  }

  function ConcatWith(frames: seq<PJ.Frame>, all: set<PJ.Field>): seq<Row> {
    if frames == [] then []
    else ConcatWith(frames[..|frames| - 1], all) + FrameRows(frames[|frames| - 1], all)
  }

  /** `pd.concat(dfs, ignore_index=True)`: the rows of the frames one after the other. */
  function Concat(frames: seq<PJ.Frame>): seq<Row> {
    ConcatWith(frames, Columns(frames))
  }

  function RowCount(frames: seq<PJ.Frame>): nat {
    if frames == [] then 0 else RowCount(frames[..|frames| - 1]) + |frames[|frames| - 1].rows|
  }

  /** The concatenation holds every row of every frame, and a row's weather cell is absent
      exactly when no frame has that column. */
  lemma {:induction false} ConcatRows(frames: seq<PJ.Frame>, all: set<PJ.Field>)
    ensures |ConcatWith(frames, all)| == RowCount(frames)
    ensures forall r :: r in ConcatWith(frames, all) ==>
      (r.rain.Absent? <==> PJ.Rain !in all) && (r.speed.Absent? <==> PJ.Speed !in all) &&
      (r.direction.Absent? <==> PJ.Direction !in all) && (r.gust.Absent? <==> PJ.Gust !in all)
  {
    if frames != [] {
      ConcatRows(frames[..|frames| - 1], all);
    }
  }

  // ---------------------------------------------------------------- wind_risk

  /** `wind_risk`: `float(str(row.get('raj. vento (m/s)', '')).replace(',', '.'))` under the
      gust thresholds; an absent column, an empty cell (read as "nan"), or text that is not a
      number gives 'unknown'. */
  function WindRisk(gust: Cell): (r: Risk)
    ensures r == Unknown <==> !ParseFloat(ReplaceChar(CellText(gust, ""), ',', '.')).Some? ||
                              ParseFloat(ReplaceChar(CellText(gust, ""), ',', '.')).value.NaN?
  {
    match ParseFloat(ReplaceChar(CellText(gust, ""), ',', '.'))
    case Some(Finite(g)) => GustRisk(g)
    case _ => Unknown
  }

  /** No gust column and an empty gust cell both give 'unknown'. */
  lemma WindRiskWithoutGust()
    ensures WindRisk(Absent) == Unknown && WindRisk(Missing) == Unknown
  {
    ParseFloatOfNanAndEmpty();
    assert ReplaceChar(CellText(Missing, ""), ',', '.') == "nan";
    assert ReplaceChar(CellText(Absent, ""), ',', '.') == "";
  }

  /** A locale numeral "a,b" is read as the gust a.b. */
  lemma WindRiskOfNumeral(a: string, b: string)
    requires Numbers.AllDigits(a) && Numbers.AllDigits(b) && |a| > 0
    ensures WindRisk(Text(a + "," + b)) == GustRisk(Numbers.DecimalOf(a, b))
  {
    CommaNumeral(a, b);
  }

  // ---------------------------------------------------------------- vegetacao_risk

  /** Python `x > m` on floats: false whenever either side is NaN. */
  predicate Greater(x: PyFloat, m: PyFloat) {
    x.Finite? && m.Finite? && x.value > m.value
  }

  /** Python `max`: the first element, replaced by each later one that is greater. */
  function MaxFrom(m: PyFloat, xs: seq<PyFloat>): PyFloat
    decreases |xs|
  {
    if xs == [] then m else MaxFrom(if Greater(xs[0], m) then xs[0] else m, xs[1..])
  }

  function PyMax(xs: seq<PyFloat>): PyFloat
    requires xs != []
  {
    MaxFrom(xs[0], xs[1..])
  }

  /** A NaN in front is never replaced, since nothing compares greater than it; after a
      number, the result is the greatest number, the NaNs being passed over. */
  lemma {:induction false} MaxFromResult(m: PyFloat, xs: seq<PyFloat>)
    ensures m.NaN? ==> MaxFrom(m, xs) == NaN
    ensures m.Finite? ==> MaxFrom(m, xs).Finite? && (MaxFrom(m, xs) == m || MaxFrom(m, xs) in xs)
    ensures m.Finite? ==> (m.value <= MaxFrom(m, xs).value &&
      forall x :: x in xs && x.Finite? ==> x.value <= MaxFrom(m, xs).value)
    decreases |xs|
  {
    if xs != [] {
      var next := if Greater(xs[0], m) then xs[0] else m;
      MaxFromResult(next, xs[1..]);
      assert forall x :: x in xs[1..] ==> x in xs;
      assert forall x :: x in xs ==> x == xs[0] || x in xs[1..];
    }
  }

  /** `max` of the wind values is NaN exactly when the first one is; otherwise it is the
      greatest number among them. */
  lemma PyMaxResult(xs: seq<PyFloat>)
    requires xs != []
    ensures PyMax(xs).NaN? <==> xs[0].NaN?
    ensures xs[0].Finite? ==> (PyMax(xs) in xs && PyMax(xs).Finite? &&
      forall x :: x in xs && x.Finite? ==> x.value <= PyMax(xs).value)
  {
    MaxFromResult(xs[0], xs[1..]);
    assert forall x :: x in xs ==> x == xs[0] || x in xs[1..];
    assert forall x :: x in xs[1..] ==> x in xs;
  }

  /** One of the three wind fields: `float(str(row.get(campo, '0')).replace(',', '.'))`, the
      field being passed over when that raises. */
  function WindValue(c: Cell): (r: seq<PyFloat>)
    ensures |r| <= 1
  {
    match ParseFloat(ReplaceChar(CellText(c, "0"), ',', '.'))
    case Some(x) => [x]
    case None => []
  }

  /** The list `vento_campos`: speed, direction and gust, in that order. */
  function WindValues(r: Row): seq<PyFloat> {
    WindValue(r.speed) + WindValue(r.direction) + WindValue(r.gust)
  }

  /** The two vegetation rules on a wind number and the rain of the last 24 rows. */
  function VegetationLevel(wind: real, rain24: real): (r: Risk)
    ensures r == Baixo || r == Alto || r == Critico
  {
    if wind >= 21.0 && rain24 >= 80.0 then Critico
    else if wind >= 15.0 && rain24 >= 50.0 then Alto
    else Baixo
  }

  /** `vegetacao_risk`: the rules on the `max` of the wind values, and 'baixo' when there is
      none or it is NaN. */
  function VegetationRisk(winds: seq<PyFloat>, rain24: real): (r: Risk)
    ensures r == Baixo || r == Alto || r == Critico
  {
    var m := if winds == [] then NaN else PyMax(winds);
    if m.Finite? then VegetationLevel(m.value, rain24) else Baixo
  }

  /** More wind or more rain never lowers the vegetation level. */
  lemma VegetationMonotone(w1: real, w2: real, c1: real, c2: real)
    requires w1 <= w2 && c1 <= c2
    ensures Rank(VegetationLevel(w1, c1)) <= Rank(VegetationLevel(w2, c2))
  {
  }

  /** The level is 'critico' exactly when some wind number reaches 21 and the rain 80, as long
      as the speed parsed to a number. */
  lemma VegetationCritical(r: Row, rain24: real)
    requires WindValues(r) != [] && WindValues(r)[0].Finite?
    ensures VegetationRisk(WindValues(r), rain24) == Critico <==>
      rain24 >= 80.0 && exists x :: x in WindValues(r) && x.Finite? && x.value >= 21.0
  {
    PyMaxResult(WindValues(r));
  }

  /** An empty speed cell reads "nan", heads the list, and so hides a gust of any strength:
      the level is then 'baixo' whatever the rain. */
  lemma EmptySpeedHidesGust(r: Row, rain24: real)
    requires r.speed == Missing
    ensures VegetationRisk(WindValues(r), rain24) == Baixo
  {
    ParseFloatOfNanAndEmpty();
    assert ReplaceChar("nan", ',', '.') == "nan";
    assert WindValues(r)[0] == NaN;
    PyMaxResult(WindValues(r));
  }

  // ---------------------------------------------------------------- one row before sorting

  /** `pd.to_datetime(data + ' ' + hora.str.zfill(4), format='%d/%m/%Y %H%M', errors='coerce')`:
      an empty hour makes the whole text NaN, hence NaT. */
  function Stamp(data: string, hora: Option<string>): Option<Timestamp> {
    match hora
    case None => None
    case Some(h) => ParseDmyHm(data + " " + ZFill(h, 4))
  }

  /** A row once its own columns are computed: the normalised date, the hour, the rain amount
      and level, the wind level, the wind values and the timestamp. */
  datatype Staged = Staged(data: string, hora: Option<string>, rain: real, rainRisk: Risk,
                           windRisk: Risk, winds: seq<PyFloat>, stamp: Option<Timestamp>)

  function Stage(r: Row): (s: Staged)
    ensures s.rainRisk != Unknown
  {
    var data := NormaliseDate(r.data);
    var mm := CoercedAmount(r.rain);
    Staged(data, r.hora, mm, RainRisk(mm), WindRisk(r.gust), WindValues(r), Stamp(data, r.hora))
  }

  function StageAll(rows: seq<Row>): (r: seq<Staged>)
    ensures |r| == |rows| && forall i :: 0 <= i < |rows| ==> r[i] == Stage(rows[i])
  {
    seq(|rows|, i requires 0 <= i < |rows| => Stage(rows[i]))
  }

  // ---------------------------------------------------------------- sort_values('data_hora')

  /** The order of `sort_values`: timestamps in time order, NaT after all of them. */
  predicate StampLe(a: Option<Timestamp>, b: Option<Timestamp>) {
    b.None? || (a.Some? && NotAfter(a.value, b.value))
  }

  lemma StampLeTrans(a: Option<Timestamp>, b: Option<Timestamp>, c: Option<Timestamp>)
    requires StampLe(a, b) && StampLe(b, c)
    ensures StampLe(a, c)
  {
    if a.Some? && b.Some? && c.Some? && a.value != b.value && b.value != c.value {
      BeforeTrans(a.value, b.value, c.value);
    }
  }

  lemma StampLeTotal(a: Option<Timestamp>, b: Option<Timestamp>)
    ensures StampLe(a, b) || StampLe(b, a)
  {
    if a.Some? && b.Some? {
      BeforeTotal(a.value, b.value);
    }
  }

  predicate SortedByStamp(xs: seq<Staged>) {
    forall i, j :: 0 <= i < j < |xs| ==> StampLe(xs[i].stamp, xs[j].stamp)
  }

  /** `x` placed before the first row it is not after, so that it stays ahead of the rows
      with the same timestamp. */
  function InsertByStamp(x: Staged, xs: seq<Staged>): (r: seq<Staged>)
    ensures multiset(r) == multiset(xs) + multiset{x}
  {
    if xs == [] || StampLe(x.stamp, xs[0].stamp) then [x] + xs
    else
      assert xs == [xs[0]] + xs[1..];
      [xs[0]] + InsertByStamp(x, xs[1..])
  }

  lemma {:induction false} InsertSorted(x: Staged, xs: seq<Staged>)
    requires SortedByStamp(xs)
    ensures SortedByStamp(InsertByStamp(x, xs))
  {
    var r := InsertByStamp(x, xs);
    if xs == [] || StampLe(x.stamp, xs[0].stamp) {
      forall j | 1 <= j < |r| ensures StampLe(x.stamp, r[j].stamp) {
        if j > 1 {
          StampLeTrans(x.stamp, xs[0].stamp, xs[j - 1].stamp);
        }
      }
    } else {
      var tail := xs[1..];
      InsertSorted(x, tail);
      StampLeTotal(x.stamp, xs[0].stamp);
      forall y | y in multiset(InsertByStamp(x, tail)) ensures StampLe(xs[0].stamp, y.stamp) {
        if y != x {
          assert y in multiset(tail);
          var k :| 0 <= k < |tail| && tail[k] == y;
          assert xs[k + 1] == y;
        }
      }
      forall j | 1 <= j < |r| ensures StampLe(xs[0].stamp, r[j].stamp) {
        assert r[j] in multiset(InsertByStamp(x, tail));
      }
    }
  }

  /** `sort_values('data_hora')`, as an insertion sort that keeps rows with equal timestamps in
      their input order. pandas' default quicksort does not promise that order. */
  function SortByStamp(xs: seq<Staged>): (r: seq<Staged>)
    ensures multiset(r) == multiset(xs) && |r| == |xs|
  {
    if xs == [] then []
    else
      assert xs == [xs[0]] + xs[1..];
      InsertByStamp(xs[0], SortByStamp(xs[1..]))
  }

  /** The rows come out in time order, the rows without a timestamp last, and none is lost,
      added or changed. */
  lemma {:induction false} SortByStampSorted(xs: seq<Staged>)
    ensures SortedByStamp(SortByStamp(xs)) && multiset(SortByStamp(xs)) == multiset(xs)
  {
    if xs != [] {
      SortByStampSorted(xs[1..]);
      InsertSorted(xs[0], SortByStamp(xs[1..]));
    }
  }

  // ---------------------------------------------------------------- rolling(window=24).sum()

  const Window := 24

  function Sum(xs: seq<real>): real {
    if xs == [] then 0.0 else Sum(xs[..|xs| - 1]) + xs[|xs| - 1]
  }

  lemma {:induction false} SumFront(xs: seq<real>)
    requires xs != []
    ensures Sum(xs) == xs[0] + Sum(xs[1..])
    decreases |xs|
  {
    if |xs| > 1 {
      SumFront(xs[..|xs| - 1]);
      assert xs[..|xs| - 1][1..] == xs[1..][..|xs| - 2];
    } else {
      assert xs[..0] == [] && xs[1..] == [];
    }
  }

  /** `rolling(window=24, min_periods=1).sum()` at position `k`: the sum of the values from
      `k - 23` (or the first) to `k`. */
  function WindowSum(xs: seq<real>, k: nat): real
    requires k < |xs|
  {
    Sum(xs[(if k + 1 >= Window then k + 1 - Window else 0)..k + 1])
  }

  /** The next window sum is the previous one with the new value added and, once the window
      is full, the value leaving it taken away. */
  lemma WindowStep(xs: seq<real>, k: nat)
    requires k + 1 < |xs|
    ensures WindowSum(xs, k + 1) ==
      WindowSum(xs, k) + xs[k + 1] - (if k + 1 >= Window then xs[k + 1 - Window] else 0.0)
  {
    var lo := if k + 1 >= Window then k + 1 - Window else 0;
    var hi := if k + 2 >= Window then k + 2 - Window else 0;
    assert xs[hi..k + 2][..k + 1 - hi] == xs[hi..k + 1];
    if k + 1 >= Window {
      SumFront(xs[lo..k + 1]);
      assert xs[lo..k + 1][1..] == xs[hi..k + 1];
    }
  }

  lemma WindowFirst(xs: seq<real>)
    requires xs != []
    ensures WindowSum(xs, 0) == xs[0]
  {
    var w := xs[0..1];
    assert w[..0] == [];
    assert Sum(w) == Sum(w[..0]) + w[0];
  }

  /** The rolling sums of a column. */
  function RollingSums(xs: seq<real>): (r: seq<real>)
    ensures |r| == |xs|
  {
    seq(|xs|, k requires 0 <= k < |xs| => WindowSum(xs, k))
  }

  /** The sliding window pandas computes: each step adds the value entering the window and
      subtracts the one leaving it. */
  method RollingSum(xs: seq<real>) returns (sums: seq<real>)
    ensures sums == RollingSums(xs)
  {
    sums := [];
    var acc := 0.0;
    var k := 0;
    while k < |xs|
      invariant 0 <= k <= |xs| && |sums| == k
      invariant forall i :: 0 <= i < k ==> sums[i] == WindowSum(xs, i)
      invariant k > 0 ==> acc == WindowSum(xs, k - 1)
      invariant k == 0 ==> acc == 0.0
    {
      if k > 0 {
        WindowStep(xs, k - 1);
      } else {
        WindowFirst(xs);
      }
      acc := acc + xs[k];
      if k >= Window {
        acc := acc - xs[k - Window];
      }
      sums := sums + [acc];
      k := k + 1;
    }
  }

  /** The first 24 positions sum everything so far, and with non-negative rain a window never
      holds less than its last hour. */
  lemma WindowBounds(xs: seq<real>, k: nat)
    requires k < |xs|
    ensures k < Window ==> WindowSum(xs, k) == Sum(xs[..k + 1])
    ensures (forall i :: 0 <= i < |xs| ==> xs[i] >= 0.0) ==> WindowSum(xs, k) >= xs[k]
  {
    var lo := if k + 1 >= Window then k + 1 - Window else 0;
    var w := xs[lo..k + 1];
    assert w[..|w| - 1] == xs[lo..k];
    if forall i :: 0 <= i < |xs| ==> xs[i] >= 0.0 {
      SumNonNegative(xs[lo..k]);
    }
  }

  lemma {:induction false} SumNonNegative(xs: seq<real>)
    requires forall i :: 0 <= i < |xs| ==> xs[i] >= 0.0
    ensures Sum(xs) >= 0.0
  {
    if xs != [] {
      SumNonNegative(xs[..|xs| - 1]);
    }
  }

  // ---------------------------------------------------------------- one city's file

  /** A written row: `data`, `hora` and the three levels. */
  datatype OutRow = OutRow(data: string, hora: Option<string>, rain: Risk, wind: Risk, vegetation: Risk)

  function Rains(xs: seq<Staged>): (r: seq<real>)
    ensures |r| == |xs| && forall i :: 0 <= i < |xs| ==> r[i] == xs[i].rain
  {
    seq(|xs|, i requires 0 <= i < |xs| => xs[i].rain)
  }

  function Finish(xs: seq<Staged>, sums: seq<real>): (r: seq<OutRow>)
    requires |sums| == |xs|
    ensures |r| == |xs|
  {
    seq(|xs|, i requires 0 <= i < |xs| =>
      OutRow(xs[i].data, xs[i].hora, xs[i].rainRisk, xs[i].windRisk, VegetationRisk(xs[i].winds, sums[i])))
  }

  /** The rows written for a city, or `None` for the `KeyError` raised when no frame has the
      rain column. */
  function CityRows(frames: seq<PJ.Frame>): (r: Option<seq<OutRow>>)
    ensures r.None? <==> PJ.Rain !in Columns(frames)
    ensures r.Some? ==> |r.value| == |Concat(frames)|
  {
    if PJ.Rain !in Columns(frames) then None
    else
      var sorted := SortByStamp(StageAll(Concat(frames)));
      Some(Finish(sorted, RollingSums(Rains(sorted))))
  }

  /** A city's rows are its concatenated rows, each with its own levels, put in time order;
      the vegetation level of the row at position `k` reads the rain of positions `k - 23` to
      `k` of that order. */
  lemma CityRowsShape(frames: seq<PJ.Frame>)
    requires CityRows(frames).Some?
    ensures var rows := CityRows(frames).value;
      exists sorted: seq<Staged> ::
        && multiset(sorted) == multiset(StageAll(Concat(frames)))
        && SortedByStamp(sorted)
        && |sorted| == |rows|
        && forall k :: 0 <= k < |rows| ==>
             rows[k] == OutRow(sorted[k].data, sorted[k].hora, sorted[k].rainRisk, sorted[k].windRisk,
                               VegetationRisk(sorted[k].winds, WindowSum(Rains(sorted), k)))
  {
    var sorted := SortByStamp(StageAll(Concat(frames)));
    SortByStampSorted(StageAll(Concat(frames)));
    assert CityRows(frames).value == Finish(sorted, RollingSums(Rains(sorted)));
    FinishedRows(sorted);
  }

  /** Row `k` of the finished rows is staged row `k` with the rain window ending at it. */
  lemma FinishedRows(xs: seq<Staged>)
    ensures var rows := Finish(xs, RollingSums(Rains(xs)));
      |rows| == |xs| &&
      forall k :: 0 <= k < |rows| ==>
        rows[k] == OutRow(xs[k].data, xs[k].hora, xs[k].rainRisk, xs[k].windRisk,
                          VegetationRisk(xs[k].winds, WindowSum(Rains(xs), k)))
  {
  }

  /** Computing a city's rows: the staged rows sorted, then the rolling rain sums. */
  method Consolidate(frames: seq<PJ.Frame>) returns (r: Option<seq<OutRow>>)
    ensures r == CityRows(frames)
  {
    if PJ.Rain !in Columns(frames) {
      return None;
    }
    var sorted := SortByStamp(StageAll(Concat(frames)));
    var sums := RollingSum(Rains(sorted));
    r := Some(Finish(sorted, sums));
  }

  /** `cidade_<city>.csv`, with the city's spaces and slashes made '_'. */
  function OutputName(city: string): (r: string)
    ensures '/' !in r && ' ' !in r
  {
    "cidade_" + ReplaceChar(ReplaceChar(city, ' ', '_'), '/', '_') + ".csv"
  }

  datatype Written = Written(name: string, rows: seq<OutRow>)

  /** Each city's rows, from the frames collected for it. */
  function Results(groups: map<string, seq<PJ.Frame>>): string -> Option<seq<OutRow>> {
    c => if c in groups then CityRows(groups[c]) else None
  }

  /** The cities in turn, `results(c)` standing for city `c`'s rows: each one's file, until
      the first city whose rows raise ends the script. The flag tells whether that happened. */
  function WriteSpec(cities: seq<string>, results: string -> Option<seq<OutRow>>): (r: (seq<Written>, bool))
    ensures |r.0| <= |cities|
  {
    if cities == [] then ([], false)
    else match results(cities[0])
      case None => ([], true)
      case Some(rows) =>
        var rest := WriteSpec(cities[1..], results);
        ([Written(OutputName(cities[0]), rows)] + rest.0, rest.1)
  }

  /** The script stops exactly when some city raises; the files written are those of the
      cities before the first such one, in order. */
  lemma {:induction false} WriteSpecStops(cities: seq<string>, results: string -> Option<seq<OutRow>>)
    ensures StopsAtFirst(cities, results, WriteSpec(cities, results))
  {
    if cities != [] {
      var tail := cities[1..];
      WriteSpecStops(tail, results);
      if results(cities[0]).Some? {
        StopsAtFirstCons(cities[0], tail, results, WriteSpec(tail, results));
        assert [cities[0]] + tail == cities;
      }
    }
  }

  /** `r` is what writing `cities` in order produces: it fails exactly when some city raises,
      the files written are the cities' own, and when it fails the next city is one that raises;
      otherwise every city is written. */
  predicate StopsAtFirst(cities: seq<string>, results: string -> Option<seq<OutRow>>,
                         r: (seq<Written>, bool)) {
    && (r.1 <==> exists k :: 0 <= k < |cities| && results(cities[k]).None?)
    && |r.0| <= |cities|
    && (forall k :: 0 <= k < |r.0| ==>
          r.0[k].name == OutputName(cities[k]) && results(cities[k]) == Some(r.0[k].rows))
    && (r.1 ==> |r.0| < |cities| && results(cities[|r.0|]).None?)
    && (!r.1 ==> |r.0| == |cities|)
  }

  /** A city that does not raise is written before the rest. */
  lemma StopsAtFirstCons(c: string, tail: seq<string>, results: string -> Option<seq<OutRow>>,
                         r: (seq<Written>, bool))
    requires results(c).Some? && StopsAtFirst(tail, results, r)
    ensures StopsAtFirst([c] + tail, results, ([Written(OutputName(c), results(c).value)] + r.0, r.1))
  {
    var cities := [c] + tail;
    var ws := [Written(OutputName(c), results(c).value)] + r.0;
    if r.1 {
      var k :| 0 <= k < |tail| && results(tail[k]).None?;
      assert cities[k + 1] == tail[k];
      assert cities[|ws|] == tail[|r.0|];
    }
    if exists k :: 0 <= k < |cities| && results(cities[k]).None? {
      var k :| 0 <= k < |cities| && results(cities[k]).None?;
      assert k > 0 && tail[k - 1] == cities[k];
    }
    forall k | 0 <= k < |ws|
      ensures ws[k].name == OutputName(cities[k]) && results(cities[k]) == Some(ws[k].rows)
    {
      if k > 0 {
        assert ws[k] == r.0[k - 1] && cities[k] == tail[k - 1];
      }
    }
  }

  /** A city raises exactly when none of its frames has the rain column. */
  lemma ResultsRaise(groups: map<string, seq<PJ.Frame>>, c: string)
    requires c in groups
    ensures Results(groups)(c).None? <==> forall k :: 0 <= k < |groups[c]| ==> PJ.Rain !in groups[c][k].fields
  {
  }

  /** `results` gives the rows of every city of `cities` from that city's frames. */
  ghost predicate Computes(cities: seq<string>, groups: map<string, seq<PJ.Frame>>,
                           results: string -> Option<seq<OutRow>>)
    decreases |cities|
  {
    cities != [] ==>
      cities[0] in groups && results(cities[0]) == CityRows(groups[cities[0]]) &&
      Computes(cities[1..], groups, results)
  }

  lemma {:induction false} ResultsCompute(cities: seq<string>, groups: map<string, seq<PJ.Frame>>)
    requires forall c :: c in cities ==> c in groups
    ensures Computes(cities, groups, Results(groups))
    decreases |cities|
  {
    if cities != [] {
      assert cities[0] in cities;
      assert forall c :: c in cities[1..] ==> c in cities;
      ResultsCompute(cities[1..], groups);
    }
  }

  /** The loop over `cidades_consolidadas.items()`. */
  method WriteCities(cities: seq<string>, groups: map<string, seq<PJ.Frame>>)
    returns (written: seq<Written>, failed: bool)
    requires forall c :: c in cities ==> c in groups
    ensures written == WriteSpec(cities, Results(groups)).0
    ensures failed == WriteSpec(cities, Results(groups)).1
  {
    ResultsCompute(cities, groups);
    written, failed := WriteEach(cities, groups, Results(groups));
  }

  /** The rows of the next city, `cities[i]`. */
  method CityResult(cities: seq<string>, i: nat, groups: map<string, seq<PJ.Frame>>,
                    ghost results: string -> Option<seq<OutRow>>)
    returns (rows: Option<seq<OutRow>>)
    requires i < |cities| && Computes(cities[i..], groups, results)
    ensures rows == results(cities[i]) && Computes(cities[i + 1..], groups, results)
  {
    assert cities[i..][0] == cities[i] && cities[i..][1..] == cities[i + 1..];
    rows := Consolidate(groups[cities[i]]);
  }

  /** One more city of the loop: with the files before `cities[i]` written, either that city
      raises and the script ends with them, or its file follows them. */
  lemma WriteSpecStep(cities: seq<string>, results: string -> Option<seq<OutRow>>, i: nat,
                      written: seq<Written>)
    requires i < |cities|
    requires WriteSpec(cities, results).0 == written + WriteSpec(cities[i..], results).0
    requires WriteSpec(cities, results).1 == WriteSpec(cities[i..], results).1
    ensures results(cities[i]).None? ==>
      WriteSpec(cities, results).0 == written && WriteSpec(cities, results).1
    ensures results(cities[i]).Some? ==>
      var w := Written(OutputName(cities[i]), results(cities[i]).value);
      && WriteSpec(cities, results).0 == (written + [w]) + WriteSpec(cities[i + 1..], results).0
      && WriteSpec(cities, results).1 == WriteSpec(cities[i + 1..], results).1
  {
    assert cities[i..][1..] == cities[i + 1..];
    assert cities[i..][0] == cities[i];
    var rest := WriteSpec(cities[i + 1..], results);
    if results(cities[i]).None? {
      assert written + [] == written;
    } else {
      var w := Written(OutputName(cities[i]), results(cities[i]).value);
      assert WriteSpec(cities[i..], results) == ([w] + rest.0, rest.1);
      assert written + ([w] + rest.0) == (written + [w]) + rest.0;
    }
  }

  /** The same loop, `results` standing for the rows each city's frames give. */
  method WriteEach(cities: seq<string>, groups: map<string, seq<PJ.Frame>>,
                   ghost results: string -> Option<seq<OutRow>>)
    returns (written: seq<Written>, failed: bool)
    requires Computes(cities, groups, results)
    ensures written == WriteSpec(cities, results).0
    ensures failed == WriteSpec(cities, results).1
  {
    written, failed := [], false;
    var i := 0;
    assert cities[0..] == cities;
    assert [] + WriteSpec(cities, results).0 == WriteSpec(cities, results).0;
    while i < |cities| && !failed
      invariant 0 <= i <= |cities|
      invariant !failed ==> Computes(cities[i..], groups, results)
      invariant !failed ==> WriteSpec(cities, results).0 == written + WriteSpec(cities[i..], results).0
      invariant !failed ==> WriteSpec(cities, results).1 == WriteSpec(cities[i..], results).1
      invariant failed ==> WriteSpec(cities, results).0 == written && WriteSpec(cities, results).1
      decreases |cities| - i, if failed then 0 else 1
    {
      var rows := CityResult(cities, i, groups, results);
      WriteSpecStep(cities, results, i, written);
      if rows.None? {
        failed := true;
      } else {
        written := written + [Written(OutputName(cities[i]), rows.value)];
        i := i + 1;
      }
    }
    if !failed {
      assert cities[i..] == [];
      assert written + [] == written;
    }
  }

  /** `juntar_datasets` of PREVISOR/app.py: the listings, the frames of every pair collected
      per city, and the cities' files written in the order the cities were first met. */
  method JoinDatasets(listing: seq<string>, walk: seq<InmetFilter.Dir>, read: PJ.Tables)
    returns (written: seq<Written>, failed: bool)
    ensures var ms := PJ.AllFrames(PJ.AneelFiles(listing), PJ.InmetFiles(walk), read);
      written == WriteSpec(PJ.Order(ms), Results(PJ.Groups(ms))).0 &&
      failed == WriteSpec(PJ.Order(ms), Results(PJ.Groups(ms))).1
  {
    var aneels := PJ.AneelFiles(listing);
    var inmets := PJ.ListInmetFiles(walk);
    var order, groups := PJ.Collect(aneels, inmets, read);
    written, failed := WriteCities(order, groups);
  }
}
