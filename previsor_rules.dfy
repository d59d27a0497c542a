/** The per-row rules PREVISOR/app.py and PREVISOR/app_xgboost.py share line for line:
    `padroniza_data`, the rain and gust thresholds, and Python's `float()` on the text of a
    cell. */
module PrevisorRules {
  import opened Base
  import opened Text
  import opened Numbers
  import opened Calendar

  // ---------------------------------------------------------------- padroniza_data

  predicate DateSep(c: char) { c == '-' || c == '/' }

  /** `^\d{4}[-/]\d{2}[-/]\d{2}$`: a year-first date. */
  predicate YearFirst(s: string) {
    |s| == 10 && AllDigits(s[0..4]) && DateSep(s[4]) && AllDigits(s[5..7]) && DateSep(s[7]) &&
    AllDigits(s[8..10])
  }

  /** `^\d{2}-\d{2}-\d{4}$`: a day-first date with dashes. */
  predicate DashDayFirst(s: string) {
    |s| == 10 && AllDigits(s[0..2]) && s[2] == '-' && AllDigits(s[3..5]) && s[5] == '-' &&
    AllDigits(s[6..10])
  }

  /** `^\d{2}/\d{2}/\d{4}$`: the dd/mm/yyyy shape the normalisation aims at. */
  predicate SlashDayFirst(s: string) {
    |s| == 10 && AllDigits(s[0..2]) && s[2] == '/' && AllDigits(s[3..5]) && s[5] == '/' &&
    AllDigits(s[6..10])
  }

  /** `padroniza_data`: a missing value becomes "", a year-first date is rewritten day first
      with '/', a dashed day-first date gets '/' instead of '-', and anything else is returned
      stripped. */
  function NormaliseDate(v: Option<string>): (r: string)
    ensures v.None? ==> r == ""
    ensures v.Some? && (YearFirst(Strip(v.value)) || DashDayFirst(Strip(v.value))) ==> SlashDayFirst(r)
    ensures v.Some? && !YearFirst(Strip(v.value)) && !DashDayFirst(Strip(v.value)) ==> r == Strip(v.value)
  {
    match v
    case None => ""
    case Some(raw) =>
      var s := Strip(raw);
      if YearFirst(s) then
        var r := s[8..10] + "/" + s[5..7] + "/" + s[0..4];
        assert r[0..2] == s[8..10] && r[3..5] == s[5..7] && r[6..10] == s[0..4];
        r
      else if DashDayFirst(s) then
        var r := ReplaceChar(s, '-', '/');
        assert r[0..2] == s[0..2] && r[3..5] == s[3..5] && r[6..10] == s[6..10];
        r
      else s
  }

  lemma SlashDayFirstIsFixed(s: string)
    requires SlashDayFirst(s)
    ensures !YearFirst(s) && !DashDayFirst(s) && Strip(s) == s
  {
    assert s[0..4][2] == s[2];
    assert !IsDigit(s[0..4][2]);
    StripTrimmed(s);
  }

  /** Applying `padroniza_data` to its own result changes nothing. */
  lemma NormaliseDateIdempotent(v: Option<string>)
    ensures NormaliseDate(Some(NormaliseDate(v))) == NormaliseDate(v)
  {
    var r := NormaliseDate(v);
    if r == "" {
      assert Strip(r) == r;
    } else if SlashDayFirst(r) {
      SlashDayFirstIsFixed(r);
    } else {
      StripIdempotent(v.value);
    }
  }

  /** The text of a date as the ANEEL start column writes it: "yyyy-mm-dd". */
  function IsoDate(y: nat, m: nat, d: nat): string
    requires y < 10000 && m < 100 && d < 100
  {
    FourDigits(y) + "-" + TwoDigits(m) + "-" + TwoDigits(d)
  }

  /** A year-first date keeps its three numbers and swaps the year and the day. */
  lemma NormaliseIsoDate(y: nat, m: nat, d: nat)
    requires y < 10000 && m < 100 && d < 100
    ensures NormaliseDate(Some(IsoDate(y, m, d))) == TwoDigits(d) + "/" + TwoDigits(m) + "/" + FourDigits(y)
  {
    var s := IsoDate(y, m, d);
    assert s[0..4] == FourDigits(y) && s[5..7] == TwoDigits(m) && s[8..10] == TwoDigits(d);
    StripTrimmed(s);
  }

  /** A normalised year-first date followed by the zero-filled four-digit hour is the text the
      day-first timestamp format reads back, so the hour stamp it yields is the one meant. */
  lemma IsoDateStamps(t: Timestamp)
    requires Valid(t) && InRange(t) && t.second == 0 && t.year < 10000
    ensures ParseDmyHm(NormaliseDate(Some(IsoDate(t.year, t.month, t.day))) + " " +
                       ZFill(TwoDigits(t.hour) + TwoDigits(t.minute), 4)) == Some(t)
  {
    NormaliseIsoDate(t.year, t.month, t.day);
    var hm := TwoDigits(t.hour) + TwoDigits(t.minute);
    assert ZFill(hm, 4) == hm;
    FormatPieces(FormatDmyHm(t), TwoDigits(t.day), TwoDigits(t.month), FourDigits(t.year),
                 TwoDigits(t.hour), TwoDigits(t.minute));
    FormatParseRoundTrip(t);
  }

  /** A fifteen-character timestamp text is the concatenation of its pieces. */
  lemma FormatPieces(r: string, d: string, m: string, y: string, h: string, mi: string)
    requires |r| == 15 && |d| == 2 && |m| == 2 && |y| == 4 && |h| == 2 && |mi| == 2
    requires r[0..2] == d && r[2] == '/' && r[3..5] == m && r[5] == '/' && r[6..10] == y &&
             r[10] == ' ' && r[11..13] == h && r[13..15] == mi
    ensures d + "/" + m + "/" + y + " " + (h + mi) == r
  {
    assert r == r[0..2] + [r[2]] + r[3..5] + [r[5]] + r[6..10] + [r[10]] + (r[11..13] + r[13..15]);
  }

  // ---------------------------------------------------------------- risk levels

  datatype Risk = Baixo | Moderado | Alto | MuitoAlto | Critico | Unknown

  /** The text written for a level. */
  function Name(r: Risk): string {
    match r
    case Baixo => "baixo"
    case Moderado => "moderado"
    case Alto => "alto"
    case MuitoAlto => "muito_alto"
    case Critico => "critico"
    case Unknown => "unknown"
  }

  /** The levels in increasing order; `Unknown` is below them all. */
  function Rank(r: Risk): int {
    match r
    case Unknown => -1
    case Baixo => 0
    case Moderado => 1
    case Alto => 2
    case MuitoAlto => 3
    case Critico => 4
  }

  /** The number of thresholds `x` reaches. */
  function Reached(x: real, thresholds: seq<real>): (n: nat)
    ensures n <= |thresholds|
  {
    if thresholds == [] then 0
    else (if thresholds[0] <= x then 1 else 0) + Reached(x, thresholds[1..])
  }

  lemma {:induction false} ReachedMonotone(a: real, b: real, thresholds: seq<real>)
    requires a <= b
    ensures Reached(a, thresholds) <= Reached(b, thresholds)
  {
    if thresholds != [] {
      ReachedMonotone(a, b, thresholds[1..]);
    }
  }

  const RainThresholds: seq<real> := [5.0, 15.0, 30.0]
  const GustThresholds: seq<real> := [10.0, 15.0, 21.0, 25.0]

  /** `rain_risk` on a rain amount, which is never NaN after `fillna(0)`. */
  function RainRisk(mm: real): (r: Risk)
    ensures r != Unknown && r != Critico
  {
    if mm < 5.0 then Baixo
    else if mm < 15.0 then Moderado
    else if mm < 30.0 then Alto
    else MuitoAlto
  }

  /** `wind_risk`'s thresholds on a gust that parsed to a number. */
  function GustRisk(gust: real): (r: Risk)
    ensures r != Unknown
  {
    if gust < 10.0 then Baixo
    else if gust < 15.0 then Moderado
    else if gust < 21.0 then Alto
    else if gust < 25.0 then MuitoAlto
    else Critico
  }

  /** The rain level is the number of the thresholds 5, 15 and 30 mm the amount reaches. */
  lemma RainRiskCounts(mm: real)
    ensures Rank(RainRisk(mm)) == Reached(mm, RainThresholds)
  {
    var t := RainThresholds;
    assert t[1..] == [15.0, 30.0] && t[1..][1..] == [30.0] && t[1..][1..][1..] == [];
    assert Reached(mm, [30.0]) == if 30.0 <= mm then 1 else 0;
  }

  /** The gust level is the number of the thresholds 10, 15, 21 and 25 m/s the gust reaches. */
  lemma GustRiskCounts(gust: real)
    ensures Rank(GustRisk(gust)) == Reached(gust, GustThresholds)
  {
    var t := GustThresholds;
    assert t[1..] == [15.0, 21.0, 25.0] && t[1..][1..] == [21.0, 25.0] && t[1..][1..][1..] == [25.0];
    assert [25.0][1..] == [];
    assert Reached(gust, [25.0]) == if 25.0 <= gust then 1 else 0;
    assert Reached(gust, [21.0, 25.0]) == (if 21.0 <= gust then 1 else 0) + Reached(gust, [25.0]);
    assert Reached(gust, t[1..]) == (if 15.0 <= gust then 1 else 0) + Reached(gust, [21.0, 25.0]);
  }

  /** More rain never lowers the level. */
  lemma RainRiskMonotone(a: real, b: real)
    requires a <= b
    ensures Rank(RainRisk(a)) <= Rank(RainRisk(b))
  {
    RainRiskCounts(a);
    RainRiskCounts(b);
    ReachedMonotone(a, b, RainThresholds);
  }

  /** A stronger gust never lowers the level. */
  lemma GustRiskMonotone(a: real, b: real)
    requires a <= b
    ensures Rank(GustRisk(a)) <= Rank(GustRisk(b))
  {
    GustRiskCounts(a);
    GustRiskCounts(b);
    ReachedMonotone(a, b, GustThresholds);
  }

  // ---------------------------------------------------------------- cells and float()

  /** A cell of the concatenated frame: its column is missing from the frame, it is empty
      (NaN), or it holds text. */
  datatype Cell = Absent | Missing | Text(text: string)

  /** `str(row.get(column, default))`: the default for a missing column, "nan" for an empty
      cell. */
  function CellText(c: Cell, default: string): string {
    match c
    case Absent => default
    case Missing => "nan"
    case Text(s) => s
  }

  /** A Python float: a number or NaN. */
  datatype PyFloat = Finite(value: real) | NaN

  /** The spellings of NaN `float()` accepts, once stripped and lower-cased. */
  predicate NaNText(s: string) {
    var t := LowerStr(Strip(s));
    t == "nan" || t == "+nan" || t == "-nan"
  }

  /** Python `float(s)`: a decimal numeral, or NaN spelt out; `None` is the `ValueError`. */
  function ParseFloat(s: string): (r: Option<PyFloat>)
    ensures r == Some(NaN) <==> ParseDecimal(s).None? && NaNText(s)
    ensures ParseDecimal(s).Some? ==> r == Some(Finite(ParseDecimal(s).value))
    ensures r.None? <==> ParseDecimal(s).None? && !NaNText(s)
  {
    match ParseDecimal(s)
    case Some(v) => Some(Finite(v))
    case None => if NaNText(s) then Some(NaN) else None
  }

  /** The text of an empty cell reads as NaN, and the empty text does not read at all. */
  lemma ParseFloatOfNanAndEmpty()
    ensures ParseFloat("nan") == Some(NaN)
    ensures ParseFloat("") == None
  {
    NonNumeralNotParsed("nan", 0);
    StripTrimmed("nan");
    assert LowerStr("nan") == "nan";
    assert Strip("") == "";
  }

  /** A locale numeral "a,b" reads as the number a.b once its comma is made a point. */
  lemma CommaNumeral(a: string, b: string)
    requires AllDigits(a) && AllDigits(b) && |a| > 0
    ensures ReplaceChar(a + "," + b, ',', '.') == a + "." + b
    ensures ParseDecimal(ReplaceChar(a + "," + b, ',', '.')) == Some(DecimalOf(a, b))
  {
    var s := a + "," + b;
    assert forall i :: 0 <= i < |s| ==> (s[i] == ',' <==> i == |a|);
    assert ReplaceChar(s, ',', '.') == a + "." + b;
    DecimalValue(a, b);
  }

  /** `pd.to_numeric(column.str.replace(',', '.'), errors='coerce').fillna(0)` on one cell: the
      number the text denotes once its commas are points, and 0 for an absent column, an
      empty cell or text that is not a number. */
  function CoercedAmount(c: Cell): (r: real)
    ensures !c.Text? ==> r == 0.0
  {
    match c
    case Text(s) => ParseDecimal(ReplaceChar(s, ',', '.')).GetOr(0.0)
    case _ => 0.0
  }

  /** A locale numeral "a,b" is read as a.b, and a text with a letter as 0. */
  lemma CoercedAmountValues(a: string, b: string, s: string, k: nat)
    requires AllDigits(a) && AllDigits(b) && |a| > 0
    requires k < |s| && !NumeralChar(s[k]) && s[k] != ','
    ensures CoercedAmount(Text(a + "," + b)) == DecimalOf(a, b)
    ensures CoercedAmount(Text(s)) == 0.0
  {
    CommaNumeral(a, b);
    var t := ReplaceChar(s, ',', '.');
    assert t[k] == s[k];
    NonNumeralNotParsed(t, k);
  }
}
