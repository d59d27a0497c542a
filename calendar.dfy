/** Calendar timestamps at one-second resolution, their order, flooring to the hour, and the
    fixed-format parser that pandas' `to_datetime(..., format='%d/%m/%Y %H%M', errors='coerce')`
    applies to one text value. */
module Calendar {
  import opened Base
  import opened Text
  import opened Numbers

  datatype Timestamp = Timestamp(year: int, month: int, day: int, hour: int, minute: int, second: int)

  predicate IsLeap(y: int) {
    (y % 4 == 0 && y % 100 != 0) || y % 400 == 0
  }

  function DaysInMonth(y: int, m: int): (n: int)
    requires 1 <= m <= 12
    ensures 28 <= n <= 31
  {
    if m == 2 then (if IsLeap(y) then 29 else 28)
    else if m == 4 || m == 6 || m == 9 || m == 11 then 30
    else 31
  }

  predicate ValidDate(y: int, m: int, d: int) {
    1 <= m <= 12 && 1 <= d <= DaysInMonth(y, m)
  }

  /** A proleptic Gregorian date and a time of day. */
  predicate Valid(t: Timestamp) {
    ValidDate(t.year, t.month, t.day) &&
    0 <= t.hour < 24 && 0 <= t.minute < 60 && 0 <= t.second < 60
  }

  /** Chronological order: lexicographic on (year, month, day, hour, minute, second). */
  predicate Before(a: Timestamp, b: Timestamp) {
    if a.year != b.year then a.year < b.year
    else if a.month != b.month then a.month < b.month
    else if a.day != b.day then a.day < b.day
    else if a.hour != b.hour then a.hour < b.hour
    else if a.minute != b.minute then a.minute < b.minute
    else a.second < b.second
  }

  predicate NotAfter(a: Timestamp, b: Timestamp) {
    a == b || Before(a, b)
  }

  lemma BeforeTrans(a: Timestamp, b: Timestamp, c: Timestamp)
    requires Before(a, b) && Before(b, c)
    ensures Before(a, c)
  {
  }

  /** Exactly one of `a < b`, `a == b`, `b < a` holds. */
  lemma BeforeTotal(a: Timestamp, b: Timestamp)
    ensures Before(a, b) || a == b || Before(b, a)
    ensures !(Before(a, b) && Before(b, a))
    ensures !Before(a, a)
  {
  }

  /** The representable range of a nanosecond pandas timestamp, at whole seconds
      (1677-09-21 00:12:43.145224193 to 2262-04-11 23:47:16.854775807). */
  const PandasMin := Timestamp(1677, 9, 21, 0, 12, 44)
  const PandasMax := Timestamp(2262, 4, 11, 23, 47, 16)

  predicate InRange(t: Timestamp) {
    NotAfter(PandasMin, t) && NotAfter(t, PandasMax)
  }

  predicate OnTheHour(t: Timestamp) {
    t.minute == 0 && t.second == 0
  }

  /** `Series.dt.floor('H')`: minutes and seconds are truncated. */
  function FloorHour(t: Timestamp): (r: Timestamp)
    ensures OnTheHour(r)
    ensures Valid(t) ==> Valid(r)
    ensures Valid(t) ==> NotAfter(r, t)
  {
    var r := t.(minute := 0, second := 0);
    assert OnTheHour(t) ==> r == t;
    r
  }

  /** The floor is the latest on-the-hour timestamp that is not after `t`. */
  lemma FloorHourGreatest(t: Timestamp, u: Timestamp)
    requires OnTheHour(u) && NotAfter(u, t)
    ensures NotAfter(u, FloorHour(t))
  {
  }

  /** Two timestamps have the same floor exactly when they fall in the same hour. */
  lemma FloorHourSame(a: Timestamp, b: Timestamp)
    ensures FloorHour(a) == FloorHour(b) <==>
      (a.year, a.month, a.day, a.hour) == (b.year, b.month, b.day, b.hour)
  {
  }

  lemma FloorHourIdempotent(t: Timestamp)
    ensures FloorHour(FloorHour(t)) == FloorHour(t)
    ensures OnTheHour(t) ==> FloorHour(t) == t
  {
  }

  // ---------------------------------------------------------------- sorted sets of timestamps

  predicate Increasing(ts: seq<Timestamp>) {
    forall i, j :: 0 <= i < j < |ts| ==> Before(ts[i], ts[j])
  }

  /** `t` inserted into an increasing sequence, unless it is already there. */
  function Insert(t: Timestamp, ts: seq<Timestamp>): (r: seq<Timestamp>)
    requires Increasing(ts)
    ensures Increasing(r)
    ensures forall u :: u in r <==> u == t || u in ts
  {
    if ts == [] then [t]
    else if t == ts[0] then ts
    else if Before(t, ts[0]) then
      BeforeAll(t, ts);
      [t] + ts
    else
      var rest := Insert(t, ts[1..]);
      assert forall u :: u in rest ==> Before(ts[0], u) by {
        forall u | u in rest ensures Before(ts[0], u) {
          if u != t {
            var k :| 0 <= k < |ts[1..]| && ts[1..][k] == u;
            assert ts[k + 1] == u;
          } else {
            BeforeTotal(t, ts[0]);
          }
        }
      }
      IncreasingCons(ts[0], rest);
      [ts[0]] + rest
  }

  lemma BeforeAll(t: Timestamp, ts: seq<Timestamp>)
    requires Increasing(ts) && ts != [] && Before(t, ts[0])
    ensures Increasing([t] + ts)
  {
    forall j | 0 < j < |ts| ensures Before(t, ts[j]) {
      BeforeTrans(t, ts[0], ts[j]);
    }
  }

  lemma IncreasingCons(t: Timestamp, ts: seq<Timestamp>)
    requires Increasing(ts) && forall u :: u in ts ==> Before(t, u)
    ensures Increasing([t] + ts)
  {
    var r := [t] + ts;
    forall i, j | 0 <= i < j < |r| ensures Before(r[i], r[j]) {
      if i == 0 {
        assert r[j] == ts[j - 1];
      } else {
        assert r[i] == ts[i - 1] && r[j] == ts[j - 1];
      }
    }
  }

  /** The distinct elements of `ts` in increasing order. */
  function SortDistinct(ts: seq<Timestamp>): (r: seq<Timestamp>)
    ensures Increasing(r)
    ensures forall u :: u in r <==> u in ts
  {
    if ts == [] then []
    else
      var r := Insert(ts[|ts| - 1], SortDistinct(ts[..|ts| - 1]));
      assert ts == ts[..|ts| - 1] + [ts[|ts| - 1]];
      r
  }

  // ---------------------------------------------------------------- the '%d/%m/%Y %H%M' parser

  /** The pieces of the regular expression Python's `_strptime` builds for the format
      '%d/%m/%Y %H%M': `%d` is `3[01]|[12]\d|0[1-9]|[1-9]| [1-9]`, `%m` is `1[0-2]|0[1-9]|[1-9]`,
      `%Y` is `\d\d\d\d`, the blank is `\s+`, `%H` is `2[0-3]|[0-1]\d|\d` and `%M` is
      `[0-5]\d|\d`. */
  datatype Field = DayField | MonthField | YearField | HourField | MinuteField | Lit(c: char) | Blanks

  const DmyHm: seq<Field> :=
    [DayField, Lit('/'), MonthField, Lit('/'), YearField, Blanks, HourField, MinuteField]

  predicate DigitAt(s: string, i: nat) { i < |s| && IsDigit(s[i]) }
  predicate NonZeroAt(s: string, i: nat) { i < |s| && '1' <= s[i] <= '9' }
  predicate CharAt(s: string, i: nat, c: char) { i < |s| && s[i] == c }
  predicate RangeAt(s: string, i: nat, lo: char, hi: char) { i < |s| && lo <= s[i] <= hi }

  /** An alternative of length `len` that matches when `b` holds. */
  function If(b: bool, len: nat): seq<nat> { if b then [len] else [] }

  /** The number of whitespace characters starting at `i`. */
  function BlankRun(s: string, i: nat): (n: nat)
    requires i <= |s|
    ensures i + n <= |s|
    ensures forall k :: i <= k < i + n ==> IsSpace(s[k])
    ensures i + n == |s| || !IsSpace(s[i + n])
    decreases |s| - i
  {
    if i < |s| && IsSpace(s[i]) then 1 + BlankRun(s, i + 1) else 0
  }

  /** `n, n-1, ..., 1`: the lengths a greedy `\s+` tries, longest first. */
  function Downwards(n: nat): (r: seq<nat>)
    ensures |r| == n
    ensures forall k :: 0 <= k < n ==> r[k] == n - k
  {
    if n == 0 then [] else [n] + Downwards(n - 1)
  }

  /** The lengths of the alternatives of `f` that match at `i`, in the order the regular
      expression engine tries them. */
  function Alternatives(f: Field, s: string, i: nat): (r: seq<nat>) {
    match f
    case DayField =>
      If(CharAt(s, i, '3') && RangeAt(s, i + 1, '0', '1'), 2) +
      If(RangeAt(s, i, '1', '2') && DigitAt(s, i + 1), 2) +
      If(CharAt(s, i, '0') && NonZeroAt(s, i + 1), 2) +
      If(NonZeroAt(s, i), 1) +
      If(CharAt(s, i, ' ') && NonZeroAt(s, i + 1), 2)
    case MonthField =>
      If(CharAt(s, i, '1') && RangeAt(s, i + 1, '0', '2'), 2) +
      If(CharAt(s, i, '0') && NonZeroAt(s, i + 1), 2) +
      If(NonZeroAt(s, i), 1)
    case YearField =>
      If(DigitAt(s, i) && DigitAt(s, i + 1) && DigitAt(s, i + 2) && DigitAt(s, i + 3), 4)
    case HourField =>
      If(CharAt(s, i, '2') && RangeAt(s, i + 1, '0', '3'), 2) +
      If(RangeAt(s, i, '0', '1') && DigitAt(s, i + 1), 2) +
      If(DigitAt(s, i), 1)
    case MinuteField =>
      If(RangeAt(s, i, '0', '5') && DigitAt(s, i + 1), 2) + If(DigitAt(s, i), 1)
    case Lit(c) => If(CharAt(s, i, c), 1)
    case Blanks => if i <= |s| then Downwards(BlankRun(s, i)) else []
  }

  /** The alternatives the engine tries for each field: `Alternatives` for this format. */
  type Alts = (Field, string, nat) -> seq<nat>

  /** A literal field takes exactly its own character. */
  ghost predicate LiteralsExact(alts: Alts) {
    forall f: Field, s: string, i: nat :: f.Lit? && alts(f, s, i) != [] ==>
      i < |s| && s[i] == f.c && alts(f, s, i) == [1]
  }

  /** A successful match: where the text of each field starts, and where the match ends. */
  datatype Match = Match(starts: seq<nat>, end: nat)

  /** The text from `a` to `b`, or nothing when that is not a range of `s`. */
  function Piece(s: string, a: nat, b: nat): string {
    if a <= b <= |s| then s[a..b] else ""
  }

  /** `re.match` of the fields `fs[j..]` at position `i`, with backtracking: the first
      combination of alternatives, in priority order, that matches. The match need not reach the
      end of `s`. */
  function MatchFields(s: string, i: nat, fs: seq<Field>, j: nat, alts: Alts): (r: Option<Match>)
    requires i <= |s| && j <= |fs|
    ensures r.Some? ==> |r.value.starts| == |fs| - j && i <= r.value.end <= |s|
    decreases |fs| - j, 1
  {
    if j == |fs| then Some(Match([], i)) else TryAlternatives(s, i, fs, j, alts(fs[j], s, i), alts)
  }

  function TryAlternatives(s: string, i: nat, fs: seq<Field>, j: nat, lens: seq<nat>, alts: Alts): (r: Option<Match>)
    requires i <= |s| && j < |fs|
    ensures r.Some? ==> |r.value.starts| == |fs| - j && i <= r.value.end <= |s|
    decreases |fs| - j, 0, |lens|
  {
    if lens == [] then None
    else if i + lens[0] > |s| then TryAlternatives(s, i, fs, j, lens[1..], alts)
    else
      match MatchFields(s, i + lens[0], fs, j + 1, alts)
      case Some(m) => Some(Match([i] + m.starts, m.end))
      case None => TryAlternatives(s, i, fs, j, lens[1..], alts)
  }

  /** A literal field only matches its own character, so a match of `fs[j..]` at `i` shows every
      literal among them in the text from `i` on. */
  lemma {:induction false} MatchHasLiterals(s: string, i: nat, fs: seq<Field>, j: nat, alts: Alts, k: nat)
    requires LiteralsExact(alts)
    requires i <= |s| && j <= |fs| && MatchFields(s, i, fs, j, alts).Some?
    requires j <= k < |fs| && fs[k].Lit?
    ensures fs[k].c in s[i..]
    decreases |fs| - j, 1
  {
    TryHasLiterals(s, i, fs, j, alts(fs[j], s, i), alts, k);
  }

  lemma {:induction false} TryHasLiterals(s: string, i: nat, fs: seq<Field>, j: nat, lens: seq<nat>, alts: Alts, k: nat)
    requires LiteralsExact(alts)
    requires i <= |s| && j < |fs|
    requires fs[j].Lit? ==> lens == [] || (lens == [1] && i < |s| && s[i] == fs[j].c)
    requires TryAlternatives(s, i, fs, j, lens, alts).Some?
    requires j <= k < |fs| && fs[k].Lit?
    ensures fs[k].c in s[i..]
    decreases |fs| - j, 0, |lens|, 1
  {
    var len := lens[0];
    if i + len <= |s| && MatchFields(s, i + len, fs, j + 1, alts).Some? {
      if k == j {
        assert s[i..][0] == s[i];
      } else {
        TryHead(s, i, fs, j, len, alts, k);
      }
    } else {
      TryTail(s, i, fs, j, lens, alts, k);
    }
  }

  lemma {:induction false} TryHead(s: string, i: nat, fs: seq<Field>, j: nat, len: nat, alts: Alts, k: nat)
    requires LiteralsExact(alts)
    requires i + len <= |s| && j < |fs| && MatchFields(s, i + len, fs, j + 1, alts).Some?
    requires j < k < |fs| && fs[k].Lit?
    ensures fs[k].c in s[i..]
    decreases |fs| - j, 0, 0, 0
  {
    MatchHasLiterals(s, i + len, fs, j + 1, alts, k);
    SuffixMember(s, i, i + len, fs[k].c);
  }

  lemma {:induction false} TryTail(s: string, i: nat, fs: seq<Field>, j: nat, lens: seq<nat>, alts: Alts, k: nat)
    requires LiteralsExact(alts)
    requires i <= |s| && j < |fs| && lens != []
    requires fs[j].Lit? ==> lens == [] || (lens == [1] && i < |s| && s[i] == fs[j].c)
    requires TryAlternatives(s, i, fs, j, lens, alts).Some?
    requires !(i + lens[0] <= |s| && MatchFields(s, i + lens[0], fs, j + 1, alts).Some?)
    requires j <= k < |fs| && fs[k].Lit?
    ensures fs[k].c in s[i..]
    decreases |fs| - j, 0, |lens|, 0
  {
    TryHasLiterals(s, i, fs, j, lens[1..], alts, k);
  }

  /** The alternatives of this format take a literal exactly. */
  lemma AlternativesLiteralsExact()
    ensures LiteralsExact(Alternatives)
  {
    forall f: Field, s: string, i: nat | f.Lit? && Alternatives(f, s, i) != []
      ensures i < |s| && s[i] == f.c && Alternatives(f, s, i) == [1]
    {
      assert Alternatives(f, s, i) == If(CharAt(s, i, f.c), 1);
    }
  }

  lemma SuffixMember(s: string, i: nat, j: nat, c: char)
    requires i <= j <= |s| && c in s[j..]
    ensures c in s[i..]
  {
    var k :| 0 <= k < |s[j..]| && s[j..][k] == c;
    assert s[i..][k + j - i] == c;
  }

  /** `pd.to_datetime(v, format='%d/%m/%Y %H%M', errors='coerce')` on one text value. `None` is
      NaT: the pattern does not match at the start, the match leaves unconverted text, the date
      does not exist, or the timestamp is outside the pandas range. */
  function ParseDmyHm(s: string): (r: Option<Timestamp>)
    ensures r.Some? ==> Valid(r.value) && InRange(r.value) && r.value.second == 0
  {
    match MatchFields(s, 0, DmyHm, 0, Alternatives)
    case None => None
    case Some(m) =>
      if m.end != |s| then None
      else
        var d, mo, y, h, mi :=
          ParseInt(Piece(s, m.starts[0], m.starts[1])), ParseInt(Piece(s, m.starts[2], m.starts[3])),
          ParseInt(Piece(s, m.starts[4], m.starts[5])), ParseInt(Piece(s, m.starts[6], m.starts[7])),
          ParseInt(Piece(s, m.starts[7], m.end));
        if d.None? || mo.None? || y.None? || h.None? || mi.None? then None
        else
          var t := Timestamp(y.value, mo.value, d.value, h.value, mi.value, 0);
          if Valid(t) && InRange(t) then Some(t) else None
  }

  /** Text without a '/' never matches the day-first format: an ISO date such as
      "2020-01-01 0000" becomes NaT instead of raising. */
  lemma {:induction false} NoSlashNoTimestamp(s: string)
    requires '/' !in s
    ensures ParseDmyHm(s) == None
  {
    match MatchFields(s, 0, DmyHm, 0, Alternatives)
    case None =>
    case Some(m) =>
      AlternativesLiteralsExact();
      MatchHasLiterals(s, 0, DmyHm, 0, Alternatives, 1);
  }

  // ---------------------------------------------------------------- rendering and round trip

  function TwoDigits(n: nat): (r: string)
    requires n < 100
    ensures |r| == 2 && AllDigits(r)
  {
    [DigitChar(n / 10), DigitChar(n % 10)]
  }

  function FourDigits(n: nat): (r: string)
    requires n < 10000
    ensures |r| == 4 && AllDigits(r)
  {
    TwoDigits(n / 100) + TwoDigits(n % 100)
  }

  /** The canonical 'dd/mm/yyyy HHMM' text of a timestamp. */
  function FormatDmyHm(t: Timestamp): (r: string)
    requires Valid(t) && 0 <= t.year < 10000
    ensures |r| == 15
    ensures r[0..2] == TwoDigits(t.day) && r[2] == '/' && r[3..5] == TwoDigits(t.month) &&
      r[5] == '/' && r[6..10] == FourDigits(t.year) && r[10] == ' ' &&
      r[11..13] == TwoDigits(t.hour) && r[13..15] == TwoDigits(t.minute)
  {
    var y := t.year;
    [DigitChar(t.day / 10), DigitChar(t.day % 10), '/',
     DigitChar(t.month / 10), DigitChar(t.month % 10), '/',
     DigitChar(y / 100 / 10), DigitChar(y / 100 % 10), DigitChar(y % 100 / 10), DigitChar(y % 100 % 10), ' ',
     DigitChar(t.hour / 10), DigitChar(t.hour % 10), DigitChar(t.minute / 10), DigitChar(t.minute % 10)]
  }

  lemma TwoDigitsValue(n: nat)
    requires n < 100
    ensures DigitsValue(TwoDigits(n)) == n
    ensures ParseInt(TwoDigits(n)) == Some(n)
  {
    var r := TwoDigits(n);
    assert r[..1] == [r[0]] && r[..1][..0] == [];
    assert DigitsValue(r[..1]) == n / 10;
    assert DigitsValue(r) == (n / 10) * 10 + n % 10;
    DigitsParseInt(r);
  }

  lemma FourDigitsValue(n: nat)
    requires n < 10000
    ensures ParseInt(FourDigits(n)) == Some(n)
  {
    var hi, lo := n / 100, n % 100;
    assert DigitsValue(FourDigits(n)) == n by {
      TwoDigitsValue(hi);
      TwoDigitsValue(lo);
      var a, b := TwoDigits(hi), TwoDigits(lo);
      DigitsValueAppend(a, b);
      assert Pow10(|b|) == 100 by { assert |b| == 2; assert Pow10(1) == 10; }
      assert DigitsValue(a + b) == hi * 100 + lo;
    }
    DigitsParseInt(FourDigits(n));
  }

  /** One step of the matcher: when the first alternative of field `j` leads to a match of the
      fields after it, that is the match. */
  lemma MatchFirst(s: string, i: nat, fs: seq<Field>, j: nat, alts: Alts, len: nat)
    requires i <= |s| && j < |fs|
    requires alts(fs[j], s, i) != [] && alts(fs[j], s, i)[0] == len
    requires i + len <= |s|
    requires MatchFields(s, i + len, fs, j + 1, alts).Some?
    ensures MatchFields(s, i, fs, j, alts) ==
      Some(Match([i] + MatchFields(s, i + len, fs, j + 1, alts).value.starts,
                 MatchFields(s, i + len, fs, j + 1, alts).value.end))
  {
    assert MatchFields(s, i, fs, j, alts) == TryAlternatives(s, i, fs, j, alts(fs[j], s, i), alts);
  }

  /** A two-digit day from 01 to 31 is the first alternative tried for `%d`. */
  lemma DayFirst(s: string, i: nat)
    requires i <= |s| && RangeAt(s, i, '0', '3') && DigitAt(s, i + 1)
    requires (s[i] == '3' ==> s[i + 1] <= '1') && (s[i] == '0' ==> s[i + 1] != '0')
    ensures Alternatives(DayField, s, i) != [] && Alternatives(DayField, s, i)[0] == 2
  {
  }

  lemma MonthFirst(s: string, i: nat)
    requires i <= |s| && RangeAt(s, i, '0', '1') && DigitAt(s, i + 1)
    requires (s[i] == '1' ==> s[i + 1] <= '2') && (s[i] == '0' ==> s[i + 1] != '0')
    ensures Alternatives(MonthField, s, i) != [] && Alternatives(MonthField, s, i)[0] == 2
  {
  }

  lemma HourFirst(s: string, i: nat)
    requires i <= |s| && RangeAt(s, i, '0', '2') && DigitAt(s, i + 1) && (s[i] == '2' ==> s[i + 1] <= '3')
    ensures Alternatives(HourField, s, i) != [] && Alternatives(HourField, s, i)[0] == 2
  {
  }

  lemma MinuteFirst(s: string, i: nat)
    requires i <= |s| && RangeAt(s, i, '0', '5') && DigitAt(s, i + 1)
    ensures Alternatives(MinuteField, s, i) != [] && Alternatives(MinuteField, s, i)[0] == 2
  {
  }

  lemma YearFirst(s: string, i: nat)
    requires i <= |s| && DigitAt(s, i) && DigitAt(s, i + 1) && DigitAt(s, i + 2) && DigitAt(s, i + 3)
    ensures Alternatives(YearField, s, i) == [4]
  {
  }

  lemma LitFirst(s: string, i: nat, c: char)
    requires i <= |s| && CharAt(s, i, c)
    ensures Alternatives(Lit(c), s, i) == [1]
  {
  }

  /** A single blank followed by a non-blank: `\s+` can only take the one character. */
  lemma BlankFirst(s: string, i: nat)
    requires i + 1 < |s| && IsSpace(s[i]) && !IsSpace(s[i + 1])
    ensures Alternatives(Blanks, s, i) == [1]
  {
    assert BlankRun(s, i + 1) == 0;
  }

  /** The fields of the format, one by one. */
  lemma FieldsOfDmyHm()
    ensures |DmyHm| == 8
    ensures DmyHm[0] == DayField && DmyHm[1] == Lit('/') && DmyHm[2] == MonthField && DmyHm[3] == Lit('/')
    ensures DmyHm[4] == YearField && DmyHm[5] == Blanks && DmyHm[6] == HourField && DmyHm[7] == MinuteField
  {
  }

  /** Field `j` and every field after it match with their first alternative, field `k`
      starting at `pos[k]` and the last one ending at `end`. */
  predicate FirstAlternatives(s: string, fs: seq<Field>, j: nat, alts: Alts, pos: seq<nat>, end: nat)
    decreases |fs| - j
  {
    |pos| == |fs| && j < |fs| &&
    var next := if j + 1 < |fs| then pos[j + 1] else end;
    pos[j] <= next <= |s| && alts(fs[j], s, pos[j]) != [] && alts(fs[j], s, pos[j])[0] == next - pos[j] &&
    (j + 1 < |fs| ==> FirstAlternatives(s, fs, j + 1, alts, pos, end))
  }

  /** When every field takes its first alternative, the matcher does not backtrack: the match
      is that chain. */
  lemma {:induction false} FirstAlternativesMatch(s: string, fs: seq<Field>, j: nat, alts: Alts, pos: seq<nat>, end: nat)
    requires FirstAlternatives(s, fs, j, alts, pos, end)
    ensures MatchFields(s, pos[j], fs, j, alts) == Some(Match(pos[j..], end))
    decreases |fs| - j
  {
    if j + 1 < |fs| {
      FirstAlternativesMatch(s, fs, j + 1, alts, pos, end);
      MatchFirst(s, pos[j], fs, j, alts, pos[j + 1] - pos[j]);
      assert pos[j..] == [pos[j]] + pos[j + 1..];
    } else {
      assert MatchFields(s, end, fs, j + 1, alts) == Some(Match([], end));
      MatchFirst(s, pos[j], fs, j, alts, end - pos[j]);
      assert pos[j..] == [pos[j]] + [];
    }
  }

  /** The hour and minute of canonical text: "HHMM" after the blank at position 10. */
  predicate CanonicalTime(s: string) {
    |s| == 15 && s[10] == ' ' &&
    RangeAt(s, 11, '0', '2') && DigitAt(s, 12) && (s[11] == '2' ==> s[12] <= '3') &&
    RangeAt(s, 13, '0', '5') && DigitAt(s, 14)
  }

  /** The date of canonical text: "dd/mm/yyyy" at positions 0 to 9. */
  predicate CanonicalDate(s: string) {
    |s| >= 10 &&
    RangeAt(s, 0, '0', '3') && DigitAt(s, 1) && (s[0] == '3' ==> s[1] <= '1') &&
    (s[0] == '0' ==> s[1] != '0') &&
    s[2] == '/' && s[5] == '/' &&
    RangeAt(s, 3, '0', '1') && DigitAt(s, 4) && (s[3] == '1' ==> s[4] <= '2') &&
    (s[3] == '0' ==> s[4] != '0') &&
    DigitAt(s, 6) && DigitAt(s, 7) && DigitAt(s, 8) && DigitAt(s, 9)
  }

  /** Where the fields of canonical text start. */
  const CanonicalStarts: seq<nat> := [0, 2, 3, 5, 6, 10, 11, 13]

  /** The blank, the hour and the minute of canonical text take their first alternatives. */
  lemma CanonicalTimeFirst(s: string)
    requires CanonicalTime(s)
    ensures FirstAlternatives(s, DmyHm, 5, Alternatives, CanonicalStarts, 15)
  {
    FieldsOfDmyHm();
    var fs, pos := DmyHm, CanonicalStarts;
    MinuteFirst(s, 13);
    assert FirstAlternatives(s, fs, 7, Alternatives, pos, 15);
    HourFirst(s, 11);
    assert FirstAlternatives(s, fs, 6, Alternatives, pos, 15);
    BlankFirst(s, 10);
  }

  /** So do the year and the slash before it. */
  lemma CanonicalYearFirst(s: string)
    requires CanonicalTime(s) && CanonicalDate(s)
    ensures FirstAlternatives(s, DmyHm, 3, Alternatives, CanonicalStarts, 15)
  {
    CanonicalTimeFirst(s);
    FieldsOfDmyHm();
    var fs, pos := DmyHm, CanonicalStarts;
    YearFirst(s, 6);
    assert FirstAlternatives(s, fs, 4, Alternatives, pos, 15);
    LitFirst(s, 5, '/');
  }

  /** And the day, the month and the slash between them. */
  lemma CanonicalDateFirst(s: string)
    requires CanonicalTime(s) && CanonicalDate(s)
    ensures FirstAlternatives(s, DmyHm, 0, Alternatives, CanonicalStarts, 15)
  {
    CanonicalYearFirst(s);
    FieldsOfDmyHm();
    var fs, pos := DmyHm, CanonicalStarts;
    MonthFirst(s, 3);
    assert FirstAlternatives(s, fs, 2, Alternatives, pos, 15);
    LitFirst(s, 2, '/');
    assert FirstAlternatives(s, fs, 1, Alternatives, pos, 15);
    DayFirst(s, 0);
  }

  /** Text of the canonical shape matches with the first alternative of every field. */
  lemma CanonicalMatches(s: string)
    requires CanonicalTime(s) && CanonicalDate(s)
    ensures MatchFields(s, 0, DmyHm, 0, Alternatives) == Some(Match(CanonicalStarts, 15))
  {
    CanonicalDateFirst(s);
    FirstAlternativesMatch(s, DmyHm, 0, Alternatives, CanonicalStarts, 15);
    assert CanonicalStarts[0..] == CanonicalStarts;
  }

  lemma FormatIsCanonical(t: Timestamp)
    requires Valid(t) && 0 <= t.year < 10000
    ensures CanonicalTime(FormatDmyHm(t)) && CanonicalDate(FormatDmyHm(t))
  {
    assert t.day / 10 < 4 && t.month / 10 < 2 && t.hour / 10 < 3 && t.minute / 10 < 6;
  }

  /** The day, month and year pieces of the canonical text read back as those numbers. */
  lemma FormatDatePieces(t: Timestamp)
    requires Valid(t) && 0 <= t.year < 10000
    ensures var s, p := FormatDmyHm(t), CanonicalStarts;
      ParseInt(Piece(s, p[0], p[1])) == Some(t.day) && ParseInt(Piece(s, p[2], p[3])) == Some(t.month) &&
      ParseInt(Piece(s, p[4], p[5])) == Some(t.year)
  {
    var s, p := FormatDmyHm(t), CanonicalStarts;
    assert p[0] == 0 && p[1] == 2 && p[2] == 3 && p[3] == 5 && p[4] == 6 && p[5] == 10;
    assert Piece(s, 0, 2) == TwoDigits(t.day);
    assert Piece(s, 3, 5) == TwoDigits(t.month);
    assert Piece(s, 6, 10) == FourDigits(t.year);
    TwoDigitsValue(t.day);
    TwoDigitsValue(t.month);
    FourDigitsValue(t.year);
  }

  /** So do its hour and minute pieces. */
  lemma FormatTimePieces(t: Timestamp)
    requires Valid(t) && 0 <= t.year < 10000
    ensures var s, p := FormatDmyHm(t), CanonicalStarts;
      ParseInt(Piece(s, p[6], p[7])) == Some(t.hour) && ParseInt(Piece(s, p[7], 15)) == Some(t.minute)
  {
    var s, p := FormatDmyHm(t), CanonicalStarts;
    assert p[6] == 11 && p[7] == 13;
    assert Piece(s, 11, 13) == TwoDigits(t.hour);
    assert Piece(s, 13, 15) == TwoDigits(t.minute);
    TwoDigitsValue(t.hour);
    TwoDigitsValue(t.minute);
  }

  /** The canonical text of a timestamp parses back to it. */
  lemma FormatParseRoundTrip(t: Timestamp)
    requires Valid(t) && InRange(t) && t.second == 0
    ensures ParseDmyHm(FormatDmyHm(t)) == Some(t)
  {
    FormatIsCanonical(t);
    CanonicalMatches(FormatDmyHm(t));
    FormatDatePieces(t);
    FormatTimePieces(t);
  }
}
