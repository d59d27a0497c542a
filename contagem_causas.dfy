/** GRAFICOS/ANEEL/app_graficos_contagem_total_interrupcoes_cidade.py: the outages of the listed
    years are loaded, their cause text is cleaned and reduced to its last part, only the climatic
    causes are kept, the consumer-set names of Passo Fundo and Santa Maria are unified, and the
    number of outages per cause is drawn as a bar chart. */
module ContagemCausas {
  import opened Base
  import opened Text
  import RF = RandomForestTraining
  import L = AneelLoader

  /** An outage record: the two text columns the cleaning reads, `DscFatoGeradorInterrupcao` and
      `DscConjuntoUnidadeConsumidora`; `None` is NaN (an empty cell, or a column the file lacks). */
  datatype Outage = Outage(cause: Option<string>, conjunto: Option<string>)

  /** Which of the three columns the cleaning indexes a table has: `DscFatoGeradorInterrupcao`,
      `DscConjuntoUnidadeConsumidora` and `DatInicioInterrupcao`. */
  datatype Header = Header(cause: bool, conjunto: bool, start: bool)

  /** One file as `read_csv` gives it: its header and its rows. */
  datatype Sheet = Sheet(header: Header, rows: seq<Outage>)

  /** A table that has all three columns: indexing them raises no `KeyError`. */
  predicate Complete(h: Header) {
    h.cause && h.conjunto && h.start
  }

  /** A kept outage: `Causa_Simples` and `DscConjuntoUnidadeConsumidora_Simples`. */
  datatype Climatic = Climatic(cause: string, city: string)

  /** `CAUSAS_CLIMATICAS`. */
  const ClimaticCauses: seq<string> := ["Temporal", "Descarga Atmosferica", "Vento",
                                        "Galho/Arvore/Vegetacao sobre rede", "Inundacao/Alagamento",
                                        "Arvore ou Vegetacao"]

  /** The entries of `CAUSAS_CLIMATICAS` without a '/'. */
  const ReachableCauses: seq<string> := ["Temporal", "Descarga Atmosferica", "Vento", "Arvore ou Vegetacao"]

  // ---------------------------------------------------------------- the cause column

  /** Every character of a slice of `s` is a character of `s`. */
  lemma SliceChars(s: string, r: string, k: nat)
    requires k + |r| <= |s| && r == s[k..k + |r|]
    ensures forall c :: c in r ==> c in s
  {
    forall c | c in r ensures c in s {
      var i :| 0 <= i < |r| && r[i] == c;
      assert s[k + i] == c;
    }
  }

  lemma StripChars(s: string)
    ensures forall c :: c in Strip(s) ==> c in s
  {
    SliceChars(s, Strip(s), LeadingSpaces(s));
  }

  /** `.str.replace('"', '').str.strip()` on a present cause. */
  function CleanCause(x: string): string {
    Strip(RemoveChar(x, '"'))
  }

  /** The cleaned cause has no double quote and no surrounding whitespace, and every character
      of it comes from the raw text. */
  lemma CleanCauseShape(x: string)
    ensures var r := CleanCause(x);
      '"' !in r && Strip(r) == r && forall c :: c in r ==> c in x
  {
    var s := RemoveChar(x, '"');
    StripChars(s);
    StripIdempotent(s);
  }

  /** `x.split('/')[-1].split(';')[-1].strip()`. */
  function Simplify(x: string): string {
    Strip(LastSegment(LastSegment(x, '/'), ';'))
  }

  /** The longest suffix of `x` without a '/' or a ';'. */
  function SepTail(x: string): (t: string)
    ensures '/' !in t && ';' !in t
    ensures |t| <= |x| && t == x[|x| - |t|..]
    ensures |t| < |x| ==> x[|x| - |t| - 1] == '/' || x[|x| - |t| - 1] == ';'
  {
    if x == [] || x[|x| - 1] == '/' || x[|x| - 1] == ';' then []
    else SepTail(x[..|x| - 1]) + [x[|x| - 1]]
  }

  /** Splitting on '/' and then on ';' leaves the longest suffix without either separator, so
      the simplified cause is that suffix, stripped. */
  lemma {:induction false} SimplifyTail(x: string)
    ensures LastSegment(LastSegment(x, '/'), ';') == SepTail(x)
    ensures Simplify(x) == Strip(SepTail(x))
  {
    if x != [] {
      var init, c := x[..|x| - 1], x[|x| - 1];
      assert x == init + [c];
      SimplifyTail(init);
      LastSegmentSnoc(init, c, '/');
      if c == '/' {
        assert LastSegment(x, '/') == [];
      } else {
        var v := LastSegment(init, '/');
        LastSegmentSnoc(v, c, ';');
      }
    }
  }

  lemma LastSegmentSnoc(v: string, c: char, sep: char)
    ensures LastSegment(v + [c], sep) == if c == sep then [] else LastSegment(v, sep) + [c]
  {
    assert (v + [c])[..|v + [c]| - 1] == v;
  }

  /** Hence a simplified cause holds neither separator and no surrounding whitespace. */
  lemma SimplifyShape(x: string)
    ensures var r := Simplify(x); '/' !in r && ';' !in r && Strip(r) == r
  {
    var t := SepTail(x);
    SimplifyTail(x);
    StripChars(t);
    StripIdempotent(t);
  }

  /** Simplifying twice changes nothing. */
  lemma SimplifyIdempotent(x: string)
    ensures Simplify(Simplify(x)) == Simplify(x)
  {
    var r := Simplify(x);
    SimplifyShape(x);
    LastSegmentAbsent(r, '/');
    LastSegmentAbsent(r, ';');
  }

  /** Text without a '/' is one of the climatic causes exactly when it is a reachable one. */
  lemma NoSlashCause(r: string)
    requires '/' !in r
    ensures r in ClimaticCauses <==> r in ReachableCauses
  {
    assert ClimaticCauses[3][5] == '/';
    assert ClimaticCauses[4][9] == '/';
  }

  /** The two climatic causes written with a '/' can never match a simplified cause, so the
      filter keeps only the other four. */
  lemma KeptCauses(x: string)
    ensures Simplify(x) in ClimaticCauses <==> Simplify(x) in ReachableCauses
  {
    SimplifyShape(x);
    NoSlashCause(Simplify(x));
  }

  // ---------------------------------------------------------------- the city column

  /** The lambda of step 4: any name that mentions Passo Fundo or Santa Maria, in any case,
      becomes that city's name; other names stay. */
  function CanonCity(x: string): string {
    if Contains(UpperStr(x), "PASSO FUNDO") then "PASSO FUNDO"
    else if Contains(UpperStr(x), "SANTA MARIA") then "SANTA MARIA"
    else x
  }

  lemma UpperFixes(s: string)
    requires forall i :: 0 <= i < |s| ==> !('a' <= s[i] <= 'z') && !('\U{E0}' <= s[i] <= '\U{FE}')
    ensures UpperStr(s) == s
  {
  }

  lemma ContainsSelf(s: string)
    ensures Contains(s, s)
  {
    assert OccursAt(s, s, 0);
  }

  /** Unifying the names a second time changes nothing. */
  lemma CanonCityIdempotent(x: string)
    ensures CanonCity(CanonCity(x)) == CanonCity(x)
  {
    var pf, sm := "PASSO FUNDO", "SANTA MARIA";
    UpperFixes(pf);
    UpperFixes(sm);
    ContainsSelf(pf);
    ContainsSelf(sm);
    assert !Contains(sm, pf) by {
      assert pf[0] != sm[0];
    }
  }

  // ---------------------------------------------------------------- the cleaning

  /** The mask of step 3, `Causa_Simples.isin(causes)`, on a row whose cause is present. */
  predicate IsClimatic(causes: seq<string>, o: Outage) {
    o.cause.Some? && Simplify(CleanCause(o.cause.value)) in causes
  }

  function Kept(causes: seq<string>): Outage -> bool {
    o => IsClimatic(causes, o)
  }

  /** A row that makes the cleaning raise when `keep` is the mask: a missing cause fails in the
      `split` of step 2, and a kept row with a missing set name fails in the `upper` of step 4. */
  predicate Unusable(keep: Outage -> bool, o: Outage) {
    o.cause.None? || (keep(o) && o.conjunto.None?)
  }

  /** What the cleaning makes of a kept row. */
  function Simplified(o: Outage): Climatic
    requires o.cause.Some? && o.conjunto.Some?
  {
    Climatic(Simplify(CleanCause(o.cause.value)), CanonCity(o.conjunto.value))
  }

  function SimplifyAll(kept: seq<Outage>): (r: seq<Climatic>)
    requires forall i :: 0 <= i < |kept| ==> kept[i].cause.Some? && kept[i].conjunto.Some?
    ensures |r| == |kept| && forall i :: 0 <= i < |kept| ==> r[i] == Simplified(kept[i])
  {
    seq(|kept|, i requires 0 <= i < |kept| => Simplified(kept[i]))
  }

  /** `limpar_e_simplificar_causas` on a frame with the columns `cols`, with
      `Kept(CAUSAS_CLIMATICAS)` as `keep`; `None` when it raises. A column the frame lacks raises
      a `KeyError` where it is indexed: the cause at step 1, the set name at step 4 and the start
      date at step 5. A missing cell raises in the `split` of step 2 or the `upper` of step 4. */
  function Clean(cols: Header, rows: seq<Outage>, keep: Outage -> bool): Option<seq<Climatic>> {
    if !cols.cause then None
    else if exists i :: 0 <= i < |rows| && rows[i].cause.None? then None
    else
      var kept := Filter(rows, keep);
      if !cols.conjunto then None
      else if exists i :: 0 <= i < |kept| && kept[i].conjunto.None? then None
      else if !cols.start then None
      else
        assert forall i :: 0 <= i < |kept| ==> kept[i] in kept && kept[i] in rows;
        Some(SimplifyAll(kept))
  }

  /** The cleaning raises exactly when the frame lacks one of the three columns or some row is
      unusable. */
  lemma CleanRaises(cols: Header, rows: seq<Outage>, keep: Outage -> bool)
    ensures Clean(cols, rows, keep).None? <==> !Complete(cols) || exists o :: o in rows && Unusable(keep, o)
  {
    var kept := Filter(rows, keep);
    if !Complete(cols) {
    } else if exists i :: 0 <= i < |rows| && rows[i].cause.None? {
      var i :| 0 <= i < |rows| && rows[i].cause.None?;
      assert rows[i] in rows && Unusable(keep, rows[i]);
    } else if exists i :: 0 <= i < |kept| && kept[i].conjunto.None? {
      var i :| 0 <= i < |kept| && kept[i].conjunto.None?;
      assert kept[i] in kept;
      assert Unusable(keep, kept[i]);
    } else {
      forall o | o in rows ensures !Unusable(keep, o) {
        if keep(o) {
          assert o in kept;
          var j :| 0 <= j < |kept| && kept[j] == o;
        }
      }
    }
  }

  /** Otherwise it keeps, in their order, the rows the mask selects and only them, each with its
      simplified cause and its unified city. */
  lemma CleanKeeps(cols: Header, rows: seq<Outage>, keep: Outage -> bool)
    requires Clean(cols, rows, keep).Some?
    ensures var kept := Filter(rows, keep); var r := Clean(cols, rows, keep).value;
      && |r| == |kept|
      && (forall i :: 0 <= i < |r| ==> kept[i].cause.Some? && kept[i].conjunto.Some? && keep(kept[i]))
      && (forall i :: 0 <= i < |r| ==> r[i] == Simplified(kept[i]))
  {
    var kept := Filter(rows, keep);
    forall i | 0 <= i < |kept| ensures kept[i].cause.Some? && kept[i].conjunto.Some? && keep(kept[i]) {
      assert kept[i] in kept;
      assert !(kept[i].conjunto.None?);
      var j :| 0 <= j < |rows| && rows[j] == kept[i];
    }
    assert Clean(cols, rows, keep).value == SimplifyAll(kept);
  }

  // ---------------------------------------------------------------- the counts

  /** How many times `c` occurs in `xs`. */
  function Count(xs: seq<string>, c: string): (n: nat)
    ensures n <= |xs|
    ensures n > 0 <==> c in xs
  {
    if xs == [] then 0
    else
      assert forall x :: x in xs[..|xs| - 1] ==> x in xs;
      assert c in xs <==> c in xs[..|xs| - 1] || c == xs[|xs| - 1];
      Count(xs[..|xs| - 1], c) + if xs[|xs| - 1] == c then 1 else 0
  }

  /** `value_counts()`: each distinct value with its number of occurrences. */
  function ValueCounts(xs: seq<string>): (m: map<string, nat>)
    ensures forall c :: c in m <==> c in xs
    ensures forall c :: c in m ==> m[c] == Count(xs, c) && m[c] > 0
  {
    map c | c in xs :: Count(xs, c)
  }

  /** The sum of the counts that `m` holds for the entries of `cs`. */
  function Tally(m: map<string, nat>, cs: seq<string>): nat {
    if cs == [] then 0
    else Tally(m, cs[..|cs| - 1]) + if cs[|cs| - 1] in m then m[cs[|cs| - 1]] else 0
  }

  /** The sum over `cs` of the occurrences in `xs`. */
  function SumCounts(xs: seq<string>, cs: seq<string>): nat {
    if cs == [] then 0 else SumCounts(xs, cs[..|cs| - 1]) + Count(xs, cs[|cs| - 1])
  }

  predicate Distinct(cs: seq<string>) {
    forall i, j :: 0 <= i < j < |cs| ==> cs[i] != cs[j]
  }

  lemma {:induction false} TallyValueCounts(xs: seq<string>, cs: seq<string>)
    ensures Tally(ValueCounts(xs), cs) == SumCounts(xs, cs)
  {
    if cs != [] {
      TallyValueCounts(xs, cs[..|cs| - 1]);
    }
  }

  lemma {:induction false} SumCountsSnoc(xs: seq<string>, x: string, cs: seq<string>)
    ensures SumCounts(xs + [x], cs) == SumCounts(xs, cs) + Count(cs, x)
  {
    if cs != [] {
      SumCountsSnoc(xs, x, cs[..|cs| - 1]);
      assert (xs + [x])[..|xs + [x]| - 1] == xs;
    }
  }

  lemma {:induction false} CountDistinct(cs: seq<string>, x: string)
    requires Distinct(cs) && x in cs
    ensures Count(cs, x) == 1
  {
    var init := cs[..|cs| - 1];
    if cs[|cs| - 1] == x {
      forall i | 0 <= i < |init| ensures init[i] != x {
        assert cs[i] != cs[|cs| - 1];
      }
    } else {
      assert x in init by {
        var i :| 0 <= i < |cs| && cs[i] == x;
        assert init[i] == x;
      }
      CountDistinct(init, x);
    }
  }

  /** When every value is one of the distinct entries of `cs`, their counts add up to the
      number of values. */
  lemma {:induction false} SumCountsTotal(xs: seq<string>, cs: seq<string>)
    requires Distinct(cs) && forall x :: x in xs ==> x in cs
    ensures SumCounts(xs, cs) == |xs|
  {
    if xs == [] {
      SumCountsEmpty(cs);
    } else {
      var init, x := xs[..|xs| - 1], xs[|xs| - 1];
      assert xs == init + [x];
      assert forall y :: y in init ==> y in xs;
      SumCountsTotal(init, cs);
      SumCountsSnoc(init, x, cs);
      CountDistinct(cs, x);
    }
  }

  lemma {:induction false} SumCountsEmpty(cs: seq<string>)
    ensures SumCounts([], cs) == 0
  {
    if cs != [] {
      SumCountsEmpty(cs[..|cs| - 1]);
    }
  }

  lemma ReachableDistinct()
    ensures Distinct(ReachableCauses)
  {
    assert ReachableCauses[1][0] != ReachableCauses[3][0];
  }

  // ---------------------------------------------------------------- the script

  /** The script raises (in the loader or the cleaning), stops on an empty selection
      (lines 70-72), or draws the count of each cause. */
  datatype Outcome = Raised | NoData | Chart(counts: map<string, nat>)

  /** The rows of the loaded frame, without their year. */
  function Untag(rows: seq<RF.Tagged<Outage>>): (r: seq<Outage>)
    ensures |r| == |rows| && forall i :: 0 <= i < |rows| ==> r[i] == rows[i].row
  {
    seq(|rows|, i requires 0 <= i < |rows| => rows[i].row)
  }

  function Causes(kept: seq<Climatic>): (r: seq<string>)
    ensures |r| == |kept| && forall i :: 0 <= i < |kept| ==> r[i] == kept[i].cause
  {
    seq(|kept|, i requires 0 <= i < |kept| => kept[i].cause)
  }

  /** A row as the concatenated frame holds it when its file has the header `h`: a column the
      file lacks is NaN. */
  function Mask(h: Header, o: Outage): Outage {
    Outage(if h.cause then o.cause else None, if h.conjunto then o.conjunto else None)
  }

  function MaskAll(h: Header, rows: seq<Outage>): (r: seq<Outage>)
    ensures |r| == |rows| && forall i :: 0 <= i < |rows| ==> r[i] == Mask(h, rows[i])
  {
    seq(|rows|, i requires 0 <= i < |rows| => Mask(h, rows[i]))
  }

  /** The rows each file contributes to the frame (`None` for a missing file). */
  function Contents(read: string -> Option<Sheet>): string -> Option<seq<Outage>> {
    f => if read(f).None? then None else Some(MaskAll(read(f).value.header, read(f).value.rows))
  }

  /** Some file read has the column that `col` picks out of its header. */
  predicate HasColumn(read: string -> Option<Sheet>, col: Header -> bool) {
    exists k :: 0 <= k < |L.Files| && read(L.Files[k]).Some? && col(read(L.Files[k]).value.header)
  }

  /** The columns of the frame `pd.concat` builds: those that some file read has. */
  function FrameColumns(read: string -> Option<Sheet>): Header {
    Header(HasColumn(read, (h: Header) => h.cause), HasColumn(read, (h: Header) => h.conjunto),
           HasColumn(read, (h: Header) => h.start))
  }

  /** Some listed file exists. */
  predicate AnyExists(read: string -> Option<Sheet>) {
    exists k :: 0 <= k < |L.Files| && read(L.Files[k]).Some?
  }

  /** The script, given the content of each file (`None` for a missing file). */
  function Run(read: string -> Option<Sheet>): Outcome {
    match L.Load(L.Files, Contents(read))
    case None => Raised
    case Some(rows) => RunOn(FrameColumns(read), Untag(rows))
  }

  /** What follows the loading: the cleaning, then the chart of the climatic causes. */
  function RunOn(cols: Header, rows: seq<Outage>): Outcome {
    match Clean(cols, rows, Kept(ClimaticCauses))
    case None => Raised
    case Some(kept) => if kept == [] then NoData else Chart(ValueCounts(Causes(kept)))
  }

  /** A file that has both text columns is read as it is. */
  lemma MaskFull(h: Header, rows: seq<Outage>)
    requires h.cause && h.conjunto
    ensures MaskAll(h, rows) == rows
  {
  }

  /** The loader finds a file exactly when one of the listed files exists. */
  lemma ContentsAnyRead(read: string -> Option<Sheet>)
    ensures L.AnyRead(L.Files, Contents(read)) <==> AnyExists(read)
  {
    if AnyExists(read) {
      var k :| 0 <= k < |L.Files| && read(L.Files[k]).Some?;
      assert Contents(read)(L.Files[k]).Some?;
    }
  }

  /** A row of one of the files read, with `c` giving each file's rows. */
  ghost predicate Loaded(c: string -> Option<seq<Outage>>, o: Outage) {
    exists y :: L.FromFile(L.Files, c, L.YearOf, y, o)
  }

  /** The loaded frame holds exactly the rows of the files read. */
  lemma UntagLoaded(c: string -> Option<seq<Outage>>)
    requires L.Load(L.Files, c).Some?
    ensures forall o :: o in Untag(L.Load(L.Files, c).value) <==> Loaded(c, o)
  {
    var rows := L.Load(L.Files, c).value;
    forall o ensures o in Untag(rows) <==> Loaded(c, o) {
      if o in Untag(rows) {
        var i :| 0 <= i < |rows| && Untag(rows)[i] == o;
        assert rows[i] == RF.Tagged(rows[i].year, o);
        L.LoadContents(L.Files, c, rows[i].year, o);
      }
      if Loaded(c, o) {
        var y :| L.FromFile(L.Files, c, L.YearOf, y, o);
        L.LoadContents(L.Files, c, y, o);
        var i :| 0 <= i < |rows| && rows[i] == RF.Tagged(y, o);
        assert Untag(rows)[i] == o;
      }
    }
  }

  /** The script raises exactly when no listed file exists, when no file read has one of the
      three columns, or when some row read is unusable. */
  lemma RunRaises(read: string -> Option<Sheet>)
    ensures Run(read) == Raised <==>
      || !AnyExists(read)
      || !Complete(FrameColumns(read))
      || exists o :: Loaded(Contents(read), o) && Unusable(Kept(ClimaticCauses), o)
  {
    var c := Contents(read);
    L.ListedLoadRaises(c);
    ContentsAnyRead(read);
    if L.Load(L.Files, c).Some? {
      CleanRaises(FrameColumns(read), Untag(L.Load(L.Files, c).value), Kept(ClimaticCauses));
      UntagLoaded(c);
    }
  }

  /** A frame that lacks one of the three columns makes the script raise, whatever its rows. */
  lemma ColumnlessRaises(read: string -> Option<Sheet>)
    requires !Complete(FrameColumns(read))
    ensures Run(read) == Raised
  {
    RunRaises(read);
  }

  /** It stops without a chart exactly when files were read, the frame has the three columns,
      and none of its rows is unusable or has a climatic cause. */
  lemma RunNoData(read: string -> Option<Sheet>)
    ensures Run(read) == NoData <==>
      && AnyExists(read) && Complete(FrameColumns(read))
      && forall o :: Loaded(Contents(read), o) ==> o.cause.Some? && !IsClimatic(ClimaticCauses, o)
  {
    var c := Contents(read);
    L.ListedLoadRaises(c);
    ContentsAnyRead(read);
    if L.Load(L.Files, c).Some? {
      LoadedNoData(read);
      LoadedQuiet(c);
    }
  }

  /** With the files read, the script stops without a chart exactly when the frame has the three
      columns and every row loaded has a cause and none is climatic. */
  lemma LoadedNoData(read: string -> Option<Sheet>)
    requires L.Load(L.Files, Contents(read)).Some?
    ensures Run(read) == NoData <==>
      && Complete(FrameColumns(read))
      && forall o :: o in Untag(L.Load(L.Files, Contents(read)).value) ==> o.cause.Some? && !IsClimatic(ClimaticCauses, o)
  {
    var rows := Untag(L.Load(L.Files, Contents(read)).value);
    assert Run(read) == RunOn(FrameColumns(read), rows);
    CleanEmpty(FrameColumns(read), rows, Kept(ClimaticCauses));
  }

  /** The rows of the loaded frame are the rows of the files read. */
  lemma LoadedQuiet(c: string -> Option<seq<Outage>>)
    requires L.Load(L.Files, c).Some?
    ensures (forall o :: o in Untag(L.Load(L.Files, c).value) ==>
               o.cause.Some? && !IsClimatic(ClimaticCauses, o)) <==>
            (forall o :: Loaded(c, o) ==> o.cause.Some? && !IsClimatic(ClimaticCauses, o))
  {
    UntagLoaded(c);
  }

  /** The cleaning yields no row exactly when the frame has the three columns, every row has a
      cause and none is kept. */
  lemma CleanEmpty(cols: Header, rows: seq<Outage>, keep: Outage -> bool)
    ensures Clean(cols, rows, keep) == Some([]) <==>
      Complete(cols) && forall o :: o in rows ==> o.cause.Some? && !keep(o)
  {
    CleanRaises(cols, rows, keep);
    if Clean(cols, rows, keep).Some? {
      CleanKeeps(cols, rows, keep);
      var kept := Filter(rows, keep);
      assert kept == [] <==> forall o :: o in rows ==> !keep(o) by {
        if kept != [] {
          assert kept[0] in kept;
        }
      }
    }
  }

  /** The chart shows only reachable causes, each at its number of climatic outages, and the
      bars add up to all of them. */
  lemma ChartCounts(read: string -> Option<Sheet>)
    requires Run(read).Chart?
    ensures var m := Run(read).counts;
      var kept := Clean(FrameColumns(read), Untag(L.Load(L.Files, Contents(read)).value), Kept(ClimaticCauses)).value;
      && (forall c :: c in m ==> c in ReachableCauses && m[c] == Count(Causes(kept), c))
      && Tally(m, ReachableCauses) == |kept|
  {
    var cols, rows := FrameColumns(read), Untag(L.Load(L.Files, Contents(read)).value);
    var kept := Clean(cols, rows, Kept(ClimaticCauses)).value;
    var xs := Causes(kept);
    CleanKeeps(cols, rows, Kept(ClimaticCauses));
    forall i | 0 <= i < |xs| ensures xs[i] in ReachableCauses {
      KeptCauses(CleanCause(Filter(rows, Kept(ClimaticCauses))[i].cause.value));
    }
    ReachableDistinct();
    SumCountsTotal(xs, ReachableCauses);
    TallyValueCounts(xs, ReachableCauses);
  }
}
