/** GRAFICOS/app_grafico_por_cidade_aneel.py: for each of four municipalities, the number of
    outage records, over the yearly files, whose consumer-set name contains the municipality's
    name, ignoring case. */
module GraficoPorCidade {
  import opened Base
  import opened Text

  /** What a file holds for the count: its `DscConjuntoUnidadeConsumidora` column, or `None` when
      the file has no such column; a cell is `None` when it is empty (NaN). */
  datatype Sheet = Sheet(conjunto: Option<seq<Option<string>>>)

  /** `municipios`. */
  const Municipios: seq<string> := ["Porto Alegre", "Passo Fundo", "Lagoa Vermelha", "Santa Maria"]

  /** The dictionary has one counter per name: the four names are distinct. */
  lemma MunicipiosDistinct()
    ensures forall a, b :: 0 <= a < b < |Municipios| ==> Municipios[a] != Municipios[b]
  {
    assert Municipios[1][0] != Municipios[3][0];
  }

  /** `.str.lower().str.contains(m.lower())` on one cell; an empty cell is NaN, which `.sum()`
      skips. */
  predicate Matches(cell: Option<string>, m: string) {
    cell.Some? && ContainsIgnoreCase(cell.value, m)
  }

  /** `.sum()` of that mask over a column. */
  function MatchCount(col: seq<Option<string>>, m: string): (n: nat)
    ensures n <= |col|
    ensures n > 0 <==> exists i :: 0 <= i < |col| && Matches(col[i], m)
  {
    if col == [] then 0
    else
      var init := col[..|col| - 1];
      assert forall i :: 0 <= i < |init| ==> init[i] == col[i];
      MatchCount(init, m) + if Matches(col[|col| - 1], m) then 1 else 0
  }

  /** What one file adds to the counter of `m`: nothing when the file is missing or has no
      conjunto column. */
  function FileCount(sheet: Option<Sheet>, m: string): nat {
    if sheet.None? || sheet.value.conjunto.None? then 0 else MatchCount(sheet.value.conjunto.value, m)
  }

  /** The counter of `m` after the files `files`, in order. */
  function Total(files: seq<string>, read: string -> Option<Sheet>, m: string): nat {
    if files == [] then 0 else Total(files[..|files| - 1], read, m) + FileCount(read(files[|files| - 1]), m)
  }

  /** The rows of the files read that have the conjunto column. */
  function RowsCounted(files: seq<string>, read: string -> Option<Sheet>): nat {
    if files == [] then 0
    else
      var s := read(files[|files| - 1]);
      RowsCounted(files[..|files| - 1], read) +
        if s.None? || s.value.conjunto.None? then 0 else |s.value.conjunto.value|
  }

  /** The loop of lines 20-30: a counter per municipality, starting at 0, to which each file that
      exists and has the conjunto column adds its number of matching rows. `read(f)` is the
      content of file `f`, `None` when it does not exist. */
  method CountByCity(files: seq<string>, read: string -> Option<Sheet>) returns (contagem: map<string, int>)
    ensures forall m :: m in contagem <==> m in Municipios
    ensures forall m :: m in Municipios ==> contagem[m] == Total(files, read, m)
  {
    contagem := map m | m in Municipios :: 0;
    var i := 0;
    while i < |files|
      invariant 0 <= i <= |files|
      invariant forall m :: m in contagem <==> m in Municipios
      invariant forall m :: m in Municipios ==> contagem[m] == Total(files[..i], read, m)
    {
      assert files[..i + 1][..i] == files[..i];
      var sheet := read(files[i]);
      if sheet.Some? && sheet.value.conjunto.Some? {
        MunicipiosDistinct();
        contagem := AddFile(contagem, Municipios, sheet.value.conjunto.value);
      }
      i := i + 1;
    }
    assert files[..i] == files;
  }

  /** The inner loop of lines 27-28: the counter of every name in `munis` grows by the matching
      rows of one column. */
  method AddFile(contagem: map<string, int>, munis: seq<string>, col: seq<Option<string>>)
    returns (r: map<string, int>)
    requires forall a, b :: 0 <= a < b < |munis| ==> munis[a] != munis[b]
    requires forall m :: m in munis ==> m in contagem
    ensures forall m :: m in r <==> m in contagem
    ensures forall m :: m in contagem ==> r[m] == contagem[m] + if m in munis then MatchCount(col, m) else 0
  {
    r := contagem;
    var j := 0;
    while j < |munis|
      invariant 0 <= j <= |munis|
      invariant forall m :: m in r <==> m in contagem
      invariant forall m :: m in contagem ==> r[m] == contagem[m] + if m in munis[..j] then MatchCount(col, m) else 0
    {
      var m := munis[j];
      assert m !in munis[..j] by {
        forall k | 0 <= k < j ensures munis[..j][k] != m {
          assert munis[k] != munis[j];
        }
      }
      assert munis[..j + 1] == munis[..j] + [m];
      r := r[m := r[m] + MatchCount(col, m)];
      j := j + 1;
    }
    assert munis[..j] == munis;
  }

  /** Counters never decrease as files are read. */
  lemma {:induction false} TotalGrows(files: seq<string>, read: string -> Option<Sheet>, m: string, i: nat)
    requires i <= |files|
    ensures Total(files[..i], read, m) <= Total(files, read, m)
    decreases |files|
  {
    if i < |files| {
      assert files[..|files| - 1][..i] == files[..i];
      TotalGrows(files[..|files| - 1], read, m, i);
    } else {
      assert files[..i] == files;
    }
  }

  /** A counter is at most the number of rows that could be counted, and is positive exactly
      when some file that was read has a matching row. */
  lemma {:induction false} TotalBounds(files: seq<string>, read: string -> Option<Sheet>, m: string)
    ensures Total(files, read, m) <= RowsCounted(files, read)
    ensures Total(files, read, m) > 0 <==> exists k :: 0 <= k < |files| && FileCount(read(files[k]), m) > 0
  {
    if files != [] {
      var init := files[..|files| - 1];
      TotalBounds(init, read, m);
      if exists k :: 0 <= k < |init| && FileCount(read(init[k]), m) > 0 {
        var k :| 0 <= k < |init| && FileCount(read(init[k]), m) > 0;
        assert files[k] == init[k];
      }
      if exists k :: 0 <= k < |files| && FileCount(read(files[k]), m) > 0 {
        var k :| 0 <= k < |files| && FileCount(read(files[k]), m) > 0;
        if k < |init| {
          assert files[k] == init[k];
        }
      }
    }
  }

  /** Case does not matter: a name written in capitals is counted as it is written in any other
      case. */
  lemma MatchIgnoresCase(x: string, m: string)
    ensures Matches(Some(UpperStr(x)), m) <==> Matches(Some(x), m)
  {
    assert LowerStr(UpperStr(x)) == LowerStr(x) by {
      forall i | 0 <= i < |x| ensures Lower(Upper(x[i])) == Lower(x[i]) {
        var c := x[i];
        if 'a' <= c <= 'z' || ('\U{E0}' <= c <= '\U{FE}' && c != '\U{F7}') {
          assert Upper(c) as int == c as int - 32;
        }
      }
    }
  }
}
