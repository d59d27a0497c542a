/** ANEEL/app.py: the yearly ANEEL interruption tables narrowed to the RGE SUL distributor, to
    the consumer areas of the studied cities, and to the causes not excluded by name. */
module AneelFilter {
  import opened Base
  import opened Text

  /** The consumer areas kept, compared exactly (case and spacing included). */
  const Conjuntos: seq<string> := [
    "Passo Fundo 1",
    "PORTO ALEGRE 1", "PORTO ALEGRE 2", "PORTO ALEGRE 3",
    "PORTO ALEGRE 4 - CENTRO", "PORTO ALEGRE 4 - CENTRO 2",
    "PORTO ALEGRE 5", "PORTO ALEGRE 6", "PORTO ALEGRE 7", "PORTO ALEGRE 8",
    "PORTO ALEGRE 9", "PORTO ALEGRE 10", "PORTO ALEGRE 11", "PORTO ALEGRE 12",
    "PORTO ALEGRE 13", "PORTO ALEGRE 14", "PORTO ALEGRE 15", "PORTO ALEGRE 16",
    "PORTO ALEGRE 17", "PORTO ALEGRE 18", "PORTO ALEGRE 19", "PORTO ALEGRE 20",
    "Santa Maria", "SANTA MARIA", "SANTA MARIA 1", "SANTA MARIA 2",
    "SANTA MARIA 4", "SANTA MARIA 5",
    "Lagoa Vermelha"
  ]

  /** Triggering causes that drop a row when they occur anywhere in its cause text. */
  const ExcludedCauses: seq<string> := [
    "Interna;Nao Programada;Terceiros;Ligacao clandestina",
    "Interna;Nao Programada;Meio Ambiente;Animais",
    "Interna;Nao Programada;Terceiros;Empresas de servicos publicos ou suas contratadas",
    "Interna;Programada;Manutencao;Preventiva",
    "Interna;Nao Programada;Falha Operacional;Servico mal executado",
    "Interna;Nao Programada;Nao classificada",
    "Interna;Nao Programada;Proprias do Sistema;Nao identificada",
    "Interna;Nao Programada;Terceiros;Defeito interno nao afetando outras unidades consumidoras",
    "Interna;Programada;Alteracao;Para melhoria",
    "Interna;Programada;Manutencao;Corretiva",
    "Interna;Nao Programada;Terceiros;Vandalismo",
    "Interna;Programada;Alteracao;Para ampliacao"
  ]

  const Distributor := "RGE SUL"

  /** One interruption row: the agent acronym (`SigAgente`), the consumer area
      (`DscConjuntoUnidadeConsumidora`), the triggering cause (`DscFatoGeradorInterrupcao`), and
      the other columns, carried along untouched. */
  datatype Row = Row(agent: Option<string>, conjunto: Option<string>, cause: Option<string>,
                     others: seq<Option<string>>)

  /** A table as read, with which of the three columns the mask needs it has. */
  datatype Table = Table(hasAgent: bool, hasConjunto: bool, hasCause: bool, rows: seq<Row>)

  /** The escaped alternation of the excluded causes finds one of them in the text. */
  predicate Excluded(cause: Option<string>) {
    cause.Some? && exists k :: 0 <= k < |ExcludedCauses| && Contains(cause.value, ExcludedCauses[k])
  }

  /** The mask: the agent contains "RGE SUL" (a missing agent does not), the area is one of
      the listed ones, and the cause is not excluded (a missing cause is not). */
  predicate Keep(r: Row) {
    && r.agent.Some? && Contains(r.agent.value, Distributor)
    && r.conjunto.Some? && r.conjunto.value in Conjuntos
    && !Excluded(r.cause)
  }

  /** `processar_csv_aneel` on a table: the kept rows, or `None` for the `KeyError` raised when
      one of the three columns is missing. */
  function SelectRows(t: Table): (r: Option<seq<Row>>)
    ensures r.None? <==> !(t.hasAgent && t.hasConjunto && t.hasCause)
    ensures r.Some? ==> forall x :: x in r.value <==> x in t.rows && Keep(x)
  {
    if t.hasAgent && t.hasConjunto && t.hasCause then Some(Filter(t.rows, Keep)) else None
  }

  /** The selection is the input with rows left out, never reordered or altered. */
  lemma SelectKeepsOrder(t: Table)
    requires SelectRows(t).Some?
    ensures Subsequence(SelectRows(t).value, t.rows)
  {
    FilterSubsequence(t.rows, Keep);
  }

  /** A row with a missing cause is decided by the agent and area alone. */
  lemma MissingCauseNotExcluded(r: Row)
    requires r.cause.None?
    ensures Keep(r) <==> r.agent.Some? && Contains(r.agent.value, Distributor) &&
                         r.conjunto.Some? && r.conjunto.value in Conjuntos
  {
  }

  /** A cause holding an excluded phrase anywhere, even inside a longer text, drops the row. */
  lemma ExcludedPhraseDrops(r: Row, k: nat, pre: string, post: string)
    requires k < |ExcludedCauses| && r.cause == Some(pre + ExcludedCauses[k] + post)
    ensures !Keep(r)
  {
    var c := pre + ExcludedCauses[k] + post;
    assert c[|pre|..|pre| + |ExcludedCauses[k]|] == ExcludedCauses[k];
    assert OccursAt(c, ExcludedCauses[k], |pre|);
  }

  // ---------------------------------------------------------------- the directory

  const InputPrefix := "interrupcoes-energia-eletrica-"
  const OutputPrefix := "interrupcoes_rge_sul_filtrado_"
  const Csv := ".csv"

  predicate Selected(name: string) {
    EndsWith(name, Csv) && StartsWith(name, InputPrefix)
  }

  /** `file.split('-')[-1].replace('.csv', '')`. */
  function YearOf(name: string): string {
    Replace(LastSegment(name, '-'), Csv, "")
  }

  function OutputName(name: string): string {
    OutputPrefix + YearOf(name) + Csv
  }

  /** For the published names, "interrupcoes-energia-eletrica-<year>.csv", the year is the
      text between the last '-' and ".csv" and the output is named after it. */
  lemma StandardName(year: string)
    requires '-' !in year && '.' !in year
    ensures Selected(InputPrefix + year + Csv)
    ensures YearOf(InputPrefix + year + Csv) == year
    ensures OutputName(InputPrefix + year + Csv) == OutputPrefix + year + Csv
  {
    var name := InputPrefix + year + Csv;
    assert name == (InputPrefix[..|InputPrefix| - 1]) + ['-'] + (year + Csv);
    assert '-' !in Csv;
    assert '-' !in year + Csv;
    LastSegmentAppend(InputPrefix[..|InputPrefix| - 1], '-', year + Csv);
    ReplaceAppend(year, Csv, "");
    assert year + "" == year;
    assert name[..|InputPrefix|] == InputPrefix;
    assert name[|name| - |Csv|..] == Csv;
  }

  /** What happened to one listed file. */
  datatype FileResult =
    | Skipped                                   // not an interruption table by its name
    | Failed(output: string)                    // reading or selecting raised; the error is printed
    | Written(output: string, rows: seq<Row>)   // the kept rows saved under `output`

  function Process(name: string, load: string -> Option<Table>): (r: FileResult)
    ensures r.Skipped? <==> !Selected(name)
    ensures r.Written? ==> r.output == OutputName(name) && load(name).Some? &&
                           SelectRows(load(name).value) == Some(r.rows)
    ensures r.Failed? ==> r.output == OutputName(name) &&
                          (load(name).None? || SelectRows(load(name).value).None?)
  {
    if !Selected(name) then Skipped
    else match load(name)
      case None => Failed(OutputName(name))
      case Some(t) =>
        match SelectRows(t)
        case None => Failed(OutputName(name))
        case Some(rows) => Written(OutputName(name), rows)
  }

  /** The results of the files in listing order. */
  function ProcessAllSpec(names: seq<string>, load: string -> Option<Table>): (r: seq<FileResult>)
    ensures |r| == |names|
  {
    if names == [] then [] else ProcessAllSpec(names[..|names| - 1], load) + [Process(names[|names| - 1], load)]
  }

  /** `processar_todos_csvs`: every listed file is handled in turn; a file that raises is
      reported and the loop goes on with the next one. */
  method ProcessAll(names: seq<string>, load: string -> Option<Table>) returns (results: seq<FileResult>)
    ensures results == ProcessAllSpec(names, load)
    ensures forall i :: 0 <= i < |names| ==> results[i] == Process(names[i], load)
  {
    results := [];
    var i := 0;
    while i < |names|
      invariant 0 <= i <= |names|
      invariant results == ProcessAllSpec(names[..i], load)
    {
      assert names[..i + 1][..i] == names[..i];
      results := results + [Process(names[i], load)];
      i := i + 1;
    }
    assert names[..|names|] == names;
    ProcessAllPointwise(names, load);
  }

  /** Each file's result depends on that file alone: a failure does not affect the others. */
  lemma {:induction false} ProcessAllPointwise(names: seq<string>, load: string -> Option<Table>)
    ensures forall i :: 0 <= i < |names| ==> ProcessAllSpec(names, load)[i] == Process(names[i], load)
  {
    if names != [] {
      var init := names[..|names| - 1];
      ProcessAllPointwise(init, load);
      var r := ProcessAllSpec(names, load);
      assert r == ProcessAllSpec(init, load) + [Process(names[|names| - 1], load)];
      forall i | 0 <= i < |names| ensures r[i] == Process(names[i], load) {
        if i < |init| {
          assert r[i] == ProcessAllSpec(init, load)[i] && names[i] == init[i];
        }
      }
    }
  }
}
