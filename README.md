# TCC power-outage pipeline in Dafny

This project models the data pipeline of a study that relates power outages in Rio Grande do Sul to the weather. It covers these parts:

- **ANEEL filter** (`AneelFilter`): keeps the outage records of the state's distributor, year by year.
- **INMET filter** (`InmetFilter`): projects each weather station file onto the columns used later.
- **PREVISOR join and risk rules**:
  - `PrevisorJoin` merges the outages of a city with its weather readings by date and hour.
  - `PrevisorRules` holds the rain, wind and vegetation risk rules and the date normalisation.
  - `Previsor` consolidates the merged frames per city, sorts them by timestamp and derives the rolling rain sum and the risk columns.
  - `PrevisorXgboost` is the XGBoost variant of the same join, with its per-file training loop and report.
- **Random forest analysis**:
  - `RandomForestWeather` loads and cleans the weather data.
  - `RandomForestLabels` buckets the outages by hour and labels each hour.
  - `RandomForestTraining` covers the early returns of the training step, the single-class report and the report file names.
- **Report parsers**:
  - `MatrizConfusao`, `DispersaoPredicoes` and `MatrizConfusaoAnalise` read the confusion matrix back from the printed reports.
  - They share `ReportScan`, which holds the marker search and the digit runs of `np.array2string`.
- **ANEEL charts**:
  - `ContagemCausas` covers the cause and city counts.
  - `DistribuicaoAnual` counts outages per year.
  - `GraficoPorCidade` covers the per-city counters.
  - `SerieTemporal` counts outages per month and per quarter.
  - These charts share `AneelLoader`, the yearly loader.

Shared helper modules:

- `Base`: `Option` and selections.
- `Text`: character classes, case mapping, strip, split and substring search.
- `Numbers`: Python's `int` and `float` readings of text, and an integer square root.
- `Calendar`: timestamps, the `%d/%m/%Y %H%M` parser, and flooring to the hour.
- `Counting`: `value_counts` and `groupby(...).size()` as sorted keys with their counts.
- `Confusion`: confusion matrices and their expansion into label pairs.

Numbers are `real`, and a missing value (NaN) is `None`. Directory listings, file contents and the learners are parameters. Parts that work step by step are methods with loop invariants, proved against the functions that specify them: the loader loops, the per-city dictionaries of lists, the counters and the nested `extend` loops.

## Model

Helper members that have no row below are proof steps for the members that do.

| member | source | states |
|---|---|---|
| Base.Filter | ANEEL/app.py:58-63 | a boolean-mask selection keeps exactly the rows that satisfy the mask, and never more rows than there were |
| Base.FilterAppend | ANEEL/app.py:58-63 | selecting from a concatenation selects from each part, so the order of rows is kept |
| Base.FilterNone | ANEEL/app.py:58-63 | nothing is selected when no row satisfies the mask |
| Base.FilterSubsequence | ANEEL/app.py:58-63 | a selection is a subsequence of its input |
| Base.FilterMap | PREVISOR/app.py:18-25 | a filtering comprehension yields exactly the images of the elements that pass the test |
| Text.LowerIdempotent | PREVISOR/app.py:45 | lower-casing twice changes nothing |
| Text.Title | GRAFICOS/ANALISE/app_matriz_confusao_analise.py:25-26 | `str.title()` on ASCII and Latin-1 letters: it keeps the length and the uncased characters, upper-cases a cased character that starts a word and lower-cases the others |
| Text.Strip | PREVISOR/app.py:37-38 | `str.strip()` leaves text that neither starts nor ends with whitespace, and takes it from the middle of the input |
| Text.StripIdempotent | GRAFICOS/ANEEL/app_graficos_contagem_total_interrupcoes_cidade.py:46 | stripping twice changes nothing |
| Text.StripTrimmed | GRAFICOS/ANEEL/app_graficos_contagem_total_interrupcoes_cidade.py:46 | text that neither starts nor ends with whitespace is its own strip |
| Text.JoinContains | PREVISOR/app.py:115 | each part occurs in the joined text |
| Text.ReplaceChar | PREVISOR/app.py:145 | replacing one character by another keeps the length and changes exactly the occurrences of the first |
| Text.RemoveChar | GRAFICOS/ANEEL/app_graficos_contagem_total_interrupcoes_cidade.py:46 | removing a character leaves exactly the other characters |
| Text.ReplaceAppend | PREVISOR/app.py:34 | removing a suffix with `replace`, when its first character does not occur before it, leaves the text before it |
| Text.ZFill | PREVISOR/app.py:43 | `str.zfill` pads with zeros on the left up to the width, keeps a sign in front, and leaves text that is long enough |
| Text.LastSegment | GRAFICOS/ANEEL/app_graficos_contagem_total_interrupcoes_cidade.py:51 | `split(c)[-1]` is the longest suffix without `c` |
| Text.FirstSegment | GRAFICOS/ANEEL/app_graficos_contagem_total_interrupcoes_cidade.py:34 | `split(c)[0]` is the longest prefix without `c` |
| Text.Basename | PREVISOR/app.py:24 | `os.path.basename` holds no '/' |
| Text.DigitsOnly | PREVISOR/app.py:29 | keeping the digits is the selection of the input's digit characters, so it holds only digits and no more characters than there were |
| Text.DigitsOnlyInOrder | PREVISOR/app.py:29 | the kept digits are a subsequence of the input, and a character is kept iff it is a digit of the input |
| Text.DigitsOnlyAppend | PREVISOR/app.py:29 | keeping the digits distributes over concatenation |
| Numbers.DigitsValueLeadingZeros | ANALISE/app_random_forest.py:147 | leading zeros do not change the value of a digit string |
| Numbers.NatToString | ANEEL/app.py:74 | `str(n)` for a natural is a non-empty digit string without a leading zero whose value is `n` |
| Numbers.NatToStringLength | ANALISE/app_random_forest.py:147 | below `10^k` the rendering has at most `k` digits |
| Numbers.DigitsValueInjective | GRAFICOS/ANEEL/app_graficos_contagem_total_interrupcoes_cidade.py:34 | two digit strings of one length with one value are the same string |
| Numbers.NatToStringOfDigits | GRAFICOS/ANEEL/app_graficos_contagem_total_interrupcoes_cidade.py:34 | a digit string without a leading zero is the rendering of its value |
| Numbers.ParseInt | GRAFICOS/ANEEL/app_graficos_contagem_total_interrupcoes_cidade.py:34 | `int(s)` succeeds only on text that is not blank |
| Numbers.DigitsParseInt | GRAFICOS/ANEEL/app_graficos_contagem_total_interrupcoes_cidade.py:34 | a run of digits, leading zeros allowed, is read as its value |
| Numbers.ParseIntOfNat | GRAFICOS/ANEEL/app_graficos_contagem_total_interrupcoes_cidade.py:34 | `int(str(n)) == n` |
| Numbers.IntToString | ANALISE/app_random_forest.py:147 | `str(n)` for an integer is made of digits and '-', and `int` reads it back as `n` |
| Numbers.ParseUnsignedDecimal | PREVISOR/app.py:81 | the unsigned body of a numeral is non-negative and made of digits and the point |
| Numbers.ParsedChars | ANALISE/app_random_forest.py:139 | a value that `pd.to_numeric` reads is made of numeral characters only |
| Numbers.NonNumeralNotParsed | ANALISE/app_random_forest.py:139 | text with a character no numeral has is not read |
| Numbers.DecimalValue | PREVISOR/app.py:81 | digits, a point and digits are read as the value they denote |
| Numbers.IntegerDecimalValue | PREVISOR/app.py:81 | digits alone are read as their value |
| Numbers.UnsignedNumeralParse | PREVISOR/app.py:81 | a numeral without whitespace or sign is read by its unsigned body |
| Numbers.ISqrt | GRAFICOS/app_matriz_confusao.py:17 | the integer square root `r` satisfies `r*r <= n < (r+1)*(r+1)` |
| Numbers.ISqrtOfSquare | GRAFICOS/app_matriz_confusao.py:17 | the integer square root of a square is its side |
| Numbers.SquareLe | GRAFICOS/app_dispersao_predicoes.py:14-17 | squares of naturals are ordered as the naturals are |
| Calendar.BeforeTotal | ANALISE/app_random_forest.py:163-168 | the order of timestamps is a strict total order |
| Calendar.FloorHour | ANALISE/app_random_forest.py:208 | `dt.floor('H')` lands on the hour, keeps a valid timestamp valid and is not after it |
| Calendar.FloorHourGreatest | ANALISE/app_random_forest.py:208 | the floor is the latest on-the-hour timestamp that is not after the input |
| Calendar.FloorHourSame | ANALISE/app_random_forest.py:208 | two timestamps have the same floor exactly when they fall in the same hour |
| Calendar.FloorHourIdempotent | ANALISE/app_random_forest.py:208 | flooring twice changes nothing, and an on-the-hour timestamp is its own floor |
| Calendar.SortDistinct | ANALISE/app_random_forest.py:168 | the resampled index holds exactly the given timestamps, strictly increasing |
| Calendar.ParseDmyHm | ANALISE/app_random_forest.py:146-149 | a timestamp read with the format '%d/%m/%Y %H%M' is a valid calendar date in range, with zero seconds |
| Calendar.MatchHasLiterals | ANALISE/app_random_forest.py:146-149 | a match of the format shows each of its literal characters in the text |
| Calendar.NoSlashNoTimestamp | ANALISE/app_random_forest.py:146-149 | text without a '/', such as an ISO date, becomes NaT instead of raising |
| Calendar.FirstAlternativesMatch | ANALISE/app_random_forest.py:146-149 | when every field takes its first alternative, the match is that chain, with no backtracking |
| Calendar.FormatParseRoundTrip | PREVISOR/app.py:115 | the canonical 'dd/mm/yyyy HHMM' text of a timestamp is read back as that timestamp |
| Counting.Insert | GRAFICOS/ANEEL/app_distribuicao_anual_interrupcoes.py:42 | inserting a key keeps the keys ascending and holds exactly the old keys and the new one |
| Counting.Keys | GRAFICOS/ANEEL/app_distribuicao_anual_interrupcoes.py:42 | the index of `value_counts().sort_index()` is ascending and holds exactly the values that occur |
| Counting.Occurrences | GRAFICOS/ANEEL/app_distribuicao_anual_interrupcoes.py:42 | a count is at most the number of rows, and positive exactly when the key occurs |
| Counting.Histogram | GRAFICOS/ANEEL/app_distribuicao_anual_interrupcoes.py:42 | `value_counts().sort_index()`: keys ascending, a key present exactly when some row carries it, each count its number of occurrences and positive |
| Counting.HistogramTotal | GRAFICOS/ANEEL/app_distribuicao_anual_interrupcoes.py:42 | the counts add up to the number of rows |
| Counting.BinsTotal | GRAFICOS/ANEEL/app_distribuicao_anual_interrupcoes.py:42 | over keys that cover every row, each once, the bins add up to the number of rows |
| Counting.OccurrencesAppend | GRAFICOS/ANEEL/app_distribuicao_anual_interrupcoes.py:42 | counting a concatenation adds the counts of its parts |
| Confusion.PairCount | ANALISE/app_random_forest.py:346 | a cell counts at most as many positions as there are |
| Confusion.ConfusionMatrix | ANALISE/app_random_forest.py:346 | `confusion_matrix` is square, with one row and one column per distinct label of both lists |
| Confusion.PairTotal | ANALISE/app_random_forest.py:346 | with 0/1 labels every position falls in exactly one of the four cells |
| Confusion.BinaryKeys | ANALISE/app_random_forest.py:346 | an ascending sequence of 0s and 1s that holds both is exactly [0, 1] |
| Confusion.BinaryMatrix | ANALISE/app_random_forest.py:346 | with 0/1 labels of which both occur, the matrix is `[[TN, FP], [FN, TP]]` and its four cells add up to the number of rows |
| ReportScan.RJust | ANALISE/app_random_forest.py:388 | right-justifying pads with spaces on the left up to the width and keeps the text at the end |
| ReportScan.MaxWidth | ANALISE/app_random_forest.py:388 | the width is that of the widest rendering among the cells |
| ReportScan.RunsAfterNoDigits | GRAFICOS/app_matriz_confusao.py:15 | text without digits adds no number |
| ReportScan.RunsOfDigits | GRAFICOS/app_matriz_confusao.py:15 | digits read one after the other build the decimal value of the run |
| ReportScan.RunsOfNumeral | GRAFICOS/app_matriz_confusao.py:15 | a numeral followed by a non-digit is read as one number |
| ReportScan.RunsOfRow | GRAFICOS/app_matriz_confusao.py:15 | one printed row, in brackets, reads as its cells |
| ReportScan.PrintedCells | GRAFICOS/app_matriz_confusao.py:15 | the numbers found in a printed matrix are its cells, row after row, whatever their widths |
| ReportScan.Reshape | GRAFICOS/app_matriz_confusao.py:17-18 | laying out `n * n` numbers gives an `n` by `n` matrix |
| ReportScan.ReshapeFlatten | GRAFICOS/app_matriz_confusao.py:17-18 | laying the cells of a square matrix out again gives the matrix back |
| ReportScan.CloseFrom | GRAFICOS/app_matriz_confusao.py:11 | the lazy `.*?\]\]` stops at the first "]]" at or after its start, and there is none exactly when none follows |
| ReportScan.MatchAt | GRAFICOS/app_matriz_confusao.py:11 | a match starts with the marker and its group holds at least "[[" and "]]" |
| ReportScan.NoMarkerNoMatch | GRAFICOS/app_matriz_confusao.py:11-22 | a text without the marker has no matrix block |
| ReportScan.SearchFindsFirst | GRAFICOS/app_matriz_confusao.py:11 | `re.search` returns the first position where the pattern matches |
| ReportScan.RowShape | ANALISE/app_random_forest.py:388 | a printed row opens with '[' and its only ']' is its last character |
| ReportScan.PrintedShape | ANALISE/app_random_forest.py:388 | a printed matrix opens with "[[" and its first "]]" is its last two characters |
| ReportScan.FindBlock | GRAFICOS/app_matriz_confusao.py:11-13 | a report holding the marker, a line break and a block, with no earlier marker, gives back exactly the block |
| ReportScan.FindPrinted | GRAFICOS/app_matriz_confusao.py:11-13 | a matrix printed after the marker is found again |
| AneelFilter.SelectRows | ANEEL/app.py:56-63 | `processar_csv_aneel` fails exactly when one of the three columns the mask reads is absent; otherwise a row is kept exactly when its agent contains "RGE SUL", its area is listed and its cause holds no excluded phrase |
| AneelFilter.SelectKeepsOrder | ANEEL/app.py:58-63 | the kept rows are a subsequence of the input: rows are dropped, never reordered or altered |
| AneelFilter.MissingCauseNotExcluded | ANEEL/app.py:63 | with `na=False`, a row whose cause is missing is decided by the agent and the area alone |
| AneelFilter.ExcludedPhraseDrops | ANEEL/app.py:41-63 | a cause holding any of the twelve excluded phrases anywhere (the escaped alternation is a substring search) drops the row |
| AneelFilter.StandardName | ANEEL/app.py:71-74 | a published name "interrupcoes-energia-eletrica-<year>.csv" is selected, its year is the text after the last '-' without ".csv", and the output is "interrupcoes_rge_sul_filtrado_<year>.csv" |
| AneelFilter.Process | ANEEL/app.py:70-78 | a file is skipped exactly when its name is not an interruption table; it is written under the output name with the selected rows, or fails (error printed) when it cannot be read or a column is missing |
| AneelFilter.ProcessAll | ANEEL/app.py:67-78 | the loop over the listing handles every file in turn: result `i` is the result of file `i` alone, so a failing file does not stop the others |
| AneelFilter.ProcessAllPointwise | ANEEL/app.py:75-78 | the result of each file depends on that file alone |
| InmetFilter.KeptColumns | INMET/app.py:5-19 | the selected columns are exactly the listed ones the table has, in the order of the list |
| InmetFilter.CheckedColumns | INMET/app.py:20 | the columns `dropna` checks are exactly the selected ones other than "Data" and "Hora (UTC)" |
| InmetFilter.IndexOfDistinct | INMET/app.py:19 | with distinct column names, a column is found at its own position |
| InmetFilter.CompleteRows | INMET/app.py:21 | a line survives exactly when it is complete, and the survivors keep their input order |
| InmetFilter.FilterTable | INMET/app.py:13-22 | `filtrar_dados_csv` writes nothing when the file cannot be read; otherwise its columns are the selected ones |
| InmetFilter.CompleteIff | INMET/app.py:20-21 | a line is complete exactly when every listed column other than the date and the hour has a value; a missing date or hour never removes a line |
| InmetFilter.FilterTableRows | INMET/app.py:19-22 | each written row is a complete input row restricted to the selected columns, in order, with every cell taken from the same column |
| InmetFilter.CsvBase | INMET/app.py:38 | `os.path.splitext` on a ".csv" name drops the extension, unless only dots precede it |
| InmetFilter.OutputPathShape | INMET/app.py:34-39 | a file of the data directory itself is written straight into the output directory, and a file of a year directory into the same-named directory below it, as `<base>_filtrado.csv` |
| InmetFilter.CollectJobs | INMET/app.py:29-33 | one directory yields no job when its path contains "Filtrados", and otherwise one job per ".csv" file, in listing order |
| InmetFilter.FileJobsIff | INMET/app.py:31-39 | a file gets a job exactly when its name ends in ".csv", and that job reads the file and writes its mirrored path |
| InmetFilter.RunJobs | INMET/app.py:40-44 | every job is tried in turn; the output of a job is written exactly when its input could be read |
| InmetFilter.FilterAll | INMET/app.py:25-44 | `filtrar_todos_csvs` visits every directory of the walk in order and writes the filtered table of every readable ".csv" file outside "Filtrados" |
| AneelLoader.YearOfName | GRAFICOS/ANEEL/app_graficos_contagem_total_interrupcoes_cidade.py:34 | a name `<stem>_<digits>.csv` yields the year its digits spell |
| AneelLoader.YearOfFileName | GRAFICOS/ANEEL/app_graficos_contagem_total_interrupcoes_cidade.py:34 | every file name the ANEEL filter writes yields the year it was written for |
| AneelLoader.ListedYears | GRAFICOS/ANEEL/app_graficos_contagem_total_interrupcoes_cidade.py:8-34 | the five listed files yield the years 2020 to 2024, in order |
| AneelLoader.LoadFiles | GRAFICOS/ANEEL/app_graficos_contagem_total_interrupcoes_cidade.py:26-38 | the loop of `carregar_e_agregar_dados` computes the loader's result: one frame per existing file, tagged with its year, concatenated; a name without a year raises |
| AneelLoader.FramesRaised | GRAFICOS/ANEEL/app_graficos_contagem_total_interrupcoes_cidade.py:31-37 | only a missing file is caught, so once a year cannot be read from a name the loader has raised, whatever follows |
| AneelLoader.FramesShape | GRAFICOS/ANEEL/app_graficos_contagem_total_interrupcoes_cidade.py:28-37 | the frames stop only on a file that was read and whose name has no year, and there is one frame per file read |
| AneelLoader.LoadRaises | GRAFICOS/ANEEL/app_graficos_contagem_total_interrupcoes_cidade.py:31-38 | the loader raises exactly when a file it read has a name without a year, or when no listed file exists and `pd.concat` gets an empty list |
| AneelLoader.ListedLoadRaises | GRAFICOS/ANEEL/app_graficos_contagem_total_interrupcoes_cidade.py:8-38 | with the listed names the loader raises exactly when none of the files exists |
| AneelLoader.LoadedRows | GRAFICOS/ANEEL/app_graficos_contagem_total_interrupcoes_cidade.py:28-38 | a tagged row is loaded exactly when it is a row of a file read and its tag is that file's year |
| AneelLoader.LoadedCount | GRAFICOS/ANEEL/app_graficos_contagem_total_interrupcoes_cidade.py:38 | concatenation loses no row and adds none |
| AneelLoader.LoadContents | GRAFICOS/ANEEL/app_distribuicao_anual_interrupcoes.py:17-31 | what the loader returns is every row of every file read, tagged with the year of its file, and nothing else |
| AneelLoader.LoadSize | GRAFICOS/ANEEL/app_distribuicao_anual_interrupcoes.py:17-31 | the loader returns as many rows as the files read hold |
| ContagemCausas.CleanCauseShape | GRAFICOS/ANEEL/app_graficos_contagem_total_interrupcoes_cidade.py:46 | a cleaned cause has no double quote and no surrounding whitespace, and all its characters come from the raw text |
| ContagemCausas.SimplifyTail | GRAFICOS/ANEEL/app_graficos_contagem_total_interrupcoes_cidade.py:50-52 | splitting on '/' and then on ';' leaves the longest suffix that holds neither, and the simplified cause is that suffix stripped |
| ContagemCausas.SimplifyShape | GRAFICOS/ANEEL/app_graficos_contagem_total_interrupcoes_cidade.py:50-52 | a simplified cause holds neither separator and has no surrounding whitespace |
| ContagemCausas.SimplifyIdempotent | GRAFICOS/ANEEL/app_graficos_contagem_total_interrupcoes_cidade.py:50-52 | simplifying a simplified cause changes nothing |
| ContagemCausas.NoSlashCause | GRAFICOS/ANEEL/app_graficos_contagem_total_interrupcoes_cidade.py:17-24 | text without a '/' is a climatic cause exactly when it is one of the four listed causes without a '/' |
| ContagemCausas.KeptCauses | GRAFICOS/ANEEL/app_graficos_contagem_total_interrupcoes_cidade.py:17-55 | the two listed causes written with a '/' never match a simplified cause, so the filter keeps exactly the other four |
| ContagemCausas.CanonCityIdempotent | GRAFICOS/ANEEL/app_graficos_contagem_total_interrupcoes_cidade.py:58-60 | unifying the Passo Fundo and Santa Maria names a second time changes nothing |
| ContagemCausas.CleanRaises | GRAFICOS/ANEEL/app_graficos_contagem_total_interrupcoes_cidade.py:40-63 | the cleaning raises exactly when the frame lacks the cause, consumer-set or start-date column (the `KeyError` of lines 46, 58 and 63), a row has no cause, or a kept row has no consumer-set name |
| ContagemCausas.CleanKeeps | GRAFICOS/ANEEL/app_graficos_contagem_total_interrupcoes_cidade.py:50-60 | otherwise the cleaning keeps the rows the mask selects, in order and only them, each with its simplified cause and its unified city |
| ContagemCausas.CleanEmpty | GRAFICOS/ANEEL/app_graficos_contagem_total_interrupcoes_cidade.py:46-70 | the cleaning yields no row exactly when the frame has the three columns, every row has a cause and none is kept |
| ContagemCausas.ValueCounts | GRAFICOS/ANEEL/app_graficos_contagem_total_interrupcoes_cidade.py:81 | `value_counts` holds exactly the values that occur, each with its positive number of occurrences |
| ContagemCausas.TallyValueCounts | GRAFICOS/ANEEL/app_graficos_contagem_total_interrupcoes_cidade.py:81 | over distinct keys, adding up the counts equals adding up the occurrences |
| ContagemCausas.SumCountsTotal | GRAFICOS/ANEEL/app_graficos_contagem_total_interrupcoes_cidade.py:81 | when every value is one of distinct keys, their occurrences add up to the number of values |
| ContagemCausas.ReachableDistinct | GRAFICOS/ANEEL/app_graficos_contagem_total_interrupcoes_cidade.py:17-24 | the reachable climatic causes are distinct |
| ContagemCausas.MaskFull | GRAFICOS/ANEEL/app_graficos_contagem_total_interrupcoes_cidade.py:26-39 | a file that has both text columns enters the concatenated frame unchanged; a column a file lacks is NaN in its rows |
| ContagemCausas.UntagLoaded | GRAFICOS/ANEEL/app_graficos_contagem_total_interrupcoes_cidade.py:67 | the frame the script cleans holds exactly the rows of the files read |
| ContagemCausas.RunRaises | GRAFICOS/ANEEL/app_graficos_contagem_total_interrupcoes_cidade.py:26-68 | the script raises exactly when no listed file exists, no file read has one of the three indexed columns, or a row read is unusable |
| ContagemCausas.ColumnlessRaises | GRAFICOS/ANEEL/app_graficos_contagem_total_interrupcoes_cidade.py:46-63 | a frame that lacks one of the three indexed columns makes the script raise, whatever its rows |
| ContagemCausas.RunNoData | GRAFICOS/ANEEL/app_graficos_contagem_total_interrupcoes_cidade.py:67-72 | the script stops without a chart exactly when files were read, the frame has the three indexed columns, every row has a cause and none is climatic |
| ContagemCausas.LoadedNoData | GRAFICOS/ANEEL/app_graficos_contagem_total_interrupcoes_cidade.py:68-72 | with the files loaded, the script stops without a chart exactly when the frame has the three indexed columns, every loaded row has a cause and none is climatic |
| ContagemCausas.ChartCounts | GRAFICOS/ANEEL/app_graficos_contagem_total_interrupcoes_cidade.py:81-83 | the chart shows only reachable causes, each at its number of climatic outages, and the bars add up to all of them |
| DistribuicaoAnual.RunRaises | GRAFICOS/ANEEL/app_distribuicao_anual_interrupcoes.py:31-35 | the script raises exactly when none of the five files exists |
| DistribuicaoAnual.RunNoData | GRAFICOS/ANEEL/app_distribuicao_anual_interrupcoes.py:35-39 | it stops without a chart exactly when files exist but hold no row |
| DistribuicaoAnual.TaggedOccurrences | GRAFICOS/ANEEL/app_distribuicao_anual_interrupcoes.py:27 | a frame tagged with one year counts all its rows for that year and none for another |
| DistribuicaoAnual.FramesOccurrences | GRAFICOS/ANEEL/app_distribuicao_anual_interrupcoes.py:17-42 | the count of a year in the concatenated frames is the number of rows of the files whose name carries that year |
| DistribuicaoAnual.RowsOfOwnYear | GRAFICOS/ANEEL/app_distribuicao_anual_interrupcoes.py:8-27 | when the other files carry other years, the rows of a file's year are its own rows |
| DistribuicaoAnual.ListedYearCount | GRAFICOS/ANEEL/app_distribuicao_anual_interrupcoes.py:8-42 | the loaded rows of a listed year are the rows of that year's file |
| DistribuicaoAnual.OwnYearCount | GRAFICOS/ANEEL/app_distribuicao_anual_interrupcoes.py:27-42 | when the other files carry other years, a file's year counts exactly its rows |
| DistribuicaoAnual.HistogramKey | GRAFICOS/ANEEL/app_distribuicao_anual_interrupcoes.py:42 | a year has a point exactly when it occurs, and the point counts its occurrences |
| DistribuicaoAnual.ChartCounts | GRAFICOS/ANEEL/app_distribuicao_anual_interrupcoes.py:42-61 | the chart has one point per year whose file holds rows, in ascending year order, at the number of rows of that file, and the points add up to all rows read |
| GraficoPorCidade.MunicipiosDistinct | GRAFICOS/app_grafico_por_cidade_aneel.py:16-17 | the dictionary has one counter per listed municipality, since the four names are distinct |
| GraficoPorCidade.MatchCount | GRAFICOS/app_grafico_por_cidade_aneel.py:28 | the sum of the mask is at most the number of rows, and positive exactly when some cell matches |
| GraficoPorCidade.CountByCity | GRAFICOS/app_grafico_por_cidade_aneel.py:17-30 | the loop leaves one counter per municipality, equal to the matching rows of every file that exists and has the conjunto column |
| GraficoPorCidade.AddFile | GRAFICOS/app_grafico_por_cidade_aneel.py:27-28 | one file adds to the counter of each municipality its number of matching rows and changes nothing else |
| GraficoPorCidade.TotalGrows | GRAFICOS/app_grafico_por_cidade_aneel.py:20-30 | counters never decrease as files are read |
| GraficoPorCidade.TotalBounds | GRAFICOS/app_grafico_por_cidade_aneel.py:20-30 | a counter is at most the number of rows counted, and positive exactly when some file read has a matching row |
| GraficoPorCidade.MatchIgnoresCase | GRAFICOS/app_grafico_por_cidade_aneel.py:28 | the match ignores case: a name in capitals is counted as it is in any other case |
| SerieTemporal.ToDatetime | GRAFICOS/app_serie_temporal_interrupcoes.py:26-28 | coercing keeps one entry per cell: an empty cell or a text that is not a date gives no date, any other gives its reading |
| SerieTemporal.LoadDates | GRAFICOS/app_serie_temporal_interrupcoes.py:18-40 | the loop yields nothing exactly when no file was kept, and otherwise the concatenated `data` column of the kept files in order |
| SerieTemporal.FramesEmpty | GRAFICOS/app_serie_temporal_interrupcoes.py:18-37 | no file is kept exactly when none both exists and has a date column |
| SerieTemporal.Present | GRAFICOS/app_serie_temporal_interrupcoes.py:43 | `dropna` keeps exactly the dates that parsed, and no more rows than there were |
| SerieTemporal.MonthKeyOrder | GRAFICOS/app_serie_temporal_interrupcoes.py:46 | a month period names its year and month, and periods are equal and ordered exactly as the (year, month) pairs are |
| SerieTemporal.QuarterOfMonth | GRAFICOS/app_serie_temporal_interrupcoes.py:62 | the quarter period of a date is its month period divided by three |
| SerieTemporal.ThirdsCounts | GRAFICOS/app_serie_temporal_interrupcoes.py:62 | keys that are other keys divided by three count, for a quarter, its three months |
| SerieTemporal.QuarterCounts | GRAFICOS/app_serie_temporal_interrupcoes.py:46-62 | a quarter counts the rows of its three months |
| SerieTemporal.RunNoData | GRAFICOS/app_serie_temporal_interrupcoes.py:35-37 | the script exits exactly when no listed file exists with a date column |
| SerieTemporal.SeriesTotals | GRAFICOS/app_serie_temporal_interrupcoes.py:43-62 | both series count every date that parsed once: their counts add up to the rows that survive `dropna` |
| SerieTemporal.MonthKeysOf | GRAFICOS/app_serie_temporal_interrupcoes.py:46 | a month occurs exactly when some date falls in it |
| SerieTemporal.MonthsDrawn | GRAFICOS/app_serie_temporal_interrupcoes.py:46-51 | the monthly series has a point for a month exactly when some date that parsed falls in it, so a month without outages is absent rather than zero |
| SerieTemporal.QuarterBars | GRAFICOS/app_serie_temporal_interrupcoes.py:47-62 | each bar of the quarterly series is the sum of its three months' points |
| SerieTemporal.SeriesQuarters | GRAFICOS/app_serie_temporal_interrupcoes.py:43-65 | with calendar dates, each quarter's bar in the chart is the sum of its three months' points in the monthly chart |
| SerieTemporal.PresentDatesValid | GRAFICOS/app_serie_temporal_interrupcoes.py:26-43 | the dates that survive `dropna` are dates the reading produced |
| RandomForestWeather.CleanText | ANALISE/app_random_forest.py:135-136 | a cleaned cell holds no double quote and no comma |
| RandomForestWeather.CleanTextAppend | ANALISE/app_random_forest.py:135-136 | cleaning distributes over concatenation |
| RandomForestWeather.CleanTextChar | ANALISE/app_random_forest.py:135-136 | on one character, cleaning drops a quote, turns a comma into a point and keeps anything else |
| RandomForestWeather.CleanCell | ANALISE/app_random_forest.py:132-139 | after conversion no cell is left as raw text: it is a number or missing |
| RandomForestWeather.DecimalComma | ANALISE/app_random_forest.py:136-139 | a decimal comma is read as a decimal point |
| RandomForestWeather.QuotesIgnored | ANALISE/app_random_forest.py:135-139 | quotes around a value are ignored |
| RandomForestWeather.OnlyQuotesMissing | ANALISE/app_random_forest.py:135-139 | a value that is empty once its quotes are gone is missing |
| RandomForestWeather.LetterMissing | ANALISE/app_random_forest.py:139 | a value with a letter in it becomes missing instead of raising |
| RandomForestWeather.Cleaned | ANALISE/app_random_forest.py:128-142 | the rows kept have every present feature, and are no more than the input rows |
| RandomForestWeather.CleanedMembers | ANALISE/app_random_forest.py:130-142 | a row is kept exactly when it is the cleaning of an input row with no present feature missing |
| RandomForestWeather.CleanedAppend | ANALISE/app_random_forest.py:130-142 | cleaning a concatenation cleans its parts, so kept rows keep their order |
| RandomForestWeather.CleanFeatures | ANALISE/app_random_forest.py:130-142 | the column-by-column cleaning loop followed by `dropna` yields the cleaned rows |
| RandomForestWeather.Stamp | ANALISE/app_random_forest.py:146-149 | a stamp, when there is one, is a valid date in range with zero seconds |
| RandomForestWeather.PaddedHour | ANALISE/app_random_forest.py:147 | an hour read as the integer HHMM is padded back to four digits |
| RandomForestWeather.StampOfCanonicalRow | ANALISE/app_random_forest.py:146-149 | a row with a 'dd/mm/yyyy' date and an integer HHMM hour is stamped with exactly that minute |
| RandomForestWeather.NoSlashNoStamp | ANALISE/app_random_forest.py:146-157 | a row without a date, or with an ISO date, gets no stamp, and the fallback format is never tried |
| RandomForestWeather.AddStamps | ANALISE/app_random_forest.py:146-149 | every row gets its own stamp or NaT, in order |
| RandomForestWeather.DropUnstamped | ANALISE/app_random_forest.py:162 | the rows kept carry a stamp and are no more than the input rows |
| RandomForestWeather.DropUnstampedStamps | ANALISE/app_random_forest.py:162 | a stamp occurs among the kept samples exactly when some row got it |
| RandomForestWeather.KeepFirstStamps | ANALISE/app_random_forest.py:163 | `drop_duplicates` loses no stamp and invents none |
| RandomForestWeather.KeepFirstDistinct | ANALISE/app_random_forest.py:163 | after `drop_duplicates` at most one sample per stamp remains |
| RandomForestWeather.KeepFirstIsFirst | ANALISE/app_random_forest.py:163 | the sample kept for a stamp is the first one that carried it |
| RandomForestWeather.Hours | ANALISE/app_random_forest.py:168-170 | the resampled hours are increasing and are exactly the hours that received a reading |
| RandomForestWeather.Bucket | ANALISE/app_random_forest.py:168 | the bucket of an hour holds exactly the samples of that hour |
| RandomForestWeather.Mean | ANALISE/app_random_forest.py:168 | the mean times the number of readings is their sum |
| RandomForestWeather.HourlyMeans | ANALISE/app_random_forest.py:168-170 | one row per hour that received a reading, in order, each with five feature means |
| RandomForestWeather.HourlyMeansMeaning | ANALISE/app_random_forest.py:168-170 | a row exists exactly for each hour with a reading, rows are increasing and on the hour, and each feature is the mean of that hour's readings |
| RandomForestWeather.MeanBounds | ANALISE/app_random_forest.py:168 | the mean lies between any bounds of the readings it averages |
| RandomForestWeather.KeptNumeric | ANALISE/app_random_forest.py:128-142 | with every feature present, the cleaned rows hold five numbers each |
| RandomForestWeather.PrepareWeather | ANALISE/app_random_forest.py:123-172 | the hourly table exists exactly when the stamp text can be built and every feature column is present, and then has five values per row |
| RandomForestWeather.PrepareWeatherHours | ANALISE/app_random_forest.py:123-172 | end to end, the hourly table has a row for an hour exactly when some raw row contributes a complete, stamped reading to it |
| RandomForestLabels.Sanitize | ANALISE/app_random_forest.py:180 | only the word characters and whitespace of the city name remain |
| RandomForestLabels.NameThenSeparatorMatches | ANALISE/app_random_forest.py:180-182 | an area name that starts with the city's name, in any case, followed by nothing or a non-word character, matches |
| RandomForestLabels.NameThenWordCharDoesNotMatch | ANALISE/app_random_forest.py:179-182 | the word boundary keeps a city from matching the start of a longer word, such as "Porto Alegre" in "PORTO ALEGRETE" |
| RandomForestLabels.SanitizeKeeps | ANALISE/app_random_forest.py:180 | a name made of word characters and spaces is its own sanitized form |
| RandomForestLabels.RealOutages | ANALISE/app_random_forest.py:181-196 | an outage is real for the city exactly when its area matches and it has motive 0, type 'Não Programada' and an environmental cause |
| RandomForestLabels.OutageHours | ANALISE/app_random_forest.py:204-212 | the outage hours are exactly the floors of the starts that parse |
| RandomForestLabels.Label | ANALISE/app_random_forest.py:220 | one label per hourly row, 1 exactly when its hour is an outage hour |
| RandomForestLabels.PreprocessLabels | ANALISE/app_random_forest.py:115-228 | the frame keeps the hourly rows in order with their five features, labelled 1 exactly when the hour is the floored start of a real outage |
| RandomForestLabels.PreprocessIsLabel | ANALISE/app_random_forest.py:185-220 | both early returns give the frame the general case would give |
| RandomForestLabels.NoOutageNoHours | ANALISE/app_random_forest.py:204-212 | no outage gives no outage hour |
| RandomForestLabels.NoRealOutageAllZero | ANALISE/app_random_forest.py:185-201 | when no outage of the city qualifies, every hour is labelled 0 |
| RandomForestTraining.FramesEmpty | ANALISE/app_random_forest.py:78-106 | no frame is read exactly when no year's file could be read |
| RandomForestTraining.LoadYears | ANALISE/app_random_forest.py:61-110 | the loaders return nothing exactly when no file was read, and otherwise the concatenated rows of the files read, each tagged with its year |
| RandomForestTraining.LoadedRows | ANALISE/app_random_forest.py:65-82 | a loaded row carries the year of its file, and every row of every file read is loaded |
| RandomForestTraining.LoadedCount | ANALISE/app_random_forest.py:82-108 | the number of loaded rows is the sum of the sizes of the files read |
| RandomForestTraining.SafeName | ANALISE/app_random_forest.py:404 | the safe city name holds no space and no '/' |
| RandomForestTraining.SafeNameInverse | ANALISE/app_random_forest.py:404 | for a name without '/' or '_', turning the '_' back into spaces gives the name back |
| RandomForestTraining.SingleClassHasNoMatrix | ANALISE/app_random_forest.py:255-270 | the single-class report holds no "[[", so there is no bracketed matrix in it for a report reader to find |
| RandomForestTraining.SingleClassSaysClassZero | ANALISE/app_random_forest.py:266 | the single-class report always says the data holds only class 0, whichever class it holds |
| RandomForestTraining.ClassesBelowTwo | ANALISE/app_random_forest.py:247 | fewer than two classes means every label is the same |
| RandomForestTraining.TrainEarlyReturns | ANALISE/app_random_forest.py:236-281 | no frame or an empty one does nothing; a frame with one class gets only the single-class report, named after the safe city name |
| RandomForestTraining.TrainAfterSplit | ANALISE/app_random_forest.py:287-406 | the stratified split is tried first and the plain one only when it raises; a training part with one class or a failed fit stops without a report; otherwise the report is `relatorio_<safe>_random_forest.txt` with the AUC (0.0 when it cannot be computed) and the confusion matrix of the test labels against the predictions, and it raises exactly when those do not hold two classes |
| RandomForestTraining.TrainOneTestClassRaises | ANALISE/app_random_forest.py:344-353 | a test part and predictions of class 0 only make `classification_report` with two target names raise |
| RandomForestTraining.TrainBothSplitsFail | ANALISE/app_random_forest.py:287-292 | when both splits raise, the error of the second leaves the function |
| RandomForestTraining.ProcessCities | ANALISE/app_random_forest.py:418-455 | nothing happens when the output directory cannot be made or no ANEEL file was loaded; otherwise the cities are processed in order until one raises |
| RandomForestTraining.RunCons | ANALISE/app_random_forest.py:436-453 | one step of the run is the first city's step, then the rest unless it raised |
| RandomForestTraining.RunShape | ANALISE/app_random_forest.py:436-453 | the run takes the cities in order, one step each, stops right after the first step that raises, and reaches every city when none raises |
| MatrizConfusao.Extract | GRAFICOS/app_matriz_confusao.py:7-22 | no matrix exactly when the text has no marker block; a matrix found is square |
| MatrizConfusao.Layout | GRAFICOS/app_matriz_confusao.py:17-18 | the layout never reports a missing block, and a matrix it builds is square |
| MatrizConfusao.SquareCount | GRAFICOS/app_matriz_confusao.py:17 | the integer square root squares back to the count exactly when the count is a square |
| MatrizConfusao.ReshapeCell | GRAFICOS/app_matriz_confusao.py:18 | cell `(i, j)` of the square layout is number `i * n + j` |
| MatrizConfusao.LayoutOf | GRAFICOS/app_matriz_confusao.py:17-18 | `reshape` raises exactly when the count is not a square; otherwise the matrix holds the numbers row by row |
| MatrizConfusao.ReshapeRowMajor | GRAFICOS/app_matriz_confusao.py:18 | the square layout of `n * n` numbers holds them row by row |
| MatrizConfusao.ReportRoundTrip | GRAFICOS/app_matriz_confusao.py:7-19 | a report of the XGBoost step gives back the matrix it was written with |
| MatrizConfusao.TrainedReportRoundTrip | PREVISOR/app_xgboost.py:160-181 | in particular the confusion matrix of a trained file's report is read back |
| DispersaoPredicoes.Copies | GRAFICOS/app_dispersao_predicoes.py:24-25 | `[x] * n` is `n` copies of `x` |
| DispersaoPredicoes.RowTrue | GRAFICOS/app_dispersao_predicoes.py:23-24 | a row appends to `y_true` as many copies of its index as its entries add up to |
| DispersaoPredicoes.RowPred | GRAFICOS/app_dispersao_predicoes.py:23-25 | a row appends to `y_pred` as many labels as its entries add up to, each a column index |
| DispersaoPredicoes.Trues | GRAFICOS/app_dispersao_predicoes.py:20-25 | `y_true` is as long as the matrix total, with labels among the row indices |
| DispersaoPredicoes.Preds | GRAFICOS/app_dispersao_predicoes.py:20-25 | `y_pred` is as long as the matrix total |
| DispersaoPredicoes.ExtractPredictions | GRAFICOS/app_dispersao_predicoes.py:5-29 | both lists are empty when there is no matrix block or its count is not a square, and otherwise are the expansion of the matrix laid out row by row |
| DispersaoPredicoes.ExpandMatrix | GRAFICOS/app_dispersao_predicoes.py:20-26 | the nested loops build exactly the row-by-row expansion of the matrix |
| DispersaoPredicoes.PairCountAppend | GRAFICOS/app_dispersao_predicoes.py:24-25 | counting pairs distributes over concatenation of equally long lists |
| DispersaoPredicoes.PairCountCopies | GRAFICOS/app_dispersao_predicoes.py:24-25 | `n` copies of a pair count `n` for that pair and nothing for any other |
| DispersaoPredicoes.RowPairs | GRAFICOS/app_dispersao_predicoes.py:23-25 | a row contributes `row[b]` times the pair `(r, b)` and nothing else |
| DispersaoPredicoes.MatrixPairs | GRAFICOS/app_dispersao_predicoes.py:20-25 | exactly `m[a][b]` positions hold true label `a` and prediction `b`, and no other pair occurs |
| DispersaoPredicoes.ExpansionSorted | GRAFICOS/app_dispersao_predicoes.py:22-25 | the pairs come in order, by true label and then by prediction |
| DispersaoPredicoes.TotalOfTwoByTwo | GRAFICOS/app_dispersao_predicoes.py:20-25 | the entries of a 2 by 2 matrix add up to its total |
| DispersaoPredicoes.ReportPairs | GRAFICOS/app_dispersao_predicoes.py:5-26 | reading back an XGBoost report for 0/1 labels gives lists as long as the test split, with each pair as often as in the test labels and predictions |
| MatrizConfusaoAnalise.LineEnd | GRAFICOS/ANALISE/app_matriz_confusao_analise.py:25 | `.` covers exactly the characters up to the next line break |
| MatrizConfusaoAnalise.LastSuffix | GRAFICOS/ANALISE/app_matriz_confusao_analise.py:25 | the greedy group gives back characters until the last suffix position |
| MatrizConfusaoAnalise.ReportFileChars | ANALISE/app_random_forest.py:404-405 | the Random Forest report name is `relatorio_<city with '_' for ' '>_random_forest.txt` |
| MatrizConfusaoAnalise.ReportSuffix | GRAFICOS/ANALISE/app_matriz_confusao_analise.py:25 | in a report file name the suffix starts right after the city and nowhere later |
| MatrizConfusaoAnalise.ReportCityGroup | GRAFICOS/ANALISE/app_matriz_confusao_analise.py:25 | the city group of a Random Forest report is the safe name it was written with |
| MatrizConfusaoAnalise.ReportCityName | GRAFICOS/ANALISE/app_matriz_confusao_analise.py:25-26 | the plotted city is the name the report was written for, in title case |
| MatrizConfusaoAnalise.NoXgboostInReportFile | GRAFICOS/ANALISE/app_matriz_confusao_analise.py:17 | a report name for a city that does not spell "xgboost" does not contain it |
| MatrizConfusaoAnalise.RandomForestInReportFile | GRAFICOS/ANALISE/app_matriz_confusao_analise.py:19 | a Random Forest report name contains "random_forest" |
| MatrizConfusaoAnalise.ReportModelName | GRAFICOS/ANALISE/app_matriz_confusao_analise.py:17-20 | a Random Forest report is labelled 'RANDOM FOREST' unless the city's own name spells "xgboost" |
| MatrizConfusaoAnalise.NumberAt | GRAFICOS/ANALISE/app_matriz_confusao_analise.py:29 | a `\s*(\d+)` match consumes at least one character |
| MatrizConfusaoAnalise.TwoByTwoAt | GRAFICOS/ANALISE/app_matriz_confusao_analise.py:29 | the 2 by 2 pattern only matches where "[[" opens |
| MatrizConfusaoAnalise.ParseReport | GRAFICOS/ANALISE/app_matriz_confusao_analise.py:12-48 | a parsed report came from a file that was read and holds a 2 by 2 match, and its matrix is 2 by 2 |
| MatrizConfusaoAnalise.NoBracketsNoReport | GRAFICOS/ANALISE/app_matriz_confusao_analise.py:29-32 | a text without "[[" parses to nothing |
| MatrizConfusaoAnalise.SingleClassReportSkipped | GRAFICOS/ANALISE/app_matriz_confusao_analise.py:29-32 | the single-class report holds no bracket matrix, so it is never plotted |
| MatrizConfusaoAnalise.CellRead | GRAFICOS/ANALISE/app_matriz_confusao_analise.py:29 | the scan reads a printed cell's number back when no digit follows it |
| MatrizConfusaoAnalise.RowRead | GRAFICOS/ANALISE/app_matriz_confusao_analise.py:29 | two cells, a blank and a closing bracket read back as a row |
| MatrizConfusaoAnalise.TwoRowsRead | GRAFICOS/ANALISE/app_matriz_confusao_analise.py:29 | two rows of two cells laid out as `np.array2string` does read back as the 2 by 2 match |
| MatrizConfusaoAnalise.PrintedMatrixAt | GRAFICOS/ANALISE/app_matriz_confusao_analise.py:29-38 | a printed 2 by 2 matrix matches where it is printed: TN, FP on the first row, FN, TP on the second |
| MatrizConfusaoAnalise.PrintedTwoByTwo | GRAFICOS/ANALISE/app_matriz_confusao_analise.py:29 | a 2 by 2 matrix printed after text without '[' is the first match and reads back as the matrix |
| MatrizConfusaoAnalise.XgboostReportRead | GRAFICOS/ANALISE/app_matriz_confusao_analise.py:12-44 | a report the XGBoost step writes, for a file name without '[', parses with the matrix it printed |
| MatrizConfusaoAnalise.HeaderHasNoBracket | PREVISOR/app_xgboost.py:177-178 | what the XGBoost step writes before the matrix holds no '[' when the file name has none |
| PrevisorJoin.YearKey | PREVISOR/app.py:29 | the pairing year of an ANEEL file is made of digits only |
| PrevisorJoin.YearKeyOfFilterOutput | PREVISOR/app.py:29 | the ANEEL filter's output for a year is paired by that year |
| PrevisorJoin.YearKeyOfOutputName | ANEEL/app.py:74 | the digits of `interrupcoes_rge_sul_filtrado_<year>.csv` are the year's digits |
| PrevisorJoin.CityKeyOfFilterOutput | PREVISOR/app.py:34 | the INMET filter's output `<base>_filtrado.csv` belongs to the lower-cased base name |
| PrevisorJoin.AneelFiles | PREVISOR/app.py:18 | the ANEEL listing keeps exactly the ".csv" entries, in order |
| PrevisorJoin.InmetFilesFrom | PREVISOR/app.py:20-25 | every INMET file found is a ".csv" file of some directory of the walk, keyed by that directory's name and reached by joining the two |
| PrevisorJoin.ListInmetFiles | PREVISOR/app.py:20-25 | the walk loop collects the ".csv" files of each directory in turn |
| PrevisorJoin.ScanDir | PREVISOR/app.py:22-25 | the inner loop collects one directory's ".csv" files in listing order |
| PrevisorJoin.OutageKey | PREVISOR/app.py:39-43 | an outage's date is the first ten characters of its start and its hour the later digits, zero-filled to at least four |
| PrevisorJoin.OutageKeyOfStart | PREVISOR/app.py:39-43 | a start "<date> <time>" with a ten-character date splits into the date and the digits of the time |
| PrevisorJoin.OutageKeyOfMissing | PREVISOR/app.py:40-43 | a missing start gives the key ("nan", "0000") |
| PrevisorJoin.CityOutages | PREVISOR/app.py:44-48 | with a municipality column, exactly the outages whose lower-cased municipality contains the city key, in order; without it, all outages |
| PrevisorJoin.Matches | PREVISOR/app.py:50-56 | the matching outages are exactly those with the reading's key, in order |
| PrevisorJoin.RightJoin | PREVISOR/app.py:50-56 | the right merge has at least one row per reading |
| PrevisorJoin.RightJoinRows | PREVISOR/app.py:50-56 | each row is a reading with a matching outage, or alone when none matches; each reading appears with each matching outage, in order |
| PrevisorJoin.JoinedRowsSnoc | PREVISOR/app.py:50-56 | joining one more reading appends its rows |
| PrevisorJoin.RightJoinSize | PREVISOR/app.py:50-56 | the merge has one row per reading plus one per further matching outage |
| PrevisorJoin.RightJoinNoMatch | PREVISOR/app.py:50-56 | when no outage shares a key with a reading, the merged frame is the readings alone |
| PrevisorJoin.NonDigitHourUnmatched | PREVISOR/app.py:43-56 | an INMET hour holding a non-digit matches no outage, since outage hours are digits only |
| PrevisorJoin.Merge | PREVISOR/app.py:39-56 | a pair merges exactly when the outages have a start column and the readings both keys; the merged frame keeps the INMET columns and at least one row per reading |
| PrevisorJoin.PairFramesFrom | PREVISOR/app.py:28-59 | a frame comes from an ANEEL file and an INMET file of the same year, and belongs to the INMET file's city |
| PrevisorJoin.GroupsHoldFrames | PREVISOR/app.py:57-59 | each city's list holds exactly that city's frames, in the order they were produced |
| PrevisorJoin.AddPair | PREVISOR/app.py:31-59 | a pair of the same year that merges appends its frame to its city's list, adding the city the first time; any other pair changes nothing |
| PrevisorJoin.AddPairs | PREVISOR/app.py:31-59 | the inner loop collects the frames of one ANEEL file per city |
| PrevisorJoin.Collect | PREVISOR/app.py:28-59 | the nested loops collect every frame per city, cities in the order first met |
| PrevisorJoin.AppendFrame | PREVISOR/app.py:57-59 | one more frame: its city is added at the end when new, and the frame is appended to that city's list |
| PrevisorRules.NormaliseDate | PREVISOR/app.py:65-76 | a missing value gives "", a year-first date is rewritten day first with '/', a dashed day-first date gets '/', anything else is kept stripped |
| PrevisorRules.SlashDayFirstIsFixed | PREVISOR/app.py:74-75 | a dd/mm/yyyy date is kept |
| PrevisorRules.NormaliseDateIdempotent | PREVISOR/app.py:65-78 | normalising a normalised date changes nothing |
| PrevisorRules.NormaliseIsoDate | PREVISOR/app.py:69-71 | a year-first date keeps its three numbers and swaps the year and the day |
| PrevisorRules.IsoDateStamps | PREVISOR/app.py:69-71 | a normalised year-first date with its zero-filled hour is read back by the day-first timestamp format as that hour |
| PrevisorRules.RainRiskCounts | PREVISOR/app.py:82-92 | the rain level is the number of the thresholds 5, 15 and 30 mm the amount reaches |
| PrevisorRules.GustRiskCounts | PREVISOR/app.py:103-111 | the gust level is the number of the thresholds 10, 15, 21 and 25 m/s the gust reaches |
| PrevisorRules.RainRiskMonotone | PREVISOR/app.py:82-92 | more rain never lowers the level |
| PrevisorRules.GustRiskMonotone | PREVISOR/app.py:103-111 | a stronger gust never lowers the level |
| PrevisorRules.ParseFloat | PREVISOR/app.py:98 | `float()` reads a numeral as its value, a spelling of NaN as NaN, and raises on anything else |
| PrevisorRules.ParseFloatOfNanAndEmpty | PREVISOR/app.py:125 | the text of an empty cell reads as NaN, and the empty text does not read at all |
| PrevisorRules.CommaNumeral | PREVISOR/app.py:98 | a locale numeral "a,b" reads as a.b once its comma is a point |
| PrevisorRules.CoercedAmountValues | PREVISOR/app.py:81 | a locale numeral "a,b" is coerced to a.b, and text with a letter to 0 |
| Previsor.ConcatRows | PREVISOR/app.py:62 | the concatenation holds every row of every frame, and a weather cell is absent exactly when no frame has that column |
| Previsor.WindRisk | PREVISOR/app.py:96-112 | the wind level is 'unknown' unless the gust text reads as a number, and then the thresholds decide it |
| Previsor.WindRiskWithoutGust | PREVISOR/app.py:98-102 | no gust column and an empty gust cell both give 'unknown' |
| Previsor.WindRiskOfNumeral | PREVISOR/app.py:98 | a locale numeral "a,b" is read as the gust a.b |
| Previsor.PyMaxResult | PREVISOR/app.py:129 | `max` of the wind values is NaN exactly when the first one is, and otherwise the greatest number among them |
| Previsor.VegetationMonotone | PREVISOR/app.py:136-141 | more wind or more rain never lowers the vegetation level |
| Previsor.VegetationCritical | PREVISOR/app.py:136-138 | the level is 'critico' exactly when some wind value reaches 21 and the 24-row rain 80, provided the speed read as a number |
| Previsor.EmptySpeedHidesGust | PREVISOR/app.py:122-141 | an empty speed cell reads "nan", heads the list and hides a gust of any strength: the level is then 'baixo' |
| Previsor.StampLeTotal | PREVISOR/app.py:116 | the order of `sort_values` is total, NaT last |
| Previsor.InsertSorted | PREVISOR/app.py:116 | inserting into a frame sorted by timestamp keeps it sorted |
| Previsor.SortByStampSorted | PREVISOR/app.py:116 | the rows come out in time order, the rows without a timestamp last, and none is lost, added or changed |
| Previsor.WindowStep | PREVISOR/app.py:117 | the next window sum is the previous one plus the entering value, minus the leaving value once the window is full |
| Previsor.RollingSums | PREVISOR/app.py:117 | one rolling sum per value |
| Previsor.RollingSum | PREVISOR/app.py:117 | the sliding-window loop computes the rolling sums |
| Previsor.WindowBounds | PREVISOR/app.py:117 | the first 24 positions sum everything so far, and with non-negative rain a window is never below its last hour |
| Previsor.CityRows | PREVISOR/app.py:62-143 | a city raises exactly when none of its frames has the rain column, and otherwise has one row per concatenated row |
| Previsor.CityRowsShape | PREVISOR/app.py:62-143 | a city's rows are its concatenated rows with their levels, in time order, the vegetation level of each reading the rain window ending at it |
| Previsor.FinishedRows | PREVISOR/app.py:117-143 | each finished row is the staged row with the rain window ending at it |
| Previsor.Consolidate | PREVISOR/app.py:115-143 | the staged rows are sorted and then given their rolling rain sums |
| Previsor.OutputName | PREVISOR/app.py:145-146 | the output name holds no space and no '/' from the city key |
| Previsor.WriteSpecStops | PREVISOR/app.py:61-148 | the script stops exactly when some city raises, and the files written are those of the cities before the first such one, in order |
| Previsor.ResultsRaise | PREVISOR/app.py:81 | a city raises exactly when none of its frames has the rain column |
| Previsor.WriteCities | PREVISOR/app.py:61-148 | the loop writes the cities' files in order until the first city that raises |
| Previsor.WriteEach | PREVISOR/app.py:61-148 | the loop writes each city's rows in turn, stopping at the first city that raises |
| Previsor.JoinDatasets | PREVISOR/app.py:6-148 | `juntar_datasets` collects the frames per city and writes the cities' files in the order the cities were first met |
| PrevisorXgboost.CityRows | PREVISOR/app_xgboost.py:61-125 | the city's file holds every concatenated row, in the order of the frames, unsorted |
| PrevisorXgboost.NoRainColumn | PREVISOR/app_xgboost.py:81-97 | without a rain column every rain is 0 and every rain level 'baixo' |
| PrevisorXgboost.UnknownWindIsLow | PREVISOR/app_xgboost.py:100-121 | where the sibling script's wind level is 'unknown', the gust here is 0 and its level 'baixo' |
| PrevisorXgboost.WindLevelsAgree | PREVISOR/app_xgboost.py:100-121 | otherwise both scripts give a row the same wind level |
| PrevisorXgboost.WriteCities | PREVISOR/app_xgboost.py:61-126 | the loop writes one file per city, in order |
| PrevisorXgboost.SiblingFilesFirst | PREVISOR/app_xgboost.py:61-126 | the files the sibling script writes before it stops are the first files written here, under the same names and with as many rows |
| PrevisorXgboost.JoinDatasets | PREVISOR/app_xgboost.py:9-126 | the pairing of the sibling script, then one file per city in the order the cities were first met |
| PrevisorXgboost.Numeric | PREVISOR/app_xgboost.py:141-142 | a missing column, an empty cell or non-numeric text gives NaN |
| PrevisorXgboost.Target | PREVISOR/app_xgboost.py:148 | 'alto' and 'muito_alto' map to 1, 'baixo' and 'moderado' to 0, anything else to NaN |
| PrevisorXgboost.TargetOfRainLevel | PREVISOR/app_xgboost.py:148 | the target of a written rain level is 1 exactly when the rain reached 15 mm |
| PrevisorXgboost.SamplesOfCompleteRows | PREVISOR/app_xgboost.py:141-154 | each sample is a complete row's, and every complete row gives one, in order |
| PrevisorXgboost.NoFeatureNoSamples | PREVISOR/app_xgboost.py:141-145 | a file without the rain or the gust column keeps no row |
| PrevisorXgboost.InsufficientIff | PREVISOR/app_xgboost.py:156 | too little data means fewer than two samples, or samples sharing one target |
| PrevisorXgboost.ReportNameOfCityFile | PREVISOR/app_xgboost.py:175 | the report of a city file keeps the city part of its name |
| PrevisorXgboost.HeaderHasNoMarker | PREVISOR/app_xgboost.py:177 | no marker starts in the header of a file whose name has no 'M' |
| PrevisorXgboost.ReportMatrixFound | PREVISOR/app_xgboost.py:177-181 | the matrix text the chart scripts search for is found again, exactly, in the report |
| PrevisorXgboost.CityFileHasNoM | PREVISOR/app_xgboost.py:124-135 | the city files written by the first step are free of 'M' |
| PrevisorXgboost.TrainFileSkips | PREVISOR/app_xgboost.py:138-158 | a file is skipped without report exactly when it reads and has the target column but too little data |
| PrevisorXgboost.TrainFileReport | PREVISOR/app_xgboost.py:160-181 | a report holds the confusion matrix of the test labels against the predictions, `[[TN, FP], [FN, TP]]` for 0/1 labels |
| PrevisorXgboost.TrainSpecStops | PREVISOR/app_xgboost.py:133-182 | the loop ends early exactly when some ".csv" file raises; every report comes from a ".csv" file that trained; when nothing raises every such file has its report |
| PrevisorXgboost.TrainAll | PREVISOR/app_xgboost.py:128-182 | `treinar_xgboost` handles the entries in listing order as the loop specifies |
| PrevisorXgboost.TrainEach | PREVISOR/app_xgboost.py:133-182 | the loop writes the reports as specified |

## Left out

- Floating point: values are exact `real`s, and NaN is `None`. IEEE rounding, `:.4f` formatting and Python's `max` over NaN in comparisons other than the vegetation rule are not modelled.
- The learners are oracles:
  - scikit-learn's `train_test_split`, `GridSearchCV`, `RandomForestClassifier` and `roc_auc_score` are fields of `RandomForestTraining.Learner`;
  - `XGBClassifier` with its split is `PrevisorXgboost.Learner`.
  - Only the branching around these calls is modelled.
- `classification_report` text, feature importances, accuracy and F1 values are not modelled. Only the report's file name, the AUC, the confusion matrix and the single-class report are.
- Free-form `pd.to_datetime` without a format is an oracle: `RandomForestLabels.ColumnParser` and the `parse` parameter of `SerieTemporal.ToDatetime`. Only `%d/%m/%Y %H%M` is modelled exactly (`Calendar.ParseDmyHm`).
- `read_csv` is a loader parameter. It returns a table, or `None` for a file that cannot be read, which stands for the missing file the scripts catch. The model does not tell apart the other ways a read can fail: malformed rows, `on_bad_lines`, encodings and `low_memory` type inference.
- RandomForestLabels.RealOutages: every ANEEL column is a per-cell `Option`, so the model cannot express a frame that lacks a column. A missing `DscConjuntoUnidadeConsumidora` column raises a `KeyError` at line 182 of the random forest script. Here it reads as a frame whose area cells are all missing, which selects no outage.
- File system and process plumbing are not modelled:
  - `os.walk` and `listdir` ordering, which are given as sequences;
  - `os.makedirs` and file writes, which become the returned tables and texts;
  - the stdout capture and printing;
  - `n_jobs=-1` parallelism.
- All matplotlib and seaborn rendering is not modelled, including `plot_confusion_matrices`, the order of bars in the charts and `capitalize` in chart titles.
- The start-date conversion at line 63 of the causes chart script is modelled only by the `KeyError` it raises when no file read has the `DatInicioInterrupcao` column. With `errors='coerce'` it raises on no cell, and nothing in the chart uses the dates it produces.
- Chart scripts that only plot float statistics or bare row counts are not part of this model: the model comparison, the climate comparison, the climate variable distribution, the prediction scatter plot and the per-year ANEEL count.
- Numbers.ParseDecimal: reads plain decimal numerals only. Exponents (`1e3`), `inf`, `nan` and `_` digit separators, which Python's `float` and `pd.to_numeric` accept, read as missing here.
- Previsor.SortByStamp: is an insertion sort that keeps rows with equal timestamps in their input order. The quicksort behind pandas' `sort_values` does not promise that order, so the rolling sum over tied rows may see them in another order.
- PrevisorJoin.CityOutages: matches the city key as a literal substring. `str.contains` reads it as a regular expression, so a key with metacharacters (`.`, `(`) may match differently or raise.
- ReportScan.DigitRuns and MatrizConfusaoAnalise.DigitEnd: read `\d` as the ASCII digits only. In a `str` pattern, `\d` also matches other Unicode decimal digits. The text they scan is numpy's output, which holds ASCII digits only.
- Text.DigitsOnly: keeps ASCII digits only. `str.isdigit` and `\d` also accept other Unicode digits.
- Numbers.ParseInt: reads ASCII digits only. Python's `int()` also accepts other Unicode decimal digits and `_` separators. The year segment it reads is split on `_`, so separators cannot reach it there.
- Text.Lower: maps ASCII and Latin-1 letters only. Other characters are kept unchanged.
- Text.Upper: maps ASCII and Latin-1 letters only, except U+00DF and U+00FF, whose upper-case forms lie outside Latin-1.
- Text.Title: counts as cased only the ASCII and Latin-1 letters, and keeps the length. Python's `str.title()` also cases letters outside Latin-1 (so `"łódź"` becomes `"Łódź"`, where the model gives `"łÓdź"`). It also turns U+00DF into `"Ss"`, which is longer, and U+00FF into U+0178. The model keeps both of those unchanged.
- ReportScan.Array2String: prints each matrix row on one line. numpy wraps rows longer than 75 columns, and that wrapping is not modelled.
- MatrizConfusaoAnalise.ModelName: XGBoost reports are named `relatorio_cidade_<city>.txt`, which does not contain "xgboost", so the analysis labels them "Desconhecido". The model keeps this behaviour.
