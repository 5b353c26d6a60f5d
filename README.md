# Weekly performance summariser: the rules inside the pipeline

`summarize.py` reads weekly CSV files of system metrics and computes
descriptive statistics for each numeric column. It builds a prompt from
those statistics and a fixed catalog of column descriptions. It saves one
plot per numeric column under a filesystem-safe name and asks an external
text generator (`ollama run mistral`) for a summary of each week. Finally
it asks the generator to compare each pair of adjacent weeks and collects
the comparisons into one file.

This project models, in Dafny, the parts of that pipeline that follow
stateable rules:

- `clean_filename`. The file-name sanitiser, modelled as a pure function:
  module `FileNames`, file `filenames.dfy`.
- The column-description section of the summary prompt. It selects from the
  catalog `COLUMN_DESCRIPTIONS` and joins the lines with newlines: module
  `Prompt`, file `prompt.dfy`.
- `calculate_statistics` and `format_stats`. Both are methods with the
  source's loops. The dictionary keeps Python's insertion order, and each
  method is proved against a specification function: module `Statistics`,
  file `statistics.dfy`.
- The exit-status gate of `generate_summary`, and the pair loop of
  `compare_summaries` with its `continue` on failure. The generator process
  is an oracle: module `Reports`, file `reports.dfy`.
- Python's string behaviour that these depend on: `str.strip` with Python's
  whitespace set, `"\n".join`, repeated `text += line + "\n"`, `"".join` and
  decimal rendering of week numbers. A model of `str.split("\n")` is there
  only to state how the produced text reads back line by line; the program
  itself never splits a string. Module `Text`, file `text.dfy`. `Option` lives
  in `wrappers.dfy`.

The source gives no guarantees about statistic values. They are parameters:
`measure` computes a metric over a column's cells, `render` is the
two-decimal rendering, and `isNumeric` is pandas' numeric-dtype test.

The generator is a parameter as well. `run` maps its input to a
`Completed` record of exit status, stdout and stderr, the decoded result
of `subprocess.run`.

## Model

| member | source | states |
|---|---|---|
| FileNames.CleanFilename | summarize.py:64-65 | The result has the input's length. Every character of the result is a word character, `-`, `_` or `.`. An allowed character stays at its position, and every other character becomes `_`. |
| FileNames.CleanFilenameFixes | summarize.py:65 | A name comes back unchanged exactly when all its characters are allowed. |
| FileNames.CleanFilenameIdempotent | summarize.py:65 | Cleaning an already cleaned name changes nothing. |
| FileNames.CleanFilenameAppend | summarize.py:65 | The substitution works character by character: cleaning `a + b` gives the cleaning of `a` followed by that of `b`. |
| FileNames.CleanFilenameSlash | summarize.py:83 | For plot names, a slash between two allowed parts becomes an underscore, so `latency/read` becomes `latency_read`. |
| Prompt.ColumnDescriptionsDistinct | summarize.py:7-15 | The built-in catalog has one entry per column name, as a dictionary does. |
| Prompt.ColumnDescriptionsEndClean | summarize.py:7-15 | No description in the built-in catalog ends with a newline. |
| Prompt.DescriptionLine | summarize.py:43 | One catalog entry becomes `- **column**: description`: the prefix `- **`, the column name, `**: `, then the description. |
| Prompt.Described | summarize.py:43 | An entry is selected exactly when it is in the catalog and its column is among the dataset's columns. No more entries than the catalog holds are selected. |
| Prompt.DescribedInOrder | summarize.py:43 | The selected entries keep catalog order: they are a subsequence of the catalog. |
| Prompt.DescribedAppend | summarize.py:43 | Selecting from two catalogs placed one after the other gives the two selections one after the other. |
| Prompt.DescriptionSection | summarize.py:42-44 | `column_description_text`: the lines of the selected entries, in catalog order, with a newline between each pair of consecutive lines and none after the last. |
| Prompt.DescriptionSectionEmpty | summarize.py:42-44 | The section is empty exactly when none of the catalog's columns is in the dataset. |
| Prompt.DescriptionSectionLines | summarize.py:42-44 | A non-empty section split at newlines gives exactly the lines `- **col**: desc` of the selected entries, in catalog order, one per entry. |
| Prompt.DescriptionSectionNoTrailingNewline | summarize.py:42-44 | For any catalog whose descriptions do not end with a newline, the joined section never ends with one. |
| Prompt.ColumnDescriptionsSectionNoTrailingNewline | summarize.py:42-44 | The section built from the built-in catalog never ends with a newline, whatever columns the dataset has. |
| Statistics.Put | summarize.py:22 | This is `stats[col] = ...` on an insertion-ordered dictionary. Keys stay distinct, and the key set gains exactly `k`. A new key is appended at the end. An existing key keeps its position and takes the new value. Every other entry is unchanged. |
| Statistics.RecordOf | summarize.py:22-28 | The inner dictionary for one numeric column: exactly the five pairs `mean`, `median`, `std`, `min` and `max`, in that order, each holding that measure of the column's cells. |
| Statistics.Entries | summarize.py:20-28 | The dictionary expected when names are distinct: one entry per given column, in column order, each the column's name with its record. |
| Statistics.NumericColumns | summarize.py:20-21 | Every selected column is a numeric column of the dataset, and every numeric column is selected. |
| Statistics.NumericColumnsInOrder | summarize.py:20-21 | The selected columns keep dataset column order. |
| Statistics.CalculateStatistics | summarize.py:18-29 | Keys are distinct and are exactly the names of the numeric columns. Every entry is a numeric column's name with its mean, median, std, min and max record, in that order. When column names are distinct, the dictionary is one entry per numeric column in column order. No columns give an empty dictionary. |
| Statistics.SummarisesStep | summarize.py:20-28 | One turn of the loop keeps that invariant, on both branches: storing a numeric column and skipping a non-numeric one. |
| Statistics.EntriesStep | summarize.py:22-28 | With distinct names, storing a new numeric column appends its entry, because its key is not present yet. |
| Statistics.EntriesLineCount | summarize.py:22-28 | A dictionary built from numeric columns gives six lines per column: a header and five metrics. |
| Statistics.HeaderLine | summarize.py:35 | An entry's header is `**col**:` for its key. |
| Statistics.MetricLine | summarize.py:37 | A metric line is two spaces, `- `, the metric name, `: `, then the rendered value. |
| Statistics.StatsLines | summarize.py:34-37 | The lines the two loops emit, entry after entry: each entry's header, then its metric lines in the metrics' order. |
| Statistics.FormatStats | summarize.py:32-38 | The text is each line of the statistics layout followed by a newline, entry by entry and metric by metric. An empty dictionary gives `""`. |
| Statistics.StatsLinesAppend | summarize.py:34-37 | The lines of two dictionaries placed one after the other are the lines of the first followed by those of the second. |
| Statistics.StatsLinesCount | summarize.py:34-37 | The number of lines is the sum over the entries of one plus the entry's number of metrics. |
| Statistics.StatsLayout | summarize.py:34-37 | The lines of entry `k` are a contiguous block. It starts right after the lines of the entries before it, whose number is given by `LineCount`. |
| Statistics.EntryLinesLayout | summarize.py:35-37 | An entry's block is its `**col**:` header, then exactly one `  - stat: value` line per metric, in the metrics' order. |
| Statistics.StatsLinesSingle | summarize.py:35-37 | When keys, metric names and rendered values have no newline, no line of the layout has one. |
| Statistics.FormatStatsLines | summarize.py:33-38 | Splitting the text at newlines gives back exactly its lines plus one empty piece after the final newline. That is `LineCount + 1` pieces. |
| Reports.GenerateSummary | summarize.py:102-108 | A summary is written exactly when the process exits with status 0. It is the stripped stdout, which neither starts nor ends with whitespace. |
| Reports.Generated | summarize.py:102-106 | The status gate of both callers: nothing on a non-zero exit status, otherwise the stripped stdout. `compare_summaries` applies the same gate at lines 139-144. |
| Reports.Outcomes | summarize.py:113-116 | There is one outcome per adjacent pair of summaries: `n - 1` of them, or none when `n < 2`. |
| Reports.Blocks | summarize.py:139-145 | Pair `i` has a block exactly when its comparison succeeded. |
| Reports.BlockOfPair | summarize.py:133-145 | Pair `i`'s block is absent on a non-zero exit status. Otherwise it is `Block(i, ...)` of the stripped output of the run on the two stripped summaries. |
| Reports.CompareSummaries | summarize.py:111-148 | The list is the blocks of the successful pairs, in pair order, and the file holds their concatenation. Fewer than two summaries give no block and an empty file. |
| Reports.Comparisons | summarize.py:112-145 | The list `comparisons` after the loop: the blocks of the pairs whose outcome is present, in pair order. |
| Reports.SucceededSpec | summarize.py:113-142 | A pair index appears exactly when it is in range and its comparison succeeded. The indices strictly increase, so there is at most one per pair. |
| Reports.PresentAt | summarize.py:139-145 | Item `j` of the list is the value at the `j`-th position that holds one. |
| Reports.ComparisonsAreBlocks | summarize.py:113-145 | There are as many blocks as successful pairs, and never more than there are pairs. A pair is listed exactly when it succeeded. Pairs come in increasing order. Block `j` is the block of the `j`-th successful pair with that pair's comparison text. |
| Reports.ComparisonsDecode | summarize.py:144-145 | Reading block `j` back yields the index of the `j`-th successful pair and the trimmed text the generator produced for it. |
| Reports.FailureIsolated | summarize.py:139-142 | Take two runs that differ only in the outcome of pair `j`. Their lists agree before and after `j`, and differ only in `j`'s own block, which is there exactly when `j` succeeded. |
| Reports.OutputEmptyIffAllFailed | summarize.py:147-148 | The output file is empty exactly when every comparison failed. |
| Reports.MiddlePairFails | summarize.py:113-145 | With four summaries where only the comparison of weeks 2 and 3 fails, the list is exactly the blocks of pairs 0 and 2, in that order. |
| Reports.WeekLabels | summarize.py:145 | Pair 0 is labelled `Week 1 vs Week 2` and pair 2 is labelled `Week 3 vs Week 4`: week numbers are one-based. |
| Reports.BlockRoundTrip | summarize.py:145 | Parsing a block gives back its pair index and its text. The label, the text and the closing divider line are recoverable. |
| Reports.BlockInjective | summarize.py:145 | Different pairs or different texts never give the same block. |
| Reports.Label | summarize.py:145 | The block heading `\n🔍 Week {i+1} vs Week {i+2}:\n`: week numbers are one-based and written in decimal. |
| Reports.Block | summarize.py:145 | A block is its label, then the comparison text, a newline, 80 dashes and a newline. |
| Reports.BlockStartsWithWeek | summarize.py:145 | A block starts with `\n🔍 Week ` followed by exactly the digits of the first week's number. |
| Reports.BlockFramesText | summarize.py:145 | A block is its label, then the text, then a newline, 80 dashes and a newline. |
| Text.IsSpace | summarize.py:106 | Exactly the characters for which Python's `str.isspace()` holds: the C0 controls from tab to carriage return and from U+001C to U+001F, space, U+0085, U+00A0, U+1680, U+2000 to U+200A, U+2028, U+2029, U+202F, U+205F and U+3000. Every `strip()` of the program removes exactly these. |
| Text.Strip | summarize.py:106 | The result is a contiguous slice of the input. Everything removed before and after it is Python whitespace, and a non-empty result starts and ends with a non-whitespace character. |
| Text.StripUnique | summarize.py:106 | Whitespace around a core with non-whitespace ends is exactly what stripping removes. |
| Text.StripIdempotent | summarize.py:115-116 | Stripping an already stripped text changes nothing. |
| Text.Terminated | summarize.py:33-37 | Repeated `text += line + "\n"` from `""`: each line followed by one newline, in order, and `""` for no lines. |
| Text.SplitJoinLines | summarize.py:42 | Splitting a newline join of newline-free lines at newlines gives the lines back. |
| Text.JoinLines | summarize.py:42 | `"\n".join`: empty for no lines, the line itself for one, otherwise the lines with one newline between each pair of consecutive lines. |
| Text.JoinLinesEnds | summarize.py:42 | A newline join ends with the last character of its last line. |
| Text.SplitTerminated | summarize.py:35-37 | Lines each followed by a newline split back into those lines plus one empty piece. |
| Text.ConcatEmpty | summarize.py:148 | The concatenation that `writelines` writes is empty exactly when every part is empty. |
| Text.Concat | summarize.py:148 | What `writelines` writes: the parts one after the other, with nothing added between them. |
| Text.ParseNatToString | summarize.py:145 | Reading back the decimal digits produced for a week number gives that number. |
| Text.NatToString | summarize.py:145 | `f"{n}"`: one or more decimal digits, starting with `0` only for 0, so no leading zeros. |

## Left out

- FileNames.CleanFilename: word characters are ASCII letters, digits and `_`. Python 3's `\w` also accepts other Unicode letters and digits. The model turns those into `_`, where Python would keep them.
- Statistics.CalculateStatistics: the ordered-entries guarantee is stated only when column names are distinct. Every dataset the program builds meets this, because `pd.read_csv` (`summarize.py:91`) renames repeated headers to `X`, `X.1`, and so on. With a repeated name, `df[col]` would be a frame of several columns, for which `is_numeric_dtype` is false; the `isNumeric` parameter can express that. The other guarantees hold for every dataset.
- Prompt.DescriptionSectionLines: it requires a catalog with no newline in any name or description. The built-in catalog meets this by inspection, but the model does not prove it of the literal.
- Statistics.FormatStatsLines: it requires keys, metric names and rendered values with no newline. The rendering is a parameter, so the model cannot establish this itself.
- Statistic values: mean, median, sample standard deviation, minimum and maximum are computed by pandas, and values are rendered with `:.2f`. Both are parameters (`measure`, `render`), because they are floating-point library code. `is_numeric_dtype` is the parameter `isNumeric`.
- The external generator is the oracle parameter `run`, because it is a foreign process. The model does not cover `subprocess.run` itself, UTF-8 encoding of the prompt, decoding of stdout and stderr, or printing stderr and status messages.
- Reports.CompareSummaries: the oracle is given the pair index and the two trimmed summaries. The source gives it a prompt made from exactly those three values plus fixed wording, and that wording is left out.
- Reports.GenerateSummary: it starts from the finished prompt. The fixed wording of the summary prompt and its final `strip()` are left out, as is the order of steps before the call (`summarize.py:91-94`). The parts of the prompt that follow rules are modelled: the description section (`Prompt.DescriptionSection`) and the statistics text (`Statistics.FormatStats`).
- CSV loading (`read_csv().dropna().head(100)`) is left out, because it is pandas input and cleaning behaviour.
- Plotting (`plot_metrics`) is left out, because it is matplotlib rendering and file output. Only the `clean_filename` call it makes is modelled.
- Summaries are read back in text mode (`summarize.py:114-116`), which translates `\r\n` and `\r` to `\n`. That translation is not modelled: a summary is given to the comparator as a string, so the model does not relate it to what `generate_summary` wrote.
- File reads and writes, `os.makedirs` and `os.path` are left out, because they are file-system plumbing. Summaries arrive as strings, and the written file is the concatenated text. Errors opening a missing file are not modelled.
- The main runner with its fixed four-week file lists is left out, because it is configuration with no logic of its own.
