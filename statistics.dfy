/**
 * `calculate_statistics` and `format_stats` (summarize.py, lines 18-38).
 * A dataset is a sequence of named columns; whether a column is numeric and
 * the value of each statistic are left abstract (the parameters `isNumeric`
 * and `measure`), and so is the two-decimal rendering of a value (`render`).
 * Python dictionaries keep insertion order, so a dictionary is a sequence of
 * (key, value) pairs with distinct keys.
 */
module Statistics {
  import opened Text
  import opened Sequences

  /** One column of a dataset: its name and its cells. */
  datatype Column<Cell> = Column(name: string, cells: seq<Cell>)

  /** The five statistics of a numeric column. */
  datatype Metric = Mean | Median | Std | Min | Max

  function MetricName(m: Metric): string {
    match m
    case Mean => "mean"
    case Median => "median"
    case Std => "std"
    case Min => "min"
    case Max => "max"
  }

  /** A statistics record: metric name to value, in the order the source's dictionary literal lists them. */
  function RecordOf<Cell, V>(c: Column<Cell>, measure: (Metric, seq<Cell>) -> V): seq<(string, V)> {
    [ (MetricName(Mean), measure(Mean, c.cells)), (MetricName(Median), measure(Median, c.cells)),
      (MetricName(Std), measure(Std, c.cells)), (MetricName(Min), measure(Min, c.cells)),
      (MetricName(Max), measure(Max, c.cells)) ]
  }

  function Keys<K, V>(d: seq<(K, V)>): (ks: seq<K>)
    ensures |ks| == |d| && forall i :: 0 <= i < |d| ==> ks[i] == d[i].0
  {
    seq(|d|, i requires 0 <= i < |d| => d[i].0)
  }

  function Names<Cell>(df: seq<Column<Cell>>): (ns: seq<string>)
    ensures |ns| == |df| && forall i :: 0 <= i < |df| ==> ns[i] == df[i].name
  {
    seq(|df|, i requires 0 <= i < |df| => df[i].name)
  }

  predicate Distinct<T(==)>(s: seq<T>) {
    forall i, j :: 0 <= i < j < |s| ==> s[i] != s[j]
  }

  /**
   * `d[k] = v` on an insertion-ordered dictionary: a present key keeps its
   * position and gets the new value, an absent key is added at the end.
   */
  function Put<V>(d: seq<(string, V)>, k: string, v: V): (r: seq<(string, V)>)
    requires Distinct(Keys(d))
    ensures Distinct(Keys(r))
    ensures forall x :: x in Keys(r) <==> x in Keys(d) || x == k
    ensures k in Keys(d) ==> Keys(r) == Keys(d)
    ensures k !in Keys(d) ==> r == d + [(k, v)]
    ensures forall i :: 0 <= i < |r| && r[i].0 == k ==> r[i].1 == v
    ensures forall i :: 0 <= i < |d| && d[i].0 != k ==> r[i] == d[i]
  {
    if k in Keys(d) then
      var i := KeyIndex(d, k);
      assert Keys(d[i := (k, v)]) == Keys(d);
      d[i := (k, v)]
    else
      assert Keys(d + [(k, v)]) == Keys(d) + [k];
      d + [(k, v)]
  }

  /** The position of key `k` in the dictionary `d`. */
  function KeyIndex<V>(d: seq<(string, V)>, k: string): (i: nat)
    requires k in Keys(d)
    ensures i < |d| && d[i].0 == k
  {
    if d[0].0 == k then 0 else assert Keys(d[1..]) == Keys(d)[1..]; 1 + KeyIndex(d[1..], k)
  }

  /** The numeric columns of `df`, in column order. */
  function NumericColumns<Cell>(df: seq<Column<Cell>>, isNumeric: Column<Cell> -> bool): (r: seq<Column<Cell>>)
    ensures forall i :: 0 <= i < |r| ==> r[i] in df && isNumeric(r[i])
    ensures forall i :: 0 <= i < |df| && isNumeric(df[i]) ==> df[i] in r
  {
    if df == [] then []
    else NumericColumns(df[..|df| - 1], isNumeric) + (if isNumeric(df[|df| - 1]) then [df[|df| - 1]] else [])
  }

  /** The statistics dictionary of a list of numeric columns with distinct names. */
  function Entries<Cell, V>(cs: seq<Column<Cell>>, measure: (Metric, seq<Cell>) -> V): (r: seq<(string, seq<(string, V)>)>)
    ensures |r| == |cs|
  {
    seq(|cs|, j requires 0 <= j < |cs| => (cs[j].name, RecordOf(cs[j], measure)))
  }

  /** The numeric columns keep dataset order. */
  lemma {:induction false} NumericColumnsInOrder<Cell>(df: seq<Column<Cell>>, isNumeric: Column<Cell> -> bool)
    ensures IsSubsequence(NumericColumns(df, isNumeric), df)
  {
    if df != [] {
      var init := df[..|df| - 1];
      NumericColumnsInOrder(init, isNumeric);
      SubsequenceExtend(NumericColumns(init, isNumeric), init, df[|df| - 1], isNumeric(df[|df| - 1]));
      assert init + [df[|df| - 1]] == df;
    }
  }

  lemma {:induction false} SubsequenceExtend<T>(xs: seq<T>, ys: seq<T>, y: T, keep: bool)
    requires IsSubsequence(xs, ys)
    ensures IsSubsequence(xs + (if keep then [y] else []), ys + [y])
    decreases |ys|
  {
    var xs' := xs + (if keep then [y] else []);
    if xs == [] {
      if keep {
        assert xs' == [y];
        SubsequenceOfSingleton(y, ys);
      }
    } else {
      assert xs'[0] == xs[0] && xs'[1..] == xs[1..] + (if keep then [y] else []);
      assert (ys + [y])[0] == ys[0] && (ys + [y])[1..] == ys[1..] + [y];
      if xs[0] == ys[0] {
        SubsequenceExtend(xs[1..], ys[1..], y, keep);
      } else {
        SubsequenceExtend(xs, ys[1..], y, keep);
      }
    }
  }

  lemma {:induction false} SubsequenceOfSingleton<T>(y: T, ys: seq<T>)
    ensures IsSubsequence([y], ys + [y])
    decreases |ys|
  {
    if ys != [] && ys[0] != y {
      assert (ys + [y])[1..] == ys[1..] + [y];
      SubsequenceOfSingleton(y, ys[1..]);
    } else if ys != [] {
      assert [y][1..] == [];
    } else {
      assert ys + [y] == [y];
      assert [y][1..] == [];
    }
  }

  /** `entry` is the key and record of some numeric column of `cs`. */
  ghost predicate FromColumn<Cell, V>(entry: (string, seq<(string, V)>), cs: seq<Column<Cell>>,
                                      isNumeric: Column<Cell> -> bool, measure: (Metric, seq<Cell>) -> V)
  {
    exists i :: 0 <= i < |cs| && isNumeric(cs[i]) && cs[i].name == entry.0 && entry.1 == RecordOf(cs[i], measure)
  }

  /** `stats` is what the loop of `calculate_statistics` has built from the columns `cs`. */
  ghost predicate Summarises<Cell, V>(stats: seq<(string, seq<(string, V)>)>, cs: seq<Column<Cell>>,
                                      isNumeric: Column<Cell> -> bool, measure: (Metric, seq<Cell>) -> V)
  {
    && Distinct(Keys(stats))
    && (forall k :: k in Keys(stats) <==> k in Names(NumericColumns(cs, isNumeric)))
    && (forall j :: 0 <= j < |stats| ==> FromColumn(stats[j], cs, isNumeric, measure))
    && (Distinct(Names(cs)) ==> stats == Entries(NumericColumns(cs, isNumeric), measure))
  }

  lemma FromColumnExtend<Cell, V>(entry: (string, seq<(string, V)>), cs: seq<Column<Cell>>, col: Column<Cell>,
                                  isNumeric: Column<Cell> -> bool, measure: (Metric, seq<Cell>) -> V)
    requires FromColumn(entry, cs, isNumeric, measure)
    ensures FromColumn(entry, cs + [col], isNumeric, measure)
  {
    var i :| 0 <= i < |cs| && isNumeric(cs[i]) && cs[i].name == entry.0 && entry.1 == RecordOf(cs[i], measure);
    assert (cs + [col])[i] == cs[i];
  }

  /** Adding the last column's record to the dictionary keeps every entry traceable to a column. */
  lemma FromColumnPut<Cell, V>(stats: seq<(string, seq<(string, V)>)>, cs: seq<Column<Cell>>, col: Column<Cell>,
                               isNumeric: Column<Cell> -> bool, measure: (Metric, seq<Cell>) -> V)
    requires Distinct(Keys(stats)) && isNumeric(col)
    requires forall j :: 0 <= j < |stats| ==> FromColumn(stats[j], cs, isNumeric, measure)
    ensures var next := Put(stats, col.name, RecordOf(col, measure));
      forall j :: 0 <= j < |next| ==> FromColumn(next[j], cs + [col], isNumeric, measure)
  {
    var cs' := cs + [col];
    var next := Put(stats, col.name, RecordOf(col, measure));
    forall j | 0 <= j < |next|
      ensures FromColumn(next[j], cs', isNumeric, measure)
    {
      if next[j].0 == col.name {
        assert cs'[|cs|] == col;
      } else {
        assert j < |stats| && next[j] == stats[j] by {
          if col.name !in Keys(stats) {
            assert next == stats + [(col.name, RecordOf(col, measure))];
          } else {
            assert Keys(next) == Keys(stats);
          }
        }
        FromColumnExtend(stats[j], cs, col, isNumeric, measure);
      }
    }
  }

  lemma NumericColumnsSnoc<Cell>(cs: seq<Column<Cell>>, col: Column<Cell>, isNumeric: Column<Cell> -> bool)
    ensures NumericColumns(cs + [col], isNumeric) == NumericColumns(cs, isNumeric) + (if isNumeric(col) then [col] else [])
  {
    assert (cs + [col])[..|cs|] == cs;
  }

  /** With distinct column names, a new numeric column's name is not yet a key, so `Put` appends. */
  lemma EntriesStep<Cell, V>(stats: seq<(string, seq<(string, V)>)>, cs: seq<Column<Cell>>, col: Column<Cell>,
                             isNumeric: Column<Cell> -> bool, measure: (Metric, seq<Cell>) -> V)
    requires Distinct(Keys(stats)) && Distinct(Names(cs + [col])) && isNumeric(col)
    requires stats == Entries(NumericColumns(cs, isNumeric), measure)
    ensures Put(stats, col.name, RecordOf(col, measure)) == Entries(NumericColumns(cs + [col], isNumeric), measure)
  {
    var nc := NumericColumns(cs, isNumeric);
    NumericColumnsSnoc(cs, col, isNumeric);
    FreshName(cs, col, isNumeric);
    assert Keys(stats) == Names(nc);
    EntriesSnoc(nc, col, measure);
  }

  /** When all names differ, a new column's name is not among the numeric columns before it. */
  lemma FreshName<Cell>(cs: seq<Column<Cell>>, col: Column<Cell>, isNumeric: Column<Cell> -> bool)
    requires Distinct(Names(cs + [col]))
    ensures col.name !in Names(NumericColumns(cs, isNumeric))
  {
    var nc := NumericColumns(cs, isNumeric);
    forall k | 0 <= k < |nc|
      ensures nc[k].name != col.name
    {
      assert nc[k] in cs;
      var i :| 0 <= i < |cs| && cs[i] == nc[k];
      assert Names(cs + [col])[i] == nc[k].name && Names(cs + [col])[|cs|] == col.name;
    }
  }

  lemma EntriesSnoc<Cell, V>(cs: seq<Column<Cell>>, col: Column<Cell>, measure: (Metric, seq<Cell>) -> V)
    ensures Entries(cs + [col], measure) == Entries(cs, measure) + [(col.name, RecordOf(col, measure))]
  {
    assert forall i :: 0 <= i < |cs| ==> (cs + [col])[i] == cs[i];
  }

  /** After `Put`, the keys are the names of the numeric columns seen so far. */
  lemma KeysStep<Cell, V>(stats: seq<(string, seq<(string, V)>)>, cs: seq<Column<Cell>>, col: Column<Cell>,
                          isNumeric: Column<Cell> -> bool, measure: (Metric, seq<Cell>) -> V)
    requires Distinct(Keys(stats)) && isNumeric(col)
    requires forall k :: k in Keys(stats) <==> k in Names(NumericColumns(cs, isNumeric))
    ensures var next := Put(stats, col.name, RecordOf(col, measure));
      forall k :: k in Keys(next) <==> k in Names(NumericColumns(cs + [col], isNumeric))
  {
    NumericColumnsSnoc(cs, col, isNumeric);
    var nc := NumericColumns(cs, isNumeric);
    var next := Put(stats, col.name, RecordOf(col, measure));
    NamesSnoc(nc, col);
    SameMembersSnoc(Keys(stats), Keys(next), Names(nc), col.name);
  }

  lemma NamesSnoc<Cell>(cs: seq<Column<Cell>>, col: Column<Cell>)
    ensures Names(cs + [col]) == Names(cs) + [col.name]
  {
    assert forall i :: 0 <= i < |cs| ==> (cs + [col])[i] == cs[i];
  }

  /** Adding `c` to both of two lists with the same members keeps them with the same members. */
  lemma SameMembersSnoc(keys: seq<string>, keys': seq<string>, names: seq<string>, c: string)
    requires forall x :: x in keys' <==> x in keys || x == c
    requires forall x :: x in keys <==> x in names
    ensures forall x :: x in keys' <==> x in names + [c]
  {
    assert forall x :: x in names + [c] <==> x in names || x == c;
  }

  /** An iteration that stores a numeric column keeps `Summarises`. */
  lemma SummarisesPut<Cell, V>(stats: seq<(string, seq<(string, V)>)>, cs: seq<Column<Cell>>, col: Column<Cell>,
                               isNumeric: Column<Cell> -> bool, measure: (Metric, seq<Cell>) -> V)
    requires Summarises(stats, cs, isNumeric, measure) && isNumeric(col)
    ensures Summarises(Put(stats, col.name, RecordOf(col, measure)), cs + [col], isNumeric, measure)
  {
    var cs' := cs + [col];
    if Distinct(Names(cs')) {
      assert Names(cs) == Names(cs')[..|cs|];
      EntriesStep(stats, cs, col, isNumeric, measure);
    }
    FromColumnPut(stats, cs, col, isNumeric, measure);
    KeysStep(stats, cs, col, isNumeric, measure);
  }

  /** An iteration that skips a non-numeric column keeps `Summarises`. */
  lemma SummarisesSkip<Cell, V>(stats: seq<(string, seq<(string, V)>)>, cs: seq<Column<Cell>>, col: Column<Cell>,
                                isNumeric: Column<Cell> -> bool, measure: (Metric, seq<Cell>) -> V)
    requires Summarises(stats, cs, isNumeric, measure) && !isNumeric(col)
    ensures Summarises(stats, cs + [col], isNumeric, measure)
  {
    var cs' := cs + [col];
    NumericColumnsSnoc(cs, col, isNumeric);
    if Distinct(Names(cs')) {
      assert Names(cs) == Names(cs')[..|cs|];
    }
    forall j | 0 <= j < |stats|
      ensures FromColumn(stats[j], cs', isNumeric, measure)
    {
      FromColumnExtend(stats[j], cs, col, isNumeric, measure);
    }
  }

  /**
   * `calculate_statistics(df)`: one dictionary entry per numeric column.
   * Its keys are distinct and are exactly the names of the numeric columns;
   * each value is the record of a numeric column of that name; when the
   * column names are distinct the dictionary lists the numeric columns in
   * dataset order. No columns give an empty dictionary.
   */
  method CalculateStatistics<Cell, V>(df: seq<Column<Cell>>, isNumeric: Column<Cell> -> bool,
                                      measure: (Metric, seq<Cell>) -> V)
    returns (stats: seq<(string, seq<(string, V)>)>)
    ensures Distinct(Keys(stats))
    ensures forall k :: k in Keys(stats) <==> k in Names(NumericColumns(df, isNumeric))
    ensures forall j :: 0 <= j < |stats| ==> FromColumn(stats[j], df, isNumeric, measure)
    ensures Distinct(Names(df)) ==> stats == Entries(NumericColumns(df, isNumeric), measure)
    ensures df == [] ==> stats == []
  {
    stats := [];
    for i := 0 to |df|
      invariant Summarises(stats, df[..i], isNumeric, measure)
    {
      SummarisesStep(stats, df, i, isNumeric, measure);
      if isNumeric(df[i]) {
        stats := Put(stats, df[i].name, RecordOf(df[i], measure));
      }
    }
    assert df[..|df|] == df;
  }

  /** One turn of the loop of `calculate_statistics` keeps `Summarises`. */
  lemma SummarisesStep<Cell, V>(stats: seq<(string, seq<(string, V)>)>, df: seq<Column<Cell>>, i: nat,
                                isNumeric: Column<Cell> -> bool, measure: (Metric, seq<Cell>) -> V)
    requires i < |df| && Summarises(stats, df[..i], isNumeric, measure)
    ensures isNumeric(df[i]) ==> Summarises(Put(stats, df[i].name, RecordOf(df[i], measure)), df[..i + 1], isNumeric, measure)
    ensures !isNumeric(df[i]) ==> Summarises(stats, df[..i + 1], isNumeric, measure)
  {
    assert df[..i] + [df[i]] == df[..i + 1];
    if isNumeric(df[i]) {
      SummarisesPut(stats, df[..i], df[i], isNumeric, measure);
    } else {
      SummarisesSkip(stats, df[..i], df[i], isNumeric, measure);
    }
  }

  /** `f"**{col}**:"`. */
  function HeaderLine(col: string): string {
    "**" + col + "**:"
  }

  /** `f"  - {stat}: {value:.2f}"`, with the rendering of the value given. */
  function MetricLine(stat: string, rendered: string): string {
    "  - " + stat + ": " + rendered
  }

  function MetricLines<V>(metrics: seq<(string, V)>, render: V -> string): (r: seq<string>)
    ensures |r| == |metrics|
  {
    seq(|metrics|, j requires 0 <= j < |metrics| => MetricLine(metrics[j].0, render(metrics[j].1)))
  }

  /** The lines for one dictionary entry: its header, then one line per metric. */
  function EntryLines<V>(entry: (string, seq<(string, V)>), render: V -> string): seq<string> {
    [HeaderLine(entry.0)] + MetricLines(entry.1, render)
  }

  /** The lines of the statistics text, entry after entry. */
  function StatsLines<V>(stats: seq<(string, seq<(string, V)>)>, render: V -> string): seq<string> {
    if stats == [] then []
    else StatsLines(stats[..|stats| - 1], render) + EntryLines(stats[|stats| - 1], render)
  }

  /** The sum over the entries of one header line plus one line per metric. */
  function LineCount<V>(stats: seq<(string, seq<(string, V)>)>): nat {
    if stats == [] then 0 else 1 + |stats[0].1| + LineCount(stats[1..])
  }

  /**
   * `format_stats(stats)`: each line of the statistics text followed by a
   * newline; an empty dictionary gives the empty text.
   */
  method FormatStats<V>(stats: seq<(string, seq<(string, V)>)>, render: V -> string) returns (text: string)
    ensures text == Terminated(StatsLines(stats, render))
    ensures stats == [] ==> text == ""
  {
    text := "";
    for i := 0 to |stats|
      invariant text == Terminated(StatsLines(stats[..i], render))
    {
      var (col, metrics) := stats[i];
      ghost var done := StatsLines(stats[..i], render) + [HeaderLine(col)];
      HeaderStep(stats, i, render);
      text := text + HeaderLine(col) + "\n";
      for j := 0 to |metrics|
        invariant text == Terminated(done + MetricLines(metrics[..j], render))
      {
        var (stat, value) := metrics[j];
        MetricStep(done, metrics, j, render);
        text := text + MetricLine(stat, render(value)) + "\n";
      }
      EntryStep(stats, i, render);
    }
    assert stats[..|stats|] == stats;
  }

  /** The text after an entry's header line, before any of its metric lines. */
  lemma HeaderStep<V>(stats: seq<(string, seq<(string, V)>)>, i: nat, render: V -> string)
    requires i < |stats|
    ensures var done := StatsLines(stats[..i], render) + [HeaderLine(stats[i].0)];
      Terminated(done + MetricLines(stats[i].1[..0], render)) == Terminated(StatsLines(stats[..i], render)) + HeaderLine(stats[i].0) + "\n"
  {
    var done := StatsLines(stats[..i], render) + [HeaderLine(stats[i].0)];
    assert done + MetricLines(stats[i].1[..0], render) == done;
    TerminatedSnoc(StatsLines(stats[..i], render), HeaderLine(stats[i].0));
  }

  /** The text after one more metric line. */
  lemma MetricStep<V>(done: seq<string>, metrics: seq<(string, V)>, j: nat, render: V -> string)
    requires j < |metrics|
    ensures Terminated(done + MetricLines(metrics[..j + 1], render))
      == Terminated(done + MetricLines(metrics[..j], render)) + MetricLine(metrics[j].0, render(metrics[j].1)) + "\n"
  {
    var line := MetricLine(metrics[j].0, render(metrics[j].1));
    MetricLinesSnoc(metrics, j, render);
    assert done + MetricLines(metrics[..j + 1], render) == done + MetricLines(metrics[..j], render) + [line];
    TerminatedSnoc(done + MetricLines(metrics[..j], render), line);
  }

  /** The text after all the lines of entry `i`. */
  lemma EntryStep<V>(stats: seq<(string, seq<(string, V)>)>, i: nat, render: V -> string)
    requires i < |stats|
    ensures Terminated(StatsLines(stats[..i], render) + [HeaderLine(stats[i].0)] + MetricLines(stats[i].1[..|stats[i].1|], render))
      == Terminated(StatsLines(stats[..i + 1], render))
  {
    StatsLinesSnoc(stats, i, render);
    assert stats[i].1[..|stats[i].1|] == stats[i].1;
  }

  lemma TerminatedSnoc(lines: seq<string>, x: string)
    ensures Terminated(lines + [x]) == Terminated(lines) + x + "\n"
  {
    assert (lines + [x])[..|lines|] == lines;
  }

  lemma MetricLinesSnoc<V>(metrics: seq<(string, V)>, j: nat, render: V -> string)
    requires j < |metrics|
    ensures MetricLines(metrics[..j + 1], render) == MetricLines(metrics[..j], render) + [MetricLine(metrics[j].0, render(metrics[j].1))]
  {
  }

  lemma StatsLinesSnoc<V>(stats: seq<(string, seq<(string, V)>)>, i: nat, render: V -> string)
    requires i < |stats|
    ensures StatsLines(stats[..i + 1], render) == StatsLines(stats[..i], render) + [HeaderLine(stats[i].0)] + MetricLines(stats[i].1, render)
  {
    assert stats[..i + 1][..i] == stats[..i];
  }

  lemma {:induction false} StatsLinesAppend<V>(a: seq<(string, seq<(string, V)>)>, b: seq<(string, seq<(string, V)>)>, render: V -> string)
    ensures StatsLines(a + b, render) == StatsLines(a, render) + StatsLines(b, render)
  {
    if b == [] {
      assert a + b == a;
    } else {
      var init, last := b[..|b| - 1], b[|b| - 1];
      assert (a + b)[..|a + b| - 1] == a + init && (a + b)[|a + b| - 1] == last;
      StatsLinesAppend(a, init, render);
      var x, y, z := StatsLines(a, render), StatsLines(init, render), EntryLines(last, render);
      assert StatsLines(a + b, render) == x + y + z;
      assert StatsLines(b, render) == y + z;
      assert x + y + z == x + (y + z);
    }
  }

  /** The statistics text has one header line plus one line per metric for every entry. */
  lemma {:induction false} StatsLinesCount<V>(stats: seq<(string, seq<(string, V)>)>, render: V -> string)
    ensures |StatsLines(stats, render)| == LineCount(stats)
  {
    if stats != [] {
      StatsLinesCount(stats[1..], render);
      StatsLinesAppend([stats[0]], stats[1..], render);
      assert [stats[0]] + stats[1..] == stats;
      assert StatsLines([stats[0]], render) == EntryLines(stats[0], render) by {
        assert [stats[0]][..0] == [];
      }
    }
  }

  /**
   * Entry `k` occupies the lines starting right after those of the earlier
   * entries: `LineCount(stats[..k])` lines come before it.
   */
  lemma StatsLayout<V>(stats: seq<(string, seq<(string, V)>)>, render: V -> string, k: nat)
    requires k < |stats|
    ensures var o, lines, e := LineCount(stats[..k]), StatsLines(stats, render), EntryLines(stats[k], render);
      o + |e| <= |lines| && lines[o..o + |e|] == e
  {
    var before := stats[..k];
    var l1, e, l3 := StatsLines(before, render), EntryLines(stats[k], render), StatsLines(stats[k + 1..], render);
    StatsLinesAt(stats, k, render);
    assert LineCount(before) == |l1| by {
      StatsLinesCount(before, render);
    }
    SliceOfThree(l1, e, l3);
  }

  /** An entry's lines: its `**col**:` header first, then exactly one line per metric, in order. */
  lemma EntryLinesLayout<V>(entry: (string, seq<(string, V)>), render: V -> string)
    ensures var e, metrics := EntryLines(entry, render), entry.1;
      |e| == 1 + |metrics| && e[0] == HeaderLine(entry.0)
      && forall m :: 0 <= m < |metrics| ==> e[1 + m] == MetricLine(metrics[m].0, render(metrics[m].1))
  {
    var metrics := entry.1;
    var e, ml := EntryLines(entry, render), MetricLines(metrics, render);
    forall m | 0 <= m < |metrics|
      ensures e[1 + m] == MetricLine(metrics[m].0, render(metrics[m].1))
    {
      assert e[1 + m] == ml[m];
    }
  }

  /** The lines of entry `k` sit between those of the entries before and after it. */
  lemma StatsLinesAt<V>(stats: seq<(string, seq<(string, V)>)>, k: nat, render: V -> string)
    requires k < |stats|
    ensures StatsLines(stats, render)
      == StatsLines(stats[..k], render) + EntryLines(stats[k], render) + StatsLines(stats[k + 1..], render)
  {
    var upto, after := stats[..k + 1], stats[k + 1..];
    StatsLinesSnoc(stats, k, render);
    AppendAssoc(StatsLines(stats[..k], render), [HeaderLine(stats[k].0)], MetricLines(stats[k].1, render));
    assert upto + after == stats;
    StatsLinesAppend(upto, after, render);
  }

  /** A dictionary built by `CalculateStatistics` has six lines per numeric column. */
  lemma {:induction false} EntriesLineCount<Cell, V>(cs: seq<Column<Cell>>, measure: (Metric, seq<Cell>) -> V)
    ensures LineCount(Entries(cs, measure)) == 6 * |cs|
  {
    if cs != [] {
      EntriesLineCount(cs[1..], measure);
      assert Entries(cs, measure)[1..] == Entries(cs[1..], measure);
    }
  }

  /** True when no key, metric name or rendered value of the dictionary contains a newline. */
  predicate SingleLineStats<V>(stats: seq<(string, seq<(string, V)>)>, render: V -> string) {
    forall k :: 0 <= k < |stats| ==>
      '\n' !in stats[k].0
      && forall m :: 0 <= m < |stats[k].1| ==> '\n' !in stats[k].1[m].0 && '\n' !in render(stats[k].1[m].1)
  }

  lemma {:induction false} StatsLinesSingle<V>(stats: seq<(string, seq<(string, V)>)>, render: V -> string)
    requires SingleLineStats(stats, render)
    ensures NoNewlines(StatsLines(stats, render))
  {
    if stats != [] {
      var init := stats[..|stats| - 1];
      assert SingleLineStats(init, render) by {
        forall k | 0 <= k < |init| ensures init[k] == stats[k] { }
      }
      StatsLinesSingle(init, render);
    }
  }

  /**
   * Read back line by line, the text of single-line statistics is exactly
   * its lines, each newline-terminated: `LineCount` pieces and an empty one.
   */
  lemma FormatStatsLines<V>(stats: seq<(string, seq<(string, V)>)>, render: V -> string)
    requires SingleLineStats(stats, render)
    ensures SplitLines(Terminated(StatsLines(stats, render))) == StatsLines(stats, render) + [""]
    ensures |SplitLines(Terminated(StatsLines(stats, render)))| == LineCount(stats) + 1
  {
    StatsLinesSingle(stats, render);
    SplitTerminated(StatsLines(stats, render));
    StatsLinesCount(stats, render);
  }
}
