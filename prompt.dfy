/**
 * The description section of the analysis prompt (summarize.py, lines 7-15
 * and 42-44): the catalog entries whose column the dataset has, in catalog
 * order, each rendered as `- **column**: description` and joined by newlines.
 */
module Prompt {
  import opened Text
  import opened Sequences

  /** One entry of the static column-description catalog. */
  datatype Description = Description(column: string, text: string)

  /** `COLUMN_DESCRIPTIONS`, in the order the dictionary literal lists it. */
  const ColumnDescriptions: seq<Description> := [
    Description("queueLength", "Number of requests waiting in the system queue."),
    Description("latencyRead", "Time taken to read data (in milliseconds)."),
    Description("latencyWrite", "Time taken to write data (in milliseconds)."),
    Description("iopsRead", "Input/Output operations per second for read operations."),
    Description("iopsWrite", "Input/Output operations per second for write operations."),
    Description("throughputRead", "Amount of data read per second (in MB/s)."),
    Description("throughputWrite", "Amount of data written per second (in MB/s).")
  ]

  /** `f"- **{col}**: {desc}"`. */
  function DescriptionLine(d: Description): string {
    "- **" + d.column + "**: " + d.text
  }

  /** The entries of `catalog` whose column is in `columns` (the comprehension's filter). */
  function Described(catalog: seq<Description>, columns: seq<string>): (r: seq<Description>)
    ensures |r| <= |catalog|
    ensures forall d :: d in r <==> d in catalog && d.column in columns
  {
    if catalog == [] then []
    else (if catalog[0].column in columns then [catalog[0]] else []) + Described(catalog[1..], columns)
  }

  /** The selected entries keep catalog order. */
  lemma {:induction false} DescribedInOrder(catalog: seq<Description>, columns: seq<string>)
    ensures IsSubsequence(Described(catalog, columns), catalog)
  {
    if catalog != [] {
      var r := Described(catalog, columns);
      DescribedInOrder(catalog[1..], columns);
      if catalog[0].column in columns {
        assert r[1..] == Described(catalog[1..], columns);
      } else {
        assert r == Described(catalog[1..], columns);
        if r != [] {
          assert r[0] in r;
          assert r[0] != catalog[0];
        }
      }
    }
  }

  /** Selection is done entry by entry: it distributes over splitting the catalog. */
  lemma {:induction false} DescribedAppend(a: seq<Description>, b: seq<Description>, columns: seq<string>)
    ensures Described(a + b, columns) == Described(a, columns) + Described(b, columns)
  {
    if a == [] {
      assert a + b == b;
    } else {
      assert (a + b)[1..] == a[1..] + b;
      DescribedAppend(a[1..], b, columns);
    }
  }

  function DescriptionLines(ds: seq<Description>): (r: seq<string>)
    ensures |r| == |ds|
  {
    seq(|ds|, i requires 0 <= i < |ds| => DescriptionLine(ds[i]))
  }

  /** `column_description_text`. */
  function DescriptionSection(catalog: seq<Description>, columns: seq<string>): string {
    JoinLines(DescriptionLines(Described(catalog, columns)))
  }

  /** No column name or description of the catalog contains a newline. */
  predicate SingleLineCatalog(catalog: seq<Description>) {
    forall i :: 0 <= i < |catalog| ==> '\n' !in catalog[i].column && '\n' !in catalog[i].text
  }

  /** The section is empty exactly when the dataset has none of the catalog's columns. */
  lemma DescriptionSectionEmpty(catalog: seq<Description>, columns: seq<string>)
    ensures DescriptionSection(catalog, columns) == "" <==> forall d :: d in catalog ==> d.column !in columns
  {
    var ds := Described(catalog, columns);
    if ds != [] {
      assert ds[0] in ds;
      var lines := DescriptionLines(ds);
      JoinLinesStarts(lines);
      assert |lines[0]| >= 4;
    }
  }

  /** Read back line by line, a non-empty section holds one line per selected entry, in order. */
  lemma DescriptionSectionLines(catalog: seq<Description>, columns: seq<string>)
    requires SingleLineCatalog(catalog)
    requires exists d :: d in catalog && d.column in columns
    ensures SplitLines(DescriptionSection(catalog, columns)) == DescriptionLines(Described(catalog, columns))
  {
    var ds := Described(catalog, columns);
    var d :| d in catalog && d.column in columns;
    assert d in ds;
    var lines := DescriptionLines(ds);
    forall i | 0 <= i < |lines|
      ensures '\n' !in lines[i]
    {
      assert ds[i] in ds;
      var k :| 0 <= k < |catalog| && catalog[k] == ds[i];
      DescriptionLineSingle(ds[i]);
    }
    SplitJoinLines(lines);
  }

  /** An entry whose name and text have no newline gives a line with no newline. */
  lemma DescriptionLineSingle(d: Description)
    requires '\n' !in d.column && '\n' !in d.text
    ensures '\n' !in DescriptionLine(d)
  {
    assert '\n' !in "- **" && '\n' !in "**: ";
  }

  /** No description of the catalog ends with a newline. */
  predicate EndsClean(catalog: seq<Description>) {
    forall i :: 0 <= i < |catalog| ==> catalog[i].text == [] || catalog[i].text[|catalog[i].text| - 1] != '\n'
  }

  /** The lines are joined with no newline after the last one. */
  lemma DescriptionSectionNoTrailingNewline(catalog: seq<Description>, columns: seq<string>)
    requires EndsClean(catalog)
    ensures var t := DescriptionSection(catalog, columns); t == "" || t[|t| - 1] != '\n'
  {
    var ds := Described(catalog, columns);
    if ds != [] {
      var lines := DescriptionLines(ds);
      var last := ds[|ds| - 1];
      assert last in ds;
      var k :| 0 <= k < |catalog| && catalog[k] == last;
      var line := lines[|lines| - 1];
      assert line == "- **" + last.column + "**: " + last.text;
      assert line[|line| - 1] != '\n';
      JoinLinesEnds(lines);
    }
  }

  /** None of the program's own descriptions ends with a newline. */
  lemma ColumnDescriptionsEndClean()
    ensures EndsClean(ColumnDescriptions)
  {
  }

  /** The section built from the program's own catalog has no trailing newline, whatever the dataset's columns. */
  lemma ColumnDescriptionsSectionNoTrailingNewline(columns: seq<string>)
    ensures var t := DescriptionSection(ColumnDescriptions, columns); t == "" || t[|t| - 1] != '\n'
  {
    ColumnDescriptionsEndClean();
    DescriptionSectionNoTrailingNewline(ColumnDescriptions, columns);
  }

  /** The program's own catalog, a dictionary, has one entry per column. */
  lemma ColumnDescriptionsDistinct()
    ensures forall i, j :: 0 <= i < j < |ColumnDescriptions| ==> ColumnDescriptions[i].column != ColumnDescriptions[j].column
  {
  }
}
