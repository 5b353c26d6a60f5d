/**
 * The two callers of the external text generator (summarize.py, lines
 * 90-149): `generate_summary` keeps the generator's output only when the
 * process exits with status 0, and `compare_summaries` walks the adjacent
 * pairs of summaries, appending one labelled block per pair whose
 * comparison succeeded. The process itself is an oracle: `run` maps a
 * prompt (or, for a pair, the data a comparison prompt is built from) to
 * what the process returned.
 */
module Reports {
  import opened Wrappers
  import opened Text
  import opened Sequences

  /** What `subprocess.run(..., capture_output=True)` reports, with its streams decoded. */
  datatype Completed = Completed(returncode: int, stdout: string, stderr: string)

  /** The gate of both callers: nothing on a non-zero status, otherwise the trimmed output. */
  function Generated(result: Completed): Option<string> {
    if result.returncode != 0 then None else Some(Strip(result.stdout))
  }

  /**
   * `generate_summary`, from the built prompt on: the text written to the
   * summary file, or nothing when the process failed. What is written is the
   * trimmed output, which neither starts nor ends with whitespace.
   */
  method GenerateSummary(prompt: string, run: string -> Completed) returns (written: Option<string>)
    ensures written.Some? <==> run(prompt).returncode == 0
    ensures written.Some? ==> written.value == Strip(run(prompt).stdout)
    ensures written.Some? && written.value != [] ==> !IsSpace(written.value[0]) && !IsSpace(written.value[|written.value| - 1])
  {
    var result := run(prompt);
    if result.returncode != 0 {
      written := None;
    } else {
      var summary := Strip(result.stdout);
      written := Some(summary);
    }
  }

  /** `'-' * 80`. */
  const Divider: string := Repeat('-', 80)

  const WeekPrefix: string := "\n\U{1F50D} Week "

  const Versus: string := " vs Week "

  /** The heading of the block for pair `i`: weeks are numbered from 1. */
  function Label(i: nat): string {
    WeekPrefix + NatToString(i + 1) + Versus + NatToString(i + 2) + ":\n"
  }

  /** `f"\n🔍 Week {i+1} vs Week {i+2}:\n{comparison_text}\n{'-'*80}\n"`. */
  function Block(i: nat, text: string): string {
    Label(i) + text + "\n" + Divider + "\n"
  }

  /** Reads a comparison block back: the pair it labels and the comparison text it holds. */
  function ParseBlock(b: string): Option<(nat, string)> {
    if |b| < |WeekPrefix| || b[..|WeekPrefix|] != WeekPrefix then None
    else
      var digits := DigitPrefix(b[|WeekPrefix|..]);
      if digits == [] || ParseNat(digits) == 0 then None
      else
        var i := ParseNat(digits) - 1;
        var head, tail := Label(i), "\n" + Divider + "\n";
        if |b| < |head| + |tail| || b[..|head|] != head || b[|b| - |tail|..] != tail then None
        else Some((i, b[|head|..|b| - |tail|]))
  }

  /** Every block names its pair and holds its text recoverably. */
  lemma BlockRoundTrip(i: nat, text: string)
    ensures ParseBlock(Block(i, text)) == Some((i, text))
  {
    BlockStartsWithWeek(i, text);
    ParseNatToString(i + 1);
    BlockFramesText(i, text);
    ParseBlockOf(Block(i, text), NatToString(i + 1), i, text);
  }

  /** A block starts with the week prefix followed by the first week's number. */
  lemma BlockStartsWithWeek(i: nat, text: string)
    ensures var b := Block(i, text);
      |WeekPrefix| <= |b| && b[..|WeekPrefix|] == WeekPrefix && DigitPrefix(b[|WeekPrefix|..]) == NatToString(i + 1)
  {
    var b := Block(i, text);
    var d1 := NatToString(i + 1);
    var rest := Versus + NatToString(i + 2) + ":\n" + text + "\n" + Divider + "\n";
    assert b == WeekPrefix + (d1 + rest);
    assert Versus[0] == ' ';
    DigitPrefixOf(d1, rest);
  }

  /** A block is its label, the text, and the divider line. */
  lemma BlockFramesText(i: nat, text: string)
    ensures var b, head, tail := Block(i, text), Label(i), "\n" + Divider + "\n";
      |head| + |tail| <= |b| && b[..|head|] == head && b[|b| - |tail|..] == tail && b[|head|..|b| - |tail|] == text
  {
    var head, tail := Label(i), "\n" + Divider + "\n";
    assert Block(i, text) == head + text + tail;
    SliceOfThree(head, text, tail);
  }

  /** The facts `ParseBlock` checks, in the order it checks them. */
  lemma ParseBlockOf(b: string, digits: string, i: nat, text: string)
    requires |WeekPrefix| <= |b| && b[..|WeekPrefix|] == WeekPrefix
    requires DigitPrefix(b[|WeekPrefix|..]) == digits && ParseNat(digits) == i + 1
    requires var head, tail := Label(i), "\n" + Divider + "\n";
      |head| + |tail| <= |b| && b[..|head|] == head && b[|b| - |tail|..] == tail && b[|head|..|b| - |tail|] == text
    ensures ParseBlock(b) == Some((i, text))
  {
  }

  /** Different pairs or texts give different blocks. */
  lemma BlockInjective(i: nat, t: string, j: nat, u: string)
    requires Block(i, t) == Block(j, u)
    ensures i == j && t == u
  {
    BlockRoundTrip(i, t);
    BlockRoundTrip(j, u);
  }

  /** `len(range(n - 1))`: the number of adjacent pairs of `n` summaries. */
  function PairCount(n: nat): nat {
    if n < 2 then 0 else n - 1
  }

  /**
   * The outcome of every pair: the generator run on the two trimmed
   * summaries, through the gate. Everything the comparator writes is
   * determined by this sequence.
   */
  function Outcomes(summaries: seq<string>, run: (nat, string, string) -> Completed): (r: seq<Option<string>>)
    ensures |r| == PairCount(|summaries|)
  {
    seq(PairCount(|summaries|), i requires 0 <= i < PairCount(|summaries|) =>
      Generated(run(i, Strip(summaries[i]), Strip(summaries[i + 1]))))
  }

  /**
   * The block of every pair, or `None` where the generator failed for it:
   * pair `i` with comparison `t` gives `Block(i, t)`.
   */
  function Blocks(outcomes: seq<Option<string>>): (r: seq<Option<string>>)
    ensures |r| == |outcomes|
    ensures forall i :: 0 <= i < |r| ==> (r[i].Some? <==> outcomes[i].Some?)
  {
    seq(|outcomes|, i requires 0 <= i < |outcomes| =>
      match outcomes[i]
      case None => None
      case Some(t) => Some(Block(i, t)))
  }

  /** What item `i` adds to the list: its value, or nothing. */
  function Contribution<T>(xs: seq<Option<T>>, i: nat): seq<T>
    requires i < |xs|
  {
    match xs[i]
    case None => []
    case Some(v) => [v]
  }

  /** The values of the items `lo <= i < hi` that are present, in order. */
  function Present<T>(xs: seq<Option<T>>, lo: nat, hi: nat): seq<T>
    requires lo <= hi <= |xs|
    decreases hi - lo
  {
    if lo == hi then [] else Present(xs, lo, hi - 1) + Contribution(xs, hi - 1)
  }

  /** The positions `lo <= i < hi` whose item is present, in order. */
  function Succeeded<T>(xs: seq<Option<T>>, lo: nat, hi: nat): seq<nat>
    requires lo <= hi <= |xs|
    decreases hi - lo
  {
    if lo == hi then [] else Succeeded(xs, lo, hi - 1) + (if xs[hi - 1].Some? then [hi - 1] else [])
  }

  /** The list `compare_summaries` builds from the outcomes of its pairs. */
  function Comparisons(outcomes: seq<Option<string>>): seq<string> {
    Present(Blocks(outcomes), 0, |outcomes|)
  }

  /**
   * `compare_summaries`: the list of blocks, and what `writelines` puts in
   * the output file. Fewer than two summaries give no block and an empty file.
   */
  method CompareSummaries(summaries: seq<string>, run: (nat, string, string) -> Completed)
    returns (comparisons: seq<string>, written: string)
    ensures comparisons == Comparisons(Outcomes(summaries, run))
    ensures written == Concat(comparisons)
    ensures |summaries| < 2 ==> comparisons == [] && written == ""
  {
    ghost var blocks := Blocks(Outcomes(summaries, run));
    comparisons := [];
    for i := 0 to PairCount(|summaries|)
      invariant comparisons == Present(blocks, 0, i)
    {
      var summary1 := Strip(summaries[i]);
      var summary2 := Strip(summaries[i + 1]);
      var result := run(i, summary1, summary2);
      BlockOfPair(summaries, run, i);
      if result.returncode != 0 {
        continue;
      }
      var comparisonText := Strip(result.stdout);
      comparisons := comparisons + [Block(i, comparisonText)];
    }
    written := Concat(comparisons);
  }

  /** The block of pair `i`: present exactly when its run exits with status 0. */
  lemma BlockOfPair(summaries: seq<string>, run: (nat, string, string) -> Completed, i: nat)
    requires i < PairCount(|summaries|)
    ensures var result := run(i, Strip(summaries[i]), Strip(summaries[i + 1]));
      Blocks(Outcomes(summaries, run))[i] == if result.returncode != 0 then None else Some(Block(i, Strip(result.stdout)))
  {
    var outcomes := Outcomes(summaries, run);
    var result := run(i, Strip(summaries[i]), Strip(summaries[i + 1]));
    assert outcomes[i] == Generated(result);
    BlockOf(outcomes, i);
  }

  /** The block at position `i` is built from the outcome of pair `i`. */
  lemma BlockOf(outcomes: seq<Option<string>>, i: nat)
    requires i < |outcomes|
    ensures Blocks(outcomes)[i] == if outcomes[i].None? then None else Some(Block(i, outcomes[i].value))
  {
  }

  /**
   * Position `i` shows up exactly when it is in range and its item is
   * present; the positions appear in increasing order, so at most once each.
   */
  lemma {:induction false} SucceededSpec<T>(xs: seq<Option<T>>, lo: nat, hi: nat)
    requires lo <= hi <= |xs|
    ensures var s := Succeeded(xs, lo, hi);
      && |s| <= hi - lo
      && (forall i :: i in s <==> lo <= i < hi && xs[i].Some?)
      && (forall a, b :: 0 <= a < b < |s| ==> s[a] < s[b])
    decreases hi - lo
  {
    if lo < hi {
      SucceededSpec(xs, lo, hi - 1);
      var prev := Succeeded(xs, lo, hi - 1);
      var s := Succeeded(xs, lo, hi);
      if xs[hi - 1].Some? {
        assert s == prev + [hi - 1];
        forall a, b | 0 <= a < b < |s|
          ensures s[a] < s[b]
        {
          if b == |prev| {
            assert s[a] == prev[a] && prev[a] in prev;
          }
        }
      } else {
        assert s == prev;
      }
    }
  }

  /** Value `j` of the list is the value at the `j`-th present position. */
  lemma {:induction false} PresentAt<T>(xs: seq<Option<T>>, lo: nat, hi: nat)
    requires lo <= hi <= |xs|
    ensures var c, s := Present(xs, lo, hi), Succeeded(xs, lo, hi);
      && |c| == |s|
      && forall j :: 0 <= j < |c| ==> s[j] < |xs| && xs[s[j]].Some? && c[j] == xs[s[j]].value
    decreases hi - lo
  {
    if lo < hi {
      PresentAt(xs, lo, hi - 1);
      var c, s := Present(xs, lo, hi), Succeeded(xs, lo, hi);
      var c', s' := Present(xs, lo, hi - 1), Succeeded(xs, lo, hi - 1);
      match xs[hi - 1]
      case None =>
        assert c == c' && s == s';
      case Some(v) =>
        assert c == c' + [v] && s == s' + [hi - 1];
    }
  }

  /** A position holds a block exactly where its pair succeeded. */
  lemma {:induction false} SucceededBlocks(outcomes: seq<Option<string>>, lo: nat, hi: nat)
    requires lo <= hi <= |outcomes|
    ensures Succeeded(Blocks(outcomes), lo, hi) == Succeeded(outcomes, lo, hi)
    decreases hi - lo
  {
    if lo < hi {
      SucceededBlocks(outcomes, lo, hi - 1);
    }
  }

  /**
   * Block `j` of the list is the block of the `j`-th successful pair, holding
   * that pair's comparison; the successful pairs are in increasing order and
   * every successful pair has its block.
   */
  lemma ComparisonsAreBlocks(outcomes: seq<Option<string>>)
    ensures var c, s := Comparisons(outcomes), Succeeded(outcomes, 0, |outcomes|);
      && |c| == |s| <= |outcomes|
      && (forall i :: i in s <==> 0 <= i < |outcomes| && outcomes[i].Some?)
      && (forall a, b :: 0 <= a < b < |s| ==> s[a] < s[b])
      && forall j :: 0 <= j < |c| ==> s[j] < |outcomes| && outcomes[s[j]].Some? && c[j] == Block(s[j], outcomes[s[j]].value)
  {
    var n := |outcomes|;
    var blocks := Blocks(outcomes);
    PresentAt(blocks, 0, n);
    SucceededBlocks(outcomes, 0, n);
    SucceededSpec(outcomes, 0, n);
  }

  /** Each block read back names its pair and the text the generator produced for it. */
  lemma ComparisonsDecode(outcomes: seq<Option<string>>, j: nat)
    requires j < |Comparisons(outcomes)|
    ensures var s := Succeeded(outcomes, 0, |outcomes|);
      j < |s| && s[j] < |outcomes| && outcomes[s[j]].Some?
      && ParseBlock(Comparisons(outcomes)[j]) == Some((s[j], outcomes[s[j]].value))
  {
    ComparisonsAreBlocks(outcomes);
    var s := Succeeded(outcomes, 0, |outcomes|);
    BlockRoundTrip(s[j], outcomes[s[j]].value);
  }

  lemma {:induction false} PresentSplit<T>(xs: seq<Option<T>>, lo: nat, mid: nat, hi: nat)
    requires lo <= mid <= hi <= |xs|
    ensures Present(xs, lo, hi) == Present(xs, lo, mid) + Present(xs, mid, hi)
    decreases hi - mid
  {
    if mid < hi {
      PresentSplit(xs, lo, mid, hi - 1);
    }
  }

  /** The values of a range depend only on the items in that range. */
  lemma {:induction false} PresentAgree<T>(xs: seq<Option<T>>, ys: seq<Option<T>>, lo: nat, hi: nat)
    requires lo <= hi <= |xs| == |ys|
    requires forall i :: lo <= i < hi ==> xs[i] == ys[i]
    ensures Present(xs, lo, hi) == Present(ys, lo, hi)
    decreases hi - lo
  {
    if lo < hi {
      PresentAgree(xs, ys, lo, hi - 1);
    }
  }

  /** The list is what comes before position `j`, what `j` contributes, and what comes after. */
  lemma PresentAround<T>(xs: seq<Option<T>>, j: nat)
    requires j < |xs|
    ensures Present(xs, 0, |xs|) == Present(xs, 0, j) + Contribution(xs, j) + Present(xs, j + 1, |xs|)
  {
    PresentSplit(xs, 0, j + 1, |xs|);
  }

  /**
   * A failure is local to its pair: when two runs differ only in the outcome
   * of pair `j`, the lists agree before and after it and differ only in the
   * block of pair `j`, which is there exactly when that pair succeeded.
   */
  lemma FailureIsolated(outcomes: seq<Option<string>>, outcomes': seq<Option<string>>, j: nat)
    requires j < |outcomes| == |outcomes'|
    requires forall i :: 0 <= i < |outcomes| && i != j ==> outcomes[i] == outcomes'[i]
    ensures var n, blocks := |outcomes|, Blocks(outcomes);
      && Comparisons(outcomes) == Present(blocks, 0, j) + Contribution(blocks, j) + Present(blocks, j + 1, n)
      && Comparisons(outcomes') == Present(blocks, 0, j) + Contribution(Blocks(outcomes'), j) + Present(blocks, j + 1, n)
    ensures outcomes'[j].None? ==> Contribution(Blocks(outcomes'), j) == []
    ensures outcomes'[j].Some? ==> Contribution(Blocks(outcomes'), j) == [Block(j, outcomes'[j].value)]
  {
    var n := |outcomes|;
    var blocks, blocks' := Blocks(outcomes), Blocks(outcomes');
    assert forall i :: 0 <= i < n && i != j ==> blocks[i] == blocks'[i];
    PresentAround(blocks, j);
    PresentAround(blocks', j);
    PresentAgree(blocks, blocks', 0, j);
    PresentAgree(blocks, blocks', j + 1, n);
  }

  /** The output file is empty exactly when no pair's comparison succeeded. */
  lemma OutputEmptyIffAllFailed(outcomes: seq<Option<string>>)
    ensures Concat(Comparisons(outcomes)) == "" <==> forall i :: 0 <= i < |outcomes| ==> outcomes[i].None?
  {
    var n := |outcomes|;
    var c := Comparisons(outcomes);
    ConcatEmpty(c);
    ComparisonsAreBlocks(outcomes);
    var s := Succeeded(outcomes, 0, n);
    forall j | 0 <= j < |c|
      ensures c[j] != ""
    {
      assert |Block(s[j], outcomes[s[j]].value)| >= |Divider|;
    }
    if exists i :: 0 <= i < n && outcomes[i].Some? {
      var i :| 0 <= i < n && outcomes[i].Some?;
      assert i in s;
    } else {
      assert |s| == 0;
    }
  }

  /**
   * Four summaries whose middle comparison (weeks 2 and 3) fails: the output
   * holds exactly the blocks for weeks 1 vs 2 and 3 vs 4, in that order.
   */
  lemma MiddlePairFails(outcomes: seq<Option<string>>)
    requires |outcomes| == 3
    requires outcomes[0].Some? && outcomes[1].None? && outcomes[2].Some?
    ensures Comparisons(outcomes) == [Block(0, outcomes[0].value), Block(2, outcomes[2].value)]
  {
    var blocks := Blocks(outcomes);
    BlockOf(outcomes, 0);
    BlockOf(outcomes, 1);
    BlockOf(outcomes, 2);
    assert Present(blocks, 0, 0) == [];
  }

  /** Pairs are labelled with one-based week numbers: pair 0 is weeks 1 and 2, pair 2 is weeks 3 and 4. */
  lemma WeekLabels()
    ensures Label(0) == "\n\U{1F50D} Week 1 vs Week 2:\n" && Label(2) == "\n\U{1F50D} Week 3 vs Week 4:\n"
  {
    assert NatToString(1) == "1" && NatToString(2) == "2" && NatToString(3) == "3" && NatToString(4) == "4";
  }
}
