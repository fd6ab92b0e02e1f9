/** `get_multiline_input`: lines are read one at a time until two consecutive
    empty lines; the non-empty lines read so far are joined with line feeds.
    The lines the user types are given here as a sequence, each without its
    line feed, as `input()` returns them. */
module Input {
  import opened Text

  /** Lines `k - 1` and `k` are both empty: the second empty line of a pair. */
  predicate PairAt(input: seq<string>, k: nat)
    requires 1 <= k < |input|
  {
    input[k - 1] == "" && input[k] == ""
  }

  /** The first pair at or after index `from`. */
  function PairFrom(input: seq<string>, from: nat): (r: Option<nat>)
    requires 1 <= from
    ensures r.Some? ==> from <= r.value < |input| && PairAt(input, r.value)
    ensures r.Some? ==> forall k :: from <= k < r.value ==> !PairAt(input, k)
    ensures r.None? ==> forall k :: from <= k < |input| ==> !PairAt(input, k)
    decreases |input| - from
  {
    if from >= |input| then None
    else if PairAt(input, from) then Some(from)
    else PairFrom(input, from + 1)
  }

  /** Where reading stops: the index of the line that completes the first
      pair of consecutive empty lines, or None when the input ends first. */
  function StopAt(input: seq<string>): (r: Option<nat>)
    ensures r.Some? ==> 1 <= r.value < |input| && PairAt(input, r.value)
    ensures r.Some? ==> forall k :: 1 <= k < r.value ==> !PairAt(input, k)
    ensures r.None? ==> forall k :: 1 <= k < |input| ==> !PairAt(input, k)
  {
    PairFrom(input, 1)
  }

  /** The first pair is where reading stops: StopAt names it and no other. */
  lemma StopAtFirstPair(input: seq<string>, k: nat)
    requires 1 <= k < |input| && PairAt(input, k)
    requires forall j :: 1 <= j < k ==> !PairAt(input, j)
    ensures StopAt(input) == Some(k)
  {
  }

  /** The non-empty lines of `xs`, in order. */
  function NonEmpty(xs: seq<string>): seq<string>
    decreases |xs|
  {
    if xs == [] then []
    else
      var rest := NonEmpty(xs[..|xs| - 1]);
      if xs[|xs| - 1] == "" then rest else rest + [xs[|xs| - 1]]
  }

  /** Filtering keeps no empty line. */
  lemma {:induction false} NonEmptyKeepsNoEmpty(xs: seq<string>)
    ensures forall k :: 0 <= k < |NonEmpty(xs)| ==> NonEmpty(xs)[k] != ""
    decreases |xs|
  {
    if xs != [] {
      NonEmptyKeepsNoEmpty(xs[..|xs| - 1]);
    }
  }

  /** Filtering keeps only lines of `xs`. */
  lemma {:induction false} NonEmptyFromInput(xs: seq<string>)
    ensures forall k :: 0 <= k < |NonEmpty(xs)| ==> NonEmpty(xs)[k] in xs
    decreases |xs|
  {
    if xs != [] {
      var init := xs[..|xs| - 1];
      NonEmptyFromInput(init);
      assert forall k :: 0 <= k < |init| ==> init[k] == xs[k];
    }
  }

  /** Lines that are all non-empty pass through the filter unchanged. */
  lemma {:induction false} NonEmptyKeepsAll(xs: seq<string>)
    requires forall k :: 0 <= k < |xs| ==> xs[k] != ""
    ensures NonEmpty(xs) == xs
    decreases |xs|
  {
    if xs != [] {
      NonEmptyKeepsAll(xs[..|xs| - 1]);
    }
  }

  /** Filtering two runs of lines filters each run in turn. */
  lemma {:induction false} NonEmptyAppend(a: seq<string>, b: seq<string>)
    ensures NonEmpty(a + b) == NonEmpty(a) + NonEmpty(b)
    decreases |b|
  {
    if b == [] {
      assert a + b == a;
    } else {
      var init := b[..|b| - 1];
      assert (a + b)[..|a + b| - 1] == a + init;
      NonEmptyAppend(a, init);
    }
  }

  /** What `get_multiline_input` returns for `input`: the non-empty lines
      before the stopping pair, joined with line feeds; None when the input
      ends before two consecutive empty lines (where `input()` raises). */
  function Collect(input: seq<string>): Option<string> {
    match StopAt(input)
    case None => None
    case Some(k) => Some(Join(NonEmpty(input[..k]), "\n"))
  }

  /** The reading loop: count consecutive empty lines, reset the count on a
      non-empty line and keep that line, stop when the count reaches two. */
  method CollectLines(input: seq<string>) returns (r: Option<string>)
    ensures r == Collect(input)
  {
    var lines: seq<string> := [];
    var emptyLineCount := 0;
    var i := 0;
    while i < |input|
      invariant i <= |input|
      invariant lines == NonEmpty(input[..i])
      invariant emptyLineCount == (if i > 0 && input[i - 1] == "" then 1 else 0)
      invariant forall k :: 1 <= k < i ==> !PairAt(input, k)
    {
      var line := input[i];
      assert input[..i + 1][..i] == input[..i];
      if line == "" {
        emptyLineCount := emptyLineCount + 1;
        if emptyLineCount == 2 {
          assert PairAt(input, i);
          r := Some(Join(lines, "\n"));
          return;
        }
      } else {
        emptyLineCount := 0;
        lines := lines + [line];
      }
      i := i + 1;
    }
    r := None;
  }

  /** Reading stops at the first pair: lines typed after it make no difference. */
  lemma CollectIgnoresRest(input: seq<string>, more: seq<string>)
    requires Collect(input).Some?
    ensures Collect(input + more) == Collect(input)
  {
    var k := StopAt(input).value;
    var longer := input + more;
    assert forall j :: 1 <= j < |input| ==> PairAt(longer, j) == PairAt(input, j);
    assert StopAt(longer) == Some(k);
    assert longer[..k] == input[..k];
  }

  /** Non-empty lines followed by two empty lines give those lines joined
      with line feeds; with no lines before the pair, the empty string. */
  lemma CollectTypedLines(lines: seq<string>, more: seq<string>)
    requires forall k :: 0 <= k < |lines| ==> lines[k] != ""
    ensures Collect(lines + ["", ""] + more) == Some(Join(lines, "\n"))
    ensures lines == [] ==> Collect(lines + ["", ""] + more) == Some("")
  {
    var input := lines + ["", ""] + more;
    var k := |lines| + 1;
    assert input[..k] == lines + [""];
    assert forall j :: 0 <= j < |lines| ==> input[j] == lines[j];
    StopAtFirstPair(input, k);
    NonEmptyAppend(lines, [""]);
    assert NonEmpty([""]) == [];
    NonEmptyKeepsAll(lines);
  }

  /** The collected text splits back into exactly the non-empty lines read
      before the stop, when no typed line holds a line boundary. */
  lemma {:induction false} CollectSplits(input: seq<string>)
    requires forall k :: 0 <= k < |input| ==> NoLineBreak(input[k])
    requires Collect(input).Some?
    ensures SplitLines(Collect(input).value) == NonEmpty(input[..StopAt(input).value])
    ensures forall k :: 0 <= k < |SplitLines(Collect(input).value)| ==> SplitLines(Collect(input).value)[k] != ""
  {
    var k := StopAt(input).value;
    var kept := NonEmpty(input[..k]);
    NonEmptyKeepsNoEmpty(input[..k]);
    NonEmptyFromInput(input[..k]);
    assert forall j :: 0 <= j < |kept| ==> NoLineBreak(kept[j]);
    SplitJoin(kept);
  }
}
