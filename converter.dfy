/** The line-by-line conversion of an answer into HTML. Two loops of the generator
    share it: the answer loop of `generate_accordion` (links, bold, headings and
    lists) and the loop of the `links` command (links and lists only). Each line
    becomes one fragment, and the list bookkeeping of the `Lists` module places
    `<ul>` and `</ul>` around the runs of list items. */
module Converter {
  import opened Text
  import opened Inline
  import opened Lists

  /** The two loops: the answer loop of the accordion, and the `links` command. */
  datatype Mode = Full | LinksOnly

  function Render(f: Fragment): string {
    match f
    case Open => "<ul>"
    case Close => "</ul>"
    case Heading(n, t) => "<h" + NatToString(n) + ">" + t + "</h" + NatToString(n) + ">"
    case Item(t) => "    <li>" + t + "</li>"
    case Line(t) => t
  }

  function RenderAll(fs: seq<Fragment>): (r: seq<string>)
    ensures |r| == |fs|
    decreases |fs|
  {
    if fs == [] then [] else [Render(fs[0])] + RenderAll(fs[1..])
  }

  // ---------------------------------------------------------------------------
  // One line

  /** `s.replace('\n', '<br />\n')`; a string without a line feed is left as it is. */
  function BreakFeeds(s: string): string
    decreases |s|
  {
    if s == [] then []
    else (if s[0] == '\n' then "<br />\n" else [s[0]]) + BreakFeeds(s[1..])
  }

  /** A string without a line feed is left as it is by the `<br />` rewrite. */
  lemma {:induction false} BreakFeedsKeepsLine(s: string)
    requires '\n' !in s
    ensures BreakFeeds(s) == s
    decreases |s|
  {
    if s != [] {
      assert '\n' !in s[1..];
      BreakFeedsKeepsLine(s[1..]);
    }
  }

  /** The inline rewrites of the answer loop: links first, then bold. */
  function Rewrite(line: string): string {
    SubBold(SubLinks(line))
  }

  /** How the answer loop classifies a line that has been rewritten: the marker
      tests run in the order `###`, `##`, `#`, `-`, and a heading or list item
      drops exactly its marker and then the surrounding whitespace. */
  function Classify(line: string): Fragment {
    if StartsWith(line, "###") then Heading(3, Strip(line[3..]))
    else if StartsWith(line, "##") then Heading(2, Strip(line[2..]))
    else if StartsWith(line, "#") then Heading(1, Strip(line[1..]))
    else if StartsWith(line, "-") then Item(Strip(line[1..]))
    else Line(BreakFeeds(line))
  }

  /** The fragment one input line becomes, brackets aside. In links-only mode the
      `-` test is made on the line as typed, before the link rewrite. */
  function LineFragment(mode: Mode, line: string): Fragment {
    match mode
    case Full => Classify(Rewrite(line))
    case LinksOnly =>
      if StartsWith(line, "-") then Item(Strip(Slice(SubLinks(line), 1)))
      else Line(SubLinks(line))
  }

  /** The fragments of `lines`, one per line. */
  function Contents(mode: Mode, lines: seq<string>): (xs: seq<Fragment>)
    ensures |xs| == |lines|
    decreases |lines|
  {
    if lines == [] then [] else [LineFragment(mode, lines[0])] + Contents(mode, lines[1..])
  }

  lemma {:induction false} ContentsAt(mode: Mode, lines: seq<string>, i: nat)
    requires i < |lines|
    ensures Contents(mode, lines)[i] == LineFragment(mode, lines[i])
    decreases i
  {
    if i > 0 {
      ContentsAt(mode, lines[1..], i - 1);
    }
  }

  // ---------------------------------------------------------------------------
  // The whole answer

  /** The processed lines of an answer made of `lines`. */
  function Convert(mode: Mode, lines: seq<string>): seq<Fragment> {
    CloseOff(Contents(mode, lines))
  }

  /** The converted answer: the processed lines joined with line feeds. */
  function ConvertText(mode: Mode, text: string): string {
    Join(RenderAll(Convert(mode, SplitLines(text))), "\n")
  }

  // ---------------------------------------------------------------------------
  // The guarantees, for the converter

  lemma LineFragmentsHaveNoBrackets(mode: Mode, lines: seq<string>)
    ensures NoBrackets(Contents(mode, lines))
  {
    forall k | 0 <= k < |lines| ensures !IsBracket(Contents(mode, lines)[k]) {
      ContentsAt(mode, lines, k);
    }
  }

  /** List balance: the converted fragments hold as many `<ul>` as `</ul>`; lists
      never nest, every item stands inside a list and every heading and line
      outside one; taking the brackets out gives back one fragment per input
      line, in order; and no list is empty or touches another, so each list
      spans a maximal run of items. */
  lemma ConvertBalanced(mode: Mode, lines: seq<string>)
    ensures Bracketing(Contents(mode, lines), Convert(mode, lines))
    ensures Count(Convert(mode, lines), Open) == Count(Convert(mode, lines), Close)
  {
    LineFragmentsHaveNoBrackets(mode, lines);
    CloseOffBrackets(Contents(mode, lines));
  }

  /** And the conversion is the only bracketing of the lines' fragments with
      those properties. */
  lemma ConvertIsTheBracketing(mode: Mode, lines: seq<string>, r: seq<Fragment>)
    ensures Bracketing(Contents(mode, lines), r) <==> r == Convert(mode, lines)
  {
    LineFragmentsHaveNoBrackets(mode, lines);
    BracketingUnique(Contents(mode, lines), r);
  }

  /** An empty answer converts to the empty string. */
  lemma ConvertEmpty(mode: Mode)
    ensures ConvertText(mode, "") == ""
  {
    assert SplitLines("") == [];
    assert Contents(mode, []) == [];
  }

  // ---------------------------------------------------------------------------
  // Line classification

  /** `n` copies of `#`. */
  function Hashes(n: nat): string
    decreases n
  {
    if n == 0 then "" else "#" + Hashes(n - 1)
  }

  /** Heading precedence: a rewritten line is a heading exactly when it starts
      with `#`; its level is the number of leading `#` up to three, so `###` is
      always checked first, and the text is what follows exactly that many `#`,
      stripped. A line is a list item exactly when it starts with `-` and not `#`. */
  lemma HeadingPrecedence(line: string)
    ensures Classify(line).Heading? <==> StartsWith(line, "#")
    ensures Classify(line).Heading? ==>
      var n := Classify(line).level;
      1 <= n <= 3 && StartsWith(line, Hashes(n)) && (n < 3 ==> !StartsWith(line, Hashes(n + 1))) &&
      Classify(line).text == Strip(line[n..])
    ensures Classify(line).Item? <==> !StartsWith(line, "#") && StartsWith(line, "-")
    ensures Classify(line).Item? ==> Classify(line).text == Strip(line[1..])
  {
    assert Hashes(1) == "#" && Hashes(2) == "##" && Hashes(3) == "###";
  }

  /** A rewritten line that starts with neither `#` nor `-` is kept as it
      stands when it holds no line feed. */
  lemma ClassifyPlain(line: string)
    requires '\n' !in line
    requires !StartsWith(line, "#") && !StartsWith(line, "-")
    ensures Classify(line) == Line(line)
  {
    BreakFeedsKeepsLine(line);
  }

  /** The rewrites make up no line feed. */
  lemma RewriteNoFeed(line: string)
    requires '\n' !in line
    ensures '\n' !in Rewrite(line)
  {
    SubLinksNoFeed(line);
    SubBoldNoFeed(SubLinks(line));
  }

  /** A plain line of the answer, which holds no line boundary, is kept exactly
      as the link and bold rewrites leave it: the `<br />` rewrite of the
      fallback branch never fires on a line of `splitlines`. */
  lemma PlainLineKept(line: string)
    requires NoLineBreak(line)
    requires !StartsWith(Rewrite(line), "#") && !StartsWith(Rewrite(line), "-")
    ensures LineFragment(Full, line) == Line(Rewrite(line))
  {
    assert IsLineBreak('\n');
    var r := Rewrite(line);
    RewriteNoFeed(line);
    ClassifyPlain(r);
  }

  /** A slice of bold-free text that `strip` leaves is bold-free. */
  lemma StripBoldFree(r: string, k: nat)
    requires k <= |r| && BoldFree(r) && '\n' !in r
    ensures BoldFree(Strip(r[k..])) && '\n' !in Strip(r[k..])
  {
    var u := r[k..];
    var t := Strip(u);
    StripSpec(u);
    var i := |u| - |TrimLeft(u)|;
    assert t == r[k + i..k + i + |t|];
    BoldFreeSlice(r, k + i, k + i + |t|);
  }

  /** A line without line feed, `[` or bold markup, starting with neither `#`
      nor `-`, comes through the answer loop as a plain line kept as it is. */
  lemma PlainHtmlStable(html: string)
    requires '\n' !in html && '[' !in html && BoldFree(html)
    requires !StartsWith(html, "#") && !StartsWith(html, "-")
    ensures LineFragment(Full, html) == Line(html)
  {
    SubLinksKeepsPlainText(html);
    SubBoldKeepsBoldFree(html);
    ClassifyPlain(html);
  }

  /** The HTML of a list item is stable under a second pass. */
  lemma ItemHtmlStable(t: string)
    requires '\n' !in t && '[' !in t && BoldFree(t)
    ensures LineFragment(Full, Render(Item(t))) == Line(Render(Item(t)))
  {
    var html := "    <li>" + t + "</li>";
    BoldFreeWrap("    <li>", t, "</li>");
    assert html[0] == ' ';
    PlainHtmlStable(html);
  }

  /** The HTML of a heading is stable under a second pass. */
  lemma HeadingHtmlStable(n: nat, t: string)
    requires 1 <= n <= 3
    requires '\n' !in t && '[' !in t && BoldFree(t)
    ensures LineFragment(Full, Render(Heading(n, t))) == Line(Render(Heading(n, t)))
  {
    var tag := [DigitChar(n)];
    assert NatToString(n) == tag;
    var open, close := "<h" + tag + ">", "</h" + tag + ">";
    AppendAssoc(open + t, "</h" + tag, ">");
    AppendAssoc(open + t, "</h", tag);
    assert Render(Heading(n, t)) == open + t + close;
    BoldFreeWrap(open, t, close);
    assert (open + t + close)[0] == '<';
    PlainHtmlStable(open + t + close);
  }

  /** A tag with no `*`, `[` or line feed is stable under a second pass. */
  lemma TagStable(tag: string)
    requires tag != [] && tag[0] == '<'
    requires '*' !in tag && '[' !in tag && '\n' !in tag
    ensures LineFragment(Full, tag) == Line(tag)
  {
    BoldFreeWrap(tag, "", "");
    assert tag + "" + "" == tag;
    assert tag[..1][0] == '<';
    PlainHtmlStable(tag);
  }

  /** The list brackets, run through the answer loop once more, are plain
      lines kept as they are. */
  lemma BracketsStable()
    ensures LineFragment(Full, Render(Open)) == Line(Render(Open))
    ensures LineFragment(Full, Render(Close)) == Line(Render(Close))
  {
    TagStable("<ul>");
    TagStable("</ul>");
  }

  /** Round-trip stability, line by line: the HTML the answer loop makes of a
      line, run through the loop once more, is a plain line kept exactly as it
      is, as long as it holds no `[` that the link rewrite could take up. A
      heading starts with `<`, an item with a space, a plain line with neither
      `#` nor `-`, and the bold rewrite is idempotent. */
  lemma ConvertedLineStable(line: string)
    requires '\n' !in line
    requires '[' !in Render(LineFragment(Full, line))
    ensures LineFragment(Full, Render(LineFragment(Full, line))) == Line(Render(LineFragment(Full, line)))
  {
    var r := Rewrite(line);
    RewriteNoFeed(line);
    SubLinksNoFeed(line);
    SubBoldMakesBoldFree(SubLinks(line));
    var f := Classify(r);
    if f.Line? {
      ClassifyPlain(r);
      PlainHtmlStable(r);
    } else if f.Item? {
      StripBoldFree(r, 1);
      ItemHtmlStable(f.text);
    } else {
      StripBoldFree(r, f.level);
      HeadingHtmlStable(f.level, f.text);
    }
  }

  /** Lines none of which is a list item pass the list loop untouched:
      `in_list` is never set, so no `<ul>` or `</ul>` is added. */
  lemma {:induction false} NonItemsPass(xs: seq<Fragment>)
    requires forall k :: 0 <= k < |xs| ==> !xs[k].Item?
    ensures Machine(xs) == (xs, false)
    ensures CloseOff(xs) == xs
    decreases |xs|
  {
    if xs != [] {
      var init, last := xs[..|xs| - 1], xs[|xs| - 1];
      NonItemsPass(init);
      MachineSnoc(init, last);
      assert !last.Item?;
      assert Step(false, last).0 == [] + [last] == [last];
      assert init + [last] == xs;
    }
  }

  /** A plain line, and a plain line followed by an empty one, convert to
      themselves as plain lines. */
  lemma PlainLinesConvert(x: string)
    requires '\n' !in x && '[' !in x && BoldFree(x)
    requires !StartsWith(x, "#") && !StartsWith(x, "-")
    ensures Convert(Full, [x]) == [Line(x)]
    ensures Convert(Full, [x, ""]) == [Line(x), Line("")]
  {
    PlainHtmlStable(x);
    PlainHtmlStable("");
    assert Contents(Full, [x]) == [Line(x)];
    assert [x, ""][1..] == [""];
    assert Contents(Full, [x, ""]) == [Line(x), Line("")];
    NonItemsPass([Line(x)]);
    NonItemsPass([Line(x), Line("")]);
  }

  /** Stability does not extend to whole answers: a plain line followed by an
      empty last line loses the empty line on a second pass, because
      `splitlines` starts no line after a final line feed. */
  lemma {:induction false} TrailingEmptyLineNotStable(x: string)
    requires NoLineBreak(x) && '[' !in x && BoldFree(x)
    requires !StartsWith(x, "#") && !StartsWith(x, "-")
    ensures ConvertText(Full, x + "\n\n") == x + "\n"
    ensures ConvertText(Full, x + "\n") == x
    ensures ConvertText(Full, ConvertText(Full, x + "\n\n")) != ConvertText(Full, x + "\n\n")
  {
    PlainLinesConvert(x);
    TrailingFeedsSplit(x);
    FinalFeedSplit(x);
    assert RenderAll([Line(x), Line("")]) == [x, ""];
    assert RenderAll([Line(x)]) == [x];
    assert [x, ""][1..] == [""];
    assert Join([x, ""], "\n") == x + "\n" + "";
    assert |x + "\n"| != |x|;
  }

  /** A line with neither `[` nor `**` reaches the classification as typed. */
  lemma RewriteKeepsMarkupFreeLine(line: string)
    requires forall m :: 0 <= m < |line| ==> line[m] != '['
    requires forall m :: 0 <= m <= |line| ==> !At(line, m, "**")
    ensures Rewrite(line) == line
  {
    SubLinksKeepsPlainText(line);
    SubBoldKeepsPlainText(line);
  }

  /** In links-only mode the `-` test on the line as typed agrees with the same
      test after the link rewrite, and the item text is the rewrite of what
      follows the `-`: testing before rewriting drops no character. */
  lemma LinksModeDash(line: string)
    ensures StartsWith(SubLinks(line), "-") <==> StartsWith(line, "-")
    ensures StartsWith(line, "-") ==>
      LineFragment(LinksOnly, line) == Item(Strip(SubLinks(line[1..])))
  {
    if line != [] && line[0] != '[' {
      var r := SubLinks(line);
      SubLinksFirst(line);
      assert StartsWith(line, "-") <==> line[0] == '-' by { assert line[..1] == [line[0]]; }
      assert StartsWith(r, "-") <==> r[0] == '-' by { assert r[..1] == [r[0]]; }
      if line[0] == '-' {
        assert MatchLink(line) == None;
        assert r == [line[0]] + SubLinks(line[1..]);
      }
    } else if line != [] {
      var r := SubLinks(line);
      assert !StartsWith(line, "-") by { assert line[..1] == [line[0]]; }
      match MatchLink(line)
      case Some((j, k)) =>
        assert r[..1] == Anchor(line[1..j], line[j + 2..k])[..1] == "<";
      case None =>
        assert r[..1] == "[";
    }
  }

  // ---------------------------------------------------------------------------
  // The two loops

  lemma {:induction false} RenderAllAppend(a: seq<Fragment>, b: seq<Fragment>)
    ensures RenderAll(a + b) == RenderAll(a) + RenderAll(b)
    decreases |a|
  {
    if a == [] {
      assert a + b == b;
    } else {
      assert (a + b)[1..] == a[1..] + b;
      RenderAllAppend(a[1..], b);
    }
  }

  /** The tags of the three heading levels. */
  lemma HeadingTags(t: string)
    ensures Render(Heading(1, t)) == "<h1>" + t + "</h1>"
    ensures Render(Heading(2, t)) == "<h2>" + t + "</h2>"
    ensures Render(Heading(3, t)) == "<h3>" + t + "</h3>"
  {
    HeadingTag(1, t);
    HeadingTag(2, t);
    HeadingTag(3, t);
  }

  lemma HeadingTag(n: nat, t: string)
    requires 1 <= n <= 3
    ensures Render(Heading(n, t)) == "<h" + [DigitChar(n)] + ">" + t + "</h" + [DigitChar(n)] + ">"
  {
  }

  /** What one pass of the loop body appends to the processed lines. */
  lemma RenderStep(inList: bool, f: Fragment)
    ensures RenderAll(Step(inList, f).0) ==
      (if f.Item? && !inList then ["<ul>"] else if !f.Item? && inList then ["</ul>"] else []) + [Render(f)]
  {
    assert RenderAll([f]) == [Render(f)] by { assert [f][1..] == []; }
    var gs := Step(inList, f).0;
    if |gs| == 2 {
      assert gs[1..] == [f];
    }
  }

  /** The loop state after one more line, from the state before it. */
  lemma LoopStep(xs: seq<Fragment>, i: nat, processed: seq<string>)
    requires i < |xs| && NoBrackets(xs)
    requires processed == RenderAll(Machine(xs[..i]).0)
    ensures var (gs, inList) := Step(Machine(xs[..i]).1, xs[i]);
      && RenderAll(Machine(xs[..i + 1]).0) == processed + RenderAll(gs)
      && Machine(xs[..i + 1]).1 == inList
      && Nest(Machine(xs[..i + 1]).0, false) == Some(inList)
  {
    assert xs[..i + 1] == xs[..i] + [xs[i]];
    MachineSnoc(xs[..i], xs[i]);
    RenderAllAppend(Machine(xs[..i]).0, Step(Machine(xs[..i]).1, xs[i]).0);
    NoBracketsPrefix(xs, i + 1);
    MachineNests(xs[..i + 1]);
  }

  /** The loop state at the end, with a list still open closed. */
  lemma LoopEnd(xs: seq<Fragment>, processed: seq<string>, inList: bool)
    requires processed == RenderAll(Machine(xs).0) && inList == Machine(xs).1
    ensures processed + (if inList then ["</ul>"] else []) == RenderAll(CloseOff(xs))
  {
    RenderAllAppend(Machine(xs).0, if inList then [Close] else []);
  }

  /** The body of the answer loop for a line that reads `line` once its links
      and bold are rewritten: close an open list before a heading or a plain
      line, open one before an item, and append the line's HTML. */
  method AnswerLine(line: string, processed: seq<string>, inList: bool)
    returns (processed': seq<string>, inList': bool)
    ensures processed' == processed + RenderAll(Step(inList, Classify(line)).0)
    ensures inList' == Step(inList, Classify(line)).1
  {
    RenderStep(inList, Classify(line));
    processed', inList' := processed, inList;
    if StartsWith(line, "###") {
      HeadingTags(Strip(line[3..]));
      if inList' {
        processed' := processed' + ["</ul>"];
        inList' := false;
      }
      processed' := processed' + ["<h3>" + Strip(line[3..]) + "</h3>"];
    } else if StartsWith(line, "##") {
      HeadingTags(Strip(line[2..]));
      if inList' {
        processed' := processed' + ["</ul>"];
        inList' := false;
      }
      processed' := processed' + ["<h2>" + Strip(line[2..]) + "</h2>"];
    } else if StartsWith(line, "#") {
      HeadingTags(Strip(line[1..]));
      if inList' {
        processed' := processed' + ["</ul>"];
        inList' := false;
      }
      processed' := processed' + ["<h1>" + Strip(line[1..]) + "</h1>"];
    } else if StartsWith(line, "-") {
      if !inList' {
        processed' := processed' + ["<ul>"];
        inList' := true;
      }
      processed' := processed' + ["    <li>" + Strip(line[1..]) + "</li>"];
    } else {
      if inList' {
        processed' := processed' + ["</ul>"];
        inList' := false;
      }
      processed' := processed' + [BreakFeeds(line)];
    }
  }

  /** The answer loop of `generate_accordion`: split the answer into lines,
      rewrite links then bold in each and hand it to the loop body; close a
      list still open at the end and join with line feeds. */
  method ConvertAnswer(answer: string) returns (html: string)
    ensures html == ConvertText(Full, answer)
  {
    var lines := SplitLines(answer);
    ghost var xs := Contents(Full, lines);
    LineFragmentsHaveNoBrackets(Full, lines);
    var processed: seq<string> := [];
    var inList := false;
    var i := 0;
    while i < |lines|
      invariant 0 <= i <= |lines|
      invariant processed == RenderAll(Machine(xs[..i]).0)
      invariant inList == Machine(xs[..i]).1
      invariant Nest(Machine(xs[..i]).0, false) == Some(inList)
    {
      LoopStep(xs, i, processed);
      var line := lines[i];
      line := SubLinks(line);
      line := SubBold(line);
      ContentsAt(Full, lines, i);
      assert xs[i] == Classify(line);
      processed, inList := AnswerLine(line, processed, inList);
      i := i + 1;
    }
    assert xs[..i] == xs;
    LoopEnd(xs, processed, inList);
    if inList {
      processed := processed + ["</ul>"];
    }
    assert processed == RenderAll(Convert(Full, lines));
    html := Join(processed, "\n");
  }

  /** The body of the loop of the `links` command for the line `line` as typed:
      a line starting with `-` opens a list if none is open and becomes an
      item, its links rewritten; any other line closes an open list and is
      kept with its links rewritten. */
  method LinksLine(line: string, processed: seq<string>, inList: bool)
    returns (processed': seq<string>, inList': bool)
    ensures processed' == processed + RenderAll(Step(inList, LineFragment(LinksOnly, line)).0)
    ensures inList' == Step(inList, LineFragment(LinksOnly, line)).1
  {
    RenderStep(inList, LineFragment(LinksOnly, line));
    processed', inList' := processed, inList;
    var text := line;
    if StartsWith(text, "-") {
      if !inList' {
        processed' := processed' + ["<ul>"];
        inList' := true;
      }
      text := SubLinks(text);
      processed' := processed' + ["    <li>" + Strip(Slice(text, 1)) + "</li>"];
    } else {
      if inList' {
        processed' := processed' + ["</ul>"];
        inList' := false;
      }
      text := SubLinks(text);
      processed' := processed' + [text];
    }
  }

  /** The loop of the `links` command: split the input into lines and hand each
      to the loop body; close a list still open at the end and join with line
      feeds. */
  method ConvertLinks(input: string) returns (html: string)
    ensures html == ConvertText(LinksOnly, input)
  {
    var lines := SplitLines(input);
    ghost var xs := Contents(LinksOnly, lines);
    LineFragmentsHaveNoBrackets(LinksOnly, lines);
    var processed: seq<string> := [];
    var inList := false;
    var i := 0;
    while i < |lines|
      invariant 0 <= i <= |lines|
      invariant processed == RenderAll(Machine(xs[..i]).0)
      invariant inList == Machine(xs[..i]).1
      invariant Nest(Machine(xs[..i]).0, false) == Some(inList)
    {
      LoopStep(xs, i, processed);
      ContentsAt(LinksOnly, lines, i);
      processed, inList := LinksLine(lines[i], processed, inList);
      i := i + 1;
    }
    assert xs[..i] == xs;
    LoopEnd(xs, processed, inList);
    if inList {
      processed := processed + ["</ul>"];
    }
    assert processed == RenderAll(Convert(LinksOnly, lines));
    html := Join(processed, "\n");
  }
}
