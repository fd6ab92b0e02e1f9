/** The operations of Python's `str` that the generator relies on, each taken
    as Python defines it: whitespace, `startswith`, slicing past a prefix,
    `strip`, `splitlines`, `join`, and the decimal form of an index that an
    f-string produces. */
module Text {

  datatype Option<T> = None | Some(value: T)

  /** `str.isspace()` of one character. The same set is what `\s` matches in a
      `str` pattern and what `str.strip()` removes. */
  predicate IsSpace(c: char) {
    || ('\t' <= c <= '\r')
    || ('\U{1C}' <= c <= '\U{1F}')
    || c == ' ' || c == '\U{85}' || c == '\U{A0}' || c == '\U{1680}'
    || ('\U{2000}' <= c <= '\U{200A}')
    || c == '\U{2028}' || c == '\U{2029}' || c == '\U{202F}' || c == '\U{205F}' || c == '\U{3000}'
  }

  /** A line boundary of `str.splitlines()` (`\r\n` counts as one, see BreakWidth). */
  predicate IsLineBreak(c: char) {
    || ('\n' <= c <= '\r')
    || ('\U{1C}' <= c <= '\U{1E}')
    || c == '\U{85}' || c == '\U{2028}' || c == '\U{2029}'
  }

  predicate AllSpace(s: string) {
    forall k :: 0 <= k < |s| ==> IsSpace(s[k])
  }

  predicate NoLineBreak(s: string) {
    forall k :: 0 <= k < |s| ==> !IsLineBreak(s[k])
  }

  /** `s.startswith(prefix)`. */
  predicate StartsWith(s: string, prefix: string) {
    |prefix| <= |s| && s[..|prefix|] == prefix
  }

  /** `s[n:]`, which is empty when `n` is past the end. */
  function Slice(s: string, n: nat): string
  {
    if n <= |s| then s[n..] else []
  }

  /** Concatenation regroups; stated on plain variables so that callers with
      long literal operands need not reason about their characters. */
  lemma AppendAssoc(a: string, b: string, c: string)
    ensures a + (b + c) == (a + b) + c
  {
  }

  /** The same regrouping for sequences of any kind. */
  lemma SeqAssoc<T>(a: seq<T>, b: seq<T>, c: seq<T>)
    ensures a + (b + c) == (a + b) + c
  {
  }

  /** `s[:n]`, which is all of `s` when `n` is past the end. */
  function Take(s: string, n: nat): string
  {
    if n <= |s| then s[..n] else s
  }

  /** Python's slicing identity `s[:n] + s[n:] == s`, with the prefix as long
      as `n` allows. */
  lemma TakeSlice(s: string, n: nat)
    ensures Take(s, n) + Slice(s, n) == s
    ensures |Take(s, n)| == if n <= |s| then n else |s|
  {
  }

  /** `s.lstrip()`. */
  function TrimLeft(s: string): (r: string)
    ensures |r| <= |s|
    decreases |s|
  {
    if s != [] && IsSpace(s[0]) then TrimLeft(s[1..]) else s
  }

  /** `s.rstrip()`. */
  function TrimRight(s: string): (r: string)
    ensures |r| <= |s|
    decreases |s|
  {
    if s != [] && IsSpace(s[|s| - 1]) then TrimRight(s[..|s| - 1]) else s
  }

  /** `lstrip` removes exactly the leading whitespace: what it keeps is a suffix
      that does not start with whitespace, and what it drops is all whitespace. */
  lemma {:induction false} TrimLeftSpec(s: string)
    ensures var r := TrimLeft(s);
      && r == s[|s| - |r|..] && AllSpace(s[..|s| - |r|])
      && (r == [] || !IsSpace(r[0]))
    decreases |s|
  {
    if s != [] && IsSpace(s[0]) {
      TrimLeftSpec(s[1..]);
      var r := TrimLeft(s);
      assert s[1..][|s| - 1 - |r|..] == s[|s| - |r|..];
      assert forall k :: 1 <= k < |s| - |r| ==> s[1..][..|s| - 1 - |r|][k - 1] == s[k];
    }
  }

  /** `rstrip` removes exactly the trailing whitespace. */
  lemma {:induction false} TrimRightSpec(s: string)
    ensures var r := TrimRight(s);
      && r == s[..|r|] && AllSpace(s[|r|..])
      && (r == [] || !IsSpace(r[|r| - 1]))
    decreases |s|
  {
    if s != [] && IsSpace(s[|s| - 1]) {
      var p := s[..|s| - 1];
      TrimRightSpec(p);
      var r := TrimRight(s);
      assert p[..|r|] == s[..|r|];
      assert forall k :: |r| <= k < |s| - 1 ==> p[|r|..][k - |r|] == s[k];
    }
  }

  /** `s.strip()`. */
  function Strip(s: string): string {
    TrimRight(TrimLeft(s))
  }

  /** `s.strip()` is the part of `s` left once the whitespace at both ends is
      removed: a slice of `s` with only whitespace around it, with no whitespace
      at either of its own ends, and empty exactly when `s` is all whitespace. */
  lemma StripSpec(s: string)
    ensures var r, i := Strip(s), |s| - |TrimLeft(s)|;
      i + |r| <= |s| && r == s[i..i + |r|] && AllSpace(s[..i]) && AllSpace(s[i + |r|..])
    ensures var r := Strip(s); r == [] || (!IsSpace(r[0]) && !IsSpace(r[|r| - 1]))
    ensures Strip(s) == [] <==> AllSpace(s)
  {
    var left := TrimLeft(s);
    var r := TrimRight(left);
    var i := |s| - |left|;
    TrimLeftSpec(s);
    TrimRightSpec(left);
    assert left[..|r|] == s[i..i + |r|];
    assert left[|r|..] == s[i + |r|..];
    AllSpaceSplit(s, i);
    AllSpaceSplit(left, |r|);
  }

  lemma AllSpaceSplit(s: string, i: nat)
    requires i <= |s|
    ensures AllSpace(s) <==> AllSpace(s[..i]) && AllSpace(s[i..])
  {
    if AllSpace(s[..i]) && AllSpace(s[i..]) {
      forall k | 0 <= k < |s| ensures IsSpace(s[k]) {
        if k < i { assert s[..i][k] == s[k]; } else { assert s[i..][k - i] == s[k]; }
      }
    }
  }

  /** Index of the first line boundary at or after `from`, or `|s|` if none. */
  function LineEnd(s: string, from: nat): (k: nat)
    requires from <= |s|
    ensures from <= k <= |s|
    ensures k < |s| ==> IsLineBreak(s[k])
    ensures forall m :: from <= m < k ==> !IsLineBreak(s[m])
    decreases |s| - from
  {
    if from == |s| || IsLineBreak(s[from]) then from else LineEnd(s, from + 1)
  }

  /** Width of the line boundary at `k`: `\r\n` is one boundary of two characters. */
  function BreakWidth(s: string, k: nat): nat
    requires k < |s|
  {
    if s[k] == '\r' && k + 1 < |s| && s[k + 1] == '\n' then 2 else 1
  }

  /** `s.splitlines()`: the lines of `s` without their boundaries; a boundary
      at the very end does not start another line. */
  function SplitLines(s: string): (lines: seq<string>)
    ensures forall k :: 0 <= k < |lines| ==> NoLineBreak(lines[k])
    ensures s == [] <==> lines == []
    decreases |s|
  {
    if s == [] then []
    else
      var k := LineEnd(s, 0);
      if k == |s| then [s] else [s[..k]] + SplitLines(s[k + BreakWidth(s, k)..])
  }

  /** `sep.join(parts)`. */
  function Join(parts: seq<string>, sep: string): string
    decreases |parts|
  {
    if parts == [] then ""
    else if |parts| == 1 then parts[0]
    else parts[0] + sep + Join(parts[1..], sep)
  }

  /** A line without boundaries followed by a line feed is the first line, and
      the lines of what follows come after it. */
  lemma SplitAfterLine(head: string, rest: string)
    requires NoLineBreak(head)
    ensures SplitLines(head + "\n" + rest) == [head] + SplitLines(rest)
  {
    var s := head + "\n" + rest;
    assert s[|head|] == '\n';
    assert forall m :: 0 <= m < |head| ==> s[m] == head[m];
    assert LineEnd(s, 0) == |head|;
    assert s[..|head|] == head;
    assert s[|head| + 1..] == rest;
  }

  /** A lone line feed is one empty line. */
  lemma FeedSplit()
    ensures SplitLines("\n") == [""]
  {
    var feed := "\n";
    assert IsLineBreak(feed[0]);
    assert LineEnd(feed, 0) == 0;
    assert feed[1..] == [];
  }

  /** A final line feed ends a line and starts none after it. */
  lemma FinalFeedSplit(x: string)
    requires NoLineBreak(x)
    ensures SplitLines(x + "\n") == [x]
  {
    SplitAfterLine(x, []);
    assert x + "\n" + [] == x + "\n";
  }

  /** A second final line feed adds one empty line. */
  lemma TrailingFeedsSplit(x: string)
    requires NoLineBreak(x)
    ensures SplitLines(x + "\n\n") == [x, ""]
  {
    var feed := "\n";
    FeedSplit();
    SplitAfterLine(x, feed);
    assert x + feed + feed == x + "\n\n";
  }

  /** Splitting what was joined with line feeds gives the parts back, when no
      part holds a line boundary and the last is not empty. */
  lemma {:induction false} SplitJoin(parts: seq<string>)
    requires forall k :: 0 <= k < |parts| ==> NoLineBreak(parts[k])
    requires parts != [] ==> parts[|parts| - 1] != ""
    ensures SplitLines(Join(parts, "\n")) == parts
    decreases |parts|
  {
    if |parts| == 1 {
      var s := parts[0];
      assert LineEnd(s, 0) == |s|;
    } else if |parts| > 1 {
      var head, rest := parts[0], parts[1..];
      assert Join(parts, "\n") == head + "\n" + Join(rest, "\n");
      SplitAfterLine(head, Join(rest, "\n"));
      SplitJoin(rest);
    }
  }

  /** Joining with the empty separator, one more part at the end. */
  lemma {:induction false} ConcatSnoc(parts: seq<string>, last: string)
    ensures Join(parts + [last], "") == Join(parts, "") + last
    decreases |parts|
  {
    if |parts| == 1 {
      assert parts + [last] == [parts[0], last];
    } else if |parts| > 1 {
      assert (parts + [last])[1..] == parts[1..] + [last];
      ConcatSnoc(parts[1..], last);
    }
  }

  /** Joining with the empty separator, one more part at the front. */
  lemma ConcatCons(first: string, parts: seq<string>)
    ensures Join([first] + parts, "") == first + Join(parts, "")
  {
    if parts != [] {
      assert ([first] + parts)[1..] == parts;
    }
  }

  function DigitChar(d: nat): char
    requires d < 10
  {
    (('0' as int) + d) as char
  }

  /** The decimal digits of `n`, as `f"{n}"` writes a non-negative int. */
  function NatToString(n: nat): (s: string)
    ensures |s| > 0
    decreases n
  {
    if n < 10 then [DigitChar(n)] else NatToString(n / 10) + [DigitChar(n % 10)]
  }

  function DigitValue(c: char): nat {
    if '0' <= c <= '9' then (c as int) - ('0' as int) else 0
  }

  /** Reads decimal digits back. */
  function ParseNat(s: string): nat
    decreases |s|
  {
    if s == [] then 0 else ParseNat(s[..|s| - 1]) * 10 + DigitValue(s[|s| - 1])
  }

  /** The decimal form of an index can be read back, so distinct indices have
      distinct decimal forms. */
  lemma {:induction false} ParseNatToString(n: nat)
    ensures ParseNat(NatToString(n)) == n
    decreases n
  {
    var s := NatToString(n);
    if n < 10 {
      assert s[..|s| - 1] == [];
    } else {
      assert s[..|s| - 1] == NatToString(n / 10);
      ParseNatToString(n / 10);
    }
  }

  lemma NatToStringInjective(m: nat, n: nat)
    ensures NatToString(m) == NatToString(n) ==> m == n
  {
    ParseNatToString(m);
    ParseNatToString(n);
  }
}
