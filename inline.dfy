/** The three `re.sub` rewrites of the generator, each written as a left-to-right
    scanner for its one pattern. As `re.sub` does, a scanner tries to match at the
    current position; on a match it emits the replacement and resumes after the
    match, otherwise it copies one character and moves on. Each matcher is proved
    to pick the match the regex engine picks: the shortest one for the lazy `.*?`
    groups, the longest one for the greedy `[^\s]+`. */
module Inline {
  import opened Text

  /** `pat` occurs in `s` at index `i`. */
  predicate At(s: string, i: nat, pat: string) {
    i + |pat| <= |s| && s[i..i + |pat|] == pat
  }

  /** No line feed in `s[i..j]`: a `.*?` group can span exactly such a stretch. */
  predicate NoFeed(s: string, i: nat, j: nat) {
    forall m :: i <= m < j && m < |s| ==> s[m] != '\n'
  }

  /** Where a lazy `.*?` starting at `from` can stop so that `pat` follows: the
      first occurrence of `pat` at or after `from` with no line feed before it. */
  function Find(s: string, from: nat, pat: string): (r: Option<nat>)
    requires from <= |s|
    ensures r.Some? ==> from <= r.value && At(s, r.value, pat)
    decreases |s| - from
  {
    if At(s, from, pat) then Some(from)
    else if from == |s| || s[from] == '\n' then None
    else Find(s, from + 1, pat)
  }

  /** Find stops at the first occurrence reachable without crossing a line
      feed, and finds nothing only when there is no such occurrence. */
  lemma {:induction false} FindSpec(s: string, from: nat, pat: string)
    requires from <= |s|
    requires pat != [] && pat[0] != '\n'
    ensures var r := Find(s, from, pat);
      r.Some? ==> NoFeed(s, from, r.value)
    ensures var r := Find(s, from, pat);
      r.Some? ==> forall m :: from <= m < r.value ==> !At(s, m, pat)
    ensures var r := Find(s, from, pat);
      r.None? ==> forall m :: from <= m <= |s| && NoFeed(s, from, m) ==> !At(s, m, pat)
    decreases |s| - from
  {
    if !At(s, from, pat) && from < |s| && s[from] != '\n' {
      FindSpec(s, from + 1, pat);
    }
  }

  // ---------------------------------------------------------------------------
  // Links: the pattern `\[(.*?)\]\((.*?)\)`, each match replaced by an anchor.

  /** Every way the link pattern can match at the start of `s`: the label is
      `s[1..j]`, the url `s[j + 2..k]` and the match `s[..k + 1]`. */
  predicate IsLink(s: string, j: nat, k: nat) {
    && |s| > 0 && s[0] == '['
    && 1 <= j && j + 2 <= k < |s|
    && At(s, j, "](") && s[k] == ')'
    && NoFeed(s, 1, j) && NoFeed(s, j + 2, k)
  }

  /** The match the regex engine takes at the start of `s`, as (label end, url end). */
  function MatchLink(s: string): (r: Option<(nat, nat)>)
  {
    if s == [] || s[0] != '[' then None
    else match Find(s, 1, "](")
      case None => None
      case Some(j) =>
        match Find(s, j + 2, ")")
        case None => None
        case Some(k) => Some((j, k))
  }

  /** Leftmost-shortest: the match taken is a match, its label is the shortest
      that admits some url and its url the shortest after that label; and no
      match is taken exactly when the pattern cannot match at all. */
  lemma {:induction false} MatchLinkShortest(s: string)
    ensures MatchLink(s).Some? ==> IsLink(s, MatchLink(s).value.0, MatchLink(s).value.1)
    ensures MatchLink(s).Some? ==>
      var (j, k) := MatchLink(s).value;
      forall j', k' :: IsLink(s, j', k') ==> j < j' || (j == j' && k <= k')
    ensures MatchLink(s).None? <==> forall j, k :: !IsLink(s, j, k)
  {
    if s != [] && s[0] == '[' {
      var fj := Find(s, 1, "](");
      FindSpec(s, 1, "](");
      if fj.Some? {
        var j := fj.value;
        var fk := Find(s, j + 2, ")");
        FindSpec(s, j + 2, ")");
        forall j': nat, k': nat | IsLink(s, j', k') ensures j <= j' && fk.Some? && (j == j' ==> fk.value <= k') {
          assert NoFeed(s, j + 2, k') by {
            forall m | j + 2 <= m < k' && m < |s| ensures s[m] != '\n' {
              if m < j' {
                assert NoFeed(s, 1, j');
              } else if m == j' || m == j' + 1 {
                assert s[j'..j' + 2] == "](";
                assert s[m] == "]("[m - j'];
              }
            }
          }
          assert At(s, k', ")") by { assert s[k'..k' + 1] == [s[k']]; }
        }
        if fk.Some? {
          var k := fk.value;
          assert s[k] == s[k..k + 1][0] == ')';
          assert IsLink(s, j, k);
        }
      } else {
        forall j': nat, k': nat | IsLink(s, j', k') ensures false {
        }
      }
    }
  }

  /** The replacement text of one link. */
  function Anchor(text: string, url: string): string {
    "<a href=\"" + url + "\">" + text + "</a>"
  }

  /** The link rewrite of `s`. */
  function SubLinks(s: string): string
    decreases |s|
  {
    if s == [] then []
    else match MatchLink(s)
      case Some((j, k)) => Anchor(s[1..j], s[j + 2..k]) + SubLinks(s[k + 1..])
      case None => [s[0]] + SubLinks(s[1..])
  }

  /** A line with no `[` comes through the link rewrite unchanged. */
  lemma {:induction false} SubLinksKeepsPlainText(s: string)
    requires forall m :: 0 <= m < |s| ==> s[m] != '['
    ensures SubLinks(s) == s
    decreases |s|
  {
    if s != [] {
      assert MatchLink(s) == None;
      SubLinksKeepsPlainText(s[1..]);
    }
  }

  /** A first character other than `[` stays first. */
  lemma SubLinksFirst(s: string)
    requires s != [] && s[0] != '['
    ensures SubLinks(s) != [] && SubLinks(s)[0] == s[0]
  {
  }

  /** A slice of a string without line feeds has none. */
  lemma SliceNoFeed(s: string, i: nat, j: nat)
    requires i <= j <= |s| && '\n' !in s
    ensures '\n' !in s[i..j]
  {
    forall m | 0 <= m < j - i ensures s[i..j][m] != '\n' {
      assert s[i..j][m] == s[i + m];
    }
  }

  /** An anchor holds a line feed only when its text or url does. */
  lemma AnchorNoFeed(text: string, url: string)
    requires '\n' !in text && '\n' !in url
    ensures '\n' !in Anchor(text, url)
  {
  }

  /** The link rewrite makes up no line feed. */
  lemma {:induction false} SubLinksNoFeed(s: string)
    requires '\n' !in s
    ensures '\n' !in SubLinks(s)
    decreases |s|
  {
    if s != [] {
      match MatchLink(s)
      case Some((j, k)) =>
        var a, rest := Anchor(s[1..j], s[j + 2..k]), s[k + 1..];
        SliceNoFeed(s, 1, j);
        SliceNoFeed(s, j + 2, k);
        SliceNoFeed(s, k + 1, |s|);
        AnchorNoFeed(s[1..j], s[j + 2..k]);
        SubLinksNoFeed(rest);
        assert SubLinks(s) == a + SubLinks(rest);
      case None =>
        SliceNoFeed(s, 1, |s|);
        SubLinksNoFeed(s[1..]);
        assert SubLinks(s) == [s[0]] + SubLinks(s[1..]);
    }
  }

  // ---------------------------------------------------------------------------
  // Bold: the pattern `\*\*(.*?)\*\*`, each match replaced by a strong span.

  /** Every way the bold pattern can match at the start of `s`: the text is
      `s[2..j]` and the match `s[..j + 2]`. */
  predicate IsBold(s: string, j: nat) {
    At(s, 0, "**") && 2 <= j && At(s, j, "**") && NoFeed(s, 2, j)
  }

  /** The match the regex engine takes at the start of `s`, as the text's end. */
  function MatchBold(s: string): (r: Option<nat>)
  {
    if At(s, 0, "**") then Find(s, 2, "**") else None
  }

  /** The bold match taken is the shortest one, and there is none exactly when
      the pattern cannot match. */
  lemma MatchBoldShortest(s: string)
    ensures MatchBold(s).Some? ==> IsBold(s, MatchBold(s).value)
    ensures MatchBold(s).Some? ==> forall j :: IsBold(s, j) ==> MatchBold(s).value <= j
    ensures MatchBold(s).None? <==> forall j :: !IsBold(s, j)
  {
    if At(s, 0, "**") {
      FindSpec(s, 2, "**");
    }
    if MatchBold(s).None? {
      forall j: nat | IsBold(s, j) ensures false {
      }
    } else {
      assert IsBold(s, MatchBold(s).value);
    }
  }

  /** The replacement text of one bold span. */
  function Strong(text: string): string {
    "<strong>" + text + "</strong>"
  }

  /** The bold rewrite of `s`. */
  function SubBold(s: string): string
    decreases |s|
  {
    if s == [] then []
    else match MatchBold(s)
      case Some(j) => Strong(s[2..j]) + SubBold(s[j + 2..])
      case None => [s[0]] + SubBold(s[1..])
  }

  /** A line with no `**` comes through the bold rewrite unchanged. */
  lemma {:induction false} SubBoldKeepsPlainText(s: string)
    requires forall m :: 0 <= m <= |s| ==> !At(s, m, "**")
    ensures SubBold(s) == s
    decreases |s|
  {
    if s != [] {
      assert MatchBold(s) == None;
      var t := s[1..];
      assert forall m :: 0 <= m <= |t| ==> At(t, m, "**") ==> At(s, m + 1, "**");
      SubBoldKeepsPlainText(t);
    }
  }

  /** The bold rewrite makes up no line feed. */
  lemma {:induction false} SubBoldNoFeed(s: string)
    requires '\n' !in s
    ensures '\n' !in SubBold(s)
    decreases |s|
  {
    if s != [] {
      match MatchBold(s)
      case Some(j) =>
        var b, rest := Strong(s[2..j]), s[j + 2..];
        assert '\n' !in b by {
          assert '\n' !in s[2..j];
        }
        assert '\n' !in rest;
        SubBoldNoFeed(rest);
        assert SubBold(s) == b + SubBold(rest);
      case None =>
        assert '\n' !in s[1..];
        SubBoldNoFeed(s[1..]);
        assert SubBold(s) == [s[0]] + SubBold(s[1..]);
    }
  }

  /** No `**` is followed, two or more characters later, by another `**`: the
      bold pattern has nothing to match anywhere in `s`. */
  ghost predicate BoldFree(s: string) {
    forall p: nat, q: nat :: p + 2 <= q && At(s, p, "**") ==> !At(s, q, "**")
  }

  /** An occurrence in a slice is an occurrence in the whole string. */
  lemma AtSlice(s: string, i: nat, j: nat, p: nat, pat: string)
    requires i <= j <= |s|
    ensures At(s[i..j], p, pat) ==> At(s, i + p, pat)
  {
    if At(s[i..j], p, pat) {
      var u, v := s[i..j][p..p + |pat|], s[i + p..i + p + |pat|];
      assert forall m :: 0 <= m < |pat| ==> u[m] == v[m];
      assert u == v;
    }
  }

  /** An occurrence in the tail `y` of `x + y` is an occurrence in `y`. */
  lemma AtTail(x: string, y: string, p: nat, pat: string)
    requires |x| <= p
    ensures At(x + y, p, pat) ==> At(y, p - |x|, pat)
  {
    if At(x + y, p, pat) {
      assert (x + y)[p..p + |pat|] == y[p - |x|..p - |x| + |pat|];
    }
  }

  lemma BoldFreeSlice(s: string, i: nat, j: nat)
    requires i <= j <= |s| && BoldFree(s)
    ensures BoldFree(s[i..j])
  {
    forall p: nat, q: nat | p + 2 <= q && At(s[i..j], p, "**")
      ensures !At(s[i..j], q, "**")
    {
      AtSlice(s, i, j, p, "**");
      AtSlice(s, i, j, q, "**");
    }
  }

  /** A bold-free `y` stays bold-free behind an `x` in which no `**` starts. */
  lemma BoldFreeAfter(x: string, y: string)
    requires BoldFree(y)
    requires forall p: nat :: p < |x| ==> !At(x + y, p, "**")
    ensures BoldFree(x + y)
  {
    forall p: nat, q: nat | p + 2 <= q && At(x + y, p, "**")
      ensures !At(x + y, q, "**")
    {
      AtTail(x, y, p, "**");
      AtTail(x, y, q, "**");
    }
  }

  /** `**` starts at `p` exactly when the characters at `p` and `p + 1` are `*`. */
  lemma AtPair(s: string, p: nat)
    ensures At(s, p, "**") <==> p + 2 <= |s| && s[p] == '*' && s[p + 1] == '*'
  {
    if p + 2 <= |s| {
      var u := s[p..p + 2];
      assert u[0] == s[p] && u[1] == s[p + 1];
      if s[p] == '*' && s[p + 1] == '*' {
        assert u == "**";
      }
    }
  }

  /** No `**` starts inside `a + t + b` when `a` and `b` hold no `*` and `t`
      holds no `**`, whatever follows. */
  lemma NoPairInside(a: string, t: string, b: string, rest: string)
    requires '*' !in a && '*' !in b && b != []
    requires forall m: nat :: !At(t, m, "**")
    ensures forall p: nat :: p < |a + t + b| ==> !At(a + t + b + rest, p, "**")
  {
    var w := a + t + b + rest;
    assert forall k :: 0 <= k < |a| ==> w[k] == a[k];
    assert forall k :: |a| <= k < |a| + |t| ==> w[k] == t[k - |a|];
    assert forall k :: |a| + |t| <= k < |a| + |t| + |b| ==> w[k] == b[k - |a| - |t|];
    forall p: nat | p < |a + t + b| ensures !At(w, p, "**") {
      AtPair(w, p);
      if |a| <= p && p + 1 < |a| + |t| {
        AtPair(t, p - |a|);
      }
    }
  }

  /** Between two stretches without `*`, every `**` lies within `t`. */
  lemma AtInside(a: string, t: string, b: string, p: nat)
    requires '*' !in a && '*' !in b
    ensures At(a + t + b, p, "**") ==> |a| <= p && At(t, p - |a|, "**")
  {
    var w := a + t + b;
    if At(w, p, "**") {
      assert w[p] == w[p..p + 2][0] == '*' && w[p + 1] == w[p..p + 2][1] == '*';
      assert forall k :: 0 <= k < |a| ==> w[k] == a[k];
      assert forall k :: |a| + |t| <= k < |w| ==> w[k] == b[k - |a| - |t|];
      assert p >= |a| && p + 2 <= |a| + |t|;
      assert t[p - |a|..p - |a| + 2] == w[p..p + 2];
    }
  }

  /** Wrapping bold-free text in tags without `*` keeps it bold-free. */
  lemma BoldFreeWrap(a: string, t: string, b: string)
    requires '*' !in a && '*' !in b && BoldFree(t)
    ensures BoldFree(a + t + b)
  {
    forall p: nat, q: nat | p + 2 <= q && At(a + t + b, p, "**")
      ensures !At(a + t + b, q, "**")
    {
      AtInside(a, t, b, p);
      AtInside(a, t, b, q);
    }
  }

  /** On bold-free text the bold rewrite changes nothing. */
  lemma {:induction false} SubBoldKeepsBoldFree(s: string)
    requires BoldFree(s)
    ensures SubBold(s) == s
    decreases |s|
  {
    if s != [] {
      assert MatchBold(s) == None;
      BoldFreeSlice(s, 1, |s|);
      assert s[1..|s|] == s[1..];
      SubBoldKeepsBoldFree(s[1..]);
    }
  }

  /** What the bold rewrite leaves behind is bold-free: every `<strong>` span
      holds no `**`, and a `**` is copied only where no closing `**` follows. */
  lemma {:induction false} SubBoldMakesBoldFree(s: string)
    requires '\n' !in s
    ensures BoldFree(SubBold(s))
    decreases |s|
  {
    if s != [] {
      match MatchBold(s)
      case Some(j) =>
        var t, rest := s[2..j], s[j + 2..];
        FindSpec(s, 2, "**");
        forall m: nat ensures !At(t, m, "**") {
          AtSlice(s, 2, j, m, "**");
        }
        assert '\n' !in rest;
        SubBoldMakesBoldFree(rest);
        NoPairInside("<strong>", t, "</strong>", SubBold(rest));
        BoldFreeAfter(Strong(t), SubBold(rest));
      case None =>
        var tail := s[1..];
        assert '\n' !in tail;
        if At(s, 0, "**") {
          FindSpec(s, 2, "**");
          forall p: nat, q: nat | p + 2 <= q && At(s, p, "**") ensures !At(s, q, "**") {
            assert NoFeed(s, 2, q);
          }
          SubBoldKeepsBoldFree(s);
        } else {
          SubBoldMakesBoldFree(tail);
          var r := SubBold(s);
          assert r == [s[0]] + SubBold(tail);
          BoldFreeAfter([s[0]], SubBold(tail));
        }
    }
  }

  /** Idempotence: a second bold rewrite of a line leaves the first one's
      output unchanged, with no `<strong>` nested inside another. */
  lemma SubBoldIdempotent(s: string)
    requires '\n' !in s
    ensures SubBold(SubBold(s)) == SubBold(s)
  {
    SubBoldMakesBoldFree(s);
    SubBoldKeepsBoldFree(SubBold(s));
  }

  // ---------------------------------------------------------------------------
  // Images: the pattern `(https?://[^\s]+)`, each match replaced by an image tag.

  /** The end of the run of non-whitespace characters that starts at `from`. */
  function RunEnd(s: string, from: nat): (e: nat)
    requires from <= |s|
    ensures from <= e <= |s|
    ensures forall m :: from <= m < e ==> !IsSpace(s[m])
    ensures e == |s| || IsSpace(s[e])
    decreases |s| - from
  {
    if from == |s| || IsSpace(s[from]) then from else RunEnd(s, from + 1)
  }

  /** `s` starts with the scheme `scheme`, followed by non-whitespace up to `e`. */
  predicate UrlWith(s: string, scheme: string, e: nat) {
    At(s, 0, scheme) && |scheme| < e <= |s| && forall m :: |scheme| <= m < e ==> !IsSpace(s[m])
  }

  /** Every way the url pattern can match at the start of `s`: the url is `s[..e]`. */
  predicate IsUrl(s: string, e: nat) {
    UrlWith(s, "http://", e) || UrlWith(s, "https://", e)
  }

  /** The match the regex engine takes at the start of `s`, as the url's end. */
  function MatchUrl(s: string): (r: Option<nat>)
  {
    var p := if At(s, 0, "https://") then 8 else if At(s, 0, "http://") then 7 else 0;
    if p == 0 then None
    else
      var e := RunEnd(s, p);
      if e == p then None else Some(e)
  }

  /** The url match taken is the longest one, and there is none exactly when the
      pattern cannot match. */
  lemma MatchUrlLongest(s: string)
    ensures MatchUrl(s).Some? ==> IsUrl(s, MatchUrl(s).value)
    ensures MatchUrl(s).Some? ==> forall e: nat :: IsUrl(s, e) ==> e <= MatchUrl(s).value
    ensures MatchUrl(s).None? <==> forall e :: !IsUrl(s, e)
  {
    var https, http := At(s, 0, "https://"), At(s, 0, "http://");
    if https {
      assert s[4] == s[..8][4] == 's';
    }
    if https || http {
      var scheme := if https then "https://" else "http://";
      var e := RunEnd(s, |scheme|);
      forall e': nat | IsUrl(s, e') ensures |scheme| < e' <= e {
        assert UrlWith(s, scheme, e');
      }
      if e != |scheme| {
        assert IsUrl(s, e);
      }
    }
  }

  /** The replacement text of one url. */
  function Img(url: string): string {
    "<img src=\"" + url + "\" alt=\"Image\" />"
  }

  /** `format_answer`: the url rewrite of `s`. */
  function FormatAnswer(s: string): string
    decreases |s|
  {
    if s == [] then []
    else match MatchUrl(s)
      case Some(e) => Img(s[..e]) + FormatAnswer(s[e..])
      case None => [s[0]] + FormatAnswer(s[1..])
  }

  /** Text holding neither `http://` nor `https://` comes through `format_answer`
      unchanged. */
  lemma {:induction false} FormatAnswerKeepsPlainText(s: string)
    requires forall m :: 0 <= m <= |s| ==> !At(s, m, "http://") && !At(s, m, "https://")
    ensures FormatAnswer(s) == s
    decreases |s|
  {
    if s != [] {
      assert MatchUrl(s) == None;
      var t := s[1..];
      assert forall m :: 0 <= m <= |t| ==> At(t, m, "http://") ==> At(s, m + 1, "http://");
      assert forall m :: 0 <= m <= |t| ==> At(t, m, "https://") ==> At(s, m + 1, "https://");
      FormatAnswerKeepsPlainText(t);
    }
  }
}
