/** The list bookkeeping of the converter loops. Each line of an answer becomes
    one fragment; a flag `in_list` puts `<ul>` before the first item of every run
    of list items and `</ul>` after its last. This module holds the fragments,
    the flag machine, and what the machine guarantees about where the brackets
    go. */
module Lists {
  import opened Text

  /** One entry of the list of processed lines. */
  datatype Fragment =
    | Open                              // `<ul>`
    | Close                             // `</ul>`
    | Heading(level: nat, text: string) // `<hN>text</hN>`
    | Item(text: string)                // an indented `<li>text</li>`
    | Line(text: string)                // a line kept as it stands

  predicate IsBracket(f: Fragment) {
    f.Open? || f.Close?
  }

  predicate NoBrackets(xs: seq<Fragment>) {
    forall k :: 0 <= k < |xs| ==> !IsBracket(xs[k])
  }

  /** `xs` ends with a list item. */
  predicate Trail(xs: seq<Fragment>) {
    xs != [] && xs[|xs| - 1].Item?
  }

  // ---------------------------------------------------------------------------
  // The machine

  /** What one pass of the loop body appends for a line that became `f`, and the
      new value of `in_list`. */
  function Step(inList: bool, f: Fragment): (seq<Fragment>, bool) {
    if f.Item? then ((if inList then [] else [Open]) + [f], true)
    else ((if inList then [Close] else []) + [f], false)
  }

  /** The processed lines and `in_list` after the loop body has run for lines
      that became the fragments `xs`. */
  function Machine(xs: seq<Fragment>): (seq<Fragment>, bool)
    decreases |xs|
  {
    if xs == [] then ([], false)
    else
      var (fs, inList) := Machine(xs[..|xs| - 1]);
      var (gs, inList') := Step(inList, xs[|xs| - 1]);
      (fs + gs, inList')
  }

  /** The processed lines once a list still open at the end has been closed. */
  function CloseOff(xs: seq<Fragment>): seq<Fragment> {
    var (fs, inList) := Machine(xs);
    fs + (if inList then [Close] else [])
  }

  lemma MachineSnoc(xs: seq<Fragment>, x: Fragment)
    ensures Machine(xs + [x]) ==
      (Machine(xs).0 + Step(Machine(xs).1, x).0, Step(Machine(xs).1, x).1)
  {
    assert (xs + [x])[..|xs|] == xs;
  }

  // ---------------------------------------------------------------------------
  // What a well placed bracketing is

  /** The list state after `fs`, read from state `open`, or None when a fragment
      comes in the wrong state: a `<ul>` inside a list, a `</ul>` or an item
      outside one, a heading or a line inside one. */
  function Nest(fs: seq<Fragment>, open: bool): Option<bool>
    decreases |fs|
  {
    if fs == [] then Some(open)
    else match fs[0]
      case Open => if open then None else Nest(fs[1..], true)
      case Close => if open then Nest(fs[1..], false) else None
      case Item(_) => if open then Nest(fs[1..], true) else None
      case _ => if open then None else Nest(fs[1..], false)
  }

  function Count(fs: seq<Fragment>, f: Fragment): nat
    decreases |fs|
  {
    if fs == [] then 0 else (if fs[0] == f then 1 else 0) + Count(fs[1..], f)
  }

  /** The fragments other than brackets. */
  function Unbracket(fs: seq<Fragment>): seq<Fragment>
    decreases |fs|
  {
    if fs == [] then [] else (if IsBracket(fs[0]) then [] else [fs[0]]) + Unbracket(fs[1..])
  }

  /** Every `<ul>` is followed by a list item: no list is empty. */
  predicate OpensLead(r: seq<Fragment>) {
    forall k :: 0 <= k < |r| - 1 && r[k] == Open ==> r[k + 1].Item?
  }

  /** No `</ul>` is followed by a `<ul>`: no two lists touch. */
  predicate ClosesApart(r: seq<Fragment>) {
    forall k :: 0 <= k < |r| - 1 && r[k] == Close ==> r[k + 1] != Open
  }

  /** `r` places brackets around the fragments `xs`: taking the brackets out
      gives `xs` back, read from outside a list it is well nested and ends
      outside one, and no list is empty, touches another or is left open. */
  predicate Bracketing(xs: seq<Fragment>, r: seq<Fragment>) {
    && Unbracket(r) == xs
    && Nest(r, false) == Some(false)
    && OpensLead(r)
    && ClosesApart(r)
  }

  lemma {:induction false} NestAppend(a: seq<Fragment>, b: seq<Fragment>, open: bool)
    ensures Nest(a + b, open) == match Nest(a, open) case None => None case Some(o) => Nest(b, o)
    decreases |a|
  {
    if a != [] {
      assert (a + b)[1..] == a[1..] + b;
      NestAppend(a[1..], b, a[0].Open? || a[0].Item?);
    } else {
      assert a + b == b;
    }
  }

  lemma {:induction false} UnbracketAppend(a: seq<Fragment>, b: seq<Fragment>)
    ensures Unbracket(a + b) == Unbracket(a) + Unbracket(b)
    decreases |a|
  {
    if a != [] {
      assert (a + b)[1..] == a[1..] + b;
      UnbracketAppend(a[1..], b);
    } else {
      assert a + b == b;
    }
  }

  /** Read from state `open` to state `open'`, a well nested sequence holds as
      many `<ul>` as `</ul>`, give or take the list open at either end. */
  lemma {:induction false} NestCounts(fs: seq<Fragment>, open: bool)
    requires Nest(fs, open).Some?
    ensures Count(fs, Open) + (if open then 1 else 0) ==
            Count(fs, Close) + (if Nest(fs, open).value then 1 else 0)
    decreases |fs|
  {
    if fs != [] {
      NestCounts(fs[1..], fs[0].Open? || fs[0].Item?);
    }
  }

  lemma OpensLeadAppend(a: seq<Fragment>, b: seq<Fragment>)
    requires OpensLead(a) && OpensLead(b)
    requires a != [] && b != [] && a[|a| - 1] == Open ==> b[0].Item?
    ensures OpensLead(a + b)
  {
    var r := a + b;
    forall k | 0 <= k < |r| - 1 && r[k] == Open ensures r[k + 1].Item? {
      if k >= |a| {
        assert r[k] == b[k - |a|] && r[k + 1] == b[k + 1 - |a|];
      }
    }
  }

  lemma ClosesApartAppend(a: seq<Fragment>, b: seq<Fragment>)
    requires ClosesApart(a) && ClosesApart(b)
    requires a != [] && b != [] && a[|a| - 1] == Close ==> b[0] != Open
    ensures ClosesApart(a + b)
  {
    var r := a + b;
    forall k | 0 <= k < |r| - 1 && r[k] == Close ensures r[k + 1] != Open {
      if k >= |a| {
        assert r[k] == b[k - |a|] && r[k + 1] == b[k + 1 - |a|];
      }
    }
  }

  // ---------------------------------------------------------------------------
  // What the machine keeps at every step

  lemma NoBracketsPrefix(xs: seq<Fragment>, i: nat)
    requires i <= |xs| && NoBrackets(xs)
    ensures NoBrackets(xs[..i])
  {
    assert forall k :: 0 <= k < i ==> xs[..i][k] == xs[k];
  }

  lemma NoBracketsInit(xs: seq<Fragment>)
    requires xs != [] && NoBrackets(xs)
    ensures NoBrackets(xs[..|xs| - 1]) && !IsBracket(xs[|xs| - 1])
  {
    assert forall k :: 0 <= k < |xs| - 1 ==> xs[..|xs| - 1][k] == xs[k];
  }

  /** One pass of the loop body moves from the list state `in_list` to the new
      one, and adds exactly the line's fragment besides the brackets. */
  lemma StepNests(inList: bool, x: Fragment)
    requires !IsBracket(x)
    ensures Nest(Step(inList, x).0, inList) == Some(Step(inList, x).1)
    ensures Unbracket(Step(inList, x).0) == [x]
  {
    var gs := Step(inList, x).0;
    assert Nest([x], x.Item?) == Some(x.Item?) by { assert [x][1..] == []; }
    assert Unbracket([x]) == [x] by { assert [x][1..] == []; }
    if |gs| == 2 {
      assert gs[1..] == [x];
    }
  }

  /** `in_list` says whether the last line was a list item, and the processed
      lines end with the last line's own fragment. */
  lemma MachineTrail(xs: seq<Fragment>)
    ensures Machine(xs).1 == Trail(xs)
    ensures xs != [] ==> var fs := Machine(xs).0; fs != [] && fs[|fs| - 1] == xs[|xs| - 1]
  {
  }

  /** `in_list` is true exactly when one `<ul>` is open: the processed lines are
      well nested and end inside a list exactly when `in_list` is set. */
  lemma {:induction false} MachineNests(xs: seq<Fragment>)
    requires NoBrackets(xs)
    ensures Nest(Machine(xs).0, false) == Some(Machine(xs).1)
    decreases |xs|
  {
    if xs != [] {
      var init, x := xs[..|xs| - 1], xs[|xs| - 1];
      NoBracketsInit(xs);
      MachineNests(init);
      var (fs, inList) := Machine(init);
      NestAppend(fs, Step(inList, x).0, false);
      StepNests(inList, x);
    }
  }

  /** The processed lines hold the lines' fragments, in order, and nothing else
      but brackets. */
  lemma {:induction false} MachineKeeps(xs: seq<Fragment>)
    requires NoBrackets(xs)
    ensures Unbracket(Machine(xs).0) == xs
    decreases |xs|
  {
    if xs != [] {
      var init, x := xs[..|xs| - 1], xs[|xs| - 1];
      NoBracketsInit(xs);
      MachineKeeps(init);
      var (fs, inList) := Machine(init);
      UnbracketAppend(fs, Step(inList, x).0);
      StepNests(inList, x);
      assert xs == init + [x];
    }
  }

  /** In the processed lines no list is empty and no two lists touch. */
  lemma {:induction false} MachineRuns(xs: seq<Fragment>)
    requires NoBrackets(xs)
    ensures OpensLead(Machine(xs).0) && ClosesApart(Machine(xs).0)
    decreases |xs|
  {
    if xs != [] {
      var init, x := xs[..|xs| - 1], xs[|xs| - 1];
      NoBracketsInit(xs);
      MachineRuns(init);
      MachineTrail(init);
      var (fs, inList) := Machine(init);
      var gs := Step(inList, x).0;
      OpensLeadAppend(fs, gs);
      ClosesApartAppend(fs, gs);
    }
  }

  // ---------------------------------------------------------------------------
  // The finished bracketing

  /** The converted fragments place the brackets well: the lines' fragments come
      back when the brackets are taken out, the lists never nest, every item
      stands inside a list and every heading and line outside one, no list is
      empty or touches another, and there are as many `<ul>` as `</ul>`. */
  lemma CloseOffBrackets(xs: seq<Fragment>)
    requires NoBrackets(xs)
    ensures Bracketing(xs, CloseOff(xs))
    ensures Count(CloseOff(xs), Open) == Count(CloseOff(xs), Close)
  {
    var (fs, inList) := Machine(xs);
    var tail: seq<Fragment> := if inList then [Close] else [];
    MachineNests(xs);
    MachineKeeps(xs);
    MachineRuns(xs);
    MachineTrail(xs);
    NestAppend(fs, tail, false);
    UnbracketAppend(fs, tail);
    OpensLeadAppend(fs, tail);
    ClosesApartAppend(fs, tail);
    NestCounts(CloseOff(xs), false);
  }

  // ---------------------------------------------------------------------------
  // The machine's bracketing is the only one

  lemma PrefixRuns(r: seq<Fragment>)
    requires r != [] && OpensLead(r) && ClosesApart(r)
    ensures OpensLead(r[..|r| - 1]) && ClosesApart(r[..|r| - 1])
  {
    var p := r[..|r| - 1];
    assert forall k :: 0 <= k < |p| ==> p[k] == r[k];
  }

  /** Peeling the last fragment `y` off a bracketing `r`. */
  lemma PeelLast(r: seq<Fragment>)
    requires r != []
    ensures var p, y := r[..|r| - 1], r[|r| - 1];
      && r == p + [y]
      && Unbracket(r) == Unbracket(p) + (if IsBracket(y) then [] else [y])
      && Nest(r, false) == match Nest(p, false) case None => None case Some(o) => Nest([y], o)
  {
    var p, y := r[..|r| - 1], r[|r| - 1];
    assert r == p + [y];
    UnbracketAppend(p, [y]);
    NestAppend(p, [y], false);
    assert [y][1..] == [];
  }

  /** The conditions under which a bracketing `r` of `xs` is the machine's. */
  predicate Placed(xs: seq<Fragment>, r: seq<Fragment>) {
    && Unbracket(r) == xs && Nest(r, false).Some? && OpensLead(r) && ClosesApart(r)
    && (r != [] ==> r[|r| - 1] != Open)
  }

  /** Read from outside a list, a well nested `r` with no empty list, no
      touching lists and no `<ul>` at its very end is what the machine makes of
      the fragments it holds: its processed lines when `r` ends inside a list,
      and those lines with the final list closed when it ends outside one. */
  lemma {:induction false} MachineUnique(xs: seq<Fragment>, r: seq<Fragment>)
    requires Placed(xs, r)
    ensures Nest(r, false) == Some(true) ==> r == Machine(xs).0 && Machine(xs).1
    ensures Nest(r, false) == Some(false) ==> r == CloseOff(xs)
    decreases |r|, 1
  {
    if r == [] {
      assert xs == [];
    } else if r[|r| - 1].Close? {
      UniqueClose(xs, r);
    } else if r[|r| - 1].Item? {
      UniqueItem(xs, r);
    } else {
      UniqueOther(xs, r);
    }
  }

  lemma {:induction false} UniqueClose(xs: seq<Fragment>, r: seq<Fragment>)
    requires Placed(xs, r) && r != [] && r[|r| - 1].Close?
    ensures Nest(r, false) == Some(false) && r == CloseOff(xs)
    decreases |r|, 0
  {
    var p := r[..|r| - 1];
    PeelLast(r);
    PrefixRuns(r);
    assert Nest(p, false) == Some(true);
    assert p != [] ==> p[|p| - 1] != Open by {
      if p != [] { assert r[|r| - 2] == p[|p| - 1]; }
    }
    assert xs == Unbracket(p);
    MachineUnique(xs, p);
  }

  lemma {:induction false} UniqueItem(xs: seq<Fragment>, r: seq<Fragment>)
    requires Placed(xs, r) && r != [] && r[|r| - 1].Item?
    ensures Nest(r, false) == Some(true) && r == Machine(xs).0 && Machine(xs).1
    decreases |r|, 0
  {
    var p, y := r[..|r| - 1], r[|r| - 1];
    PeelLast(r);
    PrefixRuns(r);
    var ps := Unbracket(p);
    assert Nest(p, false) == Some(true);
    MachineSnoc(ps, y);
    assert xs == ps + [y];
    if p[|p| - 1] == Open {
      var q := p[..|p| - 1];
      PeelLast(p);
      PrefixRuns(p);
      assert Nest(q, false) == Some(false);
      assert q != [] ==> q[|q| - 1] != Close by {
        if q != [] { assert r[|r| - 3] == q[|q| - 1]; }
      }
      assert q != [] ==> q[|q| - 1] != Open by {
        if q != [] { PeelLast(q); }
      }
      MachineUnique(ps, q);
      MachineTrail(ps);
    } else {
      MachineUnique(ps, p);
    }
  }

  lemma {:induction false} UniqueOther(xs: seq<Fragment>, r: seq<Fragment>)
    requires Placed(xs, r) && r != [] && !IsBracket(r[|r| - 1]) && !r[|r| - 1].Item?
    ensures Nest(r, false) == Some(false) && r == CloseOff(xs)
    decreases |r|, 0
  {
    var p, y := r[..|r| - 1], r[|r| - 1];
    PeelLast(r);
    PrefixRuns(r);
    var ps := Unbracket(p);
    assert Nest(p, false) == Some(false);
    MachineSnoc(ps, y);
    assert xs == ps + [y];
    MachineUnique(ps, p);
  }

  /** The reference: the converted fragments are the one and only bracketing
      of the lines' fragments. */
  lemma BracketingUnique(xs: seq<Fragment>, r: seq<Fragment>)
    requires NoBrackets(xs)
    ensures Bracketing(xs, r) <==> r == CloseOff(xs)
  {
    CloseOffBrackets(xs);
    if Bracketing(xs, r) && r != [] {
      PeelLast(r);
      MachineUnique(xs, r);
    } else if Bracketing(xs, r) {
      MachineUnique(xs, r);
    }
  }
}
