/**
 * Patterns written down: every tree without a gap in its syntax has a text, and
 * the matcher reads that text as the tree. So what a pattern text finds is
 * stated by the tree it was written from.
 */
module RegexPrint {
  import opened Wrappers
  import opened RegexSyntax
  import opened RegexSearch
  import opened RegexComplete
  import opened RegexAtomic
  import opened RegexMatcher
  import opened GlobPrint
  import GlobSpec
  import RuntimeGlob

  // ----- writing a pattern -----

  /** Bytes that mean something in a pattern; as a literal they are written behind a backslash. */
  predicate Special(c: char) { c in {'.', '[', '\\', '(', ')', '|', '*', '+', '?'} }

  function PrintElem(e: Elem): (s: string) {
    match e
    case Star => ""
    case AnyOne => "."
    case Lit(c) => if Special(c) then ['\\', c] else [c]
    case Class(negated, ranges) => (if negated then "[^" else "[") + (PrintItems(ranges) + "]")
  }

  function PrintQuant(q: Quant): (s: string) {
    match q
    case Once => ""
    case Maybe => "?"
    case Any => "*"
    case Many => "+"
  }

  function Print(p: Pat): (s: string)
    decreases p
  {
    match p
    case End | Broken => ""
    case One(e, q, rest) => PrintElem(e) + (PrintQuant(q) + Print(rest))
    case Grp(alts, q, rest) => "(" + (Joined(alts) + (")" + (PrintQuant(q) + Print(rest))))
  }

  /** Alternatives with bars between them. */
  function Joined(alts: seq<Pat>): (s: string)
    decreases alts
  {
    if alts == [] then ""
    else if |alts| == 1 then Print(alts[0])
    else Print(alts[0]) + ("|" + Joined(alts[1..]))
  }

  // ----- which trees can be written -----

  /** Bytes the search for the end of a group reads as themselves. */
  predicate Inert(c: char) { c !in {'(', ')', '|', '\\'} }

  /**
   * A range cannot start with `]`, nor the first of a plain class with a sign of
   * negation; the search for the end of a group does not know classes.
   */
  predicate WritableElem(e: Elem, top: bool) {
    match e
    case Star => false
    case AnyOne => true
    case Lit(_) => true
    case Class(negated, ranges) =>
      && (forall i :: 0 <= i < |ranges| ==> ranges[i].0 != ']')
      && (!negated && ranges != [] ==> ranges[0].0 != '^' && ranges[0].0 != '!')
      && (!top ==> forall i :: 0 <= i < |ranges| ==> Inert(ranges[i].0) && Inert(ranges[i].1))
  }

  /** A group has an alternative, and a nested one no quantifier. */
  predicate Writable(p: Pat, top: bool)
    decreases p
  {
    match p
    case End => true
    case Broken => false
    case One(e, _, rest) => WritableElem(e, top) && Writable(rest, top)
    case Grp(alts, q, rest) =>
      && alts != [] && (forall a :: 0 <= a < |alts| ==> Writable(alts[a], false))
      && (top || q == Once) && Writable(rest, top)
  }

  // ----- reading one element -----

  predicate IsQuant(c: char) { c == '*' || c == '+' || c == '?' }

  lemma QuantReads(head: string, q: Quant, rest: string)
    requires rest == [] || !IsQuant(rest[0])
    ensures QuantAt(head + (PrintQuant(q) + rest), |head|) == q
    ensures q != Once ==> (head + (PrintQuant(q) + rest))[|head| + 1..] == rest
    ensures q == Once ==> (head + (PrintQuant(q) + rest))[|head|..] == rest
  {
    var pat := head + (PrintQuant(q) + rest);
    assert |head| < |pat| ==> pat[|head|] == (PrintQuant(q) + rest)[0];
    if q == Once { assert PrintQuant(q) + rest == rest; }
  }

  lemma ElemReads(e: Elem, top: bool, rest: string)
    requires WritableElem(e, top)
    ensures PrintElem(e) != [] && PrintElem(e)[0] != '(' && !IsQuant(PrintElem(e)[0])
    ensures ElemAt(PrintElem(e) + rest) == (|PrintElem(e)|, e)
  {
    if e.Class? { ClassReads(e, top, rest); }
  }

  lemma ClassReads(e: Elem, top: bool, rest: string)
    requires e.Class? && WritableElem(e, top)
    ensures ElemAt(PrintElem(e) + rest) == (|PrintElem(e)|, e)
  {
    var open, body := if e.negated then "[^" else "[", PrintItems(e.ranges) + "]";
    var pat := PrintElem(e) + rest;
    Regroup(open, body, rest);
    HereBetween(open, body, rest);
    ItemsRead(pat, |open|, e.ranges);
    ItemsHead(e.ranges);
    HereAt(pat, |open|, body, 0);
    ClassFromItems(pat, e, |open| + |body| - 1);
  }

  /** Other spellings of the same elements: `!` negates like `^`, and any byte may be escaped. */
  lemma OtherSpellings(ranges: seq<(char, char)>, c: char, rest: string)
    requires forall i :: 0 <= i < |ranges| ==> ranges[i].0 != ']'
    ensures ElemAt("[!" + ((PrintItems(ranges) + "]") + rest)) ==
            (3 + |PrintItems(ranges)|, GlobSpec.Class(true, ranges))
    ensures ElemAt(['\\', c] + rest) == (2, GlobSpec.Lit(c))
  {
    var body := PrintItems(ranges) + "]";
    var pat := "[!" + (body + rest);
    HereBetween("[!", body, rest);
    ItemsRead(pat, 2, ranges);
    ClassFromItems(pat, GlobSpec.Class(true, ranges), 1 + |body|);
  }

  lemma ClassFromItems(pat: string, e: Elem, end: nat)
    requires e.Class? && |pat| > 1 && pat[0] == '[' && end < |pat|
    requires e.negated <==> pat[1] == '^' || pat[1] == '!'
    requires RuntimeGlob.Items(pat, if e.negated then 2 else 1, false) == (end, e.ranges)
    ensures ElemAt(pat) == (end + 1, e)
  {
  }

  /** A written pattern never starts with a quantifier. */
  lemma PrintedHead(p: Pat, top: bool)
    requires Writable(p, top)
    ensures Print(p) == [] || !IsQuant(Print(p)[0])
  {
    if p.One? { ElemReads(p.elem, top, []); }
  }

  // ----- the end of a group -----

  /** The search for the end of a group passes over `s`. */
  ghost predicate Skips(s: string) {
    forall pat: string, i: nat, d: nat ::
      Here(pat, i, s) && d >= 1 ==> CloseParen(pat, i, d) == CloseParen(pat, i + |s|, d)
  }

  lemma SkipsNothing()
    ensures Skips("")
  {
  }

  lemma SkipsBoth(a: string, b: string)
    requires Skips(a) && Skips(b)
    ensures Skips(a + b)
  {
    forall pat: string, i: nat, d: nat | Here(pat, i, a + b) && d >= 1
      ensures CloseParen(pat, i, d) == CloseParen(pat, i + |a + b|, d)
    {
      HereSplits(pat, i, a, b);
      assert CloseParen(pat, i + |a|, d) == CloseParen(pat, i + |a| + |b|, d);
    }
  }

  lemma SkipsByte(c: char)
    requires c !in {'(', ')', '\\'}
    ensures Skips([c])
  {
    forall pat: string, i: nat, d: nat | Here(pat, i, [c]) && d >= 1
      ensures CloseParen(pat, i, d) == CloseParen(pat, i + 1, d)
    {
      HereAt(pat, i, [c], 0);
    }
  }

  lemma SkipsEscape(c: char)
    ensures Skips(['\\', c])
  {
    forall pat: string, i: nat, d: nat | Here(pat, i, ['\\', c]) && d >= 1
      ensures CloseParen(pat, i, d) == CloseParen(pat, i + 2, d)
    {
      HereAt(pat, i, ['\\', c], 0);
    }
  }

  lemma SkipsGroup(body: string)
    requires Skips(body)
    ensures Skips("(" + (body + ")"))
  {
    forall pat: string, i: nat, d: nat | Here(pat, i, "(" + (body + ")")) && d >= 1
      ensures CloseParen(pat, i, d) == CloseParen(pat, i + |body| + 2, d)
    {
      Parenthesised(pat, i, body);
      assert CloseParen(pat, i + 1, d + 1) == CloseParen(pat, i + 1 + |body|, d + 1);
      ParenSteps(pat, i, i + 1 + |body|, d);
    }
  }

  lemma ParenSteps(pat: string, open: nat, close: nat, d: nat)
    requires open < |pat| && pat[open] == '(' && close < |pat| && pat[close] == ')' && d >= 1
    ensures CloseParen(pat, open, d) == CloseParen(pat, open + 1, d + 1)
    ensures CloseParen(pat, close, d + 1) == CloseParen(pat, close + 1, d)
  {
  }

  lemma Parenthesised(pat: string, i: nat, body: string)
    requires Here(pat, i, "(" + (body + ")"))
    ensures pat[i] == '(' && Here(pat, i + 1, body) && i + 1 + |body| < |pat| && pat[i + 1 + |body|] == ')'
  {
    HereSplits(pat, i, "(", body + ")");
    HereSplits(pat, i + 1, body, ")");
    HereAt(pat, i, "(", 0);
    HereAt(pat, i + 1 + |body|, ")", 0);
  }

  lemma {:induction false} SkipsInert(s: string)
    requires forall k :: 0 <= k < |s| ==> Inert(s[k])
    ensures Skips(s)
    decreases |s|
  {
    if s == [] {
      SkipsNothing();
    } else {
      SkipsByte(s[0]);
      SkipsInert(s[1..]);
      SkipsBoth([s[0]], s[1..]);
      assert s == [s[0]] + s[1..];
    }
  }

  lemma {:induction false} ItemsAreInert(ranges: seq<(char, char)>)
    requires forall i :: 0 <= i < |ranges| ==> Inert(ranges[i].0) && Inert(ranges[i].1)
    ensures forall k :: 0 <= k < |PrintItems(ranges)| ==> Inert(PrintItems(ranges)[k])
    decreases |ranges|
  {
    if ranges != [] { ItemsAreInert(ranges[1..]); }
  }

  /** Inside a group, an element and its quantifier are inert, but for one escaped byte. */
  lemma ElemIsInert(e: Elem, q: Quant)
    requires WritableElem(e, false)
    ensures (forall k :: 0 <= k < |PrintQuant(q)| ==> Inert(PrintQuant(q)[k]))
    ensures e.Lit? && Special(e.c) ==> PrintElem(e) == ['\\', e.c]
    ensures !(e.Lit? && Special(e.c)) ==> forall k :: 0 <= k < |PrintElem(e)| ==> Inert(PrintElem(e)[k])
  {
    if e.Class? { ItemsAreInert(e.ranges); }
  }

  lemma SkipsElem(e: Elem, q: Quant)
    requires WritableElem(e, false)
    ensures Skips(PrintElem(e)) && Skips(PrintQuant(q))
  {
    ElemIsInert(e, q);
    if e.Lit? && Special(e.c) { SkipsEscape(e.c); } else { SkipsInert(PrintElem(e)); }
    SkipsInert(PrintQuant(q));
  }

  lemma {:induction false} SkipsPattern(p: Pat)
    requires Writable(p, false)
    ensures Skips(Print(p))
    decreases p, 0
  {
    match p
    case End =>
      SkipsNothing();
    case One(e, q, rest) =>
      SkipsElem(e, q);
      SkipsPattern(rest);
      SkipsBoth(PrintQuant(q), Print(rest));
      SkipsBoth(PrintElem(e), PrintQuant(q) + Print(rest));
    case Grp(alts, _, rest) =>
      SkipsJoined(alts);
      SkipsPattern(rest);
      SkipsGroup(Joined(alts));
      SkipsBoth("(" + (Joined(alts) + ")"), Print(rest));
      GroupText(p);
  }

  /** A group without a quantifier, as its parentheses and the rest. */
  lemma GroupText(p: Pat)
    requires p.Grp? && p.quant == Once
    ensures Print(p) == ("(" + (Joined(p.alts) + ")")) + Print(p.rest)
  {
    var body, rest := Joined(p.alts), Print(p.rest);
    assert PrintQuant(Once) + rest == rest;
    calc {
      Print(p);
      "(" + (body + (")" + rest));
      { Regroup(body, ")", rest); }
      "(" + ((body + ")") + rest);
      { Regroup("(", body + ")", rest); }
      ("(" + (body + ")")) + rest;
    }
  }

  lemma {:induction false} SkipsJoined(alts: seq<Pat>)
    requires forall a :: 0 <= a < |alts| ==> Writable(alts[a], false)
    ensures Skips(Joined(alts))
    decreases alts, 1
  {
    if alts == [] {
      SkipsNothing();
    } else if |alts| == 1 {
      SkipsPattern(alts[0]);
    } else {
      SkipsPattern(alts[0]);
      SkipsByte('|');
      SkipsJoined(alts[1..]);
      SkipsBoth("|", Joined(alts[1..]));
      SkipsBoth(Print(alts[0]), "|" + Joined(alts[1..]));
    }
  }

  // ----- the alternatives of a group -----

  /** From depth `least` on, the split of a group body takes `s` into the current alternative. */
  ghost predicate Gathers(s: string, least: nat) {
    forall pat: string, i: nat, d: nat, current: string ::
      Here(pat, i, s) && d >= least ==>
        Alternatives(pat, i, d, current) == Alternatives(pat, i + |s|, d, current + s)
  }

  lemma GathersNothing(least: nat)
    ensures Gathers("", least)
  {
    forall pat: string, i: nat, d: nat, current: string | Here(pat, i, "") && d >= least
      ensures Alternatives(pat, i, d, current) == Alternatives(pat, i + 0, d, current + "")
    {
      assert current + "" == current;
    }
  }

  lemma GathersBoth(a: string, b: string, least: nat)
    requires Gathers(a, least) && Gathers(b, least)
    ensures Gathers(a + b, least)
  {
    forall pat: string, i: nat, d: nat, current: string | Here(pat, i, a + b) && d >= least
      ensures Alternatives(pat, i, d, current) == Alternatives(pat, i + |a + b|, d, current + (a + b))
    {
      HereSplits(pat, i, a, b);
      Regroup(current, a, b);
      assert Alternatives(pat, i + |a|, d, current + a) == Alternatives(pat, i + |a| + |b|, d, current + a + b);
    }
  }

  /** A bar stays inside an alternative only in a nested group. */
  lemma GathersByte(c: char, least: nat)
    requires c !in {'(', ')', '\\'} && (c == '|' ==> least > 0)
    ensures Gathers([c], least)
  {
    forall pat: string, i: nat, d: nat, current: string | Here(pat, i, [c]) && d >= least
      ensures Alternatives(pat, i, d, current) == Alternatives(pat, i + 1, d, current + [c])
    {
      HereAt(pat, i, [c], 0);
    }
  }

  lemma GathersEscape(c: char, least: nat)
    ensures Gathers(['\\', c], least)
  {
    forall pat: string, i: nat, d: nat, current: string | Here(pat, i, ['\\', c]) && d >= least
      ensures Alternatives(pat, i, d, current) == Alternatives(pat, i + 2, d, current + ['\\', c])
    {
      HereAt(pat, i, ['\\', c], 0);
      HereAt(pat, i, ['\\', c], 1);
    }
  }

  lemma GathersGroup(body: string, least: nat)
    requires Gathers(body, least + 1)
    ensures Gathers("(" + (body + ")"), least)
  {
    forall pat: string, i: nat, d: nat, current: string | Here(pat, i, "(" + (body + ")")) && d >= least
      ensures Alternatives(pat, i, d, current) ==
              Alternatives(pat, i + |body| + 2, d, current + ("(" + (body + ")")))
    {
      Parenthesised(pat, i, body);
      var inner := current + "(";
      assert Alternatives(pat, i + 1, d + 1, inner) == Alternatives(pat, i + 1 + |body|, d + 1, inner + body);
      GroupSteps(pat, i, i + 1 + |body|, d, current, inner + body);
      Regroup(inner, body, ")");
      Regroup(current, "(", body + ")");
    }
  }

  lemma GroupSteps(pat: string, open: nat, close: nat, d: nat, before: string, inside: string)
    requires open < |pat| && pat[open] == '(' && close < |pat| && pat[close] == ')'
    ensures Alternatives(pat, open, d, before) == Alternatives(pat, open + 1, d + 1, before + "(")
    ensures Alternatives(pat, close, d + 1, inside) == Alternatives(pat, close + 1, d, inside + ")")
  {
  }

  lemma {:induction false} GathersInert(s: string, least: nat)
    requires forall k :: 0 <= k < |s| ==> Inert(s[k])
    ensures Gathers(s, least)
    decreases |s|
  {
    if s == [] {
      GathersNothing(least);
    } else {
      GathersByte(s[0], least);
      GathersInert(s[1..], least);
      GathersBoth([s[0]], s[1..], least);
      assert s == [s[0]] + s[1..];
    }
  }

  lemma GathersElem(e: Elem, q: Quant, least: nat)
    requires WritableElem(e, false)
    ensures Gathers(PrintElem(e), least) && Gathers(PrintQuant(q), least)
  {
    ElemIsInert(e, q);
    if e.Lit? && Special(e.c) { GathersEscape(e.c, least); } else { GathersInert(PrintElem(e), least); }
    GathersInert(PrintQuant(q), least);
  }

  lemma {:induction false} GathersPattern(p: Pat, least: nat)
    requires Writable(p, false)
    ensures Gathers(Print(p), least)
    decreases p, 0
  {
    match p
    case End =>
      GathersNothing(least);
    case One(e, q, rest) =>
      GathersElem(e, q, least);
      GathersPattern(rest, least);
      GathersBoth(PrintQuant(q), Print(rest), least);
      GathersBoth(PrintElem(e), PrintQuant(q) + Print(rest), least);
    case Grp(alts, _, rest) =>
      GathersJoined(alts, least + 1);
      GathersPattern(rest, least);
      GathersGroup(Joined(alts), least);
      GathersBoth("(" + (Joined(alts) + ")"), Print(rest), least);
      GroupText(p);
  }

  lemma {:induction false} GathersJoined(alts: seq<Pat>, least: nat)
    requires least > 0 && forall a :: 0 <= a < |alts| ==> Writable(alts[a], false)
    ensures Gathers(Joined(alts), least)
    decreases alts, 1
  {
    if alts == [] {
      GathersNothing(least);
    } else if |alts| == 1 {
      GathersPattern(alts[0], least);
    } else {
      GathersPattern(alts[0], least);
      GathersByte('|', least);
      GathersJoined(alts[1..], least);
      GathersBoth("|", Joined(alts[1..]), least);
      GathersBoth(Print(alts[0]), "|" + Joined(alts[1..]), least);
    }
  }

  function PrintAll(alts: seq<Pat>): (r: seq<string>)
    ensures |r| == |alts|
  {
    seq(|alts|, k requires 0 <= k < |alts| => Print(alts[k]))
  }

  /** At the end of the body the last alternative is complete, at a bar the current one. */
  lemma SplitSteps(pat: string, i: nat, first: string)
    requires Here(pat, i, first) && Gathers(first, 0)
    ensures i + |first| == |pat| ==> Alternatives(pat, i, 0, "") == [first]
    ensures i + |first| < |pat| && pat[i + |first|] == '|' ==>
              Alternatives(pat, i, 0, "") == [first] + Alternatives(pat, i + |first| + 1, 0, "")
  {
    assert "" + first == first;
    assert Alternatives(pat, i, 0, "") == Alternatives(pat, i + |first|, 0, "" + first);
  }

  function Bars(texts: seq<string>): (s: string) {
    if texts == [] then "" else if |texts| == 1 then texts[0] else texts[0] + ("|" + Bars(texts[1..]))
  }

  ghost predicate AllGather(texts: seq<string>) { forall k :: 0 <= k < |texts| ==> Gathers(texts[k], 0) }

  lemma GatherTail(texts: seq<string>)
    requires texts != [] && AllGather(texts)
    ensures AllGather(texts[1..])
  {
  }

  lemma LastText(pat: string, i: nat, text: string)
    requires AllGather([text]) && Here(pat, i, text) && i + |text| == |pat|
    ensures Alternatives(pat, i, 0, "") == [text]
  {
    assert [text][0] == text;
    SplitSteps(pat, i, text);
  }

  lemma BarStep(pat: string, i: nat, texts: seq<string>)
    requires |texts| > 1 && AllGather(texts) && Here(pat, i, Bars(texts))
    ensures var next := i + |texts[0]| + 1;
            && next <= |pat| && Here(pat, next, Bars(texts[1..]))
            && |Bars(texts)| == |texts[0]| + 1 + |Bars(texts[1..])|
            && Alternatives(pat, i, 0, "") == [texts[0]] + Alternatives(pat, next, 0, "")
  {
    BarHere(pat, i, texts[0], Bars(texts[1..]));
    SplitSteps(pat, i, texts[0]);
  }

  lemma {:induction false} BarsSplit(pat: string, i: nat, texts: seq<string>)
    requires texts != [] && AllGather(texts) && Here(pat, i, Bars(texts)) && i + |Bars(texts)| == |pat|
    ensures Alternatives(pat, i, 0, "") == texts
    decreases |texts|
  {
    if |texts| == 1 {
      assert texts == [texts[0]];
      LastText(pat, i, texts[0]);
    } else {
      GatherTail(texts);
      BarStep(pat, i, texts);
      BarsSplit(pat, i + |texts[0]| + 1, texts[1..]);
      assert texts == [texts[0]] + texts[1..];
    }
  }

  lemma {:induction false} JoinedIsBars(alts: seq<Pat>)
    ensures Joined(alts) == Bars(PrintAll(alts))
    decreases |alts|
  {
    if |alts| > 1 {
      JoinedIsBars(alts[1..]);
      AllCons(alts);
    }
  }

  lemma AllCons(alts: seq<Pat>)
    requires alts != []
    ensures PrintAll(alts)[0] == Print(alts[0]) && PrintAll(alts)[1..] == PrintAll(alts[1..])
  {
  }

  lemma BarHere(pat: string, i: nat, first: string, more: string)
    requires Here(pat, i, first + ("|" + more))
    ensures var bar := i + |first|;
            Here(pat, i, first) && bar < |pat| && pat[bar] == '|' && Here(pat, bar + 1, more)
  {
    HereSplits(pat, i, first, "|" + more);
    HereSplits(pat, i + |first|, "|", more);
    HereAt(pat, i + |first|, "|", 0);
  }

  lemma GroupShape(body: string, rest: string)
    ensures var pat := "(" + (body + (")" + rest));
            && Here(pat, 1, body) && 1 + |body| < |pat| && pat[1 + |body|] == ')' && pat[0] == '('
            && pat[1..1 + |body|] == body
  {
    HereBetween("(", body, ")" + rest);
  }

  lemma GroupCloses(pat: string, body: string)
    requires Skips(body) && Here(pat, 1, body) && 1 + |body| < |pat| && pat[1 + |body|] == ')'
    ensures CloseParen(pat, 1, 1) == Some(1 + |body|)
  {
    assert CloseParen(pat, 1 + |body|, 1) == Some(1 + |body|);
  }

  lemma GroupFrom(pat: string, close: nat, texts: seq<string>)
    requires pat != [] && CloseParen(pat, 1, 1) == Some(close) && Alternatives(pat[1..close], 0, 0, "") == texts
    ensures GroupAt(pat) == Some(Group(texts, close))
  {
  }

  lemma GroupOfBody(body: string, rest: string, texts: seq<string>)
    requires Skips(body) && Alternatives(body, 0, 0, "") == texts
    ensures GroupAt("(" + (body + (")" + rest))) == Some(Group(texts, 1 + |body|))
  {
    var pat := "(" + (body + (")" + rest));
    GroupShape(body, rest);
    GroupCloses(pat, body);
    GroupFrom(pat, 1 + |body|, texts);
  }

  lemma GroupReads(alts: seq<Pat>, rest: string)
    requires alts != [] && forall a :: 0 <= a < |alts| ==> Writable(alts[a], false)
    ensures GroupAt("(" + (Joined(alts) + (")" + rest))) == Some(Group(PrintAll(alts), 1 + |Joined(alts)|))
  {
    SkipsJoined(alts);
    BodySplits(alts);
    GroupOfBody(Joined(alts), rest, PrintAll(alts));
  }

  lemma BodySplits(alts: seq<Pat>)
    requires alts != [] && forall a :: 0 <= a < |alts| ==> Writable(alts[a], false)
    ensures Alternatives(Joined(alts), 0, 0, "") == PrintAll(alts)
  {
    var texts := PrintAll(alts);
    forall k | 0 <= k < |texts| ensures Gathers(texts[k], 0) { GathersPattern(alts[k], 0); }
    JoinedIsBars(alts);
    assert Here(Bars(texts), 0, Bars(texts));
    BarsSplit(Bars(texts), 0, texts);
  }

  // ----- the matcher reads what was written -----

  /** For every writable tree, its text reads as the tree. */
  lemma {:induction false} ReadInvertsPrint(p: Pat, top: bool)
    requires Writable(p, top)
    ensures Read(Print(p), top) == p
    decreases p
  {
    match p
    case End =>
    case One(e, q, rest) =>
      PrintedHead(rest, top);
      ElemReads(e, top, PrintQuant(q) + Print(rest));
      QuantReads(PrintElem(e), q, Print(rest));
      ReadInvertsPrint(rest, top);
      ElemOfText(p, top);
    case Grp(alts, q, rest) =>
      forall a | 0 <= a < |alts| ensures Read(Print(alts[a]), false) == alts[a] { ReadInvertsPrint(alts[a], false); }
      ReadInvertsPrint(rest, top);
      GroupOfText(p, top);
  }

  lemma ElemOfText(p: Pat, top: bool)
    requires p.One? && Print(p) != [] && Print(p)[0] != '(' && ElemAt(Print(p)) == (|PrintElem(p.elem)|, p.elem)
    requires QuantAt(Print(p), |PrintElem(p.elem)|) == p.quant && AfterElem(Print(p)) == Print(p.rest)
    requires Read(Print(p.rest), top) == p.rest
    ensures Read(Print(p), top) == p
  {
    assert Read(Print(p), top) == ReadElem(Print(p), top);
  }

  lemma GroupOfText(p: Pat, top: bool)
    requires p.Grp? && Writable(p, top) && Read(Print(p.rest), top) == p.rest
    requires forall a :: 0 <= a < |p.alts| ==> Read(Print(p.alts[a]), false) == p.alts[a]
    ensures Read(Print(p), top) == p
  {
    var body, rest := Joined(p.alts), Print(p.rest);
    PrintedHead(p.rest, top);
    GroupReads(p.alts, PrintQuant(p.quant) + rest);
    GroupShape(body, PrintQuant(p.quant) + rest);
    AfterText(body, p.quant, rest);
    GroupIsRead(p, Print(p), Group(PrintAll(p.alts), 1 + |body|), top);
  }

  lemma AfterText(body: string, q: Quant, rest: string)
    requires rest == [] || !IsQuant(rest[0])
    ensures var pat := "(" + (body + (")" + (PrintQuant(q) + rest)));
            QuantAt(pat, |body| + 2) == q && |body| + 2 <= |pat| &&
            if q == Once then pat[|body| + 2..] == rest else |body| + 3 <= |pat| && pat[|body| + 3..] == rest
  {
    var tail := PrintQuant(q) + rest;
    Regroup(body, ")", tail);
    Regroup("(", body + ")", tail);
    QuantReads("(" + (body + ")"), q, rest);
  }

  lemma GroupIsRead(p: Pat, pat: string, g: Group, top: bool)
    requires p.Grp? && pat != [] && pat[0] == '(' && GroupAt(pat) == Some(g) && g.alts == PrintAll(p.alts)
    requires top || p.quant == Once
    requires GroupQuant(pat, g) == p.quant && AfterGroup(pat, g) == Print(p.rest)
    requires Read(Print(p.rest), top) == p.rest
    requires forall a :: 0 <= a < |p.alts| ==> Read(Print(p.alts[a]), false) == p.alts[a]
    ensures Read(pat, top) == p
  {
    AltsAreRead(p.alts);
    if top { ReadsGroup(pat, g); } else { ReadsNested(pat, g); }
  }

  lemma AltsAreRead(alts: seq<Pat>)
    requires forall a :: 0 <= a < |alts| ==> Read(Print(alts[a]), false) == alts[a]
    ensures ReadAll(PrintAll(alts)) == alts
  {
  }

  // ----- what a written pattern finds -----

  /** A reported match: the leftmost one found, the text of the whole and of each group. */
  ghost predicate Reports(p: Pat, text: string, anchoredEnd: bool, at: nat, r: seq<string>) {
    exists end: nat, caps: seq<Range> ::
      && at <= end <= |text| && Whole(p, text, at, end, caps) && (anchoredEnd ==> end == |text|)
      && (forall k :: 0 <= k < |caps| ==> caps[k].0 <= caps[k].1 <= |text|)
      && r == CaptureList(text, at, end, caps)
  }

  /** No match starts before `n`. */
  ghost predicate Unmatched(p: Pat, text: string, n: nat, anchoredEnd: bool) {
    forall s: nat :: s < n ==> !HasMatchAt(p, text, s, anchoredEnd)
  }

  /**
   * The search for a written pattern: what it reports is a match of the tree,
   * and where alternatives have fixed widths it finds the leftmost and misses none.
   */
  method FindWritten(text: string, p: Pat, anchoredStart: bool, anchoredEnd: bool) returns (r: Option<seq<string>>)
    requires Writable(p, true)
    ensures r.Some? ==>
              exists at: nat :: (anchoredStart ==> at == 0) && Reports(p, text, anchoredEnd, at, r.value) &&
                                (Searchable(p) ==> Unmatched(p, text, at, anchoredEnd))
    ensures Searchable(p) ==>
              (r.None? <==> Unmatched(p, text, if anchoredStart then 1 else |text| + 1, anchoredEnd))
  {
    r := FindFirstMatch(text, Print(p), anchoredStart, anchoredEnd);
    ReadInvertsPrint(p, true);
    FoundIsExact(p, text, anchoredStart, anchoredEnd, r);
  }

  lemma FoundIsExact(p: Pat, text: string, anchoredStart: bool, anchoredEnd: bool, r: Option<seq<string>>)
    requires r.None? <==> Nowhere(p, text, if anchoredStart then 0 else |text|, anchoredEnd)
    requires r.Some? ==> exists at: nat :: (anchoredStart ==> at == 0) && FirstMatch(text, p, anchoredEnd, at, r.value)
    ensures r.Some? ==>
              exists at: nat :: (anchoredStart ==> at == 0) && Reports(p, text, anchoredEnd, at, r.value) &&
                                (Searchable(p) ==> Unmatched(p, text, at, anchoredEnd))
    ensures Searchable(p) ==>
              (r.None? <==> Unmatched(p, text, if anchoredStart then 1 else |text| + 1, anchoredEnd))
  {
    if r.Some? {
      var at: nat :| (anchoredStart ==> at == 0) && FirstMatch(text, p, anchoredEnd, at, r.value);
      ReportsFirst(p, text, anchoredEnd, at, r.value);
      if Searchable(p) {
        NoneMatched(p, text, at, anchoredEnd);
        SearchIsExact(p, text, at, anchoredEnd);
      }
    } else if Searchable(p) {
      NoneMatched(p, text, if anchoredStart then 1 else |text| + 1, anchoredEnd);
    }
  }

  lemma NoneMatched(p: Pat, text: string, n: nat, anchoredEnd: bool)
    requires n <= |text| + 1 && Searchable(p)
    requires forall s: nat :: s < n ==> Match(text, s, p, anchoredEnd).None?
    ensures Unmatched(p, text, n, anchoredEnd)
  {
    forall s: nat | s < n ensures !HasMatchAt(p, text, s, anchoredEnd) { SearchIsExact(p, text, s, anchoredEnd); }
  }

  lemma ReportsFirst(p: Pat, text: string, anchoredEnd: bool, at: nat, r: seq<string>)
    requires FirstMatch(text, p, anchoredEnd, at, r)
    ensures Reports(p, text, anchoredEnd, at, r)
  {
    MatchSound(text, at, p, anchoredEnd);
    var (end, caps) := Match(text, at, p, anchoredEnd).value;
    assert Whole(p, text, at, end, caps);
  }
}
