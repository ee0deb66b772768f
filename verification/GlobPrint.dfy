/**
 * Globs written down: a list of elements has a text, and both matchers read that
 * text as the elements. So what a glob matches is stated by what it was written
 * from, for each byte that means something in a glob.
 */
module GlobPrint {
  import opened GlobSpec
  import E = ExpandGlob
  import R = RuntimeGlob
  import A = GlobAgreement

  // ----- the members of a class, in globs and in regular expressions -----

  /** A range is `lo-hi`; one byte stands for itself, unless a hyphen would follow. */
  function PrintItems(ranges: seq<(char, char)>): (s: string) {
    if ranges == [] then "" else ItemText(ranges) + PrintItems(ranges[1..])
  }

  /** The text from `i` on starts with `s`. */
  predicate Here(pat: string, i: nat, s: string) { i + |s| <= |pat| && pat[i..i + |s|] == s }

  lemma HereSplits(pat: string, i: nat, a: string, b: string)
    requires Here(pat, i, a + b)
    ensures Here(pat, i, a) && Here(pat, i + |a|, b)
  {
    var s := pat[i..i + |a + b|];
    assert s[..|a|] == a && s[|a|..] == b;
    assert pat[i..i + |a|] == s[..|a|] && pat[i + |a|..i + |a| + |b|] == s[|a|..];
  }

  lemma HereAt(pat: string, i: nat, s: string, k: nat)
    requires Here(pat, i, s) && k < |s|
    ensures pat[i + k] == s[k]
  {
    assert pat[i..i + |s|][k] == s[k];
  }

  lemma HereBetween(a: string, s: string, b: string)
    ensures Here(a + (s + b), |a|, s)
  {
    var pat := a + (s + b);
    assert pat[|a|..|a| + |s|] == s;
  }

  /** How the first range is written. */
  function ItemText(ranges: seq<(char, char)>): (s: string)
    requires ranges != []
  {
    var (lo, hi) := ranges[0];
    if lo == hi && (|ranges| == 1 || ranges[1].0 != '-') then [lo] else [lo, '-', hi]
  }

  lemma {:induction false} ItemsRead(pat: string, i: nat, ranges: seq<(char, char)>)
    requires Here(pat, i, PrintItems(ranges) + "]")
    requires forall k :: 0 <= k < |ranges| ==> ranges[k].0 != ']'
    ensures R.Items(pat, i, false) == (i + |PrintItems(ranges)|, ranges)
    decreases |ranges|
  {
    if ranges == [] {
      HereAt(pat, i, "]", 0);
    } else {
      ItemHere(pat, i, ranges);
      ItemsRead(pat, i + |ItemText(ranges)|, ranges[1..]);
      ItemStep(pat, i, ranges);
    }
  }

  lemma ItemStep(pat: string, i: nat, ranges: seq<(char, char)>)
    requires ranges != [] && ranges[0].0 != ']' && i + |ItemText(ranges)| < |pat|
    requires pat[i] == ranges[0].0
    requires if |ItemText(ranges)| == 1 then pat[i + 1] != '-' else pat[i + 1] == '-' && pat[i + 2] == ranges[0].1
    requires R.Items(pat, i + |ItemText(ranges)|, false) == (i + |PrintItems(ranges)|, ranges[1..])
    ensures R.Items(pat, i, false) == (i + |PrintItems(ranges)|, ranges)
  {
    assert ranges == [ranges[0]] + ranges[1..];
  }

  lemma ItemHere(pat: string, i: nat, ranges: seq<(char, char)>)
    requires ranges != [] && Here(pat, i, PrintItems(ranges) + "]")
    ensures var t := ItemText(ranges);
            && |PrintItems(ranges)| == |t| + |PrintItems(ranges[1..])| && i + |t| < |pat| && pat[i] == ranges[0].0
            && (if |t| == 1 then pat[i + 1] != '-' else pat[i + 1] == '-' && pat[i + 2] == ranges[0].1)
            && Here(pat, i + |t|, PrintItems(ranges[1..]) + "]")
  {
    var t, more := ItemText(ranges), PrintItems(ranges[1..]) + "]";
    Regroup(t, PrintItems(ranges[1..]), "]");
    HereSplits(pat, i, t, more);
    HereAt(pat, i, t, 0);
    if |t| == 1 {
      NextIsNoHyphen(ranges);
      HereAt(pat, i + 1, more, 0);
    } else {
      HereAt(pat, i, t, 1);
      HereAt(pat, i, t, 2);
    }
  }

  lemma NextIsNoHyphen(ranges: seq<(char, char)>)
    requires ranges != [] && (|ranges| == 1 || ranges[1].0 != '-')
    ensures (PrintItems(ranges[1..]) + "]")[0] != '-'
  {
  }

  lemma ItemsHead(ranges: seq<(char, char)>)
    ensures (PrintItems(ranges) + "]")[0] == if ranges == [] then ']' else ranges[0].0
  {
  }

  lemma Regroup(a: string, b: string, c: string)
    ensures a + b + c == a + (b + c)
  {
  }

  // ----- writing a glob -----

  /** Bytes that mean something in a glob; as a literal the runtime matcher wants them behind a backslash. */
  predicate Wild(c: char) { c in {'*', '?', '[', '\\'} }

  function ElemText(e: Elem): (s: string) {
    match e
    case Star => "*"
    case AnyOne => "?"
    case Lit(c) => if Wild(c) then ['\\', c] else [c]
    case Class(negated, ranges) => (if negated then "[!" else "[") + (PrintItems(ranges) + "]")
  }

  function Concat(ts: seq<string>): (s: string) { if ts == [] then "" else ts[0] + Concat(ts[1..]) }

  function Text(es: seq<Elem>): (s: string) { Concat(seq(|es|, k requires 0 <= k < |es| => ElemText(es[k]))) }

  /** A class has a member; none starts with `]`, nor the first of a plain class with a sign of negation. */
  predicate Proper(e: Elem) {
    e.Class? ==>
      && e.ranges != [] && (forall i :: 0 <= i < |e.ranges| ==> e.ranges[i].0 != ']')
      && (!e.negated ==> e.ranges[0].0 != '^' && e.ranges[0].0 != '!')
  }

  predicate AllProper(es: seq<Elem>) { forall k :: 0 <= k < |es| ==> Proper(es[k]) }

  lemma ClassHere(pat: string, i: nat, e: Elem)
    requires e.Class? && Proper(e) && Here(pat, i, ElemText(e))
    ensures var b := if e.negated then i + 2 else i + 1;
            && b < |pat| && pat[i] == '[' && pat[b] != ']' && Here(pat, b, PrintItems(e.ranges) + "]")
            && (e.negated <==> R.Negates(pat, i + 1))
  {
    var open, body := if e.negated then "[!" else "[", PrintItems(e.ranges) + "]";
    HereSplits(pat, i, open, body);
    HereAt(pat, i, open, 0);
    HereAt(pat, i + |open|, body, 0);
    ItemsHead(e.ranges);
    if e.negated { HereAt(pat, i, open, 1); }
  }

  lemma ClassReads(pat: string, i: nat, e: Elem)
    requires e.Class? && Proper(e) && Here(pat, i, ElemText(e))
    ensures R.ElemAt(pat, i) == (i + |ElemText(e)|, e)
  {
    var b := if e.negated then i + 2 else i + 1;
    ClassHere(pat, i, e);
    ItemsRead(pat, b, e.ranges);
    HereAt(pat, b, PrintItems(e.ranges) + "]", |PrintItems(e.ranges)|);
    assert R.Items(pat, b, true) == R.Items(pat, b, false);
  }

  lemma ElemReads(pat: string, i: nat, e: Elem)
    requires Proper(e) && Here(pat, i, ElemText(e))
    ensures ElemText(e) != [] && R.ElemAt(pat, i) == (i + |ElemText(e)|, e)
  {
    HereAt(pat, i, ElemText(e), 0);
    if e.Class? {
      ClassReads(pat, i, e);
    } else if |ElemText(e)| > 1 {
      HereAt(pat, i, ElemText(e), 1);
    }
  }

  /** Wherever `t` stands, the runtime matcher reads it as `e`. */
  ghost predicate Spells(t: string, e: Elem) {
    t != [] && forall pat: string, i: nat :: Here(pat, i, t) ==> R.ElemAt(pat, i) == (i + |t|, e)
  }

  ghost predicate AllSpell(ts: seq<string>, es: seq<Elem>) {
    |ts| == |es| && forall k :: 0 <= k < |ts| ==> Spells(ts[k], es[k])
  }

  lemma {:induction false} ConcatReads(pat: string, i: nat, ts: seq<string>, es: seq<Elem>)
    requires AllSpell(ts, es) && Here(pat, i, Concat(ts)) && i + |Concat(ts)| == |pat|
    ensures R.Parse(pat, i) == es
    decreases |ts|
  {
    if ts == [] {
      ParseEnd(pat);
    } else {
      ConcatHere(pat, i, ts);
      SpellTail(ts, es);
      ConcatReads(pat, i + |ts[0]|, ts[1..], es[1..]);
      ParseStep(pat, i, ts, es);
    }
  }

  lemma ParseEnd(pat: string)
    ensures R.Parse(pat, |pat|) == []
  {
  }

  lemma ConcatHere(pat: string, i: nat, ts: seq<string>)
    requires ts != [] && Here(pat, i, Concat(ts))
    ensures Here(pat, i, ts[0]) && Here(pat, i + |ts[0]|, Concat(ts[1..]))
    ensures |Concat(ts)| == |ts[0]| + |Concat(ts[1..])|
  {
    HereSplits(pat, i, ts[0], Concat(ts[1..]));
  }

  lemma SpellTail(ts: seq<string>, es: seq<Elem>)
    requires AllSpell(ts, es) && ts != []
    ensures AllSpell(ts[1..], es[1..])
  {
  }

  lemma ParseStep(pat: string, i: nat, ts: seq<string>, es: seq<Elem>)
    requires ts != [] && AllSpell(ts, es) && Here(pat, i, ts[0]) && R.Parse(pat, i + |ts[0]|) == es[1..]
    ensures R.Parse(pat, i) == es
  {
    assert R.ElemAt(pat, i) == (i + |ts[0]|, es[0]);
    assert es == [es[0]] + es[1..];
  }

  /** The runtime matcher reads the text of every proper list of elements as that list. */
  lemma RuntimeReadsText(es: seq<Elem>)
    requires AllProper(es)
    ensures R.Parse(Text(es), 0) == es
  {
    var ts := seq(|es|, k requires 0 <= k < |es| => ElemText(es[k]));
    forall k | 0 <= k < |ts| ensures Spells(ts[k], es[k]) { ElemSpells(es[k]); }
    assert Here(Concat(ts), 0, Concat(ts));
    ConcatReads(Concat(ts), 0, ts, es);
  }

  lemma ElemSpells(e: Elem)
    requires Proper(e)
    ensures Spells(ElemText(e), e)
  {
    forall pat: string, i: nat | Here(pat, i, ElemText(e)) ensures R.ElemAt(pat, i) == (i + |ElemText(e)|, e) {
      ElemReads(pat, i, e);
    }
  }

  /** A caret negates like an exclamation mark. */
  lemma CaretNegates(ranges: seq<(char, char)>, rest: string)
    requires ranges != [] && forall i :: 0 <= i < |ranges| ==> ranges[i].0 != ']'
    ensures var pat := "[^" + ((PrintItems(ranges) + "]") + rest);
            && R.ElemAt(pat, 0) == (3 + |PrintItems(ranges)|, Class(true, ranges))
            && ((forall i :: 0 <= i < |ranges| ==> ranges[i].1 != ']') ==> E.ElemAt(pat, 0) == R.ElemAt(pat, 0))
  {
    var body := PrintItems(ranges) + "]";
    var pat := "[^" + (body + rest);
    HereBetween("[^", body, rest);
    ItemsRead(pat, 2, ranges);
    HereAt(pat, 2, body, 0);
    HereAt(pat, 2, body, |body| - 1);
    ItemsHead(ranges);
    assert R.Items(pat, 2, true) == R.Items(pat, 2, false);
    if forall i :: 0 <= i < |ranges| ==> ranges[i].1 != ']' {
      ItemsAreClean(pat, 2, ranges);
      assert A.CleanBody(pat, 2, true) == A.CleanBody(pat, 2, false);
      A.CleanClass(pat, 0);
    }
  }

  // ----- the expansion matcher -----

  /** It knows no backslash, and a range cannot end in `]`. */
  predicate Unquoted(e: Elem) {
    match e
    case Lit(c) => !Wild(c)
    case Class(_, ranges) => forall i :: 0 <= i < |ranges| ==> ranges[i].1 != ']'
    case _ => true
  }

  lemma {:induction false} ItemsAreClean(pat: string, i: nat, ranges: seq<(char, char)>)
    requires Here(pat, i, PrintItems(ranges) + "]")
    requires forall k :: 0 <= k < |ranges| ==> ranges[k].0 != ']' && ranges[k].1 != ']'
    ensures A.CleanBody(pat, i, false)
    decreases |ranges|
  {
    if ranges == [] {
      HereAt(pat, i, "]", 0);
    } else {
      ItemHere(pat, i, ranges);
      ItemsAreClean(pat, i + |ItemText(ranges)|, ranges[1..]);
    }
  }

  lemma ClassIsClean(pat: string, i: nat, e: Elem)
    requires e.Class? && Proper(e) && Unquoted(e) && Here(pat, i, ElemText(e))
    ensures i < |pat| && pat[i] == '[' && A.CleanBody(pat, A.BodyStart(pat, i), true)
  {
    var b := if e.negated then i + 2 else i + 1;
    ClassHere(pat, i, e);
    ItemsAreClean(pat, b, e.ranges);
    assert A.CleanBody(pat, b, true) == A.CleanBody(pat, b, false);
  }

  /** Wherever `t` stands before clean text, the text from `t` on is clean. */
  ghost predicate IsClean(t: string) {
    forall pat: string, i: nat :: Here(pat, i, t) && A.Clean(pat, i + |t|) ==> A.Clean(pat, i)
  }

  lemma ElemIsClean(e: Elem)
    requires Proper(e) && Unquoted(e)
    ensures IsClean(ElemText(e))
  {
    forall pat: string, i: nat | Here(pat, i, ElemText(e)) && A.Clean(pat, i + |ElemText(e)|)
      ensures A.Clean(pat, i)
    {
      CleanHere(pat, i, e);
    }
  }

  lemma CleanHere(pat: string, i: nat, e: Elem)
    requires Proper(e) && Unquoted(e) && Here(pat, i, ElemText(e)) && A.Clean(pat, i + |ElemText(e)|)
    ensures A.Clean(pat, i)
  {
    ElemReads(pat, i, e);
    HereAt(pat, i, ElemText(e), 0);
    if e.Class? { ClassIsClean(pat, i, e); }
  }

  lemma {:induction false} ConcatIsClean(pat: string, i: nat, ts: seq<string>)
    requires (forall k :: 0 <= k < |ts| ==> IsClean(ts[k])) && Here(pat, i, Concat(ts)) && i + |Concat(ts)| == |pat|
    ensures A.Clean(pat, i)
    decreases |ts|
  {
    if ts != [] {
      ConcatHere(pat, i, ts);
      ConcatIsClean(pat, i + |ts[0]|, ts[1..]);
    }
  }

  /** So does the expansion matcher, when no literal needs a backslash and no range ends in `]`. */
  lemma ExpansionReadsText(es: seq<Elem>)
    requires AllProper(es) && forall k :: 0 <= k < |es| ==> Unquoted(es[k])
    ensures E.Parse(Text(es), 0) == es
  {
    var ts := seq(|es|, k requires 0 <= k < |es| => ElemText(es[k]));
    forall k | 0 <= k < |ts| ensures IsClean(ts[k]) { ElemIsClean(es[k]); }
    assert Here(Concat(ts), 0, Concat(ts));
    ConcatIsClean(Concat(ts), 0, ts);
    A.CleanReadsTheSame(Text(es), 0);
    RuntimeReadsText(es);
  }
}
