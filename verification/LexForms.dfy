/**
 * Which forms the lexer takes as words: quotations, substitutions, parameters,
 * arithmetic, extended globs and process substitutions, blanks inside included.
 */
module LexForms {
  import opened Wrappers
  import opened LexSpec
  import LexKinds
  import Q = Quoting

  /** Text in which nothing is quoted, nested or expanded. */
  predicate Calm(s: string) { forall i :: 0 <= i < |s| ==> s[i] !in "'\"\\$`(){}" }

  predicate CalmBetween(t: string, p: nat, q: nat) {
    p <= q <= |t| && forall k :: p <= k < q ==> t[k] !in "'\"\\$`(){}"
  }

  // ----- each scanner passes over calm text to its closing mark -----

  lemma {:induction false} CalmFence(t: string, p: nat, q: nat, start: nat, d: nat, f: Fence)
    requires CalmBetween(t, p, q) && Is(t, q, CloseMark(f))
    ensures FenceRest(t, p, 1, start, d, f) == At(q + 1)
    decreases q - p
  {
    if p < q { CalmFence(t, p + 1, q, start, d, f); }
  }

  lemma {:induction false} CalmDouble(t: string, p: nat, q: nat, start: nat, d: nat)
    requires CalmBetween(t, p, q) && Is(t, q, '"')
    ensures DoubleRest(t, p, start, d) == At(q + 1)
    decreases q - p
  {
    if p < q { CalmDouble(t, p + 1, q, start, d); }
  }

  lemma {:induction false} CalmBacktick(t: string, p: nat, q: nat, start: nat)
    requires CalmBetween(t, p, q) && Is(t, q, '`')
    ensures BacktickRest(t, p, start) == At(q + 1)
    decreases q - p
  {
    if p < q { CalmBacktick(t, p + 1, q, start); }
  }

  lemma {:induction false} CalmArithmetic(t: string, p: nat, q: nat, start: nat, d: nat)
    requires CalmBetween(t, p, q) && Is(t, q, ')') && Is(t, q + 1, ')')
    ensures ArithmeticRest(t, p, 0, 1, start, d) == At(q + 2)
    decreases q - p
  {
    if p < q { CalmArithmetic(t, p + 1, q, start, d); }
  }

  // ----- the forms -----

  /** An opening, calm text and the closing that belongs to it. */
  function Form(open: string, inner: string, close: string): (t: string) { open + (inner + close) }

  lemma FormShape(open: string, inner: string, close: string)
    requires Calm(inner)
    ensures var t := Form(open, inner, close);
            && CalmBetween(t, |open|, |open| + |inner|) && |t| == |open| + |inner| + |close|
            && (forall k :: 0 <= k < |open| ==> t[k] == open[k])
            && (forall k :: 0 <= k < |close| ==> t[|open| + |inner| + k] == close[k])
  {
    var t := Form(open, inner, close);
    forall k | |open| <= k < |open| + |inner| ensures t[k] !in "'\"\\$`(){}" { assert t[k] == inner[k - |open|]; }
  }

  /** A word that its first part takes up is one word token. */
  lemma OnePart(t: string)
    requires t != [] && StartsWord(t[0]) && WordPart(t, 0, 0) == At(|t|) && t != "[[" && t != "]]"
    ensures Q.OneWord(t)
  {
    assert WordRest(t, 0, 0) == WordRest(t, |t|, 0) == At(|t|);
    LexKinds.WordKindIsText(t);
    Q.OneWordExactly(t);
  }

  lemma QuotedFormIsWord(inner: string)
    requires Calm(inner)
    ensures Q.OneWord(Form("\"", inner, "\"")) && Q.OneWord(Form("`", inner, "`"))
  {
    var t, u, q := Form("\"", inner, "\""), Form("`", inner, "`"), 1 + |inner|;
    FormShape("\"", inner, "\"");
    CalmDouble(t, 1, q, 0, 0);
    OnePart(t);
    FormShape("`", inner, "`");
    CalmBacktick(u, 1, q, 0);
    OnePart(u);
  }

  lemma ParameterFormIsWord(inner: string)
    requires Calm(inner)
    ensures Q.OneWord(Form("${", inner, "}"))
  {
    var t := Form("${", inner, "}");
    FormShape("${", inner, "}");
    CalmFence(t, 2, 2 + |inner|, 0, 0, BraceFence);
    OnePart(t);
  }

  lemma CommandFormIsWord(inner: string)
    requires Calm(inner)
    ensures Q.OneWord(Form("$(", inner, ")"))
  {
    var t := Form("$(", inner, ")");
    FormShape("$(", inner, ")");
    CalmFence(t, 2, 2 + |inner|, 0, 1, CommandFence);
    assert !Is(t, 2, '(');
    assert DollarParen(t, 1, 0) == FenceRest(t, 2, 1, 0, 1, CommandFence);
    OnePart(t);
  }

  lemma ArithmeticFormIsWord(inner: string)
    requires Calm(inner)
    ensures Q.OneWord(Form("$((", inner, "))"))
  {
    var t := Form("$((", inner, "))");
    FormShape("$((", inner, "))");
    CalmArithmetic(t, 3, 3 + |inner|, 0, 1);
    assert DollarParen(t, 1, 0) == ArithmeticRest(t, 3, 0, 1, 0, 1);
    OnePart(t);
  }

  lemma GlobFormIsWord(op: char, inner: string)
    requires op in "?*+@!" && Calm(inner)
    ensures Q.OneWord(Form([op, '('], inner, ")"))
  {
    var t := Form([op, '('], inner, ")");
    FormShape([op, '('], inner, ")");
    CalmFence(t, 2, 2 + |inner|, 0, 0, GlobFence);
    OnePart(t);
  }

  lemma ProcessFormIsWord(op: char, inner: string)
    requires op in "<>" && Calm(inner)
    ensures Q.WordToken(Form([op, '('], inner, ")"), false)
  {
    var t := Form([op, '('], inner, ")");
    FormShape([op, '('], inner, ")");
    CalmFence(t, 2, 2 + |inner|, 0, 0, ProcessFence);
    assert SkipBlanks(t, 0) == 0;
    assert TokenFrom(t, 0, 0) == TokenAt(t, 0, 0) == Ok(Token(Word(false), 0, |t|));
    LastToken(t, 0, 0);
  }

  /** The one-byte parameters: the word goes on right behind them. */
  lemma SpecialParameters(c: char, rest: string)
    requires c in "?!#$@*-0123456789"
    ensures WordPart("$" + ([c] + rest), 0, 0) == At(2)
  {
    var t := "$" + ([c] + rest);
    assert t[0] == '$' && t[1] == c;
  }

  /** Every form is one word, whatever calm text is inside, blanks and operators included. */
  lemma FormsAreWords(inner: string, glob: char, process: char)
    requires Calm(inner) && glob in "?*+@!" && process in "<>"
    ensures Q.OneWord(Form("\"", inner, "\"")) && Q.OneWord(Form("`", inner, "`"))
    ensures Q.OneWord(Form("${", inner, "}")) && Q.OneWord(Form("$(", inner, ")"))
    ensures Q.OneWord(Form("$((", inner, "))")) && Q.OneWord(Form([glob, '('], inner, ")"))
    ensures Q.WordToken(Form([process, '('], inner, ")"), false)
  {
    QuotedFormIsWord(inner);
    ParameterFormIsWord(inner);
    CommandFormIsWord(inner);
    ArithmeticFormIsWord(inner);
    GlobFormIsWord(glob, inner);
    ProcessFormIsWord(process, inner);
  }
}
