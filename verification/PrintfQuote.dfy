/**
 * The `%q` conversion of printf: what the word parser reads back from its
 * output, and exactly when the lexer takes that output as one word. The lexer
 * ends an ANSI-C quotation at the first quote, escaped or not, so the two
 * disagree about texts that contain a quote.
 */
module PrintfQuote {
  import opened Wrappers
  import L = LexSpec
  import W = WordParser
  import Q = Quoting

  predicate IsPlain(c: char) {
    L.IsLetter(c) || L.IsDigit(c) || c == '_' || c == '-' || c == '.' || c == '/' || c == ':'
  }

  predicate NeedsQuoting(s: string) { exists c :: c in s && !IsPlain(c) }

  /** The letter that stands for a character behind a backslash. */
  function EscapeLetter(c: char): (r: Option<char>) {
    if c == '\'' || c == '\\' then Some(c)
    else if c == '\n' then Some('n')
    else if c == '\t' then Some('t')
    else if c == '\r' then Some('r')
    else if c == 7 as char then Some('a')
    else if c == 8 as char then Some('b')
    else None
  }

  function EscapedChar(c: char): (r: string)
    ensures 1 <= |r| <= 2
  {
    if EscapeLetter(c).Some? then ['\\', EscapeLetter(c).value] else [c]
  }

  function Escaped(s: string): (r: string) {
    if s == [] then [] else EscapedChar(s[0]) + Escaped(s[1..])
  }

  function QuotedForm(s: string): (r: string) {
    if s == [] then "''" else if NeedsQuoting(s) then "$'" + Escaped(s) + "'" else s
  }

  lemma {:induction false} EscapedSnoc(s: string, c: char)
    ensures Escaped(s + [c]) == Escaped(s) + EscapedChar(c)
  {
    var e := EscapedChar(c);
    if s == [] {
      assert s + [c] == [c] && [c][1..] == [];
      assert e + [] == e == [] + e;
    } else {
      var first, rest := EscapedChar(s[0]), Escaped(s[1..]);
      EscapedSnoc(s[1..], c);
      assert (s + [c])[1..] == s[1..] + [c] && (s + [c])[0] == s[0];
      Regroup(first, rest, e);
    }
  }

  lemma Regroup(a: string, b: string, c: string)
    ensures a + b + c == a + (b + c)
  {
  }

  method ShellQuote(s: string) returns (r: string)
    ensures r == QuotedForm(s)
  {
    if s == [] { return "''"; }
    var needsQuoting := false;
    for i := 0 to |s|
      invariant needsQuoting <==> exists k :: 0 <= k < i && !IsPlain(s[k])
    {
      if !IsPlain(s[i]) { needsQuoting := true; }
    }
    if !needsQuoting { return s; }
    r := "$'";
    for i := 0 to |s|
      invariant r == "$'" + Escaped(s[..i])
    {
      EscapedSnoc(s[..i], s[i]);
      assert s[..i + 1] == s[..i] + [s[i]];
      r := r + EscapedChar(s[i]);
    }
    assert s[..|s|] == s;
    r := r + "'";
  }

  // ----- reading it back with the word parser -----

  predicate IsAscii(s: string) { forall i :: 0 <= i < |s| ==> s[i] as int < 128 }

  /** Each byte pushed as a character of its own. */
  function Latin(s: string): (r: string)
    ensures |r| >= |s|
  {
    if s == [] then [] else W.Pushed(s[0]) + Latin(s[1..])
  }

  lemma {:induction false} LatinIsIdentity(s: string)
    ensures |Latin(s)| == |s| <==> IsAscii(s)
    ensures Latin(s) == s <==> IsAscii(s)
  {
    if s != [] {
      LatinIsIdentity(s[1..]);
      assert s == [s[0]] + s[1..];
      assert IsAscii(s) <==> s[0] as int < 128 && IsAscii(s[1..]);
    }
  }

  /** Position `p` is inside the quotation and the rest of `t` is the rest of the escaped text. */
  predicate Inside(t: string, p: nat, s: string) { p <= |t| && t[p..] == Escaped(s) + "'" }

  lemma InsideStep(t: string, p: nat, s: string)
    requires Inside(t, p, s) && s != []
    ensures var e := EscapedChar(s[0]);
            p + |e| < |t| && t[p..p + |e|] == e && Inside(t, p + |e|, s[1..])
  {
    var e := EscapedChar(s[0]);
    var tail := t[p..];
    assert tail == e + (Escaped(s[1..]) + "'");
    assert tail[..|e|] == e && tail[|e|..] == Escaped(s[1..]) + "'";
    assert tail[|e|..] == t[p + |e|..] && tail[..|e|] == t[p..p + |e|];
  }

  lemma InsideEnd(t: string, p: nat)
    requires Inside(t, p, [])
    ensures p + 1 == |t| && t[p] == '\''
  {
    assert t[p..] == "'";
    assert t[p..][0] == '\'';
  }

  /** One escaped character is read as that character. */
  lemma StepReads(t: string, p: nat, c: char)
    requires p + |EscapedChar(c)| < |t| && t[p..p + |EscapedChar(c)|] == EscapedChar(c)
    ensures t[p] != '\'' && (t[p] == '\\' ==> p + 1 < |t|)
    ensures W.AnsiCStep(t, p) == W.Read(W.Pushed(c), p + |EscapedChar(c)|)
  {
    var e := EscapedChar(c);
    assert t[p] == t[p..p + |e|][0] == e[0];
    if |e| == 2 {
      assert t[p + 1] == t[p..p + |e|][1] == e[1];
    }
  }

  lemma AnsiCPrepends(t: string, p: nat, step: W.Read, rest: W.Read)
    requires p < |t| && t[p] != '\'' && (t[p] == '\\' ==> p + 1 < |t|)
    requires W.AnsiCStep(t, p) == step && W.AnsiC(t, step.pos) == rest
    ensures W.AnsiC(t, p) == W.Read(step.text + rest.text, rest.pos)
  {
  }

  lemma {:induction false} AnsiCReads(t: string, p: nat, s: string)
    requires Inside(t, p, s)
    ensures W.AnsiC(t, p) == W.Read(Latin(s), |t|)
    decreases |s|
  {
    if s == [] {
      InsideEnd(t, p);
    } else {
      InsideStep(t, p, s);
      StepReads(t, p, s[0]);
      var next := p + |EscapedChar(s[0])|;
      AnsiCReads(t, next, s[1..]);
      AnsiCPrepends(t, p, W.Read(W.Pushed(s[0]), next), W.Read(Latin(s[1..]), |t|));
    }
  }

  lemma {:induction false} PlainParts(t: string, p: nat, scan: W.Scanner)
    requires p <= |t| && W.Advances(scan) && forall i :: 0 <= i < |t| ==> IsPlain(t[i])
    ensures W.Parts(t, p, t[..p], scan) == W.Flushed(t)
    decreases |t| - p
  {
    if p == |t| {
      assert t[..p] == t;
    } else {
      PlainParts(t, p + 1, scan);
      assert t[..p] + W.Pushed(t[p]) == t[..p + 1];
    }
  }

  lemma PlainReads(s: string, scan: W.Scanner)
    requires s != [] && !NeedsQuoting(s) && W.Advances(scan)
    ensures W.Parts(s, 0, [], scan) == [W.Literal(s)] && Latin(s) == s
  {
    forall i | 0 <= i < |s| ensures IsPlain(s[i]) { assert s[i] in s; }
    PlainParts(s, 0, scan);
    assert s[..0] == [];
    LatinIsIdentity(s);
  }

  lemma QuotedReads(s: string, scan: W.Scanner)
    requires NeedsQuoting(s) && W.Advances(scan)
    ensures W.Parts(QuotedForm(s), 0, [], scan) == [W.Literal(Latin(s))]
  {
    var t := QuotedForm(s);
    assert t == "$'" + (Escaped(s) + "'");
    assert t[0] == '$' && t[1] == '\'' && t[2..] == Escaped(s) + "'";
    AnsiCReads(t, 2, s);
    assert W.Parts(t, |t|, [], scan) == [];
  }

  lemma TextOfOne(part: W.WordPart)
    requires !part.Expansion?
    ensures Q.TextOf([part]) == Some(part.text)
  {
    Q.TextOfCons(part, []);
    assert [part] + [] == [part] && part.text + [] == part.text;
  }

  /** The word parser gives the text back byte by byte, so exactly when it is ASCII it gives it back unchanged. */
  lemma ReadsBackExactlyAscii(s: string, scan: W.Scanner)
    requires W.Advances(scan)
    ensures Q.TextOf(W.Parts(QuotedForm(s), 0, [], scan)) == Some(Latin(s))
    ensures Q.TextOf(W.Parts(QuotedForm(s), 0, [], scan)) == Some(s) <==> IsAscii(s)
  {
    LatinIsIdentity(s);
    if s == [] {
      var t := "''";
      assert W.QuoteEnd(t, 1) == 1 && t[1..1] == [];
      assert W.Parts(t, 2, [], scan) == [];
      assert W.Parts(t, 0, [], scan) == [W.SingleQuoted([])];
      TextOfOne(W.SingleQuoted([]));
    } else if NeedsQuoting(s) {
      QuotedReads(s, scan);
      TextOfOne(W.Literal(Latin(s)));
    } else {
      PlainReads(s, scan);
      TextOfOne(W.Literal(s));
    }
  }

  // ----- the lexer's view -----

  /** Up to the last byte, which is a quote, every quote is protected by a backslash. */
  predicate Armored(t: string, p: nat)
    decreases |t| - p
  {
    && p < |t|
    && if p == |t| - 1 then t[p] == '\''
       else if t[p] == '\\' then Armored(t, p + 2)
       else t[p] != '\'' && Armored(t, p + 1)
  }

  /** A scanner that starts in an armored text does not get past its last quote. */
  predicate Stays(t: string, r: L.Scan) { r.At? ==> Armored(t, r.pos) }

  lemma {:induction false} ArmoredBacktick(t: string, p: nat, start: nat)
    requires Armored(t, p)
    ensures Stays(t, L.BacktickRest(t, p, start))
    decreases |t| - p
  {
    if t[p] == '\\' { ArmoredBacktick(t, L.AfterEscape(t, p), start); }
    else if t[p] != '`' && p + 1 < |t| { ArmoredBacktick(t, p + 1, start); }
  }

  lemma {:induction false} ArmoredIdentifier(t: string, p: nat)
    requires Armored(t, p)
    ensures Armored(t, L.IdentifierEnd(t, p))
    decreases |t| - p
  {
    if L.IsLetter(t[p]) || L.IsDigit(t[p]) || t[p] == '_' { ArmoredIdentifier(t, p + 1); }
  }

  lemma {:induction false} ArmoredDouble(t: string, p: nat, start: nat, d: nat)
    requires Armored(t, p)
    ensures Stays(t, L.DoubleRest(t, p, start, d))
    decreases |t| - p, 2
  {
    if t[p] == '\\' {
      ArmoredDouble(t, L.AfterEscape(t, p), start, d);
    } else if t[p] == '$' {
      ArmoredDollar(t, p, d);
      var r := L.Dollar(t, p, d);
      if r.At? { ArmoredDouble(t, r.pos, start, d); }
    } else if t[p] == '`' {
      ArmoredBacktick(t, p + 1, p);
      var r := L.BacktickRest(t, p + 1, p);
      if r.At? { ArmoredDouble(t, r.pos, start, d); }
    } else if t[p] != '"' && p + 1 < |t| {
      ArmoredDouble(t, p + 1, start, d);
    }
  }

  lemma {:induction false} ArmoredDollar(t: string, p: nat, d: nat)
    requires Armored(t, p) && t[p] == '$'
    ensures Stays(t, L.Dollar(t, p, d))
    decreases |t| - p, 0
  {
    assert Armored(t, p + 1);
    if t[p + 1] == '(' { ArmoredParen(t, p + 1, d); }
    else if t[p + 1] == '{' { ArmoredFence(t, p + 2, 1, p, d, L.BraceFence); }
    else if L.IsLetter(t[p + 1]) || t[p + 1] == '_' { ArmoredIdentifier(t, p + 1); }
  }

  lemma {:induction false} ArmoredParen(t: string, p: nat, d: nat)
    requires Armored(t, p) && t[p] == '('
    ensures Stays(t, L.DollarParen(t, p, d))
    decreases |t| - p, 0
  {
    assert Armored(t, p + 1);
    if L.Is(t, p + 1, '(') { ArmoredArithmetic(t, p + 2, 0, 1, L.Minus(p + 2, 3), d + 1); }
    else { ArmoredFence(t, p + 1, 1, L.Minus(p + 1, 2), d + 1, L.CommandFence); }
  }

  lemma {:induction false} ArmoredQuoted(t: string, p: nat, d: nat)
    requires Armored(t, p) && (t[p] == '\'' || t[p] == '"' || t[p] == '$')
    ensures Stays(t, L.Quoted(t, p, d))
    decreases |t| - p, 1
  {
    if t[p] == '"' { ArmoredDouble(t, p + 1, p, d); }
    else if t[p] == '$' { ArmoredDollar(t, p, d); }
  }

  lemma {:induction false} ArmoredFence(t: string, p: nat, depth: nat, start: nat, d: nat, f: L.Fence)
    requires Armored(t, p) && depth >= 1
    ensures Stays(t, L.FenceRest(t, p, depth, start, d, f))
    decreases |t| - p, 3
  {
    if t[p] == L.OpenMark(f) {
      ArmoredFence(t, p + 1, depth + 1, start, d, f);
    } else if t[p] == L.CloseMark(f) {
      if depth > 1 { ArmoredFence(t, p + 1, depth - 1, start, d, f); }
    } else {
      ArmoredUnit(t, p, d, f);
      var r := L.Unit(t, p, d, f);
      if r.At? && r.pos < |t| { ArmoredFence(t, r.pos, depth, start, d, f); }
    }
  }

  /** A unit keeps to the armored text, or is its last quote, taken as an ordinary byte. */
  lemma {:induction false} ArmoredUnit(t: string, p: nat, d: nat, f: L.Fence)
    requires Armored(t, p)
    ensures var r := L.Unit(t, p, d, f); r.At? && r.pos < |t| ==> Armored(t, r.pos)
    decreases |t| - p, 2
  {
    if L.Nests(f, t[p]) { ArmoredQuoted(t, p, d); }
  }

  lemma {:induction false} ArmoredArithmetic(t: string, p: nat, parens: nat, doubles: nat, start: nat, d: nat)
    requires Armored(t, p) && doubles >= 1
    ensures Stays(t, L.ArithmeticRest(t, p, parens, doubles, start, d))
    decreases |t| - p, 2
  {
    if t[p] == '\\' {
      ArmoredArithmetic(t, L.AfterEscape(t, p), parens, doubles, start, d);
    } else if t[p] == '\'' || t[p] == '"' || t[p] == '$' {
      ArmoredQuoted(t, p, d);
      var r := L.Quoted(t, p, d);
      if r.At? { ArmoredArithmetic(t, r.pos, parens, doubles, start, d); }
    } else if t[p] == '(' {
      if L.Is(t, p + 1, '(') { ArmoredArithmetic(t, p + 2, parens, doubles + 1, start, d); }
      else { ArmoredArithmetic(t, p + 1, parens + 1, doubles, start, d); }
    } else if t[p] == ')' && parens > 0 {
      ArmoredArithmetic(t, p + 1, parens - 1, doubles, start, d);
    } else if t[p] == ')' && L.Is(t, p + 1, ')') {
      assert Armored(t, p + 2);
      if doubles > 1 { ArmoredArithmetic(t, p + 2, parens, doubles - 1, start, d); }
    } else {
      ArmoredArithmetic(t, p + 1, parens, doubles, start, d);
    }
  }

  lemma ArmoredWordPart(t: string, p: nat, d: nat)
    requires Armored(t, p)
    ensures Stays(t, L.WordPart(t, p, d))
  {
    if t[p] == '\'' || t[p] == '"' {
      ArmoredQuoted(t, p, d);
    } else if t[p] == '`' {
      ArmoredBacktick(t, p + 1, p);
    } else if t[p] == '$' {
      if L.Is(t, p + 1, '"') { ArmoredDouble(t, p + 2, p + 1, d); }
      ArmoredDollar(t, p, d);
    } else if L.IsExtglobOp(t[p]) && L.Is(t, p + 1, '(') {
      ArmoredFence(t, p + 2, 1, p, d, L.GlobFence);
    }
  }

  /** A word that has entered an armored text never reaches the end of it. */
  lemma {:induction false} ArmoredWord(t: string, p: nat, d: nat)
    requires Armored(t, p)
    ensures Stays(t, L.WordRest(t, p, d))
    decreases |t| - p
  {
    if !L.IsWordBreak(t[p]) {
      ArmoredWordPart(t, p, d);
      var r := L.WordPart(t, p, d);
      if r.At? { ArmoredWord(t, r.pos, d); }
    }
  }

  lemma {:induction false} EscapedIsArmored(t: string, p: nat, s: string)
    requires Inside(t, p, s)
    ensures Armored(t, p)
    decreases |s|
  {
    if s == [] {
      InsideEnd(t, p);
    } else {
      InsideStep(t, p, s);
      StepReads(t, p, s[0]);
      EscapedIsArmored(t, p + |EscapedChar(s[0])|, s[1..]);
      assert t[p] == t[p..p + |EscapedChar(s[0])|][0];
    }
  }

  lemma SingleSkips(t: string, p: nat, start: nat, c: char)
    requires p + |EscapedChar(c)| < |t| && t[p..p + |EscapedChar(c)|] == EscapedChar(c)
    ensures c != '\'' ==> L.SingleRest(t, p, start) == L.SingleRest(t, p + |EscapedChar(c)|, start)
    ensures c == '\'' ==> L.SingleRest(t, p, start) == L.At(p + 2)
  {
    var e := EscapedChar(c);
    assert t[p] == t[p..p + |e|][0];
    if |e| == 2 {
      assert t[p + 1] == t[p..p + |e|][1];
      assert L.SingleRest(t, p, start) == L.SingleRest(t, p + 1, start);
    }
  }

  /** The lexer leaves the quotation at the first quote of the text, or at its end. */
  lemma {:induction false} LexerLeavesQuotation(t: string, p: nat, start: nat, s: string)
    requires Inside(t, p, s)
    ensures var r := L.SingleRest(t, p, start);
            r.At? && if '\'' in s then Armored(t, r.pos) else r.pos == |t|
    decreases |s|
  {
    if s == [] {
      InsideEnd(t, p);
    } else {
      InsideStep(t, p, s);
      SingleSkips(t, p, start, s[0]);
      if s[0] == '\'' {
        EscapedIsArmored(t, p + 2, s[1..]);
      } else {
        LexerLeavesQuotation(t, p + |EscapedChar(s[0])|, start, s[1..]);
        assert '\'' in s <==> '\'' in s[1..];
      }
    }
  }

  lemma {:induction false} PlainWord(t: string, p: nat)
    requires p <= |t| && forall i :: 0 <= i < |t| ==> IsPlain(t[i])
    ensures L.WordRest(t, p, 0) == L.At(|t|)
    decreases |t| - p
  {
    if p < |t| {
      assert L.WordPart(t, p, 0) == L.At(p + 1);
      PlainWord(t, p + 1);
    }
  }

  /** The output is one word spanning all of it exactly when the text has no quote. */
  lemma OneWordExactlyWithoutQuotes(s: string)
    ensures Q.OneWord(QuotedForm(s)) <==> '\'' !in s
  {
    QuotedWord(s);
  }

  /** It is a word that cannot be reserved exactly when, besides, the text is not a reserved word left unquoted. */
  lemma OrdinaryWordExactly(s: string)
    ensures Q.WordToken(QuotedForm(s), false) <==> '\'' !in s && (NeedsQuoting(s) || s !in L.RESERVED_WORDS)
  {
    QuotedWord(s);
    if s != [] && !NeedsQuoting(s) { PlainKind(s); }
  }

  lemma ApostropheBreaksTheWord()
    ensures !Q.OneWord(QuotedForm("it's"))
  {
    OneWordExactlyWithoutQuotes("it's");
    assert "it's"[2] == '\'';
  }

  lemma QuotedWord(s: string)
    ensures Q.OneWord(QuotedForm(s)) <==> '\'' !in s
    ensures s == [] || NeedsQuoting(s) ==> (Q.OneWord(QuotedForm(s)) <==> Q.WordToken(QuotedForm(s), false))
    ensures s != [] && !NeedsQuoting(s) ==> (Q.WordToken(s, false) <==> L.WordKind(s) == L.Word(false))
  {
    if s == [] {
      Q.AtQIsOneWord([]);
      assert Q.AtQ([]) == "''";
    } else if NeedsQuoting(s) {
      QuotedLexes(s);
    } else {
      PlainLexes(s);
    }
  }

  lemma PlainLexes(s: string)
    requires s != [] && !NeedsQuoting(s)
    ensures Q.OneWord(s) && '\'' !in s
    ensures Q.WordToken(s, false) <==> L.WordKind(s) == L.Word(false)
  {
    PlainKind(s);
    PlainSpans(s);
    Q.OneWordExactly(s);
  }

  lemma PlainSpans(s: string)
    requires s != [] && !NeedsQuoting(s)
    ensures L.StartsWord(s[0]) && L.WordRest(s, 0, 0) == L.At(|s|)
  {
    forall i | 0 <= i < |s| ensures IsPlain(s[i]) { assert s[i] in s; }
    PlainWord(s, 0);
    assert IsPlain(s[0]);
  }

  lemma PlainKind(s: string)
    requires !NeedsQuoting(s)
    ensures '\'' !in s && L.WordKind(s) == L.Word(s in L.RESERVED_WORDS)
  {
    forall c | c in s ensures c != '\'' && c != '"' && c != '\\' && c != '$' && c != '[' && c != ']' {
      assert IsPlain(c);
    }
    assert |s| > 0 ==> s[0] in s;
  }

  lemma QuotedLexes(s: string)
    requires NeedsQuoting(s)
    ensures Q.OneWord(QuotedForm(s)) <==> '\'' !in s
    ensures Q.WordToken(QuotedForm(s), false) <==> '\'' !in s
  {
    var t := QuotedForm(s);
    assert t == "$'" + (Escaped(s) + "'");
    assert t[0] == '$' && t[1] == '\'' && t[2..] == Escaped(s) + "'";
    LexerLeavesQuotation(t, 2, 1, s);
    var r := L.SingleRest(t, 2, 1);
    assert L.WordPart(t, 0, 0) == r;
    assert L.WordRest(t, 0, 0) == L.WordRest(t, r.pos, 0);
    if '\'' in s { ArmoredWord(t, r.pos, 0); }
    assert L.WordKind(t) == L.Word(false);
    Q.OneWordExactly(t);
  }
}
