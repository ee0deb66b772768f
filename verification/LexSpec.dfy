/**
 * What the shell lexer accepts, as functions from a position in the source to
 * the position behind the construct that starts there. The source is a
 * sequence of bytes, one character each.
 */
module LexSpec {
  import opened Wrappers

  datatype Fault =
    | SingleQuote | DoubleQuote | Backquote | CommandSubstitution | Arithmetic
    | ParameterExpansion | ExtendedGlob | ProcessSubstitution | TooDeep

  datatype LexerError = LexerError(fault: Fault, start: nat, end: nat)

  datatype Scan = At(pos: nat) | Fail(error: LexerError)

  datatype Kind =
    | Word(isReservedCandidate: bool)
    | Semi | Newline | Pipe | AndAnd | OrOr | Amp | PipeAmp
    | Less | Greater | GreaterGreater | GreaterPipe
    | LessLess | LessLessDash | LessLessLess | LessGreater
    | AmpGreater | AmpGreaterGreater
    | LParen | RParen | DblLBracket | DblRBracket | Eof

  datatype Token = Token(kind: Kind, start: nat, end: nat)

  const MAX_LEX_DEPTH: nat := 48

  function Minus(p: nat, k: nat): nat { if p < k then 0 else p - k }

  predicate Is(t: string, p: nat, c: char) { p < |t| && t[p] == c }

  predicate IsLetter(c: char) { 'a' <= c <= 'z' || 'A' <= c <= 'Z' }

  predicate IsDigit(c: char) { '0' <= c <= '9' }

  predicate IsSpecialParam(c: char) {
    c == '?' || c == '!' || c == '#' || c == '$' || c == '@' || c == '*' || c == '-' || IsDigit(c)
  }

  predicate IsWordBreak(c: char) {
    || c == ' ' || c == '\t' || c == '\n' || c == ';' || c == '&'
    || c == '|' || c == '<' || c == '>' || c == '(' || c == ')'
  }

  predicate IsExtglobOp(c: char) { c == '?' || c == '*' || c == '+' || c == '@' || c == '!' }

  /** The constructs that run to a matching closing mark. */
  datatype Fence = CommandFence | ProcessFence | BraceFence | GlobFence

  function OpenMark(f: Fence): char { if f.BraceFence? then '{' else '(' }

  function CloseMark(f: Fence): char { if f.BraceFence? then '}' else ')' }

  function FaultOf(f: Fence): Fault {
    match f
    case CommandFence => CommandSubstitution
    case ProcessFence => ProcessSubstitution
    case BraceFence => ParameterExpansion
    case GlobFence => ExtendedGlob
  }

  /** Bytes that start something whose inside is not counted. */
  predicate Nests(f: Fence, c: char) {
    match f
    case CommandFence | ProcessFence => c == '\'' || c == '"' || c == '$'
    case BraceFence => c == '\'' || c == '"'
    case GlobFence => false
  }

  /** A result that moved forward within the source. */
  predicate Forward(t: string, p: nat, r: Scan) { r.At? ==> p < r.pos <= |t| }

  /** Behind a backslash and the byte it protects. */
  function AfterEscape(t: string, p: nat): (q: nat)
    requires p < |t|
    ensures p < q <= |t|
  {
    if p + 1 < |t| then p + 2 else p + 1
  }

  function SingleRest(t: string, p: nat, start: nat): (r: Scan)
    requires p <= |t|
    ensures Forward(t, p, r)
    decreases |t| - p
  {
    if p == |t| then Fail(LexerError(SingleQuote, start, p))
    else if t[p] == '\'' then At(p + 1)
    else SingleRest(t, p + 1, start)
  }

  function Single(t: string, p: nat): (r: Scan)
    requires p < |t|
    ensures Forward(t, p, r)
  {
    SingleRest(t, p + 1, p)
  }

  function BacktickRest(t: string, p: nat, start: nat): (r: Scan)
    requires p <= |t|
    ensures Forward(t, p, r)
    decreases |t| - p
  {
    if p == |t| then Fail(LexerError(Backquote, start, p))
    else if t[p] == '`' then At(p + 1)
    else if t[p] == '\\' then BacktickRest(t, AfterEscape(t, p), start)
    else BacktickRest(t, p + 1, start)
  }

  function IdentifierEnd(t: string, p: nat): (q: nat)
    requires p <= |t|
    ensures p <= q <= |t|
    decreases |t| - p
  {
    if p < |t| && (IsLetter(t[p]) || IsDigit(t[p]) || t[p] == '_') then IdentifierEnd(t, p + 1) else p
  }

  // ----- the mutually recursive scanners; d is the substitution depth -----

  function DoubleRest(t: string, p: nat, start: nat, d: nat): (r: Scan)
    requires p <= |t|
    ensures Forward(t, p, r)
    decreases |t| - p, 2
  {
    if p == |t| then Fail(LexerError(DoubleQuote, start, p))
    else if t[p] == '"' then At(p + 1)
    else if t[p] == '\\' then DoubleRest(t, AfterEscape(t, p), start, d)
    else if t[p] == '$' then
      var r := Dollar(t, p, d);
      if r.Fail? then r else DoubleRest(t, r.pos, start, d)
    else if t[p] == '`' then
      var r := BacktickRest(t, p + 1, p);
      if r.Fail? then r else DoubleRest(t, r.pos, start, d)
    else DoubleRest(t, p + 1, start, d)
  }

  function Dollar(t: string, p: nat, d: nat): (r: Scan)
    requires p < |t|
    ensures Forward(t, p, r)
    decreases |t| - p, 0
  {
    if p + 1 == |t| then At(p + 1)
    else if t[p + 1] == '\'' then Single(t, p + 1)
    else if t[p + 1] == '(' then DollarParen(t, p + 1, d)
    else if t[p + 1] == '{' then FenceRest(t, p + 2, 1, p, d, BraceFence)
    else if IsLetter(t[p + 1]) || t[p + 1] == '_' then At(IdentifierEnd(t, p + 1))
    else if IsSpecialParam(t[p + 1]) then At(p + 2)
    else At(p + 1)
  }

  function DollarParen(t: string, p: nat, d: nat): (r: Scan)
    requires p < |t|
    ensures Forward(t, p, r)
    decreases |t| - p, 0
  {
    if d >= MAX_LEX_DEPTH then Fail(LexerError(TooDeep, p + 1, p + 1))
    else if Is(t, p + 1, '(') then ArithmeticRest(t, p + 2, 0, 1, Minus(p + 2, 3), d + 1)
    else FenceRest(t, p + 1, 1, Minus(p + 1, 2), d + 1, CommandFence)
  }

  /** The text up to the closing mark that matches one already read, with nested marks counted. */
  function FenceRest(t: string, p: nat, depth: nat, start: nat, d: nat, f: Fence): (r: Scan)
    requires p <= |t| && depth >= 1
    ensures Forward(t, p, r)
    decreases |t| - p, 3
  {
    if p == |t| then Fail(LexerError(FaultOf(f), start, p))
    else if t[p] == OpenMark(f) then FenceRest(t, p + 1, depth + 1, start, d, f)
    else if t[p] == CloseMark(f) then (if depth == 1 then At(p + 1) else FenceRest(t, p + 1, depth - 1, start, d, f))
    else
      var r := Unit(t, p, d, f);
      if r.Fail? then r else FenceRest(t, r.pos, depth, start, d, f)
  }

  /** One byte, or an escape, or a quotation or expansion that is skipped whole. */
  function Unit(t: string, p: nat, d: nat, f: Fence): (r: Scan)
    requires p < |t|
    ensures Forward(t, p, r)
    decreases |t| - p, 2
  {
    if t[p] == '\\' then At(AfterEscape(t, p))
    else if Nests(f, t[p]) then Quoted(t, p, d)
    else At(p + 1)
  }

  function ArithmeticRest(t: string, p: nat, parens: nat, doubles: nat, start: nat, d: nat): (r: Scan)
    requires p <= |t| && doubles >= 1
    ensures Forward(t, p, r)
    decreases |t| - p, 3
  {
    if p == |t| then Fail(LexerError(Arithmetic, start, p))
    else if t[p] == '(' then
      if Is(t, p + 1, '(') then ArithmeticRest(t, p + 2, parens, doubles + 1, start, d)
      else ArithmeticRest(t, p + 1, parens + 1, doubles, start, d)
    else if t[p] == ')' then
      if parens > 0 then ArithmeticRest(t, p + 1, parens - 1, doubles, start, d)
      else if !Is(t, p + 1, ')') then ArithmeticRest(t, p + 1, parens, doubles, start, d)
      else if doubles == 1 then At(p + 2)
      else ArithmeticRest(t, p + 2, parens, doubles - 1, start, d)
    else if t[p] == '\\' then ArithmeticRest(t, AfterEscape(t, p), parens, doubles, start, d)
    else if t[p] == '\'' || t[p] == '"' || t[p] == '$' then
      var r := Quoted(t, p, d);
      if r.Fail? then r else ArithmeticRest(t, r.pos, parens, doubles, start, d)
    else ArithmeticRest(t, p + 1, parens, doubles, start, d)
  }

  /** A quotation or expansion nested inside another construct. */
  function Quoted(t: string, p: nat, d: nat): (r: Scan)
    requires p < |t| && (t[p] == '\'' || t[p] == '"' || t[p] == '$')
    ensures Forward(t, p, r)
    decreases |t| - p, 1
  {
    if t[p] == '\'' then Single(t, p)
    else if t[p] == '"' then DoubleRest(t, p + 1, p, d)
    else Dollar(t, p, d)
  }

  // ----- words -----

  function WordPart(t: string, p: nat, d: nat): (r: Scan)
    requires p < |t|
    ensures Forward(t, p, r)
  {
    if t[p] == '\'' || t[p] == '"' then Quoted(t, p, d)
    else if t[p] == '`' then BacktickRest(t, p + 1, p)
    else if t[p] == '\\' then At(AfterEscape(t, p))
    else if t[p] == '$' then
      if Is(t, p + 1, '"') && !Is(t, p + 2, '(') then DoubleRest(t, p + 2, p + 1, d) else Dollar(t, p, d)
    else if IsExtglobOp(t[p]) && Is(t, p + 1, '(') then FenceRest(t, p + 2, 1, p, d, GlobFence)
    else At(p + 1)
  }

  function WordRest(t: string, p: nat, d: nat): (r: Scan)
    requires p <= |t|
    ensures r.At? ==> p <= r.pos <= |t|
    decreases |t| - p
  {
    if p == |t| || IsWordBreak(t[p]) then At(p)
    else
      var r := WordPart(t, p, d);
      if r.Fail? then r else WordRest(t, r.pos, d)
  }

  const RESERVED_WORDS: seq<string> := [
    "if", "then", "else", "elif", "fi", "do", "done", "case", "esac", "while", "until", "for",
    "in", "function", "select", "time", "!", "{", "}", "[[", "]]"]

  function WordKind(text: string): Kind {
    if '\'' in text || '"' in text || '\\' in text || '$' in text then Word(false)
    else if text == "[[" then DblLBracket
    else if text == "]]" then DblRBracket
    else Word(text in RESERVED_WORDS)
  }

  // ----- tokens -----

  function SkipBlanks(t: string, p: nat): (q: nat)
    requires p <= |t|
    ensures p <= q <= |t|
    decreases |t| - p
  {
    if Is(t, p, ' ') || Is(t, p, '\t') then SkipBlanks(t, p + 1)
    else if Is(t, p, '\\') && Is(t, p + 1, '\n') then SkipBlanks(t, p + 2)
    else if Is(t, p, '\\') && Is(t, p + 1, '\r') && Is(t, p + 2, '\n') then SkipBlanks(t, p + 3)
    else p
  }

  function CommentEnd(t: string, p: nat): (q: nat)
    requires p <= |t|
    ensures p <= q <= |t|
    decreases |t| - p
  {
    if p < |t| && t[p] != '\n' then CommentEnd(t, p + 1) else p
  }

  function Operator(t: string, p: nat): (k: Token)
    requires p < |t| && (t[p] == '&' || t[p] == '|' || t[p] == '>' || t[p] == '<')
    ensures k.start == p < k.end <= |t| && k.kind != Eof
  {
    if t[p] == '&' then
      if Is(t, p + 1, '&') then Token(AndAnd, p, p + 2)
      else if Is(t, p + 1, '>') && Is(t, p + 2, '>') then Token(AmpGreaterGreater, p, p + 3)
      else if Is(t, p + 1, '>') then Token(AmpGreater, p, p + 2)
      else Token(Amp, p, p + 1)
    else if t[p] == '|' then
      if Is(t, p + 1, '|') then Token(OrOr, p, p + 2)
      else if Is(t, p + 1, '&') then Token(PipeAmp, p, p + 2)
      else Token(Pipe, p, p + 1)
    else if t[p] == '>' then
      if Is(t, p + 1, '>') then Token(GreaterGreater, p, p + 2)
      else if Is(t, p + 1, '|') then Token(GreaterPipe, p, p + 2)
      else Token(Greater, p, p + 1)
    else
      if Is(t, p + 1, '<') && Is(t, p + 2, '<') then Token(LessLessLess, p, p + 3)
      else if Is(t, p + 1, '<') && Is(t, p + 2, '-') then Token(LessLessDash, p, p + 3)
      else if Is(t, p + 1, '<') then Token(LessLess, p, p + 2)
      else if Is(t, p + 1, '>') then Token(LessGreater, p, p + 2)
      else Token(Less, p, p + 1)
  }

  /** The token that starts at a byte which is neither blank nor a comment. */
  function TokenAt(t: string, p: nat, d: nat): (r: Result<Token, LexerError>)
    requires p < |t| && t[p] != ' ' && t[p] != '\t' && t[p] != '#'
    ensures r.Ok? ==> r.value.start == p < r.value.end <= |t| && r.value.kind != Eof
  {
    if t[p] == '\n' then Ok(Token(Newline, p, p + 1))
    else if t[p] == ';' then Ok(Token(Semi, p, p + 1))
    else if t[p] == '(' then Ok(Token(LParen, p, p + 1))
    else if t[p] == ')' then Ok(Token(RParen, p, p + 1))
    else if (t[p] == '>' || t[p] == '<') && Is(t, p + 1, '(') then
      var r := FenceRest(t, p + 2, 1, p, d, ProcessFence);
      if r.Fail? then Err(r.error) else Ok(Token(Word(false), p, r.pos))
    else if t[p] == '&' || t[p] == '|' || t[p] == '>' || t[p] == '<' then Ok(Operator(t, p))
    else
      var r := WordRest(t, p, d);
      if r.Fail? then Err(r.error) else Ok(Token(WordKind(t[p..r.pos]), p, r.pos))
  }

  function TokenFrom(t: string, p: nat, d: nat): (r: Result<Token, LexerError>)
    requires p <= |t|
    ensures r.Ok? ==> p <= r.value.start <= r.value.end <= |t|
    ensures r.Ok? ==> (r.value.kind == Eof <==> r.value.start == |t|)
    ensures r.Ok? && r.value.kind != Eof ==> r.value.start < r.value.end
    ensures r.Ok? && r.value.kind == Eof ==> r.value.start == r.value.end
    decreases |t| - p
  {
    var q := SkipBlanks(t, p);
    if q == |t| then Ok(Token(Eof, q, q))
    else if t[q] == '#' then TokenFrom(t, CommentEnd(t, q), d)
    else BlanksSkipped(t, p); TokenAt(t, q, d)
  }

  lemma BlanksSkipped(t: string, p: nat)
    requires p <= |t|
    ensures SkipBlanks(t, p) < |t| ==> t[SkipBlanks(t, p)] != ' ' && t[SkipBlanks(t, p)] != '\t'
    decreases |t| - p
  {
  }

  function Tokens(t: string, p: nat, d: nat): (r: Result<seq<Token>, LexerError>)
    requires p <= |t|
    decreases |t| - p
  {
    var first := TokenFrom(t, p, d);
    if first.Err? then Err(first.error)
    else if first.value.kind == Eof then Ok([])
    else
      var rest := Tokens(t, first.value.end, d);
      if rest.Err? then rest else Ok([first.value] + rest.value)
  }

  /** Tokens already read, put before the outcome of reading the rest. */
  function After(tokens: seq<Token>, rest: Result<seq<Token>, LexerError>): Result<seq<Token>, LexerError> {
    if rest.Err? then rest else Ok(tokens + rest.value)
  }

  lemma AfterNothing(tokens: seq<Token>, rest: Result<seq<Token>, LexerError>)
    ensures After([], rest) == rest && After(tokens, Ok([])) == Ok(tokens)
  {
    assert tokens + [] == tokens && (rest.Ok? ==> [] + rest.value == rest.value);
  }

  lemma TokensContinue(t: string, p: nat, d: nat, tokens: seq<Token>)
    requires p <= |t| && TokenFrom(t, p, d).Ok? && TokenFrom(t, p, d).value.kind != Eof
    ensures var first := TokenFrom(t, p, d).value;
            After(tokens, Tokens(t, p, d)) == After(tokens + [first], Tokens(t, first.end, d))
  {
    var first := TokenFrom(t, p, d).value;
    var rest := Tokens(t, first.end, d);
    if rest.Ok? {
      assert tokens + ([first] + rest.value) == tokens + [first] + rest.value;
    }
  }

  lemma NothingLeft(t: string, d: nat)
    ensures Tokens(t, |t|, d) == Ok([])
  {
    assert SkipBlanks(t, |t|) == |t|;
  }

  lemma LastToken(t: string, p: nat, d: nat)
    requires p <= |t| && TokenFrom(t, p, d).Ok?
    requires TokenFrom(t, p, d).value.kind != Eof && TokenFrom(t, p, d).value.end == |t|
    ensures Tokens(t, p, d) == Ok([TokenFrom(t, p, d).value])
  {
    NothingLeft(t, d);
    AfterNothing([TokenFrom(t, p, d).value], Ok([]));
  }

  lemma FirstToken(t: string, p: nat, d: nat)
    requires p <= |t|
    ensures var r := Tokens(t, p, d); r.Ok? && r.value != [] ==> TokenFrom(t, p, d) == Ok(r.value[0])
  {
  }

  /** A byte that starts a word. */
  predicate StartsWord(c: char) { !IsWordBreak(c) && c != '#' && c != '\\' }

  lemma WordFrom(t: string, p: nat, d: nat)
    requires p < |t| && StartsWord(t[p])
    ensures var r := WordRest(t, p, d);
            TokenFrom(t, p, d) == if r.Fail? then Err(r.error) else Ok(Token(WordKind(t[p..r.pos]), p, r.pos))
  {
    assert SkipBlanks(t, p) == p;
  }

  /** A text that starts a word is one word token exactly when the word reaches its end. */
  lemma LoneWord(t: string, d: nat)
    requires t != [] && StartsWord(t[0])
    ensures forall kind: Kind :: kind.Word? ==>
              (Tokens(t, 0, d) == Ok([Token(kind, 0, |t|)]) <==> WordRest(t, 0, d) == At(|t|) && WordKind(t) == kind)
  {
    assert t[0..|t|] == t;
    WordFrom(t, 0, d);
    FirstToken(t, 0, d);
    if WordRest(t, 0, d) == At(|t|) && WordKind(t) != Eof { LastToken(t, 0, d); }
  }

  // ----- the tokens tile the source -----

  /** Between tokens there are only blanks, line continuations and comments. */
  predicate IsGap(t: string, p: nat, q: nat)
    requires p <= q <= |t|
    decreases q - p
  {
    || p == q
    || ((t[p] == ' ' || t[p] == '\t') && IsGap(t, p + 1, q))
    || (t[p] == '\\' && p + 2 <= q && t[p + 1] == '\n' && IsGap(t, p + 2, q))
    || (t[p] == '\\' && p + 3 <= q && t[p + 1] == '\r' && t[p + 2] == '\n' && IsGap(t, p + 3, q))
    || (t[p] == '#' && exists e :: p < e <= q && IsCommentText(t, p, e) && IsGap(t, e, q))
  }

  /** A comment runs to the end of its line. */
  predicate IsCommentText(t: string, p: nat, e: nat)
    requires p <= e <= |t|
  {
    (forall k | p <= k < e :: t[k] != '\n') && (e == |t| || t[e] == '\n')
  }

  /** Tokens that are non-empty, in order and disjoint, with only gaps around them. */
  predicate Tiles(t: string, p: nat, tokens: seq<Token>)
    requires p <= |t|
    decreases |tokens|
  {
    if tokens == [] then IsGap(t, p, |t|)
    else
      && p <= tokens[0].start < tokens[0].end <= |t|
      && IsGap(t, p, tokens[0].start)
      && Tiles(t, tokens[0].end, tokens[1..])
  }

  lemma {:induction false} BlanksThenGap(t: string, p: nat, q: nat)
    requires p <= q <= |t| && SkipBlanks(t, p) <= q && IsGap(t, SkipBlanks(t, p), q)
    ensures IsGap(t, p, q)
    decreases |t| - p
  {
    if SkipBlanks(t, p) != p {
      var next := if t[p] != '\\' then p + 1 else if t[p + 1] == '\n' then p + 2 else p + 3;
      BlanksThenGap(t, next, q);
    }
  }

  lemma {:induction false} CommentEndStops(t: string, p: nat)
    requires p <= |t|
    ensures IsCommentText(t, p, CommentEnd(t, p))
    decreases |t| - p
  {
    if p < |t| && t[p] != '\n' { CommentEndStops(t, p + 1); }
  }

  lemma {:induction false} GapBeforeToken(t: string, p: nat, d: nat)
    requires p <= |t| && TokenFrom(t, p, d).Ok?
    ensures IsGap(t, p, TokenFrom(t, p, d).value.start)
    decreases |t| - p
  {
    var q := SkipBlanks(t, p);
    var end := TokenFrom(t, p, d).value.start;
    if q < |t| && t[q] == '#' {
      var e := CommentEnd(t, q);
      CommentEndStops(t, q);
      GapBeforeToken(t, e, d);
      assert IsGap(t, q, end);
    }
    BlanksThenGap(t, p, end);
  }

  lemma {:induction false} TokensTile(t: string, p: nat, d: nat)
    requires p <= |t| && Tokens(t, p, d).Ok?
    ensures Tiles(t, p, Tokens(t, p, d).value)
    ensures forall i | 0 <= i < |Tokens(t, p, d).value| :: Tokens(t, p, d).value[i].kind != Eof
    decreases |t| - p
  {
    GapBeforeToken(t, p, d);
    var first := TokenFrom(t, p, d).value;
    if first.kind != Eof {
      TokensTile(t, first.end, d);
      var tokens := Tokens(t, p, d).value;
      assert tokens[0] == first && tokens[1..] == Tokens(t, first.end, d).value;
    }
  }
}
