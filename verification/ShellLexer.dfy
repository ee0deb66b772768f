/**
 * The lexer itself: scanners that advance a position through the source and
 * count the depth of nested substitutions. Each is proved to compute the
 * function of LexSpec that names its construct.
 */
module ShellLexer {
  import opened Wrappers
  import opened LexSpec
  import opened LexKinds
  import opened LexBalance

  datatype Mode = Normal | Comment

  class Lexer {
    const source: string
    var pos: nat
    var mode: Mode
    var substDepth: nat

    predicate Valid()
      reads this
    {
      pos <= |source| && substDepth <= MAX_LEX_DEPTH
    }

    /** A scanner's outcome: where it stopped, or why it gave up. */
    function Outcome(e: Option<LexerError>): (r: Scan)
      reads this
    {
      if e.None? then At(pos) else Fail(e.value)
    }

    constructor (text: string)
      ensures source == text && pos == 0 && mode == Normal && substDepth == 0 && Valid()
    {
      source, pos, mode, substDepth := text, 0, Normal, 0;
    }

    predicate Peek(offset: nat, c: char)
      reads this
    {
      Is(source, pos + offset, c)
    }

    function Unfinished(fault: Fault, start: nat): Option<LexerError>
      reads this
    {
      Some(LexerError(fault, start, pos))
    }

    method EnterSubst() returns (e: Option<LexerError>)
      requires Valid()
      modifies this`substDepth
      ensures Valid()
      ensures old(substDepth) >= MAX_LEX_DEPTH ==>
                substDepth == old(substDepth) && e == Some(LexerError(TooDeep, pos, pos))
      ensures old(substDepth) < MAX_LEX_DEPTH ==> substDepth == old(substDepth) + 1 && e == None
    {
      if substDepth >= MAX_LEX_DEPTH { return Unfinished(TooDeep, pos); }
      substDepth := substDepth + 1;
      e := None;
    }

    method ExitSubst()
      requires Valid()
      modifies this`substDepth
      ensures Valid() && substDepth == Minus(old(substDepth), 1)
    {
      substDepth := Minus(substDepth, 1);
    }

    method SkipBlankBytes()
      requires Valid()
      modifies this`pos
      ensures Valid() && pos == SkipBlanks(source, old(pos))
    {
      while true
        invariant Valid() && SkipBlanks(source, old(pos)) == SkipBlanks(source, pos)
        decreases |source| - pos
      {
        if Peek(0, ' ') || Peek(0, '\t') { pos := pos + 1; }
        else if Peek(0, '\\') && Peek(1, '\n') { pos := pos + 2; }
        else if Peek(0, '\\') && Peek(1, '\r') && Peek(2, '\n') { pos := pos + 3; }
        else { return; }
      }
    }

    method ConsumeComment()
      requires Valid()
      modifies this`pos
      ensures Valid() && pos == CommentEnd(source, old(pos))
    {
      while pos < |source| && source[pos] != '\n'
        invariant Valid() && CommentEnd(source, old(pos)) == CommentEnd(source, pos)
      {
        pos := pos + 1;
      }
    }

    method ConsumeSingleQuoted() returns (e: Option<LexerError>)
      requires Valid() && pos < |source|
      modifies this`pos
      ensures Valid() && Outcome(e) == Single(source, old(pos))
    {
      var start := pos;
      pos := pos + 1;
      while true
        invariant Valid() && SingleRest(source, pos, start) == Single(source, start)
        decreases |source| - pos
      {
        if pos == |source| { return Unfinished(SingleQuote, start); }
        if source[pos] == '\'' {
          pos := pos + 1;
          return None;
        }
        pos := pos + 1;
      }
    }

    method ConsumeBackslash()
      requires Valid() && pos < |source|
      modifies this`pos
      ensures Valid() && pos == AfterEscape(source, old(pos))
    {
      pos := pos + 1;
      if pos < |source| { pos := pos + 1; }
    }

    method ConsumeBacktick() returns (e: Option<LexerError>)
      requires Valid() && pos < |source|
      modifies this`pos
      ensures Valid() && Outcome(e) == BacktickRest(source, old(pos) + 1, old(pos))
    {
      var start := pos;
      pos := pos + 1;
      while true
        invariant Valid() && BacktickRest(source, pos, start) == BacktickRest(source, start + 1, start)
        decreases |source| - pos
      {
        if pos == |source| { return Unfinished(Backquote, start); }
        if source[pos] == '`' {
          pos := pos + 1;
          return None;
        } else if source[pos] == '\\' {
          ConsumeBackslash();
        } else {
          pos := pos + 1;
        }
      }
    }

    method ConsumeIdentifier()
      requires Valid()
      modifies this`pos
      ensures Valid() && pos == IdentifierEnd(source, old(pos))
    {
      while pos < |source| && (IsLetter(source[pos]) || IsDigit(source[pos]) || source[pos] == '_')
        invariant Valid() && IdentifierEnd(source, old(pos)) == IdentifierEnd(source, pos)
      {
        pos := pos + 1;
      }
    }

    method ConsumeExtglob() returns (e: Option<LexerError>)
      requires Valid() && pos + 2 <= |source|
      modifies this`pos
      ensures Valid() && Outcome(e) == FenceRest(source, old(pos) + 2, 1, old(pos), substDepth, GlobFence)
      ensures e.None? ==> FirstBalanced(source, old(pos) + 2, pos, 1, substDepth, GlobFence)
    {
      var start := pos;
      pos := pos + 2;
      var depth: nat := 1;
      while true
        invariant Valid() && depth >= 1
        invariant FenceRest(source, pos, depth, start, substDepth, GlobFence) ==
                  FenceRest(source, start + 2, 1, start, substDepth, GlobFence)
        decreases |source| - pos
      {
        if pos == |source| { return Unfinished(ExtendedGlob, start); }
        var b := source[pos];
        if b == '(' {
          depth := depth + 1;
          pos := pos + 1;
        } else if b == ')' {
          pos := pos + 1;
          depth := depth - 1;
          if depth == 0 {
            FenceEndsAtMatch(source, start + 2, pos, 1, start, substDepth, GlobFence);
            return None;
          }
        } else if b == '\\' {
          ConsumeBackslash();
        } else {
          pos := pos + 1;
        }
      }
    }

    // ----- the mutually recursive scanners -----

    method ConsumeDoubleQuoted() returns (e: Option<LexerError>)
      requires Valid() && pos < |source|
      modifies this`pos, this`substDepth
      ensures Valid() && substDepth == old(substDepth)
      ensures Outcome(e) == DoubleRest(source, old(pos) + 1, old(pos), substDepth)
      decreases |source| - pos, 0
    {
      var start := pos;
      pos := pos + 1;
      while true
        invariant Valid() && substDepth == old(substDepth) && pos > old(pos)
        invariant DoubleRest(source, pos, start, substDepth) == DoubleRest(source, start + 1, start, substDepth)
        decreases |source| - pos
      {
        if pos == |source| { return Unfinished(DoubleQuote, start); }
        var b := source[pos];
        if b == '"' {
          pos := pos + 1;
          return None;
        } else if b == '\\' {
          ConsumeBackslash();
        } else if b == '$' {
          e := ConsumeDollar();
          if e.Some? { return; }
        } else if b == '`' {
          e := ConsumeBacktick();
          if e.Some? { return; }
        } else {
          pos := pos + 1;
        }
      }
    }

    method ConsumeDollar() returns (e: Option<LexerError>)
      requires Valid() && pos < |source|
      modifies this`pos, this`substDepth
      ensures Valid() && substDepth == old(substDepth)
      ensures Outcome(e) == Dollar(source, old(pos), substDepth)
      decreases |source| - pos, 0
    {
      pos := pos + 1;
      e := None;
      if pos == |source| { return; }
      var b := source[pos];
      if b == '\'' {
        e := ConsumeSingleQuoted();
      } else if b == '(' {
        e := ConsumeDollarParen();
      } else if b == '{' {
        pos := pos + 1;
        e := ConsumeBraceParam();
      } else if IsLetter(b) || b == '_' {
        ConsumeIdentifier();
      } else if IsSpecialParam(b) {
        pos := pos + 1;
      }
    }

    method ConsumeDollarParen() returns (e: Option<LexerError>)
      requires Valid() && pos < |source|
      modifies this`pos, this`substDepth
      ensures Valid() && substDepth == old(substDepth)
      ensures Outcome(e) == DollarParen(source, old(pos), substDepth)
      decreases |source| - pos, 0
    {
      pos := pos + 1;
      e := EnterSubst();
      if e.Some? { return; }
      if Peek(0, '(') {
        pos := pos + 1;
        e := ConsumeArithmetic();
      } else {
        e := ConsumeCommandSubst();
      }
      ExitSubst();
    }

    method ConsumeCommandSubst() returns (e: Option<LexerError>)
      requires Valid()
      modifies this`pos, this`substDepth
      ensures Valid() && substDepth == old(substDepth)
      ensures Outcome(e) == FenceRest(source, old(pos), 1, Minus(old(pos), 2), substDepth, CommandFence)
      ensures e.None? ==> FirstBalanced(source, old(pos), pos, 1, substDepth, CommandFence)
      decreases |source| - pos, 2
    {
      var start := Minus(pos, 2);
      var depth: nat := 1;
      while true
        invariant Valid() && substDepth == old(substDepth) && pos >= old(pos) && depth >= 1
        invariant FenceRest(source, pos, depth, start, substDepth, CommandFence) ==
                  FenceRest(source, old(pos), 1, start, substDepth, CommandFence)
        decreases |source| - pos
      {
        if pos == |source| { return Unfinished(CommandSubstitution, start); }
        var b := source[pos];
        if b == '(' {
          depth := depth + 1;
          pos := pos + 1;
        } else if b == ')' {
          pos := pos + 1;
          depth := depth - 1;
          if depth == 0 {
            FenceEndsAtMatch(source, old(pos), pos, 1, start, substDepth, CommandFence);
            return None;
          }
        } else if b == '\'' || b == '"' || b == '$' {
          e := ConsumeQuoted();
          if e.Some? { return; }
        } else if b == '\\' {
          ConsumeBackslash();
        } else {
          pos := pos + 1;
        }
      }
    }

    method ConsumeArithmetic() returns (e: Option<LexerError>)
      requires Valid()
      modifies this`pos, this`substDepth
      ensures Valid() && substDepth == old(substDepth)
      ensures Outcome(e) == ArithmeticRest(source, old(pos), 0, 1, Minus(old(pos), 3), substDepth)
      ensures e.None? ==> FirstClosed(source, old(pos), substDepth, Level(0, 1), pos)
      decreases |source| - pos, 2
    {
      var start := Minus(pos, 3);
      var parenDepth: nat, dblDepth: nat := 0, 1;
      while true
        invariant Valid() && substDepth == old(substDepth) && pos >= old(pos) && dblDepth >= 1
        invariant ArithmeticRest(source, pos, parenDepth, dblDepth, start, substDepth) ==
                  ArithmeticRest(source, old(pos), 0, 1, start, substDepth)
        decreases |source| - pos
      {
        if pos == |source| { return Unfinished(Arithmetic, start); }
        var b := source[pos];
        if b == '(' {
          pos := pos + 1;
          if Peek(0, '(') {
            pos := pos + 1;
            dblDepth := dblDepth + 1;
          } else {
            parenDepth := parenDepth + 1;
          }
        } else if b == ')' {
          var closed;
          closed, parenDepth, dblDepth := ConsumeArithmeticCloseParen(parenDepth, dblDepth);
          if closed {
            ArithmeticEndsAtMatch(source, old(pos), pos, Level(0, 1), start, substDepth);
            return None;
          }
        } else if b == '\'' || b == '"' || b == '$' {
          e := ConsumeQuoted();
          if e.Some? { return; }
        } else if b == '\\' {
          ConsumeBackslash();
        } else {
          pos := pos + 1;
        }
      }
    }

    /** A closing parenthesis inside an arithmetic expansion. */
    method ConsumeArithmeticCloseParen(parenDepth: nat, dblDepth: nat)
      returns (closed: bool, parens: nat, doubles: nat)
      requires Valid() && pos < |source| && dblDepth >= 1
      modifies this`pos
      ensures Valid() && pos > old(pos) && (closed <==> doubles == 0)
      ensures parenDepth > 0 ==> pos == old(pos) + 1 && parens == parenDepth - 1 && doubles == dblDepth
      ensures parenDepth == 0 && !Is(source, old(pos) + 1, ')') ==>
                pos == old(pos) + 1 && parens == 0 && doubles == dblDepth
      ensures parenDepth == 0 && Is(source, old(pos) + 1, ')') ==>
                pos == old(pos) + 2 && parens == 0 && doubles == dblDepth - 1
    {
      parens, doubles := parenDepth, dblDepth;
      if parens > 0 {
        pos := pos + 1;
        return false, parens - 1, doubles;
      }
      if Peek(1, ')') {
        pos := pos + 2;
        return doubles == 1, parens, doubles - 1;
      }
      pos := pos + 1;
      closed := false;
    }

    method ConsumeBraceParam() returns (e: Option<LexerError>)
      requires Valid()
      modifies this`pos, this`substDepth
      ensures Valid() && substDepth == old(substDepth)
      ensures Outcome(e) == FenceRest(source, old(pos), 1, Minus(old(pos), 2), substDepth, BraceFence)
      ensures e.None? ==> FirstBalanced(source, old(pos), pos, 1, substDepth, BraceFence)
      decreases |source| - pos, 2
    {
      var start := Minus(pos, 2);
      var depth: nat := 1;
      while true
        invariant Valid() && substDepth == old(substDepth) && pos >= old(pos) && depth >= 1
        invariant FenceRest(source, pos, depth, start, substDepth, BraceFence) ==
                  FenceRest(source, old(pos), 1, start, substDepth, BraceFence)
        decreases |source| - pos
      {
        if pos == |source| { return Unfinished(ParameterExpansion, start); }
        var b := source[pos];
        if b == '{' {
          depth := depth + 1;
          pos := pos + 1;
        } else if b == '}' {
          pos := pos + 1;
          depth := depth - 1;
          if depth == 0 {
            FenceEndsAtMatch(source, old(pos), pos, 1, start, substDepth, BraceFence);
            return None;
          }
        } else if b == '\'' || b == '"' {
          e := ConsumeQuoted();
          if e.Some? { return; }
        } else if b == '\\' {
          ConsumeBackslash();
        } else {
          pos := pos + 1;
        }
      }
    }

    /** The nested quotation or expansion at the current byte. */
    method ConsumeQuoted() returns (e: Option<LexerError>)
      requires Valid() && pos < |source| && (source[pos] == '\'' || source[pos] == '"' || source[pos] == '$')
      modifies this`pos, this`substDepth
      ensures Valid() && substDepth == old(substDepth)
      ensures Outcome(e) == Quoted(source, old(pos), substDepth)
      decreases |source| - pos, 1
    {
      if source[pos] == '\'' {
        e := ConsumeSingleQuoted();
      } else if source[pos] == '"' {
        e := ConsumeDoubleQuoted();
      } else {
        e := ConsumeDollar();
      }
    }

    // ----- tokens -----

    method ReadWordPart() returns (e: Option<LexerError>)
      requires Valid() && pos < |source|
      modifies this`pos, this`substDepth
      ensures Valid() && substDepth == old(substDepth)
      ensures Outcome(e) == WordPart(source, old(pos), substDepth)
    {
      var b := source[pos];
      e := None;
      if b == '\'' {
        e := ConsumeSingleQuoted();
      } else if b == '"' {
        e := ConsumeDoubleQuoted();
      } else if b == '`' {
        e := ConsumeBacktick();
      } else if b == '\\' {
        ConsumeBackslash();
      } else if b == '$' {
        if Peek(1, '"') && !Peek(2, '(') {
          pos := pos + 1;
          e := ConsumeDoubleQuoted();
        } else {
          e := ConsumeDollar();
        }
      } else if IsExtglobOp(b) && Peek(1, '(') {
        e := ConsumeExtglob();
      } else {
        pos := pos + 1;
      }
    }

    method ReadWord() returns (r: Result<Token, LexerError>)
      requires Valid()
      modifies this`pos, this`substDepth
      ensures Valid() && substDepth == old(substDepth)
      ensures r.Ok? ==> WordRest(source, old(pos), substDepth) == At(pos) && pos >= old(pos)
                        && r.value == Token(WordKind(source[old(pos)..pos]), old(pos), pos)
      ensures r.Err? ==> WordRest(source, old(pos), substDepth) == Fail(r.error)
    {
      var start := pos;
      while pos < |source| && !IsWordBreak(source[pos])
        invariant Valid() && substDepth == old(substDepth) && pos >= start
        invariant WordRest(source, pos, substDepth) == WordRest(source, start, substDepth)
      {
        var e := ReadWordPart();
        if e.Some? { return Err(e.value); }
      }
      r := Ok(Token(WordKind(source[start..pos]), start, pos));
    }

    method ConsumeProcessSubst() returns (e: Option<LexerError>)
      requires Valid() && pos + 2 <= |source|
      modifies this`pos, this`substDepth
      ensures Valid() && substDepth == old(substDepth)
      ensures Outcome(e) == FenceRest(source, old(pos) + 2, 1, old(pos), substDepth, ProcessFence)
      ensures e.None? ==> FirstBalanced(source, old(pos) + 2, pos, 1, substDepth, ProcessFence)
    {
      var start := pos;
      pos := pos + 2;
      var depth: nat := 1;
      while true
        invariant Valid() && substDepth == old(substDepth) && pos >= old(pos) + 2 && depth >= 1
        invariant FenceRest(source, pos, depth, start, substDepth, ProcessFence) ==
                  FenceRest(source, start + 2, 1, start, substDepth, ProcessFence)
        decreases |source| - pos
      {
        if pos == |source| { return Unfinished(ProcessSubstitution, start); }
        var b := source[pos];
        if b == '(' {
          depth := depth + 1;
          pos := pos + 1;
        } else if b == ')' {
          pos := pos + 1;
          depth := depth - 1;
          if depth == 0 {
            FenceEndsAtMatch(source, start + 2, pos, 1, start, substDepth, ProcessFence);
            return None;
          }
        } else if b == '\'' || b == '"' || b == '$' {
          e := ConsumeQuoted();
          if e.Some? { return; }
        } else if b == '\\' {
          ConsumeBackslash();
        } else {
          pos := pos + 1;
        }
      }
    }

    method Op(kind: Kind, width: nat) returns (token: Token)
      requires Valid() && 1 <= width && pos + width <= |source|
      modifies this`pos
      ensures Valid() && pos == old(pos) + width && token == Token(kind, old(pos), pos)
    {
      token := Token(kind, pos, pos + width);
      pos := pos + width;
    }

    method OperatorToken() returns (token: Token)
      requires Valid() && pos < |source|
      requires source[pos] == '&' || source[pos] == '|' || source[pos] == '>' || source[pos] == '<'
      modifies this`pos
      ensures Valid() && token == Operator(source, old(pos)) && pos == token.end
    {
      var b := source[pos];
      if b == '&' {
        if Peek(1, '&') { token := Op(AndAnd, 2); }
        else if Peek(1, '>') && Peek(2, '>') { token := Op(AmpGreaterGreater, 3); }
        else if Peek(1, '>') { token := Op(AmpGreater, 2); }
        else { token := Op(Amp, 1); }
      } else if b == '|' {
        if Peek(1, '|') { token := Op(OrOr, 2); }
        else if Peek(1, '&') { token := Op(PipeAmp, 2); }
        else { token := Op(Pipe, 1); }
      } else if b == '>' {
        if Peek(1, '>') { token := Op(GreaterGreater, 2); }
        else if Peek(1, '|') { token := Op(GreaterPipe, 2); }
        else { token := Op(Greater, 1); }
      } else {
        if Peek(1, '<') && Peek(2, '<') { token := Op(LessLessLess, 3); }
        else if Peek(1, '<') && Peek(2, '-') { token := Op(LessLessDash, 3); }
        else if Peek(1, '<') { token := Op(LessLess, 2); }
        else if Peek(1, '>') { token := Op(LessGreater, 2); }
        else { token := Op(Less, 1); }
      }
    }

    /** The next token; a pending comment is skipped first. */
    method NextToken() returns (r: Result<Token, LexerError>)
      requires Valid() && (mode == Comment ==> Peek(0, '#'))
      modifies this
      ensures Valid() && substDepth == old(substDepth)
      ensures r == TokenFrom(source, if old(mode) == Normal then old(pos) else CommentEnd(source, old(pos)), substDepth)
      ensures r.Ok? ==> mode == Normal && pos == r.value.end
      decreases |source| - pos, if mode == Comment then 0 else 2
    {
      if mode == Comment {
        ConsumeComment();
        mode := Normal;
      }
      r := NextNormalToken();
    }

    method NextNormalToken() returns (r: Result<Token, LexerError>)
      requires Valid() && mode == Normal
      modifies this
      ensures Valid() && substDepth == old(substDepth)
      ensures r == TokenFrom(source, old(pos), substDepth)
      ensures r.Ok? ==> mode == Normal && pos == r.value.end
      decreases |source| - pos, 1
    {
      BlanksSkipped(source, pos);
      SkipBlankBytes();
      if pos == |source| { return Ok(Token(Eof, pos, pos)); }
      if source[pos] == '#' {
        mode := Comment;
        r := NextToken();
      } else {
        r := VisibleToken();
      }
    }

    method VisibleToken() returns (r: Result<Token, LexerError>)
      requires Valid() && pos < |source| && source[pos] != ' ' && source[pos] != '\t' && source[pos] != '#'
      modifies this`pos, this`substDepth
      ensures Valid() && substDepth == old(substDepth)
      ensures r == TokenAt(source, old(pos), substDepth)
      ensures r.Ok? ==> pos == r.value.end
    {
      var b := source[pos];
      if b == '\n' || b == ';' || b == '(' || b == ')' {
        var kind := if b == '\n' then Newline else if b == ';' then Semi else if b == '(' then LParen else RParen;
        var token := Op(kind, 1);
        r := Ok(token);
      } else if (b == '>' || b == '<') && Peek(1, '(') {
        var start := pos;
        var e := ConsumeProcessSubst();
        r := if e.Some? then Err(e.value) else Ok(Token(Word(false), start, pos));
      } else if b == '&' || b == '|' || b == '>' || b == '<' {
        var token := OperatorToken();
        r := Ok(token);
      } else {
        r := ReadWord();
      }
    }

    /**
     * All tokens of the source: non-empty, in order, disjoint, and separated by
     * nothing but blanks, line continuations and comments.
     */
    method TokenizeAll() returns (r: Result<seq<Token>, LexerError>)
      requires Valid() && mode == Normal
      modifies this
      ensures Valid() && substDepth == old(substDepth)
      ensures r == Tokens(source, old(pos), substDepth)
      ensures r.Ok? ==> Tiles(source, old(pos), r.value) && AllKinded(source, r.value)
    {
      ghost var all := Tokens(source, pos, substDepth);
      var tokens: seq<Token> := [];
      AfterNothing(tokens, all);
      while true
        invariant Valid() && mode == Normal && substDepth == old(substDepth)
        invariant all == After(tokens, Tokens(source, pos, substDepth))
        decreases |source| - pos
      {
        ghost var start := pos;
        var token := NextToken();
        if token.Err? { return Err(token.error); }
        if token.value.kind == Eof { break; }
        TokensContinue(source, start, substDepth, tokens);
        tokens := tokens + [token.value];
      }
      AfterNothing(tokens, all);
      TokensTile(source, old(pos), substDepth);
      TokensAreKinded(source, old(pos), substDepth);
      r := Ok(tokens);
    }
  }
}
