/**
 * The depth budget of the arithmetic evaluator is exact: a printed tree that
 * needs more than the budget always ends with an error recorded. A recorded
 * error is never taken back, and up to the first refused level the tokens are
 * read as those of the tree.
 */
module ArithDepth {
  import opened Wrappers
  import opened ArithSyntax
  import opened ArithSpec

  ghost predicate Fails(level: nat, ts: seq<Token>, st: State, depth: nat)
    requires level <= PRIMARY
  {
    ParseAt(level, ts, st, depth).st.error.Some?
  }

  predicate NoAssign(rest: seq<Token>) { rest == [] || !rest[0].AssignTok? }

  /** Parsing what was printed for `level` with too little depth left records an error. */
  lemma {:induction false} TooDeepFails(e: Expr, level: nat, rest: seq<Token>, st: State, depth: nat)
    requires level <= PRIMARY && NoAssign(rest)
    requires depth <= MAX_DEPTH < depth + Cost(e, level)
    ensures Fails(level, PrintAt(e, level) + rest, st, depth)
    decreases e, Prec(e) < level, PRIMARY - level, 1
  {
    if Prec(e) != level && level < PRIMARY {
      SameBelow(e, level);
      DescendFails(e, level, rest, st, depth);
    } else {
      match e
      case Sequence(_, _) =>
        if level == SEQUENCE { SequenceFails(e, rest, st, depth); } else { GroupFails(e, rest, st, depth); }
      case Ternary(_, _, _) =>
        if level == ASSIGN { TernaryFails(e, rest, st, depth); } else { GroupFails(e, rest, st, depth); }
      case Assign(_, _, _) =>
        if level == ASSIGN { AssignFails(e, rest, st, depth); } else { GroupFails(e, rest, st, depth); }
      case Binary(_, _, _) =>
        if level < PRIMARY { BinaryFails(e, rest, st, depth); } else { GroupFails(e, rest, st, depth); }
      case Pow(_, _) =>
        if level == POWER { PowerFails(e, rest, st, depth); } else { GroupFails(e, rest, st, depth); }
      case Unary(_, _) =>
        if level == UNARY { UnaryFails(e, rest, st, depth); } else { GroupFails(e, rest, st, depth); }
      case PreStep(_, _) =>
        if level < PRIMARY {
          AtLimitFails(level, PrintAt(e, level) + rest, st);
        } else {
          GroupFails(e, rest, st, depth);
        }
      case _ =>
    }
  }

  /** At the limit every counted level refuses. */
  lemma AtLimitFails(level: nat, ts: seq<Token>, st: State)
    requires level == ASSIGN || level == POWER || level == UNARY
    ensures Fails(level, ts, st, MAX_DEPTH)
  {
    assert ParsePower(ts, st, MAX_DEPTH).st.error.Some?;
  }

  /** A level that recognises nothing at `ts` hands through the next level's error. */
  lemma PassesFailure(level: nat, ts: seq<Token>, st: State, depth: nat)
    requires level < PRIMARY && depth + Guards(level, level) <= MAX_DEPTH
    requires Fails(level + 1, ts, st, depth + Guards(level, level))
    requires level == ASSIGN ==> !AtAssignment(ts)
    requires level == UNARY ==> ts != [] && (ts[0].Number? || ts[0].Ident? || ts[0].LParen?)
    ensures Fails(level, ts, st, depth)
  {
    if level == SEQUENCE {
      assert ParseExpr(ts, st, depth) == ExprLoop(ParseAssign(ts, st, depth), depth);
    } else if level == ASSIGN {
      assert ParseAssign(ts, st, depth) == ParseTernary(ts, st, depth + 1);
    } else if level < POWER {
      assert ParseBinary(ts, st, depth, level) == BinaryLoop(ParseBinary(ts, st, depth, level + 1), depth, level);
    } else if level == POWER {
      assert ParseBinary(ts, st, depth, level) == ParsePower(ts, st, depth);
    }
  }

  lemma {:induction false} DescendFails(e: Expr, level: nat, rest: seq<Token>, st: State, depth: nat)
    requires level < PRIMARY && Prec(e) != level && NoAssign(rest)
    requires depth <= MAX_DEPTH < depth + Guards(level, level) + Cost(e, level + 1)
    ensures Fails(level, PrintAt(e, level) + rest, st, depth)
    decreases e, Prec(e) < level, PRIMARY - level, 0
  {
    SameBelow(e, level);
    var ts := PrintAt(e, level + 1) + rest;
    if depth + Guards(level, level) > MAX_DEPTH {
      AtLimitFails(level, ts, st);
    } else {
      TooDeepFails(e, level + 1, rest, st, depth + Guards(level, level));
      if level == ASSIGN { NotAnAssignment(e, FIRST_BINARY, rest); }
      if level == UNARY { PrimaryHead(e); }
      PassesFailure(level, ts, st, depth);
    }
  }

  lemma {:induction false} GroupFails(e: Expr, rest: seq<Token>, st: State, depth: nat)
    requires Prec(e) < PRIMARY && NoAssign(rest)
    requires depth <= MAX_DEPTH < depth + Cost(e, PRIMARY)
    ensures Fails(PRIMARY, PrintAt(e, PRIMARY) + rest, st, depth)
    decreases e, true, 0, 0
  {
    var ts, close := PrintAt(e, PRIMARY) + rest, [RParen] + rest;
    assert ts == [LParen] + (Print(e) + close);
    assert ts[1..] == PrintAt(e, SEQUENCE) + close;
    TooDeepFails(e, SEQUENCE, close, st, depth);
  }

  lemma {:induction false} SequenceFails(e: Expr, rest: seq<Token>, st: State, depth: nat)
    requires e.Sequence? && NoAssign(rest)
    requires depth <= MAX_DEPTH < depth + Cost(e, SEQUENCE)
    ensures Fails(SEQUENCE, PrintAt(e, SEQUENCE) + rest, st, depth)
    decreases e, false, PRIMARY, 0
  {
    var a, b := PrintAt(e.first, SEQUENCE), PrintAt(e.second, ASSIGN);
    var more := [Comma] + (b + rest);
    Assoc(a, [Comma] + b, rest);
    Prepend(Comma, b, rest);
    if depth + Cost(e.first, SEQUENCE) > MAX_DEPTH {
      TooDeepFails(e.first, SEQUENCE, more, st, depth);
    } else {
      SequenceLoops(e.first, more, st, depth);
      TooDeepFails(e.second, ASSIGN, rest, Eval(e.first, st).1, depth);
      Prepend(Comma, b + rest, []);
    }
  }

  lemma {:induction false} AssignFails(e: Expr, rest: seq<Token>, st: State, depth: nat)
    requires e.Assign? && NoAssign(rest)
    requires depth <= MAX_DEPTH < depth + Cost(e, ASSIGN)
    ensures Fails(ASSIGN, PrintAt(e, ASSIGN) + rest, st, depth)
    decreases e, false, PRIMARY - ASSIGN, 0
  {
    var head, a := [Ident(e.name), AssignTok(e.assign)], PrintAt(e.rhs, ASSIGN);
    assert PrintAt(e, ASSIGN) == Print(e) == head + a;
    Assoc(head, a, rest);
    if depth == MAX_DEPTH {
      AtLimitFails(ASSIGN, head + (a + rest), st);
    } else {
      TooDeepFails(e.rhs, ASSIGN, rest, st, depth + 1);
      AssignHeadFails(e, a + rest, st, depth);
    }
  }

  lemma AssignHeadFails(e: Expr, ts: seq<Token>, st: State, depth: nat)
    requires e.Assign? && depth < MAX_DEPTH && ParseAssign(ts, st, depth + 1).st.error.Some?
    ensures ParseAssign([Ident(e.name), AssignTok(e.assign)] + ts, st, depth).st.error.Some?
  {
    var all := [Ident(e.name), AssignTok(e.assign)] + ts;
    assert all[2..] == ts && AtAssignment(all);
  }

  lemma {:induction false} TernaryFails(e: Expr, rest: seq<Token>, st: State, depth: nat)
    requires e.Ternary? && NoAssign(rest)
    requires depth <= MAX_DEPTH < depth + Cost(e, ASSIGN)
    ensures Fails(ASSIGN, PrintAt(e, ASSIGN) + rest, st, depth)
    decreases e, false, PRIMARY - ASSIGN, 0
  {
    var c, a, b := PrintAt(e.cond, FIRST_BINARY), PrintAt(e.yes, ASSIGN), PrintAt(e.no, ASSIGN);
    var afterA := [Colon] + (b + rest);
    var afterC := [Question] + (a + afterA);
    assert PrintAt(e, ASSIGN) + rest == c + afterC;
    if depth == MAX_DEPTH {
      AtLimitFails(ASSIGN, c + afterC, st);
    } else {
      NotAnAssignment(e.cond, FIRST_BINARY, afterC);
      if depth + 1 + Cost(e.cond, FIRST_BINARY) > MAX_DEPTH {
        TooDeepFails(e.cond, FIRST_BINARY, afterC, st, depth + 1);
      } else {
        ParseInvertsPrint(e.cond, FIRST_BINARY, afterC, st, depth + 1);
        BranchesFail(e, rest, Eval(e.cond, st).1, depth + 1);
      }
      TernaryHeadFails(c + afterC, a + afterA, st, depth);
    }
  }

  lemma TernaryHeadFails(ts: seq<Token>, ts1: seq<Token>, st: State, depth: nat)
    requires depth < MAX_DEPTH && !AtAssignment(ts)
    requires var cond := ParseBinary(ts, st, depth + 1, FIRST_BINARY);
             cond.st.error.Some? ||
             (&& cond.rest == [Question] + ts1
              && var yes := ParseAssign(ts1, cond.st, depth + 1);
                 ParseAssign(SkipColon(yes.rest), yes.st, depth + 1).st.error.Some?)
    ensures ParseAssign(ts, st, depth).st.error.Some?
  {
    assert ([Question] + ts1)[1..] == ts1;
    assert ParseAssign(ts, st, depth) == ParseTernary(ts, st, depth + 1);
  }

  /** One of the branches fails; the parser reads both. */
  lemma {:induction false} BranchesFail(e: Expr, rest: seq<Token>, st: State, depth: nat)
    requires e.Ternary? && NoAssign(rest) && depth <= MAX_DEPTH
    requires depth + Cost(e.yes, ASSIGN) > MAX_DEPTH || depth + Cost(e.no, ASSIGN) > MAX_DEPTH
    ensures var yes := ParseAssign(PrintAt(e.yes, ASSIGN) + ([Colon] + (PrintAt(e.no, ASSIGN) + rest)), st, depth);
            ParseAssign(SkipColon(yes.rest), yes.st, depth).st.error.Some?
    decreases e, false, 0, 0
  {
    var b := PrintAt(e.no, ASSIGN) + rest;
    if depth + Cost(e.yes, ASSIGN) > MAX_DEPTH {
      TooDeepFails(e.yes, ASSIGN, [Colon] + b, st, depth);
    } else {
      ParseInvertsPrint(e.yes, ASSIGN, [Colon] + b, st, depth);
      TooDeepFails(e.no, ASSIGN, rest, Eval(e.yes, st).1, depth);
      assert ([Colon] + b)[1..] == b;
    }
  }

  lemma {:induction false} BinaryFails(e: Expr, rest: seq<Token>, st: State, depth: nat)
    requires e.Binary? && NoAssign(rest)
    requires depth <= MAX_DEPTH < depth + Cost(e, Level(e.op))
    ensures Fails(Level(e.op), PrintAt(e, Level(e.op)) + rest, st, depth)
    decreases e, false, PRIMARY - Level(e.op), 0
  {
    var level := Level(e.op);
    var a, b := PrintAt(e.left, level), PrintAt(e.right, level + 1);
    var more := [Bin(e.op)] + (b + rest);
    assert PrintAt(e, level) + rest == a + more;
    if depth + Cost(e.left, level) > MAX_DEPTH {
      TooDeepFails(e.left, level, more, st, depth);
    } else {
      BinaryLoops(e.left, level, more, st, depth);
      TooDeepFails(e.right, level + 1, rest, Eval(e.left, st).1, depth);
      assert more[1..] == b + rest;
    }
  }

  lemma {:induction false} PowerFails(e: Expr, rest: seq<Token>, st: State, depth: nat)
    requires e.Pow? && NoAssign(rest)
    requires depth <= MAX_DEPTH < depth + Cost(e, POWER)
    ensures Fails(POWER, PrintAt(e, POWER) + rest, st, depth)
    decreases e, false, PRIMARY - POWER, 0
  {
    var a, b := PrintAt(e.base, UNARY), PrintAt(e.exp, POWER);
    assert PrintAt(e, POWER) == Print(e) == a + ([StarStar] + b);
    Assoc(a, [StarStar] + b, rest);
    Assoc([StarStar], b, rest);
    var ts := a + ([StarStar] + (b + rest));
    if depth == MAX_DEPTH {
      AtLimitFails(POWER, ts, st);
    } else {
      PowerOperandsFail(e, rest, st, depth + 1);
      PowerHeadFails(ts, b + rest, st, depth);
    }
  }

  /** The base fails, or it is read and the exponent behind it fails. */
  ghost predicate PowerStuck(ts: seq<Token>, tail: seq<Token>, st: State, depth: nat) {
    var base := ParseUnary(ts, st, depth);
    base.st.error.Some? || (base.rest == [StarStar] + tail && Fails(POWER, tail, base.st, depth))
  }

  lemma {:induction false} PowerOperandsFail(e: Expr, rest: seq<Token>, st: State, depth: nat)
    requires e.Pow? && NoAssign(rest) && depth <= MAX_DEPTH
    requires depth + Cost(e.base, UNARY) > MAX_DEPTH || depth + Cost(e.exp, POWER) > MAX_DEPTH
    ensures var tail := PrintAt(e.exp, POWER) + rest;
            PowerStuck(PrintAt(e.base, UNARY) + ([StarStar] + tail), tail, st, depth)
    decreases e, false, 0, 0
  {
    var more := [StarStar] + (PrintAt(e.exp, POWER) + rest);
    if depth + Cost(e.base, UNARY) > MAX_DEPTH {
      TooDeepFails(e.base, UNARY, more, st, depth);
    } else {
      ParseInvertsPrint(e.base, UNARY, more, st, depth);
      TooDeepFails(e.exp, POWER, rest, Eval(e.base, st).1, depth);
    }
  }

  lemma PowerHeadFails(ts: seq<Token>, tail: seq<Token>, st: State, depth: nat)
    requires depth < MAX_DEPTH && PowerStuck(ts, tail, st, depth + 1)
    ensures Fails(POWER, ts, st, depth)
  {
    var base := ParseUnary(ts, st, depth + 1);
    assert ([StarStar] + tail)[1..] == tail;
    assert ParseBinary(tail, base.st, depth + 1, POWER) == ParsePower(tail, base.st, depth + 1);
    assert ParseBinary(ts, st, depth, POWER) == ParsePower(ts, st, depth);
  }

  lemma {:induction false} UnaryFails(e: Expr, rest: seq<Token>, st: State, depth: nat)
    requires e.Unary? && NoAssign(rest)
    requires depth <= MAX_DEPTH < depth + Cost(e, UNARY)
    ensures Fails(UNARY, PrintAt(e, UNARY) + rest, st, depth)
    decreases e, false, PRIMARY - UNARY, 0
  {
    var a := PrintAt(e.arg, UNARY);
    assert PrintAt(e, UNARY) == Print(e) == [UnaryToken(e.un)] + a;
    Assoc([UnaryToken(e.un)], a, rest);
    if depth == MAX_DEPTH {
      AtLimitFails(UNARY, [UnaryToken(e.un)] + (a + rest), st);
    } else {
      TooDeepFails(e.arg, UNARY, rest, st, depth + 1);
      UnaryHeadFails(e, a + rest, st, depth);
    }
  }

  lemma UnaryHeadFails(e: Expr, ts: seq<Token>, st: State, depth: nat)
    requires e.Unary? && depth < MAX_DEPTH && ParseUnary(ts, st, depth + 1).st.error.Some?
    ensures ParseUnary([UnaryToken(e.un)] + ts, st, depth).st.error.Some?
  {
    var all := [UnaryToken(e.un)] + ts;
    assert all[1..] == ts;
    assert ParseUnary(all, st, depth) == UnaryRest(e.un, all, st, depth);
  }

  /**
   * The budget is exact: within it a printed tree gives its value and state,
   * beyond it an error is recorded.
   */
  lemma BudgetIsExact(e: Expr, st: State)
    ensures Cost(e, SEQUENCE) <= MAX_DEPTH ==> EvalTokens(Print(e), st) == Eval(e, st)
    ensures Cost(e, SEQUENCE) > MAX_DEPTH ==> EvalTokens(Print(e), st).1.error.Some?
  {
    if Cost(e, SEQUENCE) <= MAX_DEPTH {
      EvalOfPrinted(e, st);
    } else {
      TooDeepFails(e, SEQUENCE, [], st, 0);
      PrintIsNotEmpty(e);
      assert Print(e) + [] == Print(e);
    }
  }
}
