/**
 * The recursive-descent evaluator of arithmetic expressions as functions on
 * the tokens still to be read, and the theorem that it computes the value of
 * every syntax tree from its printed form.
 */
module ArithSpec {
  import opened Wrappers
  import opened Int64
  import opened ArithSyntax

  /** What a parse function leaves: a value, the unread tokens and the state. */
  datatype Parsed = Parsed(value: I64, rest: seq<Token>, st: State)

  predicate At(ts: seq<Token>, t: Token) {
    ts != [] && ts[0] == t
  }

  predicate AtBinary(ts: seq<Token>, level: nat) {
    ts != [] && ts[0].Bin? && Level(ts[0].op) == level
  }

  predicate AtAssignment(ts: seq<Token>) {
    |ts| >= 2 && ts[0].Ident? && ts[1].AssignTok?
  }

  function TooDeep(ts: seq<Token>, st: State): Parsed {
    Parsed(0, ts, st.Fail(RecursionLimit))
  }

  function ParseExpr(ts: seq<Token>, st: State, depth: nat): (r: Parsed)
    ensures |r.rest| <= |ts|
    ensures st.error.Some? ==> r.st.error.Some?
    decreases |ts|, 20
  {
    ExprLoop(ParseAssign(ts, st, depth), depth)
  }

  function ExprLoop(p: Parsed, depth: nat): (r: Parsed)
    ensures |r.rest| <= |p.rest|
    ensures p.st.error.Some? ==> r.st.error.Some?
    decreases |p.rest|, 19
  {
    if At(p.rest, Comma) then ExprLoop(ParseAssign(p.rest[1..], p.st, depth), depth) else p
  }

  function ParseAssign(ts: seq<Token>, st: State, depth: nat): (r: Parsed)
    ensures |r.rest| <= |ts|
    ensures st.error.Some? ==> r.st.error.Some?
    decreases |ts|, 18
  {
    if depth >= MAX_DEPTH then TooDeep(ts, st)
    else if AtAssignment(ts) then
      var p := ParseAssign(ts[2..], st, depth + 1);
      var v := ApplyAssign(ts[1].assign, p.st.Get(ts[0].name), p.value);
      Parsed(v, p.rest, p.st.Put(ts[0].name, v))
    else ParseTernary(ts, st, depth + 1)
  }

  function ParseTernary(ts: seq<Token>, st: State, depth: nat): (r: Parsed)
    ensures |r.rest| <= |ts|
    ensures st.error.Some? ==> r.st.error.Some?
    decreases |ts|, 17
  {
    var cond := ParseBinary(ts, st, depth, FIRST_BINARY);
    if At(cond.rest, Question) then
      var yes := ParseAssign(cond.rest[1..], cond.st, depth);
      var no := ParseAssign(SkipColon(yes.rest), yes.st, depth);
      Parsed(if cond.value != 0 then yes.value else no.value, no.rest, no.st)
    else cond
  }

  function SkipColon(ts: seq<Token>): (r: seq<Token>)
    ensures |r| <= |ts|
  {
    if At(ts, Colon) then ts[1..] else ts
  }

  function ParseBinary(ts: seq<Token>, st: State, depth: nat, level: nat): (r: Parsed)
    requires FIRST_BINARY <= level <= POWER
    ensures |r.rest| <= |ts|
    ensures st.error.Some? ==> r.st.error.Some?
    decreases |ts|, 16 - level
  {
    if level == POWER then ParsePower(ts, st, depth)
    else BinaryLoop(ParseBinary(ts, st, depth, level + 1), depth, level)
  }

  function BinaryLoop(p: Parsed, depth: nat, level: nat): (r: Parsed)
    requires FIRST_BINARY <= level < POWER
    ensures |r.rest| <= |p.rest|
    ensures p.st.error.Some? ==> r.st.error.Some?
    decreases |p.rest|, 3
  {
    if AtBinary(p.rest, level) then
      var q := ParseBinary(p.rest[1..], p.st, depth, level + 1);
      var op := p.rest[0].op;
      BinaryLoop(Parsed(Apply(op, p.value, q.value), q.rest, Checked(op, q.value, q.st)), depth, level)
    else p
  }

  function ParsePower(ts: seq<Token>, st: State, depth: nat): (r: Parsed)
    ensures |r.rest| <= |ts|
    ensures st.error.Some? ==> r.st.error.Some?
    decreases |ts|, 2
  {
    if depth >= MAX_DEPTH then TooDeep(ts, st)
    else
      var p := ParseUnary(ts, st, depth + 1);
      if At(p.rest, StarStar) then
        var q := ParsePower(p.rest[1..], p.st, depth + 1);
        Parsed(PowSpec(p.value, q.value), q.rest, q.st)
      else p
  }

  function ParseUnary(ts: seq<Token>, st: State, depth: nat): (r: Parsed)
    ensures |r.rest| <= |ts|
    ensures st.error.Some? ==> r.st.error.Some?
    decreases |ts|, 1
  {
    if depth >= MAX_DEPTH then TooDeep(ts, st)
    else if At(ts, Bang) then UnaryRest(Not, ts, st, depth)
    else if At(ts, Tilde) then UnaryRest(Complement, ts, st, depth)
    else if At(ts, Bin(Plus)) then UnaryRest(Positive, ts, st, depth)
    else if At(ts, Bin(Minus)) then UnaryRest(Negative, ts, st, depth)
    else if At(ts, PlusPlus) then ParsePreStep(ts, st, true)
    else if At(ts, MinusMinus) then ParsePreStep(ts, st, false)
    else ParsePrimary(ts, st, depth + 1)
  }

  function UnaryRest(op: UnOp, ts: seq<Token>, st: State, depth: nat): (r: Parsed)
    requires ts != []
    ensures |r.rest| <= |ts|
    ensures st.error.Some? ==> r.st.error.Some?
    decreases |ts|, 0
  {
    var p := ParseUnary(ts[1..], st, depth + 1);
    Parsed(ApplyUnary(op, p.value), p.rest, p.st)
  }

  function ParsePreStep(ts: seq<Token>, st: State, up: bool): (r: Parsed)
    requires ts != []
    ensures |r.rest| <= |ts|
    ensures st.error.Some? ==> r.st.error.Some?
  {
    if |ts| >= 2 && ts[1].Ident? then
      var st1 := Stepped(st, ts[1].name, up);
      Parsed(st1.Get(ts[1].name), ts[2..], st1)
    else Parsed(0, ts[1..], st)
  }

  function ParsePrimary(ts: seq<Token>, st: State, depth: nat): (r: Parsed)
    ensures |r.rest| <= |ts|
    ensures st.error.Some? ==> r.st.error.Some?
    decreases |ts|, 0
  {
    if ts == [] then Parsed(0, ts, st)
    else match ts[0]
      case Number(n) => Parsed(n, ts[1..], st)
      case Ident(x) =>
        if At(ts[1..], PlusPlus) then Parsed(st.Get(x), ts[2..], Stepped(st, x, true))
        else if At(ts[1..], MinusMinus) then Parsed(st.Get(x), ts[2..], Stepped(st, x, false))
        else Parsed(st.Get(x), ts[1..], st)
      case LParen =>
        var p := ParseExpr(ts[1..], st, depth);
        Parsed(p.value, if At(p.rest, RParen) then p.rest[1..] else p.rest, p.st)
      case _ => Parsed(0, ts[1..], st)
  }

  // ----- the parser inverts the printer -----

  /** The parse function for a precedence level. */
  function ParseAt(level: nat, ts: seq<Token>, st: State, depth: nat): (r: Parsed)
    requires level <= PRIMARY
  {
    if level == SEQUENCE then ParseExpr(ts, st, depth)
    else if level == ASSIGN then ParseAssign(ts, st, depth)
    else if level <= POWER then ParseBinary(ts, st, depth, level)
    else if level == UNARY then ParseUnary(ts, st, depth)
    else ParsePrimary(ts, st, depth)
  }

  /** The loosest level at which the parser would go on reading at `t`. */
  function Continues(t: Token): (l: int)
    ensures l <= PRIMARY
  {
    match t
    case Comma => SEQUENCE
    case Question => ASSIGN
    case Bin(op) => Level(op)
    case StarStar => POWER
    case PlusPlus | MinusMinus | AssignTok(_) => PRIMARY
    case _ => -1
  }

  predicate Ends(rest: seq<Token>, level: nat) {
    rest == [] || Continues(rest[0]) < level
  }

  function Outcome(e: Expr, rest: seq<Token>, st: State): Parsed {
    var (v, st1) := Eval(e, st);
    Parsed(v, rest, st1)
  }

  lemma Prepend(t: Token, ts: seq<Token>, rest: seq<Token>)
    ensures ([t] + ts) + rest == [t] + (ts + rest)
    ensures ([t] + ts)[1..] == ts && ([t] + ts)[0] == t
  {
  }

  lemma Assoc(a: seq<Token>, b: seq<Token>, c: seq<Token>)
    ensures (a + b) + c == a + (b + c)
  {
  }

  /** An expression printed for a level above assignment does not read as one. */
  lemma {:induction false} NotAnAssignment(e: Expr, level: nat, rest: seq<Token>)
    requires FIRST_BINARY <= level <= PRIMARY
    requires rest == [] || !rest[0].AssignTok?
    ensures PrintAt(e, level) != []
    ensures !AtAssignment(PrintAt(e, level) + rest)
    decreases e
  {
    if Prec(e) >= level {
      match e
      case Unary(op, a) =>
      case Pow(a, b) =>
        var tail := [StarStar] + PrintAt(b, POWER);
        NotAnAssignment(a, UNARY, tail + rest);
        Assoc(PrintAt(a, UNARY), tail, rest);
      case Binary(op, a, b) =>
        var tail := [Bin(op)] + PrintAt(b, Level(op) + 1);
        NotAnAssignment(a, Level(op), tail + rest);
        Assoc(PrintAt(a, Level(op)), tail, rest);
      case _ =>
    }
  }

  /** At a level tighter than `e` or looser than its parentheses nothing changes. */
  lemma SameBelow(e: Expr, level: nat)
    requires level < PRIMARY && level != Prec(e)
    ensures PrintAt(e, level) == PrintAt(e, level + 1)
    ensures Cost(e, level) == Guards(level, level) + Cost(e, level + 1)
  {
  }

  /**
   * Parsing the printed form of a tree at the level it was printed for
   * consumes exactly the printed tokens and yields the tree's value and the
   * state its evaluation leaves.
   */
  lemma {:induction false} ParseInvertsPrint(e: Expr, level: nat, rest: seq<Token>, st: State, depth: nat)
    requires level <= PRIMARY && Ends(rest, level)
    requires depth + Cost(e, level) <= MAX_DEPTH
    ensures ParseAt(level, PrintAt(e, level) + rest, st, depth) == Outcome(e, rest, st)
    decreases e, Prec(e) < level, PRIMARY - level, 1
  {
    if Prec(e) != level && level < PRIMARY {
      SameBelow(e, level);
      Descend(e, level, rest, st, depth);
    } else {
      match e
      case Sequence(_, _) =>
        if level == SEQUENCE { SequenceLoops(e, rest, st, depth); } else { GroupCase(e, rest, st, depth); }
      case Ternary(_, _, _) =>
        if level == ASSIGN { TernaryCase(e, rest, st, depth); } else { GroupCase(e, rest, st, depth); }
      case Assign(_, _, _) =>
        if level == ASSIGN { AssignCase(e, rest, st, depth); } else { GroupCase(e, rest, st, depth); }
      case Binary(_, _, _) =>
        if level < PRIMARY { BinaryLoops(e, level, rest, st, depth); } else { GroupCase(e, rest, st, depth); }
      case Pow(_, _) =>
        if level == POWER { PowerCase(e, rest, st, depth); } else { GroupCase(e, rest, st, depth); }
      case Unary(_, _) =>
        if level == UNARY { UnaryCase(e, rest, st, depth); } else { GroupCase(e, rest, st, depth); }
      case PreStep(x, up) =>
        if level == UNARY { PreStepCase(x, up, rest, st, depth); } else { GroupCase(e, rest, st, depth); }
      case _ => LeafCase(e, rest, st, depth);
    }
  }

  /** A level that recognises nothing at `ts` hands through the next level's result. */
  lemma Passes(level: nat, ts: seq<Token>, p: Parsed, st: State, depth: nat)
    requires level < PRIMARY && depth + Guards(level, level) <= MAX_DEPTH
    requires p == ParseAt(level + 1, ts, st, depth + Guards(level, level)) && Ends(p.rest, level)
    requires level == ASSIGN ==> !AtAssignment(ts)
    requires level == UNARY ==> ts != [] && (ts[0].Number? || ts[0].Ident? || ts[0].LParen?)
    ensures ParseAt(level, ts, st, depth) == p
  {
    if level == SEQUENCE {
      assert ParseExpr(ts, st, depth) == ExprLoop(p, depth);
    } else if level == ASSIGN {
      assert ParseAssign(ts, st, depth) == ParseTernary(ts, st, depth + 1);
    } else if level < POWER {
      assert ParseBinary(ts, st, depth, level) == BinaryLoop(p, depth, level);
    } else if level == POWER {
      assert ParsePower(ts, st, depth) == p;
    }
  }

  lemma {:induction false} Descend(e: Expr, level: nat, rest: seq<Token>, st: State, depth: nat)
    requires level < PRIMARY && Prec(e) != level && Ends(rest, level)
    requires depth + Guards(level, level) + Cost(e, level + 1) <= MAX_DEPTH
    ensures ParseAt(level, PrintAt(e, level + 1) + rest, st, depth) == Outcome(e, rest, st)
    decreases e, Prec(e) < level, PRIMARY - level, 0
  {
    var ts, p := PrintAt(e, level + 1) + rest, Outcome(e, rest, st);
    ParseInvertsPrint(e, level + 1, rest, st, depth + Guards(level, level));
    assert p.rest == rest;
    if level == ASSIGN { NotAnAssignment(e, FIRST_BINARY, rest); }
    if level == UNARY { PrimaryHead(e); }
    Passes(level, ts, p, st, depth);
  }

  /** Left-associative lists: after `e`, the comma loop goes on from its value. */
  lemma {:induction false} SequenceLoops(e: Expr, rest: seq<Token>, st: State, depth: nat)
    requires Ends(rest, ASSIGN)
    requires depth + Cost(e, SEQUENCE) <= MAX_DEPTH
    ensures ParseExpr(PrintAt(e, SEQUENCE) + rest, st, depth) == ExprLoop(Outcome(e, rest, st), depth)
    decreases e, false, PRIMARY, 0
  {
    if e.Sequence? {
      var a, b := PrintAt(e.first, SEQUENCE), PrintAt(e.second, ASSIGN);
      var more := [Comma] + (b + rest);
      Assoc(a, [Comma] + b, rest);
      Prepend(Comma, b, rest);
      SequenceLoops(e.first, more, st, depth);
      Prepend(Comma, b + rest, []);
      ParseInvertsPrint(e.second, ASSIGN, rest, Eval(e.first, st).1, depth);
    } else {
      SameBelow(e, SEQUENCE);
      ParseInvertsPrint(e, ASSIGN, rest, st, depth);
    }
  }

  lemma AssignHead(e: Expr, ts: seq<Token>, rest: seq<Token>, st: State, depth: nat)
    requires e.Assign? && depth < MAX_DEPTH
    requires ParseAssign(ts, st, depth + 1) == Outcome(e.rhs, rest, st)
    ensures ParseAssign([Ident(e.name), AssignTok(e.assign)] + ts, st, depth) == Outcome(e, rest, st)
  {
    var all := [Ident(e.name), AssignTok(e.assign)] + ts;
    assert all[2..] == ts && AtAssignment(all);
  }

  lemma {:induction false} AssignCase(e: Expr, rest: seq<Token>, st: State, depth: nat)
    requires e.Assign? && Ends(rest, ASSIGN)
    requires depth + Cost(e, ASSIGN) <= MAX_DEPTH
    ensures ParseAssign(PrintAt(e, ASSIGN) + rest, st, depth) == Outcome(e, rest, st)
    decreases e, false, PRIMARY - ASSIGN, 0
  {
    ParseInvertsPrint(e.rhs, ASSIGN, rest, st, depth + 1);
    AssignHead(e, PrintAt(e.rhs, ASSIGN) + rest, rest, st, depth);
    Assoc([Ident(e.name), AssignTok(e.assign)], PrintAt(e.rhs, ASSIGN), rest);
  }

  lemma {:induction false} TernaryCase(e: Expr, rest: seq<Token>, st: State, depth: nat)
    requires e.Ternary? && Ends(rest, ASSIGN)
    requires depth + Cost(e, ASSIGN) <= MAX_DEPTH
    ensures ParseAssign(PrintAt(e, ASSIGN) + rest, st, depth) == Outcome(e, rest, st)
    decreases e, false, PRIMARY - ASSIGN, 0
  {
    var c, a, b := PrintAt(e.cond, FIRST_BINARY), PrintAt(e.yes, ASSIGN), PrintAt(e.no, ASSIGN);
    var afterA := [Colon] + (b + rest);
    var afterC := [Question] + (a + afterA);
    var st1 := Eval(e.cond, st).1;
    ParseInvertsPrint(e.cond, FIRST_BINARY, afterC, st, depth + 1);
    ParseInvertsPrint(e.yes, ASSIGN, afterA, st1, depth + 1);
    ParseInvertsPrint(e.no, ASSIGN, rest, Eval(e.yes, st1).1, depth + 1);
    TernaryHead(e, c + afterC, a + afterA, b + rest, rest, st, depth + 1);
    NotAnAssignment(e.cond, FIRST_BINARY, afterC);
    TernaryTokens(e, rest);
    NoAssignment(c + afterC, st, depth);
  }

  lemma TernaryTokens(e: Expr, rest: seq<Token>)
    requires e.Ternary?
    ensures PrintAt(e, ASSIGN) + rest ==
            PrintAt(e.cond, FIRST_BINARY) +
            ([Question] + (PrintAt(e.yes, ASSIGN) + ([Colon] + (PrintAt(e.no, ASSIGN) + rest))))
  {
    var c, a, b := PrintAt(e.cond, FIRST_BINARY), PrintAt(e.yes, ASSIGN), PrintAt(e.no, ASSIGN);
    Assoc(c, [Question] + (a + ([Colon] + b)), rest);
    Assoc([Question], a + ([Colon] + b), rest);
    Assoc(a, [Colon] + b, rest);
    Assoc([Colon], b, rest);
  }

  lemma NoAssignment(ts: seq<Token>, st: State, depth: nat)
    requires depth < MAX_DEPTH && !AtAssignment(ts)
    ensures ParseAssign(ts, st, depth) == ParseTernary(ts, st, depth + 1)
  {
  }

  lemma TernaryHead(e: Expr, ts: seq<Token>, ts1: seq<Token>, ts2: seq<Token>, rest: seq<Token>, st: State, depth: nat)
    requires e.Ternary?
    requires ParseBinary(ts, st, depth, FIRST_BINARY) == Outcome(e.cond, [Question] + ts1, st)
    requires ParseAssign(ts1, Eval(e.cond, st).1, depth) == Outcome(e.yes, [Colon] + ts2, Eval(e.cond, st).1)
    requires var st2 := Eval(e.yes, Eval(e.cond, st).1).1;
             ParseAssign(ts2, st2, depth) == Outcome(e.no, rest, st2)
    ensures ParseTernary(ts, st, depth) == Outcome(e, rest, st)
  {
    assert ([Question] + ts1)[1..] == ts1 && ([Colon] + ts2)[1..] == ts2;
  }

  /** Left-associative operators: after `e`, the loop of `level` goes on from its value. */
  lemma {:induction false} BinaryLoops(e: Expr, level: nat, rest: seq<Token>, st: State, depth: nat)
    requires FIRST_BINARY <= level < POWER && Ends(rest, level + 1)
    requires depth + Cost(e, level) <= MAX_DEPTH
    ensures ParseBinary(PrintAt(e, level) + rest, st, depth, level) ==
            BinaryLoop(Outcome(e, rest, st), depth, level)
    decreases e, Prec(e) < level, PRIMARY - level, 0
  {
    if Prec(e) == level {
      var a, b := PrintAt(e.left, level), PrintAt(e.right, level + 1);
      var more := [Bin(e.op)] + (b + rest);
      assert PrintAt(e, level) + rest == a + more;
      BinaryLoops(e.left, level, more, st, depth);
      assert more[1..] == b + rest;
      ParseInvertsPrint(e.right, level + 1, rest, Eval(e.left, st).1, depth);
    } else {
      SameBelow(e, level);
      ParseInvertsPrint(e, level + 1, rest, st, depth);
    }
  }

  lemma PowerHead(e: Expr, ts: seq<Token>, tail: seq<Token>, rest: seq<Token>, st: State, depth: nat)
    requires e.Pow? && depth < MAX_DEPTH
    requires ParseUnary(ts, st, depth + 1) == Outcome(e.base, [StarStar] + tail, st)
    requires ParsePower(tail, Eval(e.base, st).1, depth + 1) == Outcome(e.exp, rest, Eval(e.base, st).1)
    ensures ParsePower(ts, st, depth) == Outcome(e, rest, st)
  {
    assert ([StarStar] + tail)[1..] == tail;
  }

  lemma {:induction false} PowerCase(e: Expr, rest: seq<Token>, st: State, depth: nat)
    requires e.Pow? && Ends(rest, POWER)
    requires depth + Cost(e, POWER) <= MAX_DEPTH
    ensures ParsePower(PrintAt(e, POWER) + rest, st, depth) == Outcome(e, rest, st)
    decreases e, false, PRIMARY - POWER, 0
  {
    PowerCost(e);
    PowerOperands(e, PrintAt(e.base, UNARY), PrintAt(e.exp, POWER), rest, st, depth);
    PowerTokens(e, rest);
  }

  lemma {:induction false} PowerOperands(e: Expr, a: seq<Token>, b: seq<Token>, rest: seq<Token>, st: State, depth: nat)
    requires e.Pow? && Ends(rest, POWER) && a == PrintAt(e.base, UNARY) && b == PrintAt(e.exp, POWER)
    requires depth + 1 + Max(Cost(e.base, UNARY), Cost(e.exp, POWER)) <= MAX_DEPTH
    ensures ParsePower(a + ([StarStar] + (b + rest)), st, depth) == Outcome(e, rest, st)
    decreases e, false, 0, 0
  {
    var more := [StarStar] + (b + rest);
    ParseInvertsPrint(e.base, UNARY, more, st, depth + 1);
    ParseInvertsPrint(e.exp, POWER, rest, Eval(e.base, st).1, depth + 1);
    AtPower(b + rest, Eval(e.base, st).1, depth + 1);
    PowerHead(e, a + more, b + rest, rest, st, depth);
  }

  lemma AtPower(ts: seq<Token>, st: State, depth: nat)
    ensures ParseAt(POWER, ts, st, depth) == ParsePower(ts, st, depth)
  {
  }

  lemma PowerCost(e: Expr)
    requires e.Pow?
    ensures Cost(e, POWER) == 1 + Max(Cost(e.base, UNARY), Cost(e.exp, POWER))
  {
  }

  lemma PowerTokens(e: Expr, rest: seq<Token>)
    requires e.Pow?
    ensures PrintAt(e, POWER) + rest == PrintAt(e.base, UNARY) + ([StarStar] + (PrintAt(e.exp, POWER) + rest))
  {
    Assoc(PrintAt(e.base, UNARY), [StarStar] + PrintAt(e.exp, POWER), rest);
    Assoc([StarStar], PrintAt(e.exp, POWER), rest);
  }

  lemma PreStepCase(x: string, up: bool, rest: seq<Token>, st: State, depth: nat)
    requires depth < MAX_DEPTH
    ensures ParseUnary([StepToken(up), Ident(x)] + rest, st, depth) == Outcome(PreStep(x, up), rest, st)
  {
    var ts := [StepToken(up), Ident(x)] + rest;
    assert ts[0] == StepToken(up) && ts[1] == Ident(x) && ts[2..] == rest;
  }

  lemma UnaryHead(e: Expr, ts: seq<Token>, rest: seq<Token>, st: State, depth: nat)
    requires e.Unary? && depth < MAX_DEPTH
    requires ParseUnary(ts, st, depth + 1) == Outcome(e.arg, rest, st)
    ensures ParseUnary([UnaryToken(e.un)] + ts, st, depth) == Outcome(e, rest, st)
  {
    var all := [UnaryToken(e.un)] + ts;
    assert all[1..] == ts;
    assert ParseUnary(all, st, depth) == UnaryRest(e.un, all, st, depth);
  }

  /** What is printed for the tightest level starts with no prefix operator. */
  lemma PrimaryHead(e: Expr)
    ensures var ts := PrintAt(e, PRIMARY);
            ts != [] && (ts[0].Number? || ts[0].Ident? || ts[0].LParen?)
  {
  }

  lemma {:induction false} UnaryCase(e: Expr, rest: seq<Token>, st: State, depth: nat)
    requires e.Unary? && Ends(rest, UNARY)
    requires depth + Cost(e, UNARY) <= MAX_DEPTH
    ensures ParseUnary(PrintAt(e, UNARY) + rest, st, depth) == Outcome(e, rest, st)
    decreases e, false, PRIMARY - UNARY, 0
  {
    ParseInvertsPrint(e.arg, UNARY, rest, st, depth + 1);
    UnaryHead(e, PrintAt(e.arg, UNARY) + rest, rest, st, depth);
    Assoc([UnaryToken(e.un)], PrintAt(e.arg, UNARY), rest);
  }

  lemma LeafCase(e: Expr, rest: seq<Token>, st: State, depth: nat)
    requires e.Num? || e.Var? || e.PostStep?
    requires Ends(rest, PRIMARY)
    ensures ParsePrimary(Print(e) + rest, st, depth) == Outcome(e, rest, st)
  {
    var ts := Print(e) + rest;
    match e
    case Num(n) =>
      assert ts[1..] == rest;
    case Var(x) =>
      assert ts[1..] == rest;
    case PostStep(x, up) =>
      assert ts[1] == StepToken(up) && ts[2..] == rest;
  }

  lemma {:induction false} GroupCase(e: Expr, rest: seq<Token>, st: State, depth: nat)
    requires Prec(e) < PRIMARY && Ends(rest, PRIMARY)
    requires depth + Cost(e, PRIMARY) <= MAX_DEPTH
    ensures ParsePrimary(PrintAt(e, PRIMARY) + rest, st, depth) == Outcome(e, rest, st)
    decreases e, true, 0, 0
  {
    var ts, close := PrintAt(e, PRIMARY) + rest, [RParen] + rest;
    assert ts == [LParen] + (Print(e) + close);
    assert ts[1..] == PrintAt(e, SEQUENCE) + close && close[1..] == rest;
    ParseInvertsPrint(e, SEQUENCE, close, st, depth);
  }

  /** `eval_arithmetic` on tokens: nothing to read evaluates to 0. */
  function EvalTokens(ts: seq<Token>, st: State): (r: (I64, State)) {
    if ts == [] then (0, st) else var p := ParseExpr(ts, st, 0); (p.value, p.st)
  }

  /**
   * Every tree within the depth budget, printed with just the parentheses it
   * needs, evaluates to its value and leaves the state its evaluation leaves.
   */
  lemma EvalOfPrinted(e: Expr, st: State)
    requires Cost(e, SEQUENCE) <= MAX_DEPTH
    ensures EvalTokens(Print(e), st) == Eval(e, st)
  {
    assert Print(e) + [] == Print(e);
    ParseInvertsPrint(e, SEQUENCE, [], st, 0);
    PrintIsNotEmpty(e);
  }

  lemma {:induction false} PrintIsNotEmpty(e: Expr)
    ensures Print(e) != []
  {
  }
}
