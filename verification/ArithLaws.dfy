/**
 * What arithmetic means to its user: which operator binds tighter, written as a
 * ladder of its own, and what each operator gives as a fact about integers.
 */
module ArithLaws {
  import opened Wrappers
  import opened Int64
  import opened ArithSyntax
  import opened ArithSpec

  // ----- the ladder of binary operators, loosest first -----

  const LADDER: seq<set<BinOp>> := [
    {LogicalOr}, {LogicalAnd}, {BitOr}, {BitXor}, {BitAnd},
    {EqEq, Ne}, {Lt, Gt, Le, Ge}, {LShift, RShift}, {Plus, Minus}, {Star, Slash, Percent}]

  function RungFrom(op: BinOp, i: nat): (r: nat)
    requires i <= |LADDER| && exists k :: i <= k < |LADDER| && op in LADDER[k]
    ensures i <= r < |LADDER| && op in LADDER[r]
    decreases |LADDER| - i
  {
    if op in LADDER[i] then i else RungFrom(op, i + 1)
  }

  lemma EveryOperatorHasARung(op: BinOp)
    ensures exists k :: 0 <= k < |LADDER| && op in LADDER[k]
  {
    var k := Level(op) - FIRST_BINARY;
    assert op in LADDER[k];
  }

  /** The set of the ladder an operator stands in. */
  function Rung(op: BinOp): (r: nat) {
    EveryOperatorHasARung(op);
    RungFrom(op, 0)
  }

  lemma LevelOnLadder(op: BinOp, i: nat)
    requires i < |LADDER| && op in LADDER[i]
    ensures Level(op) == FIRST_BINARY + i
  {
    assert |LADDER| == 10;
  }

  lemma RungIsLevel(op: BinOp, i: nat)
    requires i < |LADDER| && op in LADDER[i]
    ensures Level(op) == FIRST_BINARY + i && Rung(op) == i
  {
    EveryOperatorHasARung(op);
    LevelOnLadder(op, i);
    LevelOnLadder(op, RungFrom(op, 0));
  }

  // ----- chains of operands and operators -----

  /** Operands with operators between them; an operand is written with parentheses where it needs them. */
  function Written(es: seq<Expr>, ops: seq<BinOp>): (ts: seq<Token>)
    requires |es| == |ops| + 1
    decreases |ops|
  {
    if ops == [] then PrintAt(es[0], POWER)
    else PrintAt(es[0], POWER) + ([Bin(ops[0])] + Written(es[1..], ops[1..]))
  }

  /** The operator applied last: the rightmost of those on the lowest rung. */
  function Last(ops: seq<BinOp>): (k: nat)
    requires ops != []
    ensures k < |ops|
    decreases |ops|
  {
    if |ops| == 1 then 0
    else
      var k := Last(ops[1..]);
      if Rung(ops[0]) < Rung(ops[1..][k]) then 0 else k + 1
  }

  lemma {:induction false} LastIsLowest(ops: seq<BinOp>)
    requires ops != []
    ensures forall j: nat :: j < Last(ops) ==> Rung(ops[Last(ops)]) <= Rung(ops[j])
    ensures forall j: nat :: Last(ops) < j < |ops| ==> Rung(ops[Last(ops)]) < Rung(ops[j])
    decreases |ops|
  {
    if |ops| > 1 {
      LastIsLowest(ops[1..]);
      assert forall j: nat :: 0 < j < |ops| ==> ops[j] == ops[1..][j - 1];
    }
  }

  /** The value of a chain: the operator applied last joins the values of the two sides. */
  function Value(es: seq<Expr>, ops: seq<BinOp>, st: State): (r: (I64, State))
    requires |es| == |ops| + 1
    decreases |ops|
  {
    if ops == [] then Eval(es[0], st)
    else
      var k := Last(ops);
      var (v, st1) := Value(es[..k + 1], ops[..k], st);
      var (w, st2) := Value(es[k + 1..], ops[k + 1..], st1);
      (Apply(ops[k], v, w), Checked(ops[k], w, st2))
  }

  predicate Affordable(es: seq<Expr>, depth: nat) {
    forall i :: 0 <= i < |es| ==> depth + Cost(es[i], POWER) <= MAX_DEPTH
  }

  function ValueBefore(es: seq<Expr>, ops: seq<BinOp>, rest: seq<Token>, st: State): Parsed
    requires |es| == |ops| + 1
  {
    var (v, st1) := Value(es, ops, st);
    Parsed(v, rest, st1)
  }

  predicate AllFrom(ops: seq<BinOp>, level: nat) {
    forall i :: 0 <= i < |ops| ==> Level(ops[i]) >= level
  }

  lemma {:induction false} WrittenSplits(es: seq<Expr>, ops: seq<BinOp>, k: nat)
    requires |es| == |ops| + 1 && k < |ops|
    ensures Written(es, ops) ==
            Written(es[..k + 1], ops[..k]) + ([Bin(ops[k])] + Written(es[k + 1..], ops[k + 1..]))
    decreases k
  {
    var a := PrintAt(es[0], POWER);
    if k == 0 {
      assert es[..1][0] == es[0];
    } else {
      WrittenSplits(es[1..], ops[1..], k - 1);
      var left, right := Written(es[1..][..k], ops[1..][..k - 1]), Written(es[k + 1..], ops[k + 1..]);
      assert es[1..][..k] == es[..k + 1][1..] && ops[1..][..k - 1] == ops[..k][1..];
      assert es[1..][k..] == es[k + 1..] && ops[1..][k..] == ops[k + 1..];
      assert Written(es[..k + 1], ops[..k]) == a + ([Bin(ops[0])] + left);
      Assoc([Bin(ops[0])], left, [Bin(ops[k])] + right);
      Assoc(a, [Bin(ops[0])] + left, [Bin(ops[k])] + right);
    }
  }

  lemma LoopTakesOperator(v: I64, op: BinOp, level: nat, ts: seq<Token>, q: Parsed, st: State, depth: nat)
    requires Level(op) == level && ParseBinary(ts, st, depth, level + 1) == q
    ensures BinaryLoop(Parsed(v, [Bin(op)] + ts, st), depth, level) ==
            BinaryLoop(Parsed(Apply(op, v, q.value), q.rest, Checked(op, q.value, q.st)), depth, level)
  {
    var p := Parsed(v, [Bin(op)] + ts, st);
    assert p.rest[1..] == ts && p.rest[0] == Bin(op);
    LoopStep(p, q, depth, level);
  }

  lemma LoopStep(p: Parsed, q: Parsed, depth: nat, level: nat)
    requires FIRST_BINARY <= level < POWER && AtBinary(p.rest, level)
    requires ParseBinary(p.rest[1..], p.st, depth, level + 1) == q
    ensures var op := p.rest[0].op;
            BinaryLoop(p, depth, level) ==
            BinaryLoop(Parsed(Apply(op, p.value, q.value), q.rest, Checked(op, q.value, q.st)), depth, level)
  {
  }

  /** On both sides of the operator applied last the levels are as its loop needs them. */
  lemma LevelsSplit(ops: seq<BinOp>, level: nat)
    requires AllFrom(ops, level) && ops != []
    ensures var k := Last(ops);
            if Level(ops[k]) == level then AllFrom(ops[..k], level) && AllFrom(ops[k + 1..], level + 1)
            else AllFrom(ops, level + 1)
  {
    RungsAreLevels(ops);
    LastIsLowest(ops);
  }

  /** After a chain of operators from `level` on, the loop of that level goes on from the chain's value. */
  lemma {:induction false} ChainLoops(es: seq<Expr>, ops: seq<BinOp>, level: nat, rest: seq<Token>, st: State,
                                      depth: nat)
    requires |es| == |ops| + 1 && Affordable(es, depth) && AllFrom(ops, level)
    requires FIRST_BINARY <= level < POWER && Ends(rest, level + 1)
    ensures ParseBinary(Written(es, ops) + rest, st, depth, level) ==
            BinaryLoop(ValueBefore(es, ops, rest, st), depth, level)
    decreases |ops|, POWER - level, 1
  {
    var ts, p := Written(es, ops) + rest, ValueBefore(es, ops, rest, st);
    if ops == [] {
      ChainPasses(es, ops, level, rest, st, depth, ts, p);
    } else {
      LevelsSplit(ops, level);
      var k := Last(ops);
      if Level(ops[k]) == level {
        ChainJoins(es, ops, k, rest, st, depth);
      } else {
        ChainPasses(es, ops, level, rest, st, depth, ts, p);
      }
    }
  }

  /** Without an operator of `level` the chain is read by the next level. */
  lemma {:induction false} ChainPasses(es: seq<Expr>, ops: seq<BinOp>, level: nat, rest: seq<Token>, st: State,
                                       depth: nat, ts: seq<Token>, p: Parsed)
    requires |es| == |ops| + 1 && Affordable(es, depth) && AllFrom(ops, level + 1)
    requires FIRST_BINARY <= level < POWER && Ends(rest, level + 1)
    requires ts == Written(es, ops) + rest && p == ValueBefore(es, ops, rest, st)
    ensures ParseBinary(ts, st, depth, level) == BinaryLoop(p, depth, level)
    decreases |ops|, POWER - level, 0
  {
    ChainParses(es, ops, level + 1, rest, st, depth);
    LevelLoops(ts, st, depth, level, p);
  }

  lemma LevelLoops(ts: seq<Token>, st: State, depth: nat, level: nat, p: Parsed)
    requires FIRST_BINARY <= level < POWER && ParseBinary(ts, st, depth, level + 1) == p
    ensures ParseBinary(ts, st, depth, level) == BinaryLoop(p, depth, level)
  {
  }

  lemma {:induction false} ChainJoins(es: seq<Expr>, ops: seq<BinOp>, k: nat, rest: seq<Token>, st: State, depth: nat)
    requires |es| == |ops| + 1 && Affordable(es, depth) && ops != [] && k == Last(ops)
    requires var level := Level(ops[k]);
             AllFrom(ops[..k], level) && AllFrom(ops[k + 1..], level + 1) && Ends(rest, level + 1)
    ensures ParseBinary(Written(es, ops) + rest, st, depth, Level(ops[k])) ==
            BinaryLoop(ValueBefore(es, ops, rest, st), depth, Level(ops[k]))
    decreases |ops|, 0, 2
  {
    SidesJoin(es[..k + 1], ops[..k], ops[k], es[k + 1..], ops[k + 1..], rest, st, depth);
    TokensJoin(es, ops, k, rest);
    ValueJoins(es, ops, rest, st);
  }

  /** The chains on both sides of an operator, read by its loop. */
  lemma {:induction false} SidesJoin(ls: seq<Expr>, lops: seq<BinOp>, op: BinOp, rs: seq<Expr>, rops: seq<BinOp>,
                                     rest: seq<Token>, st: State, depth: nat)
    requires |ls| == |lops| + 1 && Affordable(ls, depth) && AllFrom(lops, Level(op))
    requires |rs| == |rops| + 1 && Affordable(rs, depth) && AllFrom(rops, Level(op) + 1) && Ends(rest, Level(op) + 1)
    ensures var (v, st1) := Value(ls, lops, st);
            var q := ValueBefore(rs, rops, rest, st1);
            ParseBinary(Written(ls, lops) + ([Bin(op)] + (Written(rs, rops) + rest)), st, depth, Level(op)) ==
            BinaryLoop(Parsed(Apply(op, v, q.value), q.rest, Checked(op, q.value, q.st)), depth, Level(op))
    decreases |lops| + 1 + |rops|, 0, 1
  {
    var (v, st1) := Value(ls, lops, st);
    ChainLoops(ls, lops, Level(op), [Bin(op)] + (Written(rs, rops) + rest), st, depth);
    RightSideJoins(v, op, rs, rops, rest, st1, depth);
  }

  lemma {:induction false} RightSideJoins(v: I64, op: BinOp, rs: seq<Expr>, rops: seq<BinOp>, rest: seq<Token>,
                                          st: State, depth: nat)
    requires |rs| == |rops| + 1 && Affordable(rs, depth) && AllFrom(rops, Level(op) + 1) && Ends(rest, Level(op) + 1)
    ensures var q := ValueBefore(rs, rops, rest, st);
            BinaryLoop(Parsed(v, [Bin(op)] + (Written(rs, rops) + rest), st), depth, Level(op)) ==
            BinaryLoop(Parsed(Apply(op, v, q.value), q.rest, Checked(op, q.value, q.st)), depth, Level(op))
    decreases |rops| + 1, 0, 0
  {
    ChainParses(rs, rops, Level(op) + 1, rest, st, depth);
    LoopTakesOperator(v, op, Level(op), Written(rs, rops) + rest, ValueBefore(rs, rops, rest, st), st, depth);
  }

  lemma TokensJoin(es: seq<Expr>, ops: seq<BinOp>, k: nat, rest: seq<Token>)
    requires |es| == |ops| + 1 && k < |ops|
    ensures Written(es, ops) + rest ==
            Written(es[..k + 1], ops[..k]) + ([Bin(ops[k])] + (Written(es[k + 1..], ops[k + 1..]) + rest))
  {
    var left, op, more := Written(es[..k + 1], ops[..k]), [Bin(ops[k])], Written(es[k + 1..], ops[k + 1..]);
    WrittenSplits(es, ops, k);
    Assoc(left, op + more, rest);
    Assoc(op, more, rest);
  }

  lemma ValueJoins(es: seq<Expr>, ops: seq<BinOp>, rest: seq<Token>, st: State)
    requires |es| == |ops| + 1 && ops != []
    ensures var k := Last(ops);
            var (v, st1) := Value(es[..k + 1], ops[..k], st);
            var q := ValueBefore(es[k + 1..], ops[k + 1..], rest, st1);
            ValueBefore(es, ops, rest, st) == Parsed(Apply(ops[k], v, q.value), q.rest, Checked(ops[k], q.value, q.st))
  {
  }

  lemma {:induction false} ChainParses(es: seq<Expr>, ops: seq<BinOp>, level: nat, rest: seq<Token>, st: State,
                                       depth: nat)
    requires |es| == |ops| + 1 && Affordable(es, depth) && AllFrom(ops, level)
    requires FIRST_BINARY <= level <= POWER && Ends(rest, level)
    ensures ParseBinary(Written(es, ops) + rest, st, depth, level) == ValueBefore(es, ops, rest, st)
    decreases |ops|, POWER - level, 2
  {
    if ops != [] || level < POWER {
      if ops != [] { assert level <= Level(ops[0]) < POWER; }
      ChainLoops(es, ops, level, rest, st, depth);
    } else {
      ParseInvertsPrint(es[0], POWER, rest, st, depth);
    }
  }

  lemma RungsAreLevels(ops: seq<BinOp>)
    ensures forall i :: 0 <= i < |ops| ==> Level(ops[i]) == FIRST_BINARY + Rung(ops[i])
  {
    forall i | 0 <= i < |ops| ensures Level(ops[i]) == FIRST_BINARY + Rung(ops[i]) {
      EveryOperatorHasARung(ops[i]);
      RungIsLevel(ops[i], RungFrom(ops[i], 0));
    }
  }

  /**
   * A chain of any length evaluates by the ladder: the operator applied last is
   * the rightmost on the lowest rung.
   */
  lemma ChainFollowsLadder(es: seq<Expr>, ops: seq<BinOp>, st: State)
    requires |es| == |ops| + 1 && Affordable(es, 1)
    ensures EvalTokens(Written(es, ops), st) == Value(es, ops, st)
  {
    var ts := Written(es, ops);
    ChainParses(es, ops, FIRST_BINARY, [], st, 1);
    assert ts + [] == ts;
    var tail := if ops == [] then [] else [Bin(ops[0])] + Written(es[1..], ops[1..]);
    NotAnAssignment(es[0], POWER, tail);
    assert ts == PrintAt(es[0], POWER) + tail;
    assert ParseAssign(ts, st, 0) == ParseTernary(ts, st, 1);
    assert ParseExpr(ts, st, 0) == ExprLoop(ParseAssign(ts, st, 0), 0);
  }

  // ----- trees and their tokens -----

  /** Printed for `level`, the tree is `ts`, and it needs at most `n` of the depth budget. */
  predicate Shows(e: Expr, level: nat, ts: seq<Token>, n: nat) { PrintAt(e, level) == ts && Cost(e, level) <= n }

  lemma ShownEvaluates(e: Expr, ts: seq<Token>, n: nat, st: State)
    requires Shows(e, SEQUENCE, ts, n) && n <= MAX_DEPTH
    ensures EvalTokens(ts, st) == Eval(e, st)
  {
    EvalOfPrinted(e, st);
  }

  lemma ShowsNum(a: I64, level: nat)
    requires level <= PRIMARY
    ensures Shows(Num(a), level, [Number(a)], 3)
  {
  }

  lemma ShowsUnary(u: UnOp, a: Expr, ts: seq<Token>, n: nat, level: nat)
    requires level <= UNARY && Shows(a, UNARY, ts, n)
    ensures Shows(Unary(u, a), level, [UnaryToken(u)] + ts, n + 3)
  {
  }

  lemma ShowsPow(a: Expr, b: Expr, ts: seq<Token>, us: seq<Token>, n: nat, level: nat)
    requires level <= POWER && Shows(a, UNARY, ts, n) && Shows(b, POWER, us, n)
    ensures Shows(Pow(a, b), level, ts + ([StarStar] + us), n + 3)
  {
  }

  lemma ShowsBinary(f: BinOp, a: Expr, b: Expr, ts: seq<Token>, us: seq<Token>, n: nat, level: nat)
    requires level <= Level(f) && Shows(a, Level(f), ts, n) && Shows(b, Level(f) + 1, us, n)
    ensures Shows(Binary(f, a, b), level, ts + ([Bin(f)] + us), n + 3)
  {
  }

  lemma ShowsTernary(c: Expr, a: Expr, b: Expr, rs: seq<Token>, ts: seq<Token>, us: seq<Token>, n: nat, level: nat)
    requires level <= ASSIGN && Shows(c, FIRST_BINARY, rs, n) && Shows(a, ASSIGN, ts, n) && Shows(b, ASSIGN, us, n)
    ensures Shows(Ternary(c, a, b), level, rs + ([Question] + (ts + ([Colon] + us))), n + 3)
  {
  }

  lemma ShowsAssign(op: AssignOp, x: string, a: Expr, ts: seq<Token>, n: nat, level: nat)
    requires level <= ASSIGN && Shows(a, ASSIGN, ts, n)
    ensures Shows(Assign(op, x, a), level, [Ident(x), AssignTok(op)] + ts, n + 3)
  {
  }

  lemma ShowsSequence(a: Expr, b: Expr, ts: seq<Token>, us: seq<Token>, n: nat)
    requires Shows(a, SEQUENCE, ts, n) && Shows(b, ASSIGN, us, n)
    ensures Shows(Sequence(a, b), SEQUENCE, ts + ([Comma] + us), n + 3)
  {
  }

  lemma ShowsMore(e: Expr, level: nat, ts: seq<Token>, n: nat, m: nat)
    requires Shows(e, level, ts, n) && n <= m
    ensures Shows(e, level, ts, m)
  {
  }

  /** Two operators: grouped to the right exactly when the second stands higher on the ladder. */
  lemma HigherRungBindsTighter(f: BinOp, i: nat, g: BinOp, j: nat, a: I64, b: I64, c: I64, st: State)
    requires i < |LADDER| && f in LADDER[i] && j < |LADDER| && g in LADDER[j]
    ensures EvalTokens([Number(a), Bin(f), Number(b), Bin(g), Number(c)], st) ==
            if i < j then (Apply(f, a, Apply(g, b, c)), Checked(f, Apply(g, b, c), Checked(g, c, st)))
            else (Apply(g, Apply(f, a, b), c), Checked(g, c, Checked(f, b, st)))
  {
    RungIsLevel(f, i);
    RungIsLevel(g, j);
    if i < j { GroupsRight(f, g, a, b, c, st); } else { GroupsLeft(f, g, a, b, c, st); }
  }

  lemma GroupsRight(f: BinOp, g: BinOp, a: I64, b: I64, c: I64, st: State)
    requires Level(f) < Level(g)
    ensures EvalTokens([Number(a), Bin(f), Number(b), Bin(g), Number(c)], st) ==
            (Apply(f, a, Apply(g, b, c)), Checked(f, Apply(g, b, c), Checked(g, c, st)))
  {
    var x := RightTree(f, g, a, b, c, st);
    ShownEvaluates(x, [Number(a), Bin(f), Number(b), Bin(g), Number(c)], 9, st);
  }

  lemma RightTree(f: BinOp, g: BinOp, a: I64, b: I64, c: I64, st: State) returns (x: Expr)
    requires Level(f) < Level(g)
    ensures Shows(x, SEQUENCE, [Number(a), Bin(f), Number(b), Bin(g), Number(c)], 9)
    ensures Eval(x, st) ==
            (Apply(f, a, Apply(g, b, c)), Checked(f, Apply(g, b, c), Checked(g, c, st)))
  {
    var right := Binary(g, Num(b), Num(c));
    NumBinary(g, b, c, Level(f) + 1);
    ShowsRight(f, a, right, [Number(b), Bin(g), Number(c)]);
    assert [Number(a)] + ([Bin(f)] + [Number(b), Bin(g), Number(c)]) ==
           [Number(a), Bin(f), Number(b), Bin(g), Number(c)];
    SmallValues(g, Not, b, c, st);
    BinaryValue(f, Num(a), right, (a, st), (Apply(g, b, c), Checked(g, c, st)), st);
    x := Binary(f, Num(a), right);
  }

  lemma ShowsRight(f: BinOp, a: I64, right: Expr, us: seq<Token>)
    requires Shows(right, Level(f) + 1, us, 6)
    ensures Shows(Binary(f, Num(a), right), SEQUENCE, [Number(a)] + ([Bin(f)] + us), 9)
  {
    ShowsNum(a, Level(f));
    ShowsMore(Num(a), Level(f), [Number(a)], 3, 6);
    ShowsBinary(f, Num(a), right, [Number(a)], us, 6, SEQUENCE);
  }

  lemma GroupsLeft(f: BinOp, g: BinOp, a: I64, b: I64, c: I64, st: State)
    requires Level(f) >= Level(g)
    ensures EvalTokens([Number(a), Bin(f), Number(b), Bin(g), Number(c)], st) ==
            (Apply(g, Apply(f, a, b), c), Checked(g, c, Checked(f, b, st)))
  {
    var x := LeftTree(f, g, a, b, c, st);
    ShownEvaluates(x, [Number(a), Bin(f), Number(b), Bin(g), Number(c)], 9, st);
  }

  lemma LeftTree(f: BinOp, g: BinOp, a: I64, b: I64, c: I64, st: State) returns (x: Expr)
    requires Level(f) >= Level(g)
    ensures Shows(x, SEQUENCE, [Number(a), Bin(f), Number(b), Bin(g), Number(c)], 9)
    ensures Eval(x, st) ==
            (Apply(g, Apply(f, a, b), c), Checked(g, c, Checked(f, b, st)))
  {
    var left := Binary(f, Num(a), Num(b));
    NumBinary(f, a, b, Level(g));
    ShowsNum(c, Level(g) + 1);
    ShowsMore(Num(c), Level(g) + 1, [Number(c)], 3, 6);
    ShowsBinary(g, left, Num(c), [Number(a), Bin(f), Number(b)], [Number(c)], 6, SEQUENCE);
    var ts := [Number(a), Bin(f), Number(b), Bin(g), Number(c)];
    assert ts == [Number(a), Bin(f), Number(b)] + ([Bin(g)] + [Number(c)]);
    SmallValues(f, Not, a, b, st);
    BinaryValue(g, left, Num(c), (Apply(f, a, b), Checked(f, b, st)), (c, Checked(f, b, st)), st);
    x := Binary(g, left, Num(c));
  }

  lemma NumBinary(f: BinOp, a: I64, b: I64, level: nat)
    requires level <= Level(f)
    ensures Shows(Binary(f, Num(a), Num(b)), level, [Number(a), Bin(f), Number(b)], 6)
  {
    ShowsNum(a, Level(f));
    ShowsNum(b, Level(f) + 1);
    ShowsBinary(f, Num(a), Num(b), [Number(a)], [Number(b)], 3, level);
    assert [Number(a)] + ([Bin(f)] + [Number(b)]) == [Number(a), Bin(f), Number(b)];
  }

  lemma NumPow(a: I64, b: I64, level: nat)
    requires level <= POWER
    ensures Shows(Pow(Num(a), Num(b)), level, [Number(a), StarStar, Number(b)], 6)
  {
    ShowsNum(a, UNARY);
    ShowsNum(b, POWER);
    ShowsPow(Num(a), Num(b), [Number(a)], [Number(b)], 3, level);
    assert [Number(a)] + ([StarStar] + [Number(b)]) == [Number(a), StarStar, Number(b)];
  }

  /** What the smallest trees evaluate to. */
  lemma SmallValues(f: BinOp, u: UnOp, a: I64, b: I64, st: State)
    ensures Eval(Binary(f, Num(a), Num(b)), st) == (Apply(f, a, b), Checked(f, b, st))
    ensures Eval(Pow(Num(a), Num(b)), st) == (PowSpec(a, b), st)
    ensures Eval(Unary(u, Num(a)), st) == (ApplyUnary(u, a), st)
  {
    BinaryValue(f, Num(a), Num(b), (a, st), (b, st), st);
    PowValue(Num(a), Num(b), (a, st), (b, st), st);
    UnaryValue(u, Num(a), (a, st), st);
  }

  lemma BinaryValue(f: BinOp, l: Expr, r: Expr, v: (I64, State), w: (I64, State), st: State)
    requires Eval(l, st) == v && Eval(r, v.1) == w
    ensures Eval(Binary(f, l, r), st) == (Apply(f, v.0, w.0), Checked(f, w.0, w.1))
  {
  }

  lemma PowValue(l: Expr, r: Expr, v: (I64, State), w: (I64, State), st: State)
    requires Eval(l, st) == v && Eval(r, v.1) == w
    ensures Eval(Pow(l, r), st) == (PowSpec(v.0, w.0), w.1)
  {
  }

  lemma UnaryValue(u: UnOp, e: Expr, v: (I64, State), st: State)
    requires Eval(e, st) == v
    ensures Eval(Unary(u, e), st) == (ApplyUnary(u, v.0), v.1)
  {
  }

  lemma NumUnary(u: UnOp, a: I64, level: nat)
    requires level <= UNARY
    ensures Shows(Unary(u, Num(a)), level, [UnaryToken(u), Number(a)], 6)
  {
    ShowsNum(a, UNARY);
    ShowsUnary(u, Num(a), [Number(a)], 3, level);
    assert [UnaryToken(u)] + [Number(a)] == [UnaryToken(u), Number(a)];
  }

  // ----- above and below the ladder -----

  /** `**` groups to the right ... */
  lemma PowerGroupsRight(a: I64, b: I64, c: I64, st: State)
    ensures EvalTokens([Number(a), StarStar, Number(b), StarStar, Number(c)], st) ==
            (PowSpec(a, PowSpec(b, c)), st)
  {
    var x := TowerTree(a, b, c, st);
    ShownEvaluates(x, [Number(a), StarStar, Number(b), StarStar, Number(c)], 9, st);
  }

  lemma TowerTree(a: I64, b: I64, c: I64, st: State) returns (x: Expr)
    ensures Shows(x, SEQUENCE, [Number(a), StarStar, Number(b), StarStar, Number(c)], 9)
    ensures Eval(x, st) ==
            (PowSpec(a, PowSpec(b, c)), st)
  {
    var right := Pow(Num(b), Num(c));
    NumPow(b, c, POWER);
    ShowsNum(a, UNARY);
    ShowsMore(Num(a), UNARY, [Number(a)], 3, 6);
    ShowsPow(Num(a), right, [Number(a)], [Number(b), StarStar, Number(c)], 6, SEQUENCE);
    var ts := [Number(a), StarStar, Number(b), StarStar, Number(c)];
    assert ts == [Number(a)] + ([StarStar] + [Number(b), StarStar, Number(c)]);
    SmallValues(Plus, Not, b, c, st);
    x := Pow(Num(a), right);
  }

  /** ... and binds tighter than every binary operator, on both sides. */
  lemma PowerBindsTighter(f: BinOp, a: I64, b: I64, c: I64, d: I64, st: State)
    ensures EvalTokens([Number(a), StarStar, Number(b), Bin(f), Number(c), StarStar, Number(d)], st) ==
            (Apply(f, PowSpec(a, b), PowSpec(c, d)), Checked(f, PowSpec(c, d), st))
  {
    var x := PowersTree(f, a, b, c, d, st);
    ShownEvaluates(x, [Number(a), StarStar, Number(b), Bin(f), Number(c), StarStar, Number(d)], 9, st);
  }

  lemma PowersTree(f: BinOp, a: I64, b: I64, c: I64, d: I64, st: State) returns (x: Expr)
    ensures Shows(x, SEQUENCE, [Number(a), StarStar, Number(b), Bin(f), Number(c), StarStar, Number(d)], 9)
    ensures Eval(x, st) ==
            (Apply(f, PowSpec(a, b), PowSpec(c, d)), Checked(f, PowSpec(c, d), st))
  {
    var left, right := Pow(Num(a), Num(b)), Pow(Num(c), Num(d));
    var ls, rs := [Number(a), StarStar, Number(b)], [Number(c), StarStar, Number(d)];
    NumPow(a, b, Level(f));
    NumPow(c, d, Level(f) + 1);
    ShowsBinary(f, left, right, ls, rs, 6, SEQUENCE);
    var ts := [Number(a), StarStar, Number(b), Bin(f), Number(c), StarStar, Number(d)];
    assert ts == ls + ([Bin(f)] + rs);
    SmallValues(f, Not, a, b, st);
    SmallValues(f, Not, c, d, st);
    BinaryValue(f, left, right, (PowSpec(a, b), st), (PowSpec(c, d), st), st);
    x := Binary(f, left, right);
  }

  /** A prefix operator takes the operand behind it, before `**` ... */
  lemma PrefixBeforePower(u: UnOp, v: UnOp, a: I64, b: I64, st: State)
    ensures EvalTokens([UnaryToken(u), Number(a), StarStar, UnaryToken(v), Number(b)], st) ==
            (PowSpec(ApplyUnary(u, a), ApplyUnary(v, b)), st)
  {
    var x := SignedPowerTree(u, v, a, b, st);
    ShownEvaluates(x, [UnaryToken(u), Number(a), StarStar, UnaryToken(v), Number(b)], 9, st);
  }

  lemma SignedPowerTree(u: UnOp, v: UnOp, a: I64, b: I64, st: State) returns (x: Expr)
    ensures Shows(x, SEQUENCE, [UnaryToken(u), Number(a), StarStar, UnaryToken(v), Number(b)], 9)
    ensures Eval(x, st) ==
            (PowSpec(ApplyUnary(u, a), ApplyUnary(v, b)), st)
  {
    var left, right := Unary(u, Num(a)), Unary(v, Num(b));
    var ls, rs := [UnaryToken(u), Number(a)], [UnaryToken(v), Number(b)];
    NumUnary(u, a, UNARY);
    NumUnary(v, b, POWER);
    ShowsPow(left, right, ls, rs, 6, SEQUENCE);
    var ts := [UnaryToken(u), Number(a), StarStar, UnaryToken(v), Number(b)];
    assert ts == ls + ([StarStar] + rs);
    SmallValues(Plus, u, a, b, st);
    SmallValues(Plus, v, b, a, st);
    x := Pow(left, right);
  }

  /** ... before every binary operator ... */
  lemma PrefixBeforeBinary(u: UnOp, v: UnOp, f: BinOp, a: I64, b: I64, st: State)
    ensures EvalTokens([UnaryToken(u), Number(a), Bin(f), UnaryToken(v), Number(b)], st) ==
            (Apply(f, ApplyUnary(u, a), ApplyUnary(v, b)), Checked(f, ApplyUnary(v, b), st))
  {
    var x := SignedTree(u, v, f, a, b, st);
    ShownEvaluates(x, [UnaryToken(u), Number(a), Bin(f), UnaryToken(v), Number(b)], 9, st);
  }

  lemma SignedTree(u: UnOp, v: UnOp, f: BinOp, a: I64, b: I64, st: State) returns (x: Expr)
    ensures Shows(x, SEQUENCE, [UnaryToken(u), Number(a), Bin(f), UnaryToken(v), Number(b)], 9)
    ensures Eval(x, st) ==
            (Apply(f, ApplyUnary(u, a), ApplyUnary(v, b)), Checked(f, ApplyUnary(v, b), st))
  {
    var left, right := Unary(u, Num(a)), Unary(v, Num(b));
    var ls, rs := [UnaryToken(u), Number(a)], [UnaryToken(v), Number(b)];
    x := Binary(f, left, right);
    SmallValues(Plus, u, a, b, st);
    SmallValues(Plus, v, b, a, st);
    BinaryValue(f, left, right, (ApplyUnary(u, a), st), (ApplyUnary(v, b), st), st);
    SignedOperands(u, v, f, a, b);
    assert ls + ([Bin(f)] + rs) == [UnaryToken(u), Number(a), Bin(f), UnaryToken(v), Number(b)];
  }

  lemma SignedOperands(u: UnOp, v: UnOp, f: BinOp, a: I64, b: I64)
    ensures Shows(Binary(f, Unary(u, Num(a)), Unary(v, Num(b))), SEQUENCE,
                  [UnaryToken(u), Number(a)] + ([Bin(f)] + [UnaryToken(v), Number(b)]), 9)
  {
    NumUnary(u, a, Level(f));
    NumUnary(v, b, Level(f) + 1);
    ShowsBinary(f, Unary(u, Num(a)), Unary(v, Num(b)), [UnaryToken(u), Number(a)], [UnaryToken(v), Number(b)], 6,
                SEQUENCE);
  }

  /** ... and of two, the inner one comes first. */
  lemma PrefixesNest(u: UnOp, v: UnOp, a: I64, st: State)
    ensures EvalTokens([UnaryToken(u), UnaryToken(v), Number(a)], st) ==
            (ApplyUnary(u, ApplyUnary(v, a)), st)
  {
    var x := PrefixTree(u, v, a, st);
    ShownEvaluates(x, [UnaryToken(u), UnaryToken(v), Number(a)], 9, st);
  }

  lemma PrefixTree(u: UnOp, v: UnOp, a: I64, st: State) returns (x: Expr)
    ensures Shows(x, SEQUENCE, [UnaryToken(u), UnaryToken(v), Number(a)], 9)
    ensures Eval(x, st) ==
            (ApplyUnary(u, ApplyUnary(v, a)), st)
  {
    var inner := Unary(v, Num(a));
    NumUnary(v, a, UNARY);
    ShowsUnary(u, inner, [UnaryToken(v), Number(a)], 6, SEQUENCE);
    var ts := [UnaryToken(u), UnaryToken(v), Number(a)];
    assert ts == [UnaryToken(u)] + [UnaryToken(v), Number(a)];
    SmallValues(Plus, v, a, a, st);
    x := Unary(u, inner);
  }

  /** `?:` stands below every binary operator ... */
  lemma ConditionalBindsLooser(f: BinOp, g: BinOp, a: I64, b: I64, c: I64, d: I64, e: I64, st: State)
    ensures EvalTokens([Number(a), Bin(f), Number(b), Question, Number(c), Colon, Number(d), Bin(g), Number(e)], st) ==
            (if Apply(f, a, b) != 0 then c else Apply(g, d, e), Checked(g, e, Checked(f, b, st)))
  {
    var x := ConditionalTree(f, g, a, b, c, d, e, st);
    ShownEvaluates(x, [Number(a), Bin(f), Number(b), Question, Number(c), Colon, Number(d), Bin(g), Number(e)], 9, st);
  }

  lemma ConditionalTree(f: BinOp, g: BinOp, a: I64, b: I64, c: I64, d: I64, e: I64, st: State) returns (x: Expr)
    ensures Shows(x, SEQUENCE,
                  [Number(a), Bin(f), Number(b), Question, Number(c), Colon, Number(d), Bin(g), Number(e)], 9)
    ensures Eval(x, st) ==
            (if Apply(f, a, b) != 0 then c else Apply(g, d, e), Checked(g, e, Checked(f, b, st)))
  {
    var cond, no := Binary(f, Num(a), Num(b)), Binary(g, Num(d), Num(e));
    var rs, us := [Number(a), Bin(f), Number(b)], [Number(d), Bin(g), Number(e)];
    NumBinary(f, a, b, FIRST_BINARY);
    NumBinary(g, d, e, ASSIGN);
    ShowsNum(c, ASSIGN);
    ShowsMore(Num(c), ASSIGN, [Number(c)], 3, 6);
    ShowsTernary(cond, Num(c), no, rs, [Number(c)], us, 6, SEQUENCE);
    var ts := [Number(a), Bin(f), Number(b), Question, Number(c), Colon, Number(d), Bin(g), Number(e)];
    assert ts == rs + ([Question] + ([Number(c)] + ([Colon] + us)));
    SmallValues(f, Not, a, b, st);
    SmallValues(g, Not, d, e, Checked(f, b, st));
    x := Ternary(cond, Num(c), no);
  }

  /** ... and groups to the right. */
  lemma ConditionalGroupsRight(a: I64, b: I64, c: I64, d: I64, e: I64, st: State)
    ensures EvalTokens([Number(a), Question, Number(b), Colon, Number(c), Question, Number(d), Colon, Number(e)], st)
            == (if a != 0 then b else if c != 0 then d else e, st)
  {
    var no := Ternary(Num(c), Num(d), Num(e));
    var us := [Number(c), Question, Number(d), Colon, Number(e)];
    ShowsNum(c, FIRST_BINARY);
    ShowsNum(d, ASSIGN);
    ShowsNum(e, ASSIGN);
    ShowsTernary(Num(c), Num(d), Num(e), [Number(c)], [Number(d)], [Number(e)], 3, ASSIGN);
    assert us == [Number(c)] + ([Question] + ([Number(d)] + ([Colon] + [Number(e)])));
    OuterConditional(a, b, no, us, st);
    assert Eval(no, st) == (if c != 0 then d else e, st);
    assert [Number(a), Question, Number(b), Colon] + us ==
           [Number(a), Question, Number(b), Colon, Number(c), Question, Number(d), Colon, Number(e)];
  }

  lemma OuterConditional(a: I64, b: I64, no: Expr, us: seq<Token>, st: State)
    requires Shows(no, ASSIGN, us, 6)
    ensures EvalTokens([Number(a), Question, Number(b), Colon] + us, st) ==
            (if a != 0 then b else Eval(no, st).0, Eval(no, st).1)
  {
    var x := OuterTree(a, b, no, us, st);
    ShownEvaluates(x, [Number(a), Question, Number(b), Colon] + us, 9, st);
  }

  lemma OuterTree(a: I64, b: I64, no: Expr, us: seq<Token>, st: State) returns (x: Expr)
    requires Shows(no, ASSIGN, us, 6)
    ensures Shows(x, SEQUENCE, [Number(a), Question, Number(b), Colon] + us, 9)
    ensures Eval(x, st) ==
            (if a != 0 then b else Eval(no, st).0, Eval(no, st).1)
  {
    ShowsNum(a, FIRST_BINARY);
    ShowsMore(Num(a), FIRST_BINARY, [Number(a)], 3, 6);
    ShowsNum(b, ASSIGN);
    ShowsMore(Num(b), ASSIGN, [Number(b)], 3, 6);
    ShowsTernary(Num(a), Num(b), no, [Number(a)], [Number(b)], us, 6, SEQUENCE);
    var ts := [Number(a), Question, Number(b), Colon] + us;
    assert ts == [Number(a)] + ([Question] + ([Number(b)] + ([Colon] + us)));
    x := Ternary(Num(a), Num(b), no);
  }

  /** Assignment groups to the right; the comma is loosest and yields the value behind it. */
  lemma AssignmentsNest(x: string, y: string, op: AssignOp, a: I64, b: I64, st: State)
    ensures EvalTokens([Ident(x), AssignTok(Set), Ident(y), AssignTok(op), Number(a), Comma, Number(b)], st) ==
            (var v := ApplyAssign(op, st.Get(y), a); (b, st.Put(y, v).Put(x, v)))
  {
    var tree := AssignmentTree(x, y, op, a, b, st);
    ShownEvaluates(tree, [Ident(x), AssignTok(Set), Ident(y), AssignTok(op), Number(a), Comma, Number(b)], 12, st);
  }

  lemma AssignmentTree(x: string, y: string, op: AssignOp, a: I64, b: I64, st: State) returns (tree: Expr)
    ensures Shows(tree, SEQUENCE, [Ident(x), AssignTok(Set), Ident(y), AssignTok(op), Number(a), Comma, Number(b)], 12)
    ensures Eval(tree, st) ==
            (var v := ApplyAssign(op, st.Get(y), a); (b, st.Put(y, v).Put(x, v)))
  {
    var inner := Assign(op, y, Num(a));
    var outer := Assign(Set, x, inner);
    ShowsNum(a, ASSIGN);
    ShowsAssign(op, y, Num(a), [Number(a)], 3, ASSIGN);
    var rhs := [Ident(y), AssignTok(op)] + [Number(a)];
    ShowsAssign(Set, x, inner, rhs, 6, SEQUENCE);
    var all := [Ident(x), AssignTok(Set)] + rhs;
    ShowsNum(b, ASSIGN);
    ShowsMore(Num(b), ASSIGN, [Number(b)], 3, 9);
    ShowsSequence(outer, Num(b), all, [Number(b)], 9);
    var ts := [Ident(x), AssignTok(Set), Ident(y), AssignTok(op), Number(a), Comma, Number(b)];
    assert ts == all + ([Comma] + [Number(b)]);
    var v := ApplyAssign(op, st.Get(y), a);
    AssignValue(op, y, Num(a), (a, st), st);
    AssignValue(Set, x, inner, (v, st.Put(y, v)), st);
    tree := Sequence(outer, Num(b));
  }

  lemma AssignValue(op: AssignOp, x: string, e: Expr, v: (I64, State), st: State)
    requires Eval(e, st) == v
    ensures var w := ApplyAssign(op, v.1.Get(x), v.0); Eval(Assign(op, x, e), st) == (w, v.1.Put(x, w))
  {
  }

  // ----- what the operators give -----

  predicate Congruent(x: int, y: int) { (x - y) % TWO64 == 0 }

  predicate IsTruth(r: int, holds: bool) { r == if holds then 1 else 0 }

  /** `q` is `a / b` rounded toward zero and `m` the remainder. */
  predicate Divides(a: int, b: int, q: int, m: int) {
    a == b * q + m && Abs(m) < Abs(b) && (m == 0 || (m < 0) == (a < 0))
  }

  /** `r` has the bits of `a` and `b` combined, up to the sign. */
  ghost predicate BitsAre(op: BitOp, a: int, b: int, r: int) {
    && (r < 0 <==> OnBits(op, a < 0, b < 0))
    && forall i: nat :: i < 63 ==> (Bit(r, i) <==> OnBits(op, Bit(a, i), Bit(b, i)))
  }

  /** What `a op b` is, for 64-bit numbers. */
  ghost predicate Means(op: BinOp, a: I64, b: I64, r: I64) {
    match op
    case LogicalOr => IsTruth(r, a != 0 || b != 0)
    case LogicalAnd => IsTruth(r, a != 0 && b != 0)
    case BitOr => BitsAre(Or, a, b, r)
    case BitXor => BitsAre(Xor, a, b, r)
    case BitAnd => BitsAre(And, a, b, r)
    case EqEq => IsTruth(r, a == b)
    case Ne => IsTruth(r, a != b)
    case Lt => IsTruth(r, a < b)
    case Gt => IsTruth(r, b < a)
    case Le => IsTruth(r, !(b < a))
    case Ge => IsTruth(r, !(a < b))
    case LShift => Congruent(r, a * Power(2, b % 64))
    case RShift => r * Power(2, b % 64) <= a < (r + 1) * Power(2, b % 64)
    case Plus => Congruent(r, a + b)
    case Minus => Congruent(r, a - b)
    case Star => Congruent(r, a * b)
    case Slash => if b == 0 then r == 0 else exists q: int, m: int :: Divides(a, b, q, m) && Congruent(r, q)
    case Percent => if b == 0 then r == 0 else exists q: int :: Divides(a, b, q, r)
  }

  lemma WrapIsTheValue(x: int)
    ensures Congruent(Wrap(x), x)
  {
    var k := WrapIsCongruent(x);
    assert Wrap(x) - x == k * TWO64;
  }

  lemma {:induction false} Pow2IsPower(k: nat)
    ensures Pow2(k) == Power(2, k)
  {
    if k > 0 { Pow2IsPower(k - 1); }
  }

  lemma ShiftsMean(a: I64, b: I64)
    ensures Means(LShift, a, b, Apply(LShift, a, b)) && Means(RShift, a, b, Apply(RShift, a, b))
  {
    var p := Pow2(b % 64);
    Pow2IsPower(b % 64);
    WrapIsTheValue(a * p);
    Floor(a, p);
    assert (a / p) * p + p == (a / p + 1) * p;
  }

  lemma DivisionMeans(a: I64, b: I64)
    requires b != 0
    ensures Means(Slash, a, b, Apply(Slash, a, b)) && Means(Percent, a, b, Apply(Percent, a, b))
  {
    var q, m := TruncDiv(a, b), TruncRem(a, b);
    TruncRemRange(a, b);
    assert Divides(a, b, q, m);
    WrapIsTheValue(q);
  }

  lemma BitsMean(op: BitOp, a: I64, b: I64)
    ensures BitsAre(op, a, b, BitwiseI64(op, a, b))
  {
    Pow2Of63();
    SignIsCombined(op, a, b, 63);
    forall i: nat | i < 63 ensures Bit(Bitwise(op, a, b, 63), i) <==> OnBits(op, Bit(a, i), Bit(b, i)) {
      BitwiseActsOnEachBit(op, a, b, 63, i);
    }
  }

  lemma {:induction false} SignIsCombined(op: BitOp, a: int, b: int, width: nat)
    ensures Bitwise(op, a, b, width) < 0 <==> OnBits(op, a < 0, b < 0)
    decreases width
  {
    if width > 0 { SignIsCombined(op, a / 2, b / 2, width - 1); }
  }

  lemma ApplyMeans(op: BinOp, a: I64, b: I64)
    ensures Means(op, a, b, Apply(op, a, b))
  {
    match op
    case BitOr => BitsMean(Or, a, b);
    case BitXor => BitsMean(Xor, a, b);
    case BitAnd => BitsMean(And, a, b);
    case LShift | RShift => ShiftsMean(a, b);
    case Plus => WrapIsTheValue(a + b);
    case Minus => WrapIsTheValue(a - b);
    case Star => WrapIsTheValue(a * b);
    case Slash | Percent => if b != 0 { DivisionMeans(a, b); }
    case _ =>
  }

  /** Every binary operator gives what it means; an error is recorded exactly for a division by zero. */
  lemma OperatorMeans(op: BinOp, a: I64, b: I64, st: State)
    ensures var (r, after) := EvalTokens([Number(a), Bin(op), Number(b)], st);
            && Means(op, a, b, r) && after.vars == st.vars
            && after.error == if (op == Slash || op == Percent) && b == 0 then Some(DivisionByZero) else st.error
  {
    NumBinary(op, a, b, SEQUENCE);
    ShownEvaluates(Binary(op, Num(a), Num(b)), [Number(a), Bin(op), Number(b)], 6, st);
    ApplyMeans(op, a, b);
  }

  lemma PrefixMeans(a: I64, st: State)
    ensures var (r, after) := EvalTokens([Bang, Number(a)], st); IsTruth(r, a == 0) && after == st
    ensures var (r, after) := EvalTokens([Tilde, Number(a)], st); r + a == -1 && after == st
    ensures var (r, after) := EvalTokens([Bin(Plus), Number(a)], st); r == a && after == st
    ensures var (r, after) := EvalTokens([Bin(Minus), Number(a)], st); Congruent(r + a, 0) && after == st
  {
    PrefixEvaluates(Not, a, st);
    PrefixEvaluates(Complement, a, st);
    PrefixEvaluates(Positive, a, st);
    PrefixEvaluates(Negative, a, st);
    WrapIsTheValue(0 - (a as int));
  }

  lemma PrefixEvaluates(u: UnOp, a: I64, st: State)
    ensures EvalTokens([UnaryToken(u), Number(a)], st) == (ApplyUnary(u, a), st)
  {
    NumUnary(u, a, SEQUENCE);
    ShownEvaluates(Unary(u, Num(a)), [UnaryToken(u), Number(a)], 6, st);
  }

  lemma PowerMeans(a: I64, b: I64, st: State)
    ensures var (r, after) := EvalTokens([Number(a), StarStar, Number(b)], st);
            after == st && if b < 0 then r == 0 else Congruent(r, Power(a, b))
  {
    NumPow(a, b, SEQUENCE);
    ShownEvaluates(Pow(Num(a), Num(b)), [Number(a), StarStar, Number(b)], 6, st);
    if b >= 0 { WrapIsTheValue(Power(a, b)); }
  }

  /** `++` and `--` add or subtract one; in front they yield the new value, behind the old one. */
  lemma StepsMean(x: string, up: bool, st: State)
    ensures var step := if up then PlusPlus else MinusMinus;
            var (pre, st1) := EvalTokens([step, Ident(x)], st);
            var (post, st2) := EvalTokens([Ident(x), step], st);
            && pre == st1.Get(x) && post == st.Get(x) && st1 == st2
            && Congruent(st1.Get(x), if up then st.Get(x) + 1 else st.Get(x) - 1)
            && st1 == st.(vars := st.vars[x := st1.Get(x)])
  {
    EvalOfPrinted(PreStep(x, up), st);
    EvalOfPrinted(PostStep(x, up), st);
    WrapIsTheValue(st.Get(x) + if up then 1 else -1);
  }

  lemma AssignEvaluates(op: AssignOp, x: string, a: I64, st: State)
    ensures var v := ApplyAssign(op, st.Get(x), a);
            EvalTokens([Ident(x), AssignTok(op), Number(a)], st) == (v, st.Put(x, v))
  {
    ShowsNum(a, ASSIGN);
    ShowsAssign(op, x, Num(a), [Number(a)], 3, SEQUENCE);
    var ts := [Ident(x), AssignTok(op), Number(a)];
    assert ts == [Ident(x), AssignTok(op)] + [Number(a)];
    ShownEvaluates(Assign(op, x, Num(a)), ts, 6, st);
  }

  /** `op=` stores what `op` gives for the old value; dividing by zero stores 0 and records nothing. */
  lemma CompoundMeans(op: AssignOp, x: string, a: I64, st: State)
    ensures var (r, after) := EvalTokens([Ident(x), AssignTok(op), Number(a)], st);
            && after == st.(vars := st.vars[x := r])
            && if op == Set then r == a else Means(Operator(op), st.Get(x), a, r)
  {
    AssignEvaluates(op, x, a, st);
    CompoundValue(op, st.Get(x), a);
  }

  lemma CompoundValue(op: AssignOp, cur: I64, a: I64)
    ensures if op == Set then ApplyAssign(op, cur, a) == a else Means(Operator(op), cur, a, ApplyAssign(op, cur, a))
  {
    if op != Set { ApplyMeans(Operator(op), cur, a); }
  }

  /** The operator in `op=`. */
  function Operator(op: AssignOp): BinOp
    requires op != Set
  {
    match op
    case AddTo => Plus
    case SubFrom => Minus
    case MulBy => Star
    case DivBy => Slash
    case ModBy => Percent
    case LShiftBy => LShift
    case RShiftBy => RShift
    case AndWith => BitAnd
    case XorWith => BitXor
    case OrWith => BitOr
  }
}
