/**
 * Arithmetic expressions: tokens, syntax trees, their printed form and their
 * value.  Evaluation is strict, as the shell's is: both operands of `&&` and
 * `||` and both branches of `?:` are evaluated, left to right.
 */
module ArithSyntax {
  import opened Wrappers
  import opened Int64

  datatype BinOp =
    | LogicalOr | LogicalAnd | BitOr | BitXor | BitAnd
    | EqEq | Ne | Lt | Gt | Le | Ge
    | LShift | RShift | Plus | Minus | Star | Slash | Percent

  datatype AssignOp =
    | Set | AddTo | SubFrom | MulBy | DivBy | ModBy
    | LShiftBy | RShiftBy | AndWith | XorWith | OrWith

  /** `Bin(Plus)` and `Bin(Minus)` double as the unary signs. */
  datatype Token =
    | Number(n: I64) | Ident(name: string) | Bin(op: BinOp) | StarStar
    | Bang | Tilde | Question | Colon | Comma | LParen | RParen
    | AssignTok(assign: AssignOp) | PlusPlus | MinusMinus

  datatype ArithError = DivisionByZero | RecursionLimit

  /** The part of the shell state arithmetic uses; other variables read as 0. */
  datatype State = State(vars: map<string, I64>, error: Option<ArithError>) {
    function Get(x: string): I64 { if x in vars then vars[x] else 0 }
    function Put(x: string, v: I64): State { this.(vars := vars[x := v]) }
    function Fail(e: ArithError): State { this.(error := Some(e)) }
  }

  // ----- operators -----

  function Truth(b: bool): I64 { if b then 1 else 0 }

  function Apply(op: BinOp, a: I64, b: I64): (r: I64) {
    match op
    case LogicalOr => Truth(a != 0 || b != 0)
    case LogicalAnd => Truth(a != 0 && b != 0)
    case BitOr => BitwiseI64(Or, a, b)
    case BitXor => BitwiseI64(Xor, a, b)
    case BitAnd => BitwiseI64(And, a, b)
    case EqEq => Truth(a == b)
    case Ne => Truth(a != b)
    case Lt => Truth(a < b)
    case Gt => Truth(a > b)
    case Le => Truth(a <= b)
    case Ge => Truth(a >= b)
    case LShift => ShiftLeft(a, b)
    case RShift => ShiftRight(a, b)
    case Plus => Wrap(a + b)
    case Minus => Wrap(a - b)
    case Star => Wrap(a * b)
    case Slash => if b == 0 then 0 else Wrap(TruncDiv(a, b))
    case Percent => if b == 0 then 0 else Wrap(TruncRem(a, b))
  }

  predicate DividesByZero(op: BinOp, b: I64) {
    (op == Slash || op == Percent) && b == 0
  }

  /** The state after applying `op` with right operand `b`. */
  function Checked(op: BinOp, b: I64, st: State): State {
    if DividesByZero(op, b) then st.Fail(DivisionByZero) else st
  }

  /** Compound assignment: dividing by zero gives 0 without an error. */
  function ApplyAssign(op: AssignOp, cur: I64, rhs: I64): (r: I64) {
    match op
    case Set => rhs
    case AddTo => Apply(Plus, cur, rhs)
    case SubFrom => Apply(Minus, cur, rhs)
    case MulBy => Apply(Star, cur, rhs)
    case DivBy => Apply(Slash, cur, rhs)
    case ModBy => Apply(Percent, cur, rhs)
    case LShiftBy => Apply(LShift, cur, rhs)
    case RShiftBy => Apply(RShift, cur, rhs)
    case AndWith => Apply(BitAnd, cur, rhs)
    case XorWith => Apply(BitXor, cur, rhs)
    case OrWith => Apply(BitOr, cur, rhs)
  }

  datatype UnOp = Not | Complement | Positive | Negative

  function ApplyUnary(op: UnOp, v: I64): (r: I64) {
    match op
    case Not => Truth(v == 0)
    case Complement => -1 - v
    case Positive => v
    case Negative => Wrap(0 - (v as int))
  }

  function UnaryToken(op: UnOp): Token {
    match op
    case Not => Bang
    case Complement => Tilde
    case Positive => Bin(Plus)
    case Negative => Bin(Minus)
  }

  // ----- trees and their value -----

  datatype Expr =
    | Num(n: I64)
    | Var(name: string)
    | PostStep(name: string, up: bool)
    | PreStep(name: string, up: bool)
    | Unary(un: UnOp, arg: Expr)
    | Pow(base: Expr, exp: Expr)
    | Binary(op: BinOp, left: Expr, right: Expr)
    | Ternary(cond: Expr, yes: Expr, no: Expr)
    | Assign(assign: AssignOp, name: string, rhs: Expr)
    | Sequence(first: Expr, second: Expr)

  function Stepped(st: State, x: string, up: bool): State {
    st.Put(x, Wrap(st.Get(x) + if up then 1 else -1))
  }

  function Eval(e: Expr, st: State): (r: (I64, State)) {
    match e
    case Num(n) => (n, st)
    case Var(x) => (st.Get(x), st)
    case PostStep(x, up) => (st.Get(x), Stepped(st, x, up))
    case PreStep(x, up) => (Stepped(st, x, up).Get(x), Stepped(st, x, up))
    case Unary(op, a) =>
      var (v, st1) := Eval(a, st);
      (ApplyUnary(op, v), st1)
    case Pow(a, b) =>
      var (v, st1) := Eval(a, st);
      var (w, st2) := Eval(b, st1);
      (PowSpec(v, w), st2)
    case Binary(op, a, b) =>
      var (v, st1) := Eval(a, st);
      var (w, st2) := Eval(b, st1);
      (Apply(op, v, w), Checked(op, w, st2))
    case Ternary(c, a, b) =>
      var (u, st1) := Eval(c, st);
      var (v, st2) := Eval(a, st1);
      var (w, st3) := Eval(b, st2);
      (if u != 0 then v else w, st3)
    case Assign(op, x, a) =>
      var (v, st1) := Eval(a, st);
      var w := ApplyAssign(op, st1.Get(x), v);
      (w, st1.Put(x, w))
    case Sequence(a, b) => Eval(b, Eval(a, st).1)
  }

  // ----- printing with the parentheses precedence and associativity need -----

  const SEQUENCE: nat := 0
  const ASSIGN: nat := 1
  const FIRST_BINARY: nat := 2
  const POWER: nat := 12
  const UNARY: nat := 13
  const PRIMARY: nat := 14

  function Level(op: BinOp): (l: nat)
    ensures FIRST_BINARY <= l < POWER
  {
    match op
    case LogicalOr => 2
    case LogicalAnd => 3
    case BitOr => 4
    case BitXor => 5
    case BitAnd => 6
    case EqEq | Ne => 7
    case Lt | Gt | Le | Ge => 8
    case LShift | RShift => 9
    case Plus | Minus => 10
    case Star | Slash | Percent => 11
  }

  function Prec(e: Expr): (p: nat)
    ensures p <= PRIMARY
  {
    match e
    case Num(_) | Var(_) | PostStep(_, _) => PRIMARY
    case PreStep(_, _) | Unary(_, _) => UNARY
    case Pow(_, _) => POWER
    case Binary(op, _, _) => Level(op)
    case Ternary(_, _, _) | Assign(_, _, _) => ASSIGN
    case Sequence(_, _) => SEQUENCE
  }

  function StepToken(up: bool): Token { if up then PlusPlus else MinusMinus }

  function Print(e: Expr): (ts: seq<Token>)
    decreases e, 0
  {
    match e
    case Num(n) => [Number(n)]
    case Var(x) => [Ident(x)]
    case PostStep(x, up) => [Ident(x), StepToken(up)]
    case PreStep(x, up) => [StepToken(up), Ident(x)]
    case Unary(op, a) => [UnaryToken(op)] + PrintAt(a, UNARY)
    case Pow(a, b) => PrintAt(a, UNARY) + ([StarStar] + PrintAt(b, POWER))
    case Binary(op, a, b) => PrintAt(a, Level(op)) + ([Bin(op)] + PrintAt(b, Level(op) + 1))
    case Ternary(c, a, b) =>
      PrintAt(c, FIRST_BINARY) + ([Question] + (PrintAt(a, ASSIGN) + ([Colon] + PrintAt(b, ASSIGN))))
    case Assign(op, x, a) => [Ident(x), AssignTok(op)] + PrintAt(a, ASSIGN)
    case Sequence(a, b) => PrintAt(a, SEQUENCE) + ([Comma] + PrintAt(b, ASSIGN))
  }

  /** `e` printed where precedence `level` is wanted. */
  function PrintAt(e: Expr, level: nat): (ts: seq<Token>)
    decreases e, 1
  {
    if Prec(e) < level then [LParen] + (Print(e) + [RParen]) else Print(e)
  }

  // ----- how much of the recursion budget a tree needs -----

  const MAX_DEPTH: nat := 64

  /** How many depth-counted parse functions lie between two levels, inclusive. */
  function Guards(from: nat, to: nat): (n: nat) {
    (if from <= ASSIGN <= to then 1 else 0) +
    (if from <= POWER <= to then 1 else 0) +
    (if from <= UNARY <= to then 1 else 0)
  }

  function Max(a: nat, b: nat): nat { if a < b then b else a }

  /** Depth used below the parse function that recognises `e`. */
  function Inner(e: Expr): (n: nat)
    decreases e, 0
  {
    match e
    case Num(_) | Var(_) | PostStep(_, _) | PreStep(_, _) => 0
    case Unary(_, a) => Cost(a, UNARY)
    case Pow(a, b) => Max(Cost(a, UNARY), Cost(b, POWER))
    case Binary(op, a, b) => Max(Cost(a, Level(op)), Cost(b, Level(op) + 1))
    case Ternary(c, a, b) => Max(Cost(c, FIRST_BINARY), Max(Cost(a, ASSIGN), Cost(b, ASSIGN)))
    case Assign(_, _, a) => Cost(a, ASSIGN)
    case Sequence(a, b) => Max(Cost(a, SEQUENCE), Cost(b, ASSIGN))
  }

  /** Depth used when `e`, printed for `level`, is parsed at `level`. */
  function Cost(e: Expr, level: nat): (n: nat)
    decreases e, 1
  {
    if Prec(e) < level then Guards(level, PRIMARY) + Guards(SEQUENCE, Prec(e)) + Inner(e)
    else Guards(level, Prec(e)) + Inner(e)
  }
}
