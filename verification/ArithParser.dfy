/**
 * The arithmetic evaluator itself: one mutable position, recursion depth and
 * shell state, advanced by mutually recursive parse methods.
 */
module ArithParser {
  import opened Wrappers
  import opened Int64
  import opened ArithSyntax
  import opened ArithSpec

  class Parser {
    const tokens: seq<Token>
    var pos: nat
    var state: State
    var depth: nat

    /** Position and depth stay in bounds whatever the tokens are. */
    ghost predicate Valid()
      reads this
    {
      pos <= |tokens| && depth <= MAX_DEPTH
    }

    ghost function Result(v: I64): Parsed
      reads this
      requires pos <= |tokens|
    {
      Parsed(v, tokens[pos..], state)
    }

    constructor (tokens: seq<Token>, state: State)
      ensures Valid() && this.tokens == tokens && this.state == state
      ensures pos == 0 && depth == 0
    {
      this.tokens, this.state := tokens, state;
      pos, depth := 0, 0;
    }

    method EnterDepth() returns (ok: bool)
      requires Valid()
      modifies this`depth, this`state
      ensures Valid() && ok == (old(depth) < MAX_DEPTH)
      ensures ok ==> depth == old(depth) + 1 && state == old(state)
      ensures !ok ==> depth == old(depth) && state == old(state).Fail(RecursionLimit)
    {
      if depth >= MAX_DEPTH {
        state := state.Fail(RecursionLimit);
        return false;
      }
      depth := depth + 1;
      return true;
    }

    method ExitDepth()
      modifies this`depth
      ensures depth == if old(depth) == 0 then 0 else old(depth) - 1
    {
      depth := if depth == 0 then 0 else depth - 1;
    }

    method Eat(t: Token) returns (eaten: bool)
      requires Valid()
      modifies this`pos
      ensures Valid() && eaten == At(old(tokens[pos..]), t)
      ensures pos == if eaten then old(pos) + 1 else old(pos)
      ensures eaten ==> tokens[pos..] == old(tokens[pos..])[1..]
    {
      if pos < |tokens| && tokens[pos] == t {
        pos := pos + 1;
        return true;
      }
      return false;
    }

    method ParseExpr() returns (val: I64)
      requires Valid()
      modifies this`pos, this`state, this`depth
      ensures Valid() && old(pos) <= pos && depth == old(depth)
      ensures Result(val) == ArithSpec.ParseExpr(old(tokens[pos..]), old(state), old(depth))
      decreases |tokens| - pos, 20
    {
      ghost var whole := ArithSpec.ParseExpr(tokens[pos..], state, depth);
      val := ParseAssign();
      while true
        invariant Valid() && old(pos) <= pos && depth == old(depth)
        invariant whole == ExprLoop(Result(val), depth)
        decreases |tokens| - pos
      {
        var more := Eat(Comma);
        if !more { return; }
        val := ParseAssign();
      }
    }

    method ParseAssign() returns (result: I64)
      requires Valid()
      modifies this`pos, this`state, this`depth
      ensures Valid() && old(pos) <= pos && depth == old(depth)
      ensures Result(result) == ArithSpec.ParseAssign(old(tokens[pos..]), old(state), old(depth))
      decreases |tokens| - pos, 18
    {
      var ok := EnterDepth();
      if !ok { return 0; }
      var save := pos;
      ghost var here := tokens[pos..];
      assert AtAssignment(here) ==> here[2..] == tokens[pos + 2..];
      if pos < |tokens| && tokens[pos].Ident? {
        var name := tokens[pos].name;
        pos := pos + 1;
        var done := TryCompoundAssign(name);
        if done.Some? {
          ExitDepth();
          return done.value;
        }
        pos := save;
      }
      result := ParseTernary();
      ExitDepth();
    }

    /** Reads `op rhs` after an identifier, if an assignment operator follows. */
    method TryCompoundAssign(name: string) returns (r: Option<I64>)
      requires Valid() && 0 < pos
      modifies this`pos, this`state, this`depth
      ensures Valid() && old(pos) <= pos && depth == old(depth)
      ensures r.None? <==> !(old(pos) < |tokens| && tokens[old(pos)].AssignTok?)
      ensures r.None? ==> pos == old(pos) && state == old(state)
      ensures r.Some? ==>
                var p := ArithSpec.ParseAssign(tokens[old(pos) + 1..], old(state), old(depth));
                var v := ApplyAssign(tokens[old(pos)].assign, p.st.Get(name), p.value);
                Result(r.value) == Parsed(v, p.rest, p.st.Put(name, v))
      decreases |tokens| - pos, 19
    {
      if pos >= |tokens| || !tokens[pos].AssignTok? { return None; }
      var op := tokens[pos].assign;
      pos := pos + 1;
      var rhs := ParseAssign();
      var v := if op == Set then rhs else ApplyAssign(op, state.Get(name), rhs);
      state := state.Put(name, v);
      return Some(v);
    }

    method ParseTernary() returns (val: I64)
      requires Valid()
      modifies this`pos, this`state, this`depth
      ensures Valid() && old(pos) <= pos && depth == old(depth)
      ensures Result(val) == ArithSpec.ParseTernary(old(tokens[pos..]), old(state), old(depth))
      decreases |tokens| - pos, 17
    {
      var cond := ParseBinary(FIRST_BINARY);
      var question := Eat(Question);
      if !question { return cond; }
      var thenVal := ParseAssign();
      var _ := Eat(Colon);
      var elseVal := ParseAssign();
      return if cond != 0 then thenVal else elseVal;
    }

    /** Applies a binary operator, recording a division by zero. */
    method Combine(op: BinOp, lhs: I64, rhs: I64) returns (v: I64)
      modifies this`state
      ensures v == Apply(op, lhs, rhs) && state == Checked(op, rhs, old(state))
    {
      if DividesByZero(op, rhs) {
        state := state.Fail(DivisionByZero);
        return 0;
      }
      v := Apply(op, lhs, rhs);
    }

    /** The ten left-associative operator levels share this loop. */
    method ParseBinary(level: nat) returns (val: I64)
      requires Valid() && FIRST_BINARY <= level <= POWER
      modifies this`pos, this`state, this`depth
      ensures Valid() && old(pos) <= pos && depth == old(depth)
      ensures Result(val) == ArithSpec.ParseBinary(old(tokens[pos..]), old(state), old(depth), level)
      decreases |tokens| - pos, 16 - level
    {
      if level == POWER {
        val := ParseExponentiation();
        return;
      }
      val := ParseBinary(level + 1);
      ghost var whole := ArithSpec.ParseBinary(old(tokens[pos..]), old(state), old(depth), level);
      while pos < |tokens| && tokens[pos].Bin? && Level(tokens[pos].op) == level
        invariant Valid() && old(pos) <= pos && depth == old(depth)
        invariant whole == BinaryLoop(Result(val), depth, level)
        decreases |tokens| - pos
      {
        var op := tokens[pos].op;
        ghost var here := tokens[pos..];
        pos := pos + 1;
        assert here[1..] == tokens[pos..];
        var rhs := ParseBinary(level + 1);
        val := Combine(op, val, rhs);
      }
    }

    method ParseExponentiation() returns (result: I64)
      requires Valid()
      modifies this`pos, this`state, this`depth
      ensures Valid() && old(pos) <= pos && depth == old(depth)
      ensures Result(result) == ParsePower(old(tokens[pos..]), old(state), old(depth))
      decreases |tokens| - pos, 2
    {
      var ok := EnterDepth();
      if !ok { return 0; }
      var base := ParseUnary();
      var power := Eat(StarStar);
      if power {
        var exp := ParseExponentiation();
        result := WrappingPow(base, exp);
      } else {
        result := base;
      }
      ExitDepth();
    }

    method ParseUnary() returns (result: I64)
      requires Valid()
      modifies this`pos, this`state, this`depth
      ensures Valid() && old(pos) <= pos && depth == old(depth)
      ensures Result(result) == ArithSpec.ParseUnary(old(tokens[pos..]), old(state), old(depth))
      decreases |tokens| - pos, 1
    {
      var ok := EnterDepth();
      if !ok { return 0; }
      ghost var here := tokens[pos..];
      if pos < |tokens| {
        assert here[0] == tokens[pos] && here[1..] == tokens[pos + 1..];
      }
      if pos < |tokens| && tokens[pos] in {Bang, Tilde, Bin(Plus), Bin(Minus)} {
        var op := if tokens[pos] == Bang then Not
                  else if tokens[pos] == Tilde then Complement
                  else if tokens[pos] == Bin(Plus) then Positive
                  else Negative;
        pos := pos + 1;
        var v := ParseUnary();
        result := ApplyUnary(op, v);
      } else if pos < |tokens| && tokens[pos] == PlusPlus {
        result := ParsePreIncdec(true);
      } else if pos < |tokens| && tokens[pos] == MinusMinus {
        result := ParsePreIncdec(false);
      } else {
        result := ParsePrimary();
      }
      ExitDepth();
    }

    method ParsePreIncdec(up: bool) returns (v: I64)
      requires Valid() && pos < |tokens|
      modifies this`pos, this`state
      ensures Valid() && old(pos) <= pos
      ensures Result(v) == ParsePreStep(old(tokens[pos..]), old(state), up)
    {
      pos := pos + 1;
      if pos < |tokens| && tokens[pos].Ident? {
        var name := tokens[pos].name;
        pos := pos + 1;
        state := Stepped(state, name, up);
        return state.Get(name);
      }
      return 0;
    }

    method ParsePrimary() returns (v: I64)
      requires Valid()
      modifies this`pos, this`state, this`depth
      ensures Valid() && old(pos) <= pos && depth == old(depth)
      ensures Result(v) == ArithSpec.ParsePrimary(old(tokens[pos..]), old(state), old(depth))
      decreases |tokens| - pos, 0
    {
      if pos >= |tokens| { return 0; }
      ghost var here := tokens[pos..];
      assert here[1..] == tokens[pos + 1..];
      match tokens[pos]
      case Number(n) =>
        pos := pos + 1;
        v := n;
      case Ident(name) =>
        pos := pos + 1;
        v := state.Get(name);
        if pos < |tokens| && tokens[pos] == PlusPlus {
          pos := pos + 1;
          state := Stepped(state, name, true);
        } else if pos < |tokens| && tokens[pos] == MinusMinus {
          pos := pos + 1;
          state := Stepped(state, name, false);
        }
      case LParen =>
        pos := pos + 1;
        v := ParseExpr();
        var _ := Eat(RParen);
      case _ =>
        pos := pos + 1;
        v := 0;
    }
  }

  /** Evaluates a token sequence; for the printed form of a tree this is its value. */
  method EvalArithmetic(tokens: seq<Token>, state: State) returns (v: I64, after: State)
    ensures (v, after) == EvalTokens(tokens, state)
  {
    if tokens == [] { return 0, state; }
    var parser := new Parser(tokens, state);
    assert tokens[0..] == tokens;
    v := parser.ParseExpr();
    after := parser.state;
  }
}
