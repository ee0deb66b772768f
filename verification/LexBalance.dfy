/**
 * Where the lexer's bracketed constructs end: behind the closing mark at which,
 * counted over bytes outside quotations, expansions and escapes, as many marks
 * have been closed as opened.
 */
module LexBalance {
  import opened LexSpec

  /** How a byte that stands for itself changes the depth. */
  function Weight(f: Fence, c: char): int { if c == OpenMark(f) then 1 else if c == CloseMark(f) then -1 else 0 }

  /** The text from `p` to `q` is a row of units whose marks add up to `h`. */
  ghost predicate Walk(t: string, p: nat, q: nat, d: nat, f: Fence, h: int)
    requires p <= |t|
    decreases |t| - p
  {
    if p >= q then p == q && h == 0
    else p < |t| && Unit(t, p, d, f).At? && Walk(t, Unit(t, p, d, f).pos, q, d, f, h - Weight(f, t[p]))
  }

  /** `q` is the first place behind `p` where the depth, `depth` at `p`, is down to nothing. */
  ghost predicate FirstBalanced(t: string, p: nat, q: nat, depth: nat, d: nat, f: Fence)
    requires p <= |t|
  {
    && Walk(t, p, q, d, f, -(depth as int))
    && forall m: nat, h: int | m < q && Walk(t, p, m, d, f, h) :: depth + h > 0
  }

  /** Marks are single bytes, neither escapes nor quotations. */
  lemma MarksAreUnits(t: string, p: nat, d: nat, f: Fence)
    requires p < |t| && Weight(f, t[p]) != 0
    ensures Unit(t, p, d, f) == At(p + 1)
  {
  }

  lemma {:induction false} WalkStaysInside(t: string, p: nat, q: nat, d: nat, f: Fence, h: int)
    requires p <= |t| && Walk(t, p, q, d, f, h)
    ensures p <= q <= |t|
    decreases |t| - p
  {
    if p < q { WalkStaysInside(t, Unit(t, p, d, f).pos, q, d, f, h - Weight(f, t[p])); }
  }

  /** A scan that ends, ends at the first balanced place, right behind a closing mark. */
  lemma {:induction false} FenceEndsBalanced(t: string, p: nat, depth: nat, start: nat, d: nat, f: Fence)
    requires p <= |t| && depth >= 1 && FenceRest(t, p, depth, start, d, f).At?
    ensures var q := FenceRest(t, p, depth, start, d, f).pos;
            FirstBalanced(t, p, q, depth, d, f) && t[q - 1] == CloseMark(f)
    decreases |t| - p
  {
    var q, u := FenceRest(t, p, depth, start, d, f).pos, Unit(t, p, d, f);
    var w := Weight(f, t[p]);
    if w != 0 { MarksAreUnits(t, p, d, f); }
    if depth + w > 0 {
      FenceEndsBalanced(t, u.pos, depth + w, start, d, f);
    } else {
      assert Walk(t, q, q, d, f, 0);
    }
    forall m: nat, h: int | m < q && Walk(t, p, m, d, f, h) ensures depth + h > 0 {
      if p < m { WalkStaysInside(t, u.pos, m, d, f, h - w); }
    }
  }

  /** And when there is a first balanced place, the scan ends there. */
  lemma {:induction false} BalancedIsFound(t: string, p: nat, q: nat, depth: nat, start: nat, d: nat, f: Fence)
    requires p <= |t| && depth >= 1 && FirstBalanced(t, p, q, depth, d, f)
    ensures FenceRest(t, p, depth, start, d, f) == At(q)
    decreases |t| - p
  {
    var u, w := Unit(t, p, d, f), Weight(f, t[p]);
    if w != 0 { MarksAreUnits(t, p, d, f); }
    WalkStaysInside(t, u.pos, q, d, f, -(depth as int) - w);
    if depth + w == 0 {
      assert Walk(t, u.pos, u.pos, d, f, 0) && Walk(t, p, u.pos, d, f, w);
    } else {
      forall m: nat, h: int | m < q && Walk(t, u.pos, m, d, f, h) ensures depth + w + h > 0 {
        WalkStaysInside(t, u.pos, m, d, f, h);
        assert Walk(t, p, m, d, f, h + w);
      }
      BalancedIsFound(t, u.pos, q, depth + w, start, d, f);
    }
  }

  /** Command, process, brace and extended-glob scans end exactly at the matching closing mark. */
  lemma FenceEndsAtMatch(t: string, p: nat, q: nat, depth: nat, start: nat, d: nat, f: Fence)
    requires p <= |t| && depth >= 1
    ensures FenceRest(t, p, depth, start, d, f) == At(q) <==> FirstBalanced(t, p, q, depth, d, f)
  {
    if FenceRest(t, p, depth, start, d, f) == At(q) { FenceEndsBalanced(t, p, depth, start, d, f); }
    if FirstBalanced(t, p, q, depth, d, f) { BalancedIsFound(t, p, q, depth, start, d, f); }
  }

  // ----- arithmetic: single and double parentheses -----

  /** Open single and double parentheses. */
  datatype Level = Level(parens: nat, doubles: nat)

  datatype Move = Move(pos: nat, level: Level)

  /**
   * What one unit does: `((` opens a double; `)` closes a single one first, then
   * `))` a double, and is otherwise an ordinary byte.
   */
  function Moved(t: string, p: nat, d: nat, l: Level): (m: Move)
    requires p < |t| && Unit(t, p, d, CommandFence).At?
    ensures p < m.pos <= |t|
  {
    if t[p] == '(' then
      if Is(t, p + 1, '(') then Move(p + 2, Level(l.parens, l.doubles + 1))
      else Move(p + 1, Level(l.parens + 1, l.doubles))
    else if t[p] == ')' then
      if l.parens > 0 then Move(p + 1, Level(l.parens - 1, l.doubles))
      else if Is(t, p + 1, ')') && l.doubles > 0 then Move(p + 2, Level(0, l.doubles - 1))
      else Move(p + 1, l)
    else Move(Unit(t, p, d, CommandFence).pos, l)
  }

  /** From `p` with `l` open, the text up to `q` is a row of units that leaves `k` open. */
  ghost predicate Trail(t: string, p: nat, d: nat, l: Level, q: nat, k: Level)
    requires p <= |t|
    decreases |t| - p
  {
    if p >= q then p == q && k == l
    else
      && p < |t| && Unit(t, p, d, CommandFence).At?
      && var m := Moved(t, p, d, l); Trail(t, m.pos, d, m.level, q, k)
  }

  /** `q` is the first place behind `p` where no double parenthesis is open, and no single one is open there. */
  ghost predicate FirstClosed(t: string, p: nat, d: nat, l: Level, q: nat)
    requires p <= |t|
  {
    && Trail(t, p, d, l, q, Level(0, 0))
    && forall m: nat, k: Level | m < q && Trail(t, p, d, l, m, k) :: k.doubles > 0
  }

  lemma {:induction false} TrailStaysInside(t: string, p: nat, d: nat, l: Level, q: nat, k: Level)
    requires p <= |t| && Trail(t, p, d, l, q, k)
    ensures p <= q <= |t|
    decreases |t| - p
  {
    if p < q {
      var m := Moved(t, p, d, l);
      TrailStaysInside(t, m.pos, d, m.level, q, k);
    }
  }

  lemma ArithmeticMoves(t: string, p: nat, l: Level, start: nat, d: nat)
    requires p < |t| && l.doubles >= 1
    ensures var u := Unit(t, p, d, CommandFence);
            ArithmeticRest(t, p, l.parens, l.doubles, start, d) ==
            if u.Fail? then u
            else
              var m := Moved(t, p, d, l);
              if m.level.doubles == 0 then At(m.pos)
              else ArithmeticRest(t, m.pos, m.level.parens, m.level.doubles, start, d)
  {
    if t[p] != '(' && t[p] != ')' && t[p] != '\\' && !Nests(CommandFence, t[p]) {
      assert Unit(t, p, d, CommandFence) == At(p + 1);
    }
  }

  /** What one unit does to the first closed place. */
  lemma ClosedMoves(t: string, p: nat, d: nat, l: Level, q: nat)
    requires p < |t| && l.doubles >= 1 && Unit(t, p, d, CommandFence).At?
    ensures var m := Moved(t, p, d, l);
            FirstClosed(t, p, d, l, q) <==>
            if m.level.doubles == 0 then q == m.pos else FirstClosed(t, m.pos, d, m.level, q)
  {
    var m := Moved(t, p, d, l);
    assert m.level.doubles == 0 ==> m.level == Level(0, 0);
    assert Trail(t, m.pos, d, m.level, m.pos, m.level) && Trail(t, p, d, l, m.pos, m.level);
    if FirstClosed(t, p, d, l, q) {
      TrailStaysInside(t, m.pos, d, m.level, q, Level(0, 0));
      forall i: nat, k: Level | i < q && Trail(t, m.pos, d, m.level, i, k) ensures k.doubles > 0 {
        TrailStaysInside(t, m.pos, d, m.level, i, k);
        assert Trail(t, p, d, l, i, k);
      }
    }
    if m.level.doubles == 0 && q == m.pos {
      ShortTrails(t, p, d, l, q);
    }
    if m.level.doubles > 0 && FirstClosed(t, m.pos, d, m.level, q) {
      TrailStaysInside(t, m.pos, d, m.level, q, Level(0, 0));
      forall i: nat, k: Level | i < q && Trail(t, p, d, l, i, k) ensures k.doubles > 0 {
        if p < i { assert Trail(t, m.pos, d, m.level, i, k); }
      }
    }
  }

  /** Before the end of the first unit there is only its start. */
  lemma ShortTrails(t: string, p: nat, d: nat, l: Level, q: nat)
    requires p < |t| && l.doubles >= 1 && Unit(t, p, d, CommandFence).At? && q == Moved(t, p, d, l).pos
    ensures forall i: nat, k: Level | i < q && Trail(t, p, d, l, i, k) :: k.doubles > 0
  {
    var m := Moved(t, p, d, l);
    forall i: nat, k: Level | i < q && Trail(t, p, d, l, i, k) ensures k.doubles > 0 {
      if p < i { TrailStaysInside(t, m.pos, d, m.level, i, k); }
    }
  }

  /** An arithmetic expansion ends exactly at the first place where all its double parentheses are closed. */
  lemma {:induction false} ArithmeticEndsAtMatch(t: string, p: nat, q: nat, l: Level, start: nat, d: nat)
    requires p <= |t| && l.doubles >= 1
    ensures ArithmeticRest(t, p, l.parens, l.doubles, start, d) == At(q) <==> FirstClosed(t, p, d, l, q)
    decreases |t| - p
  {
    if p < |t| {
      ArithmeticMoves(t, p, l, start, d);
      if Unit(t, p, d, CommandFence).At? {
        var m := Moved(t, p, d, l);
        ClosedMoves(t, p, d, l, q);
        if m.level.doubles > 0 { ArithmeticEndsAtMatch(t, m.pos, q, m.level, start, d); }
      }
    }
  }
}
