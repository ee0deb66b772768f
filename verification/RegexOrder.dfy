/**
 * Which of the atomic matches the regex search returns: the first in the order
 * of preference. This fixes its end and its captures, for every pattern.
 */
module RegexOrder {
  import opened Wrappers
  import opened RegexSyntax
  import opened RegexSearch
  import opened RegexAtomic

  /**
   * A group reaches `m` by the choice `c`: the number of an alternative, the
   * empty way of an optional group behind them all, or where a repeated group
   * ends, negated so that later comes first.
   */
  ghost predicate GroupBy(q: Quant, alts: seq<Pat>, text: string, i: nat, m: nat, c: int) {
    match q
    case Once => 0 <= c < |alts| && First(alts[c], text, i, m)
    case Maybe => if c == |alts| then m == i else 0 <= c < |alts| && First(alts[c], text, i, m)
    case Any | Many => c + m == 0 && exists n: nat :: n >= Least(q) && Steps(alts, text, i, m, n)
  }

  /** At the top level: `p` matches `text[i..j]` by the choices `cs`, with `caps` the ranges of its groups. */
  ghost predicate WholeBy(p: Pat, text: string, i: nat, j: nat, caps: seq<Range>, cs: seq<int>)
    decreases p
  {
    match p
    case End => i == j && caps == [] && cs == []
    case Broken => false
    case One(e, q, rest) =>
      && cs != [] && cs[0] <= 0 && Allows(q, -cs[0]) && Fits(e, text, i, -cs[0])
      && WholeBy(rest, text, i - cs[0], j, caps, cs[1..])
    case Grp(alts, q, rest) =>
      && cs != [] && caps != [] && caps[0].0 == i && GroupBy(q, alts, text, i, caps[0].1, cs[0])
      && WholeBy(rest, text, caps[0].1, j, caps[1..], cs[1..])
  }

  /** No match from `i` that may end where it does comes before the one with choices `cs`. */
  ghost predicate Leads(p: Pat, text: string, i: nat, mustEnd: bool, cs: seq<int>) {
    forall j: nat, caps: seq<Range>, ds: seq<int> ::
      WholeBy(p, text, i, j, caps, ds) && (mustEnd ==> j >= |text|) ==> !Earlier(ds, cs)
  }

  /** The first match from `i` ends at `j` and captures `caps`. */
  ghost predicate FirstWhole(p: Pat, text: string, i: nat, mustEnd: bool, j: nat, caps: seq<Range>) {
    && (mustEnd ==> j >= |text|)
    && exists cs :: WholeBy(p, text, i, j, caps, cs) && Leads(p, text, i, mustEnd, cs)
  }

  // ----- matches by choices are the atomic matches -----

  lemma GroupByIsAtomic(q: Quant, alts: seq<Pat>, text: string, i: nat, m: nat, c: int)
    requires i <= |text| && GroupBy(q, alts, text, i, m, c)
    ensures AtomicGroup(q, alts, text, i, m) && i <= m <= |text|
  {
    if q == Any || q == Many {
      var n: nat :| n >= Least(q) && Steps(alts, text, i, m, n);
      StepsFill(text, i, m, alts, n, 0);
    } else if c < |alts| {
      FirstIsTry(alts[c], text, i, m);
    }
  }

  lemma AtomicIsGroupBy(q: Quant, alts: seq<Pat>, text: string, i: nat, m: nat) returns (c: int)
    requires AtomicGroup(q, alts, text, i, m)
    ensures GroupBy(q, alts, text, i, m, c)
  {
    if q == Any || q == Many {
      c := -(m as int);
    } else if SomeFirst(alts, text, i, m) {
      var a: nat :| a < |alts| && First(alts[a], text, i, m);
      c := a;
    } else {
      c := |alts|;
    }
  }

  lemma {:induction false} ByIsAtomic(p: Pat, text: string, i: nat, j: nat, caps: seq<Range>, cs: seq<int>)
    requires i <= |text| && WholeBy(p, text, i, j, caps, cs)
    ensures AtomicWhole(p, text, i, j, caps) && |cs| == Nodes(p)
    decreases p
  {
    match p
    case End =>
    case One(e, q, rest) =>
      var k: nat := -cs[0];
      ByIsAtomic(rest, text, i + k, j, caps, cs[1..]);
      assert Allows(q, k) && Fits(e, text, i, k) && AtomicWhole(rest, text, i + k, j, caps);
    case Grp(alts, q, rest) =>
      GroupByIsAtomic(q, alts, text, i, caps[0].1, cs[0]);
      ByIsAtomic(rest, text, caps[0].1, j, caps[1..], cs[1..]);
  }

  /** Every atomic match is made by some choices. */
  lemma {:induction false} AtomicHasChoices(p: Pat, text: string, i: nat, j: nat, caps: seq<Range>)
    returns (cs: seq<int>)
    requires AtomicWhole(p, text, i, j, caps)
    ensures WholeBy(p, text, i, j, caps, cs)
    decreases p
  {
    match p
    case End =>
      cs := [];
    case One(e, q, rest) =>
      var k: nat :| Allows(q, k) && Fits(e, text, i, k) && AtomicWhole(rest, text, i + k, j, caps);
      var more := AtomicHasChoices(rest, text, i + k, j, caps);
      cs := [-(k as int)] + more;
      assert cs[1..] == more;
    case Grp(alts, q, rest) =>
      var c := AtomicIsGroupBy(q, alts, text, i, caps[0].1);
      var more := AtomicHasChoices(rest, text, caps[0].1, j, caps[1..]);
      cs := [c] + more;
      assert cs[1..] == more;
  }

  lemma GroupChoiceDecides(q: Quant, alts: seq<Pat>, text: string, i: nat, m: nat, m': nat, c: int)
    requires i <= |text| && GroupBy(q, alts, text, i, m, c) && GroupBy(q, alts, text, i, m', c)
    ensures m == m'
  {
    if (q == Once || q == Maybe) && c < |alts| {
      FirstIsTry(alts[c], text, i, m);
      FirstIsTry(alts[c], text, i, m');
    }
  }

  /** The choices decide the end and the captures. */
  lemma {:induction false} ChoicesDecide(p: Pat, text: string, i: nat, j: nat, j': nat,
                                         caps: seq<Range>, caps': seq<Range>, cs: seq<int>)
    requires i <= |text| && WholeBy(p, text, i, j, caps, cs) && WholeBy(p, text, i, j', caps', cs)
    ensures j == j' && caps == caps'
    decreases p
  {
    match p
    case End =>
    case One(e, q, rest) => ChoicesDecide(rest, text, i - cs[0], j, j', caps, caps', cs[1..]);
    case Grp(alts, q, rest) =>
      GroupChoiceDecides(q, alts, text, i, caps[0].1, caps'[0].1, cs[0]);
      GroupByIsAtomic(q, alts, text, i, caps[0].1, cs[0]);
      ChoicesDecide(rest, text, caps[0].1, j, j', caps[1..], caps'[1..], cs[1..]);
      assert caps == [caps[0]] + caps[1..] && caps' == [caps'[0]] + caps'[1..];
  }

  // ----- the search settles for the first choice that lets the rest match -----

  predicate Continues(text: string, m: nat, rest: Pat, mustEnd: bool) {
    m <= |text| && Match(text, m, rest, mustEnd).Some?
  }

  lemma {:induction false} RunSettles(text: string, i: nat, c: int, least: nat, rest: Pat, mustEnd: bool)
    returns (k: nat)
    requires i + c <= |text| && MatchRun(text, i, c, least, rest, mustEnd).Some?
    ensures least <= k <= c && MatchRun(text, i, c, least, rest, mustEnd) == Match(text, i + k, rest, mustEnd)
    ensures forall m: nat :: i + k < m <= i + c ==> !Continues(text, m, rest, mustEnd)
    decreases c + 1
  {
    if Match(text, i + c, rest, mustEnd).Some? {
      k := c;
    } else {
      k := RunSettles(text, i, c - 1, least, rest, mustEnd);
    }
  }

  lemma OneSettles(p: Pat, text: string, i: nat, mustEnd: bool) returns (k: nat)
    requires i <= |text| && p.One? && Match(text, i, p, mustEnd).Some?
    ensures Allows(p.quant, k) && Fits(p.elem, text, i, k)
    ensures Match(text, i, p, mustEnd) == Match(text, i + k, p.rest, mustEnd)
    ensures forall n: nat :: n > k && Allows(p.quant, n) && Fits(p.elem, text, i, n) ==>
                               !Continues(text, i + n, p.rest, mustEnd)
  {
    if p.quant == Any || p.quant == Many {
      k := RunSettles(text, i, Count(text, i, p.elem), Least(p.quant), p.rest, mustEnd);
      forall n: nat | n > k && Fits(p.elem, text, i, n) ensures !Continues(text, i + n, p.rest, mustEnd) {
        CountIsMaximal(text, i, p.elem, n);
      }
    } else if AcceptsAt(p.elem, text, i) && Match(text, i + 1, p.rest, mustEnd).Some? {
      k := 1;
    } else {
      k := 0;
    }
  }

  lemma {:induction false} RepeatsSettle(text: string, i: nat, top: int, rest: Pat, mustEnd: bool,
                                         alts: seq<Pat>, least: nat) returns (m: nat)
    requires i <= |text| && top <= |text| && MatchRepeats(text, i, top, rest, mustEnd, alts, least).Some?
    ensures i <= m <= top && Fills(text, i, m, alts, least)
    ensures MatchRepeats(text, i, top, rest, mustEnd, alts, least) == Capture((i, m), Match(text, m, rest, mustEnd))
    ensures forall m': nat :: m < m' <= top && Fills(text, i, m', alts, least) ==> !Continues(text, m', rest, mustEnd)
    decreases top + 1
  {
    if Fills(text, i, top, alts, least) && Match(text, top, rest, mustEnd).Some? {
      m := top;
    } else {
      m := RepeatsSettle(text, i, top - 1, rest, mustEnd, alts, least);
    }
  }

  /** Whether the `a`-th alternative lets the rest match. */
  predicate AltContinues(text: string, i: nat, rest: Pat, mustEnd: bool, alts: seq<Pat>, a: nat)
    requires i <= |text| && a < |alts|
  {
    var m := Try(text, i, alts[a]);
    m.Some? && Match(text, m.value, rest, mustEnd).Some?
  }

  lemma {:induction false} AltsSettle(text: string, i: nat, rest: Pat, mustEnd: bool, alts: seq<Pat>, k: nat)
    returns (a: nat)
    requires i <= |text| && k <= |alts|
    ensures k <= a <= |alts| && forall b: nat :: k <= b < a ==> !AltContinues(text, i, rest, mustEnd, alts, b)
    ensures MatchAlts(text, i, rest, mustEnd, alts, k).Some? <==> a < |alts|
    ensures a < |alts| ==> AltContinues(text, i, rest, mustEnd, alts, a)
    ensures a < |alts| ==> var m := Try(text, i, alts[a]).value;
              MatchAlts(text, i, rest, mustEnd, alts, k) == Capture((i, m), Match(text, m, rest, mustEnd))
    decreases |alts| - k
  {
    if k == |alts| || AltContinues(text, i, rest, mustEnd, alts, k) {
      a := k;
    } else {
      a := AltsSettle(text, i, rest, mustEnd, alts, k + 1);
    }
  }

  /** The group takes choice `c` to `m`, from where the rest matches, and no lower choice leads anywhere. */
  ghost predicate Settles(p: Pat, text: string, i: nat, mustEnd: bool, c: int, m: nat)
    requires p.Grp?
  {
    && GroupBy(p.quant, p.alts, text, i, m, c) && Continues(text, m, p.rest, mustEnd)
    && forall d: int, m': nat ::
         d < c && GroupBy(p.quant, p.alts, text, i, m', d) ==> !Continues(text, m', p.rest, mustEnd)
  }

  lemma RepeatedGroupSettles(p: Pat, text: string, i: nat, mustEnd: bool) returns (c: int, m: nat)
    requires i <= |text| && p.Grp? && (p.quant == Any || p.quant == Many) && Match(text, i, p, mustEnd).Some?
    ensures Settles(p, text, i, mustEnd, c, m)
    ensures Match(text, i, p, mustEnd) == Capture((i, m), Match(text, m, p.rest, mustEnd))
  {
    var least := Least(p.quant);
    m := RepeatsSettle(text, i, |text|, p.rest, mustEnd, p.alts, least);
    c := -(m as int);
    var n := FillsAreSteps(text, i, m, p.alts, least);
    forall d: int, m': nat | d < c && GroupBy(p.quant, p.alts, text, i, m', d)
      ensures !Continues(text, m', p.rest, mustEnd)
    {
      var n': nat :| n' >= least && Steps(p.alts, text, i, m', n');
      StepsFill(text, i, m', p.alts, n', least);
    }
  }

  lemma SingleGroupSettles(p: Pat, text: string, i: nat, mustEnd: bool) returns (c: int, m: nat)
    requires i <= |text| && p.Grp? && (p.quant == Once || p.quant == Maybe) && Match(text, i, p, mustEnd).Some?
    ensures Settles(p, text, i, mustEnd, c, m)
    ensures Match(text, i, p, mustEnd) == Capture((i, m), Match(text, m, p.rest, mustEnd))
  {
    var a := AltsSettle(text, i, p.rest, mustEnd, p.alts, 0);
    c, m := a, i;
    if a < |p.alts| {
      m := Try(text, i, p.alts[a]).value;
      TryIsFirst(p.alts[a], text, i);
    }
    forall d: int, m': nat | d < c && GroupBy(p.quant, p.alts, text, i, m', d)
      ensures !Continues(text, m', p.rest, mustEnd)
    {
      FirstIsTry(p.alts[d], text, i, m');
      assert !AltContinues(text, i, p.rest, mustEnd, p.alts, d);
    }
  }

  lemma GroupSettles(p: Pat, text: string, i: nat, mustEnd: bool) returns (c: int, m: nat)
    requires i <= |text| && p.Grp? && Match(text, i, p, mustEnd).Some?
    ensures Settles(p, text, i, mustEnd, c, m)
    ensures Match(text, i, p, mustEnd) == Capture((i, m), Match(text, m, p.rest, mustEnd))
  {
    if p.quant == Any || p.quant == Many {
      c, m := RepeatedGroupSettles(p, text, i, mustEnd);
    } else {
      c, m := SingleGroupSettles(p, text, i, mustEnd);
    }
  }

  // ----- the search returns the first match -----

  /** What the search returns is a match that no other comes before. */
  lemma {:induction false} MatchFindsFirst(p: Pat, text: string, i: nat, mustEnd: bool) returns (cs: seq<int>)
    requires i <= |text| && Match(text, i, p, mustEnd).Some?
    ensures var (j, caps) := Match(text, i, p, mustEnd).value;
            WholeBy(p, text, i, j, caps, cs) && (mustEnd ==> j >= |text|)
    ensures Leads(p, text, i, mustEnd, cs)
    decreases p, 1
  {
    match p
    case End =>
      cs := [];
    case One(_, _, _) =>
      cs := OneMatchFindsFirst(p, text, i, mustEnd);
    case Grp(_, _, _) =>
      cs := GroupMatchFindsFirst(p, text, i, mustEnd);
  }

  lemma {:induction false} OneMatchFindsFirst(p: Pat, text: string, i: nat, mustEnd: bool) returns (cs: seq<int>)
    requires i <= |text| && p.One? && Match(text, i, p, mustEnd).Some?
    ensures var (j, caps) := Match(text, i, p, mustEnd).value;
            WholeBy(p, text, i, j, caps, cs) && (mustEnd ==> j >= |text|)
    ensures Leads(p, text, i, mustEnd, cs)
    decreases p, 0
  {
    var k := OneSettles(p, text, i, mustEnd);
    var more := MatchFindsFirst(p.rest, text, i + k, mustEnd);
    cs := [-(k as int)] + more;
    assert cs[1..] == more;
    forall j: nat, caps: seq<Range>, ds: seq<int>
      | WholeBy(p, text, i, j, caps, ds) && (mustEnd ==> j >= |text|)
      ensures !Earlier(ds, cs)
    {
      var n: nat := -ds[0];
      WholeContinues(p.rest, text, i + n, j, caps, ds[1..], mustEnd);
      if n == k { assert WholeBy(p.rest, text, i + k, j, caps, ds[1..]); }
    }
  }

  lemma {:induction false} GroupMatchFindsFirst(p: Pat, text: string, i: nat, mustEnd: bool) returns (cs: seq<int>)
    requires i <= |text| && p.Grp? && Match(text, i, p, mustEnd).Some?
    ensures var (j, caps) := Match(text, i, p, mustEnd).value;
            WholeBy(p, text, i, j, caps, cs) && (mustEnd ==> j >= |text|)
    ensures Leads(p, text, i, mustEnd, cs)
    decreases p, 0
  {
    var c, m := GroupSettles(p, text, i, mustEnd);
    var more := MatchFindsFirst(p.rest, text, m, mustEnd);
    var (j0, rest) := Match(text, m, p.rest, mustEnd).value;
    cs := [c] + more;
    assert cs[1..] == more && ([(i, m)] + rest)[1..] == rest;
    forall j: nat, caps: seq<Range>, ds: seq<int>
      | WholeBy(p, text, i, j, caps, ds) && (mustEnd ==> j >= |text|)
      ensures !Earlier(ds, cs)
    {
      var m' := caps[0].1;
      GroupByIsAtomic(p.quant, p.alts, text, i, m', ds[0]);
      WholeContinues(p.rest, text, m', j, caps[1..], ds[1..], mustEnd);
      if ds[0] == c { GroupChoiceDecides(p.quant, p.alts, text, i, m, m', c); }
    }
  }

  lemma WholeContinues(p: Pat, text: string, i: nat, j: nat, caps: seq<Range>, cs: seq<int>, mustEnd: bool)
    requires i <= |text| && WholeBy(p, text, i, j, caps, cs) && (mustEnd ==> j >= |text|)
    ensures Continues(text, i, p, mustEnd)
  {
    ByIsAtomic(p, text, i, j, caps, cs);
    AtomicIsFound(p, text, i, j, caps, mustEnd);
  }

  /** For every pattern, text and start, the search returns the end and the captures of the first match. */
  lemma MatchIsFirst(p: Pat, text: string, i: nat, mustEnd: bool, j: nat, caps: seq<Range>)
    requires i <= |text|
    ensures Match(text, i, p, mustEnd) == Some((j, caps)) <==> FirstWhole(p, text, i, mustEnd, j, caps)
  {
    if Match(text, i, p, mustEnd).Some? {
      var cs := MatchFindsFirst(p, text, i, mustEnd);
    }
    if FirstWhole(p, text, i, mustEnd, j, caps) {
      FirstIsMatch(p, text, i, mustEnd, j, caps);
    }
  }

  lemma FirstIsMatch(p: Pat, text: string, i: nat, mustEnd: bool, j: nat, caps: seq<Range>)
    requires i <= |text| && FirstWhole(p, text, i, mustEnd, j, caps)
    ensures Match(text, i, p, mustEnd) == Some((j, caps))
  {
    var cs :| WholeBy(p, text, i, j, caps, cs) && Leads(p, text, i, mustEnd, cs);
    WholeContinues(p, text, i, j, caps, cs, mustEnd);
    var ds := MatchFindsFirst(p, text, i, mustEnd);
    var (j', caps') := Match(text, i, p, mustEnd).value;
    ByIsAtomic(p, text, i, j, caps, cs);
    ByIsAtomic(p, text, i, j', caps', ds);
    EarlierIsTotal(cs, ds);
    ChoicesDecide(p, text, i, j, j', caps, caps', cs);
  }
}
