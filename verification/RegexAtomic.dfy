/**
 * Exactly what the regex search finds, for every pattern. A group is atomic: an
 * alternative contributes its first end in the order of preference and no
 * other. The search succeeds exactly where a match with atomic groups starts.
 */
module RegexAtomic {
  import opened Wrappers
  import opened RegexSyntax
  import opened RegexSearch

  // ----- the order of preference -----

  /**
   * Matches of one pattern are told apart by their choices: the number of an
   * alternative, or a number of repetitions, negated so that more comes first.
   */
  predicate Earlier(cs: seq<int>, ds: seq<int>) {
    && cs != [] && ds != []
    && (cs[0] < ds[0] || (cs[0] == ds[0] && Earlier(cs[1..], ds[1..])))
  }

  /** Inside a group: `p` matches `text[i..j]` by the choices `cs`, nested groups being atomic. */
  ghost predicate By(p: Pat, text: string, i: nat, j: nat, cs: seq<int>)
    decreases p, 0
  {
    match p
    case End => i == j && cs == []
    case Broken => false
    case One(e, q, rest) =>
      && cs != [] && cs[0] <= 0 && Allows(q, -cs[0]) && Fits(e, text, i, -cs[0])
      && By(rest, text, i - cs[0], j, cs[1..])
    case Grp(alts, _, rest) =>
      && cs != [] && 0 <= cs[0] < |alts|
      && exists m: nat :: First(alts[cs[0]], text, i, m) && By(rest, text, m, j, cs[1..])
  }

  /** No match of `p` from `i` comes before the one with choices `cs`. */
  ghost predicate Preferred(p: Pat, text: string, i: nat, cs: seq<int>)
    decreases p, 1
  {
    forall j: nat, ds: seq<int> :: By(p, text, i, j, ds) ==> !Earlier(ds, cs)
  }

  /** `j` is the end of the first match of `p` from `i`. */
  ghost predicate First(p: Pat, text: string, i: nat, j: nat)
    decreases p, 2
  {
    exists cs :: By(p, text, i, j, cs) && Preferred(p, text, i, cs)
  }

  // ----- the search inside a group returns the first end -----

  /** Whether `n` bytes leave a position from which the rest matches. */
  predicate RunWorks(text: string, i: nat, rest: Pat, n: nat) { i + n <= |text| && Try(text, i + n, rest).Some? }

  lemma {:induction false} TryRunPicks(text: string, i: nat, c: int, least: nat, rest: Pat) returns (k: nat)
    requires i + c <= |text| && TryRun(text, i, c, least, rest).Some?
    ensures least <= k <= c && TryRun(text, i, c, least, rest) == Try(text, i + k, rest)
    ensures forall n: nat :: k < n <= c ==> !RunWorks(text, i, rest, n)
    decreases c + 1
  {
    if Try(text, i + c, rest).Some? {
      k := c;
    } else {
      k := TryRunPicks(text, i, c - 1, least, rest);
    }
  }

  lemma {:induction false} TryRunFinds(text: string, i: nat, c: int, least: nat, rest: Pat, k: nat)
    requires i + c <= |text| && least <= k <= c && Try(text, i + k, rest).Some?
    ensures TryRun(text, i, c, least, rest).Some?
    decreases c
  {
    if k < c { TryRunFinds(text, i, c - 1, least, rest, k); }
  }

  /** Whether the `a`-th alternative of a group lets the rest match. */
  predicate AltWorks(text: string, i: nat, p: Pat, a: nat)
    requires i <= |text| && p.Grp? && a < |p.alts|
  {
    var m := Try(text, i, p.alts[a]);
    m.Some? && Try(text, m.value, p.rest).Some?
  }

  lemma {:induction false} TryAltsPicks(text: string, i: nat, p: Pat, k: nat) returns (a: nat)
    requires i <= |text| && p.Grp? && k <= |p.alts| && TryAlts(text, i, p, k).Some?
    ensures k <= a < |p.alts| && AltWorks(text, i, p, a)
    ensures TryAlts(text, i, p, k) == Try(text, Try(text, i, p.alts[a]).value, p.rest)
    ensures forall b: nat :: k <= b < a ==> !AltWorks(text, i, p, b)
    decreases |p.alts| - k
  {
    if AltWorks(text, i, p, k) {
      a := k;
    } else {
      a := TryAltsPicks(text, i, p, k + 1);
    }
  }

  lemma {:induction false} TryAltsFinds(text: string, i: nat, p: Pat, k: nat, a: nat)
    requires i <= |text| && p.Grp? && k <= a < |p.alts| && AltWorks(text, i, p, a)
    ensures TryAlts(text, i, p, k).Some?
    decreases a - k
  {
    if k < a { TryAltsFinds(text, i, p, k + 1, a); }
  }

  lemma {:induction false} CountIsMaximal(text: string, i: nat, e: Elem, k: nat)
    requires i <= |text| && Fits(e, text, i, k)
    ensures k <= Count(text, i, e)
    decreases k
  {
    if k > 0 { CountIsMaximal(text, i + 1, e, k - 1); }
  }

  /** If some atomic match starts at `i`, the search finds one. */
  lemma {:induction false} TryMissesNone(p: Pat, text: string, i: nat, j: nat, cs: seq<int>)
    requires i <= |text| && By(p, text, i, j, cs)
    ensures Try(text, i, p).Some?
    decreases p, 0
  {
    match p
    case End =>
    case One(e, q, rest) =>
      var k: nat := -cs[0];
      TryMissesNone(rest, text, i + k, j, cs[1..]);
      CountIsMaximal(text, i, e, k);
      if q == Any || q == Many { TryRunFinds(text, i, Count(text, i, e), Least(q), rest, k); }
    case Grp(alts, _, rest) =>
      var a, m := GroupChoice(p, text, i, j, cs);
      FirstIsTry(alts[a], text, i, m);
      TryMissesNone(rest, text, m, j, cs[1..]);
      TryAltsFinds(text, i, p, 0, a);
  }

  /** What the search finds is an atomic match that no other comes before. */
  lemma {:induction false} TryFindsFirst(p: Pat, text: string, i: nat) returns (cs: seq<int>)
    requires i <= |text| && Try(text, i, p).Some?
    ensures By(p, text, i, Try(text, i, p).value, cs) && Preferred(p, text, i, cs)
    decreases p, 1
  {
    match p
    case End =>
      cs := [];
    case One(e, q, rest) =>
      cs := OneFindsFirst(p, text, i);
    case Grp(alts, _, rest) =>
      cs := GroupFindsFirst(p, text, i);
  }

  /** How many repetitions the search settles for. */
  lemma OnePicks(p: Pat, text: string, i: nat) returns (k: nat)
    requires i <= |text| && p.One? && Try(text, i, p).Some?
    ensures Allows(p.quant, k) && Fits(p.elem, text, i, k) && Try(text, i, p) == Try(text, i + k, p.rest)
    ensures forall n: nat ::
              n > k && Allows(p.quant, n) && Fits(p.elem, text, i, n) ==> !RunWorks(text, i, p.rest, n)
  {
    if p.quant == Any || p.quant == Many {
      var c := Count(text, i, p.elem);
      k := TryRunPicks(text, i, c, Least(p.quant), p.rest);
      forall n: nat | n > k && Fits(p.elem, text, i, n) ensures !RunWorks(text, i, p.rest, n) {
        CountIsMaximal(text, i, p.elem, n);
      }
    } else if AcceptsAt(p.elem, text, i) && Try(text, i + 1, p.rest).Some? {
      k := 1;
    } else {
      k := 0;
    }
  }

  lemma {:induction false} OneFindsFirst(p: Pat, text: string, i: nat) returns (cs: seq<int>)
    requires i <= |text| && p.One? && Try(text, i, p).Some?
    ensures By(p, text, i, Try(text, i, p).value, cs) && Preferred(p, text, i, cs)
    decreases p, 0
  {
    var k := OnePicks(p, text, i);
    var more := TryFindsFirst(p.rest, text, i + k);
    var choice := -(k as int);
    cs := [choice] + more;
    assert cs[1..] == more;
    forall j: nat, ds: seq<int> | By(p, text, i, j, ds) ensures !Earlier(ds, cs) {
      var n: nat := -ds[0];
      TryMissesNone(p.rest, text, i + n, j, ds[1..]);
      assert RunWorks(text, i, p.rest, n);
      if n == k { assert By(p.rest, text, i + k, j, ds[1..]); }
    }
  }

  lemma GroupChoice(p: Pat, text: string, i: nat, j: nat, cs: seq<int>) returns (a: nat, m: nat)
    requires p.Grp? && By(p, text, i, j, cs)
    ensures cs != [] && cs[0] == a < |p.alts| && First(p.alts[a], text, i, m) && By(p.rest, text, m, j, cs[1..])
  {
    match p
    case Grp(alts, _, rest) =>
      var m0: nat :| First(alts[cs[0]], text, i, m0) && By(rest, text, m0, j, cs[1..]);
      a, m := cs[0], m0;
  }

  lemma {:induction false} GroupFindsFirst(p: Pat, text: string, i: nat) returns (cs: seq<int>)
    requires i <= |text| && p.Grp? && Try(text, i, p).Some?
    ensures By(p, text, i, Try(text, i, p).value, cs) && Preferred(p, text, i, cs)
    decreases p, 0
  {
    var a := TryAltsPicks(text, i, p, 0);
    var m := Try(text, i, p.alts[a]).value;
    TryIsFirst(p.alts[a], text, i);
    var more := TryFindsFirst(p.rest, text, m);
    cs := [a] + more;
    assert cs[1..] == more;
    forall j: nat, ds: seq<int> | By(p, text, i, j, ds) ensures !Earlier(ds, cs) {
      var b, m' := GroupChoice(p, text, i, j, ds);
      FirstIsTry(p.alts[b], text, i, m');
      TryMissesNone(p.rest, text, m', j, ds[1..]);
      assert AltWorks(text, i, p, b);
    }
  }

  lemma {:induction false} TryIsFirst(p: Pat, text: string, i: nat)
    requires i <= |text| && Try(text, i, p).Some?
    ensures First(p, text, i, Try(text, i, p).value)
    decreases p, 2
  {
    var cs := TryFindsFirst(p, text, i);
  }

  /** The first end is the one the search returns. */
  lemma {:induction false} FirstIsTry(p: Pat, text: string, i: nat, j: nat)
    requires i <= |text| && First(p, text, i, j)
    ensures Try(text, i, p) == Some(j)
    decreases p, 2
  {
    var cs :| By(p, text, i, j, cs) && Preferred(p, text, i, cs);
    TryMissesNone(p, text, i, j, cs);
    var ds := TryFindsFirst(p, text, i);
    ChoicesHaveOneLength(p, text, i, j, cs);
    ChoicesHaveOneLength(p, text, i, Try(text, i, p).value, ds);
    EarlierIsTotal(cs, ds);
    ChoicesDecideTheEnd(p, text, i, j, Try(text, i, p).value, cs);
  }

  function Nodes(p: Pat): nat {
    match p
    case End | Broken => 0
    case One(_, _, rest) => 1 + Nodes(rest)
    case Grp(_, _, rest) => 1 + Nodes(rest)
  }

  lemma {:induction false} ChoicesHaveOneLength(p: Pat, text: string, i: nat, j: nat, cs: seq<int>)
    requires By(p, text, i, j, cs)
    ensures |cs| == Nodes(p)
    decreases p
  {
    match p
    case End =>
    case One(e, q, rest) => ChoicesHaveOneLength(rest, text, i - cs[0], j, cs[1..]);
    case Grp(alts, _, rest) =>
      var a, m := GroupChoice(p, text, i, j, cs);
      ChoicesHaveOneLength(rest, text, m, j, cs[1..]);
  }

  lemma {:induction false} EarlierIsTotal(cs: seq<int>, ds: seq<int>)
    requires |cs| == |ds| && !Earlier(cs, ds) && !Earlier(ds, cs)
    ensures cs == ds
  {
    if cs != [] {
      EarlierIsTotal(cs[1..], ds[1..]);
      assert cs == [cs[0]] + cs[1..] && ds == [ds[0]] + ds[1..];
    }
  }

  lemma {:induction false} ChoicesDecideTheEnd(p: Pat, text: string, i: nat, j: nat, j': nat, cs: seq<int>)
    requires i <= |text| && By(p, text, i, j, cs) && By(p, text, i, j', cs)
    ensures j == j'
    decreases p, 1
  {
    match p
    case End =>
    case One(e, q, rest) => ChoicesDecideTheEnd(rest, text, i - cs[0], j, j', cs[1..]);
    case Grp(alts, _, rest) =>
      var a, m := GroupChoice(p, text, i, j, cs);
      var a', m' := GroupChoice(p, text, i, j', cs);
      FirstIsTry(alts[a], text, i, m);
      FirstIsTry(alts[a], text, i, m');
      ChoicesDecideTheEnd(rest, text, m, j, j', cs[1..]);
  }

  // ----- the search at the top level -----

  ghost predicate SomeFirst(alts: seq<Pat>, text: string, i: nat, j: nat) {
    exists a: nat :: a < |alts| && First(alts[a], text, i, j)
  }

  /** `n` times the first end of some alternative, each moving on. */
  ghost predicate Steps(alts: seq<Pat>, text: string, i: nat, j: nat, n: nat)
    decreases n
  {
    if n == 0 then i == j
    else exists m: nat :: i < m && SomeFirst(alts, text, i, m) && Steps(alts, text, m, j, n - 1)
  }

  ghost predicate AtomicGroup(q: Quant, alts: seq<Pat>, text: string, i: nat, j: nat) {
    match q
    case Once => SomeFirst(alts, text, i, j)
    case Maybe => i == j || SomeFirst(alts, text, i, j)
    case Any => exists n: nat :: Steps(alts, text, i, j, n)
    case Many => exists n: nat :: n >= 1 && Steps(alts, text, i, j, n)
  }

  /** `p` matches `text[i..j]` with all groups atomic and `caps` their ranges. */
  ghost predicate AtomicWhole(p: Pat, text: string, i: nat, j: nat, caps: seq<Range>)
    decreases p
  {
    match p
    case End => i == j && caps == []
    case Broken => false
    case One(e, q, rest) =>
      exists k: nat :: Allows(q, k) && Fits(e, text, i, k) && AtomicWhole(rest, text, i + k, j, caps)
    case Grp(alts, q, rest) =>
      && caps != [] && caps[0].0 == i
      && AtomicGroup(q, alts, text, i, caps[0].1)
      && AtomicWhole(rest, text, caps[0].1, j, caps[1..])
  }

  ghost predicate HasAtomicMatchAt(p: Pat, text: string, i: nat, mustEnd: bool) {
    exists j: nat, caps: seq<Range> :: AtomicWhole(p, text, i, j, caps) && (mustEnd ==> j >= |text|)
  }

  // ----- repetitions -----

  lemma {:induction false} FillsAreSteps(text: string, i: nat, j: nat, alts: seq<Pat>, least: nat) returns (n: nat)
    requires j <= |text| && Fills(text, i, j, alts, least)
    ensures n >= least && Steps(alts, text, i, j, n)
    decreases if i < j then j - i else 0
  {
    if i == j {
      n := 0;
    } else {
      var a := FillsPick(text, i, j, alts, least, 0);
      var m := Try(text, i, alts[a]).value;
      TryIsFirst(alts[a], text, i);
      assert SomeFirst(alts, text, i, m);
      var more := FillsAreSteps(text, m, j, alts, Pred(least));
      n := more + 1;
    }
  }

  lemma {:induction false} FillsPick(text: string, i: nat, j: nat, alts: seq<Pat>, least: nat, k: nat) returns (a: nat)
    requires i < j <= |text| && k <= |alts| && FillsFrom(text, i, j, alts, least, k)
    ensures a < |alts| && Try(text, i, alts[a]).Some?
    ensures var m := Try(text, i, alts[a]).value; i < m <= j && Fills(text, m, j, alts, Pred(least))
    decreases |alts| - k
  {
    if FillsWith(text, i, j, alts, least, alts[k]) {
      a := k;
    } else {
      a := FillsPick(text, i, j, alts, least, k + 1);
    }
  }

  lemma {:induction false} StepsFill(text: string, i: nat, j: nat, alts: seq<Pat>, n: nat, least: nat)
    requires i <= |text| && Steps(alts, text, i, j, n) && n >= least
    ensures i <= j <= |text| && Fills(text, i, j, alts, least)
    decreases n
  {
    if n > 0 {
      var m: nat :| i < m && SomeFirst(alts, text, i, m) && Steps(alts, text, m, j, n - 1);
      var a: nat :| a < |alts| && First(alts[a], text, i, m);
      FirstIsTry(alts[a], text, i, m);
      StepsFill(text, m, j, alts, n - 1, Pred(least));
      FillsFound(text, i, j, alts, least, 0, a);
    }
  }

  lemma {:induction false} FillsFound(text: string, i: nat, j: nat, alts: seq<Pat>, least: nat, k: nat, a: nat)
    requires i < j <= |text| && k <= a < |alts| && FillsWith(text, i, j, alts, least, alts[a])
    ensures FillsFrom(text, i, j, alts, least, k)
    decreases a - k
  {
    if k < a { FillsFound(text, i, j, alts, least, k + 1, a); }
  }

  // ----- every success is an atomic match -----

  /** The first capture is the group's range; the others belong to the rest. */
  ghost predicate Captured(text: string, i: nat, end: nat, rest: Pat, mustEnd: bool, r: (nat, seq<Range>)) {
    && r.1 != [] && r.1[0] == (i, end)
    && AtomicWhole(rest, text, end, r.0, r.1[1..]) && (mustEnd ==> r.0 >= |text|)
  }

  lemma {:induction false} MatchIsAtomic(text: string, i: nat, p: Pat, mustEnd: bool)
    requires i <= |text| && Match(text, i, p, mustEnd).Some?
    ensures var (j, caps) := Match(text, i, p, mustEnd).value;
            AtomicWhole(p, text, i, j, caps) && (mustEnd ==> j >= |text|)
    decreases p, 0, 0
  {
    var (j, caps) := Match(text, i, p, mustEnd).value;
    match p
    case End =>
    case Grp(alts, q, rest) =>
      if q == Any || q == Many {
        var end := RepeatsAreAtomic(text, i, |text|, rest, mustEnd, alts, Least(q));
      } else if MatchAlts(text, i, rest, mustEnd, alts, 0).Some? {
        var end := AltsAreAtomic(text, i, rest, mustEnd, alts, 0);
      } else {
        MatchIsAtomic(text, i, rest, mustEnd);
        assert caps[1..] == Match(text, i, rest, mustEnd).value.1;
      }
    case One(e, q, rest) =>
      var k: nat := 1;
      if q == Any || q == Many {
        k := RunIsAtomic(text, i, Count(text, i, e), Least(q), rest, mustEnd);
      } else if AcceptsAt(e, text, i) && Match(text, i + 1, rest, mustEnd).Some? {
        MatchIsAtomic(text, i + 1, rest, mustEnd);
      } else {
        k := 0;
        MatchIsAtomic(text, i, rest, mustEnd);
      }
      assert Allows(q, k) && Fits(e, text, i, k) && AtomicWhole(rest, text, i + k, j, caps);
  }

  lemma {:induction false} RunIsAtomic(text: string, i: nat, c: int, least: nat, rest: Pat, mustEnd: bool)
    returns (k: nat)
    requires i + c <= |text| && MatchRun(text, i, c, least, rest, mustEnd).Some?
    ensures var (j, caps) := MatchRun(text, i, c, least, rest, mustEnd).value;
            least <= k <= c && AtomicWhole(rest, text, i + k, j, caps) && (mustEnd ==> j >= |text|)
    decreases rest, 1, c + 1
  {
    if Match(text, i + c, rest, mustEnd).Some? {
      MatchIsAtomic(text, i + c, rest, mustEnd);
      k := c;
    } else {
      k := RunIsAtomic(text, i, c - 1, least, rest, mustEnd);
    }
  }

  lemma {:induction false} RepeatsAreAtomic(text: string, i: nat, top: int, rest: Pat, mustEnd: bool,
                                            alts: seq<Pat>, least: nat) returns (end: nat)
    requires i <= |text| && top <= |text| && MatchRepeats(text, i, top, rest, mustEnd, alts, least).Some?
    ensures exists n: nat :: n >= least && Steps(alts, text, i, end, n)
    ensures Captured(text, i, end, rest, mustEnd, MatchRepeats(text, i, top, rest, mustEnd, alts, least).value)
    decreases rest, 1, top + 1
  {
    if Fills(text, i, top, alts, least) && Match(text, top, rest, mustEnd).Some? {
      var n := FillsAreSteps(text, i, top, alts, least);
      MatchIsAtomic(text, top, rest, mustEnd);
      end := top;
      var caps := Match(text, top, rest, mustEnd).value.1;
      assert ([(i, end)] + caps)[1..] == caps;
    } else {
      end := RepeatsAreAtomic(text, i, top - 1, rest, mustEnd, alts, least);
    }
  }

  lemma {:induction false} AltsAreAtomic(text: string, i: nat, rest: Pat, mustEnd: bool, alts: seq<Pat>, k: nat)
    returns (end: nat)
    requires i <= |text| && k <= |alts| && MatchAlts(text, i, rest, mustEnd, alts, k).Some?
    ensures SomeFirst(alts, text, i, end)
    ensures Captured(text, i, end, rest, mustEnd, MatchAlts(text, i, rest, mustEnd, alts, k).value)
    decreases rest, 1, |alts| - k
  {
    var first := Try(text, i, alts[k]);
    if first.Some? && Match(text, first.value, rest, mustEnd).Some? {
      end := first.value;
      TryIsFirst(alts[k], text, i);
      MatchIsAtomic(text, end, rest, mustEnd);
      var caps := Match(text, end, rest, mustEnd).value.1;
      assert ([(i, end)] + caps)[1..] == caps;
    } else {
      end := AltsAreAtomic(text, i, rest, mustEnd, alts, k + 1);
    }
  }

  // ----- every atomic match makes the search succeed -----

  lemma {:induction false} AtomicIsFound(p: Pat, text: string, i: nat, j: nat, caps: seq<Range>, mustEnd: bool)
    requires i <= |text| && AtomicWhole(p, text, i, j, caps) && (mustEnd ==> j >= |text|)
    ensures Match(text, i, p, mustEnd).Some?
    decreases p
  {
    match p
    case End =>
    case Grp(alts, q, rest) =>
      var end := caps[0].1;
      if q == Any || q == Many {
        var n: nat :| n >= Least(q) && Steps(alts, text, i, end, n);
        StepsFill(text, i, end, alts, n, Least(q));
        AtomicIsFound(rest, text, end, j, caps[1..], mustEnd);
        RepeatsFound(text, i, |text|, rest, mustEnd, alts, Least(q), end);
      } else if SomeFirst(alts, text, i, end) {
        var a: nat :| a < |alts| && First(alts[a], text, i, end);
        FirstIsTry(alts[a], text, i, end);
        AtomicIsFound(rest, text, end, j, caps[1..], mustEnd);
        AltFound(text, i, rest, mustEnd, alts, 0, a);
      } else {
        AtomicIsFound(rest, text, end, j, caps[1..], mustEnd);
      }
    case One(e, q, rest) =>
      var k: nat :| Allows(q, k) && Fits(e, text, i, k) && AtomicWhole(rest, text, i + k, j, caps);
      AtomicIsFound(rest, text, i + k, j, caps, mustEnd);
      if q == Any || q == Many {
        CountIsMaximal(text, i, e, k);
        RunFound(text, i, Count(text, i, e), Least(q), rest, mustEnd, k);
      }
  }

  lemma {:induction false} RunFound(text: string, i: nat, c: int, least: nat, rest: Pat, mustEnd: bool, k: nat)
    requires i + c <= |text| && least <= k <= c && Match(text, i + k, rest, mustEnd).Some?
    ensures MatchRun(text, i, c, least, rest, mustEnd).Some?
    decreases c
  {
    if k < c { RunFound(text, i, c - 1, least, rest, mustEnd, k); }
  }

  lemma {:induction false} RepeatsFound(text: string, i: nat, top: int, rest: Pat, mustEnd: bool,
                                        alts: seq<Pat>, least: nat, end: nat)
    requires i <= end <= top <= |text| && Fills(text, i, end, alts, least) && Match(text, end, rest, mustEnd).Some?
    ensures MatchRepeats(text, i, top, rest, mustEnd, alts, least).Some?
    decreases top
  {
    if end < top { RepeatsFound(text, i, top - 1, rest, mustEnd, alts, least, end); }
  }

  lemma {:induction false} AltFound(text: string, i: nat, rest: Pat, mustEnd: bool, alts: seq<Pat>, k: nat, a: nat)
    requires i <= |text| && k <= a < |alts| && Try(text, i, alts[a]).Some?
    requires Match(text, Try(text, i, alts[a]).value, rest, mustEnd).Some?
    ensures MatchAlts(text, i, rest, mustEnd, alts, k).Some?
    decreases a - k
  {
    if k < a { AltFound(text, i, rest, mustEnd, alts, k + 1, a); }
  }

  /** For every pattern the search succeeds exactly where a match with atomic groups starts. */
  lemma SearchIsAtomic(p: Pat, text: string, i: nat, mustEnd: bool)
    requires i <= |text|
    ensures Match(text, i, p, mustEnd).Some? <==> HasAtomicMatchAt(p, text, i, mustEnd)
  {
    if Match(text, i, p, mustEnd).Some? {
      MatchIsAtomic(text, i, p, mustEnd);
      var (j, caps) := Match(text, i, p, mustEnd).value;
      assert AtomicWhole(p, text, i, j, caps);
    }
    if HasAtomicMatchAt(p, text, i, mustEnd) {
      var j: nat, caps: seq<Range> :| AtomicWhole(p, text, i, j, caps) && (mustEnd ==> j >= |text|);
      AtomicIsFound(p, text, i, j, caps, mustEnd);
    }
  }

  // ----- atomic matches are matches -----

  lemma {:induction false} ByIsInside(p: Pat, text: string, i: nat, j: nat, cs: seq<int>)
    requires By(p, text, i, j, cs)
    ensures Inside(p, text, i, j)
    decreases p, 0
  {
    match p
    case End =>
    case One(e, q, rest) =>
      var k: nat := -cs[0];
      ByIsInside(rest, text, i + k, j, cs[1..]);
      assert Allows(q, k) && Fits(e, text, i, k) && Inside(rest, text, i + k, j);
    case Grp(alts, _, rest) =>
      var a, m := GroupChoice(p, text, i, j, cs);
      FirstIsInside(alts[a], text, i, m);
      ByIsInside(rest, text, m, j, cs[1..]);
  }

  lemma {:induction false} FirstIsInside(p: Pat, text: string, i: nat, j: nat)
    requires First(p, text, i, j)
    ensures Inside(p, text, i, j)
    decreases p, 1
  {
    var cs :| By(p, text, i, j, cs) && Preferred(p, text, i, cs);
    ByIsInside(p, text, i, j, cs);
  }

  lemma SomeFirstIsOneOf(alts: seq<Pat>, text: string, i: nat, j: nat)
    requires SomeFirst(alts, text, i, j)
    ensures OneOf(alts, text, i, j)
  {
    var a: nat :| a < |alts| && First(alts[a], text, i, j);
    FirstIsInside(alts[a], text, i, j);
  }

  lemma {:induction false} StepsAreRepeats(alts: seq<Pat>, text: string, i: nat, j: nat, n: nat)
    requires Steps(alts, text, i, j, n)
    ensures Repeats(alts, text, i, j, n)
    decreases n
  {
    if n > 0 {
      var m: nat :| i < m && SomeFirst(alts, text, i, m) && Steps(alts, text, m, j, n - 1);
      SomeFirstIsOneOf(alts, text, i, m);
      StepsAreRepeats(alts, text, m, j, n - 1);
    }
  }

  lemma AtomicGroupMatches(q: Quant, alts: seq<Pat>, text: string, i: nat, j: nat)
    requires AtomicGroup(q, alts, text, i, j)
    ensures GroupMatches(q, alts, text, i, j)
  {
    if q == Any || q == Many {
      var n: nat :| n >= Least(q) && Steps(alts, text, i, j, n);
      StepsAreRepeats(alts, text, i, j, n);
      assert n >= Least(q) && Repeats(alts, text, i, j, n);
    } else if SomeFirst(alts, text, i, j) {
      SomeFirstIsOneOf(alts, text, i, j);
    }
  }

  lemma {:induction false} AtomicIsWhole(p: Pat, text: string, i: nat, j: nat, caps: seq<Range>)
    requires AtomicWhole(p, text, i, j, caps)
    ensures Whole(p, text, i, j, caps)
    decreases p
  {
    match p
    case End =>
    case One(e, q, rest) =>
      var k: nat :| Allows(q, k) && Fits(e, text, i, k) && AtomicWhole(rest, text, i + k, j, caps);
      AtomicIsWhole(rest, text, i + k, j, caps);
      assert Allows(q, k) && Fits(e, text, i, k) && Whole(rest, text, i + k, j, caps);
    case Grp(alts, q, rest) =>
      AtomicGroupMatches(q, alts, text, i, caps[0].1);
      AtomicIsWhole(rest, text, caps[0].1, j, caps[1..]);
  }

  /**
   * A successful search found a real match, reported the ranges of its groups
   * and, when anchored, ends at the end of the text.
   */
  lemma MatchSound(text: string, i: nat, p: Pat, mustEnd: bool)
    requires i <= |text| && Match(text, i, p, mustEnd).Some?
    ensures var (j, caps) := Match(text, i, p, mustEnd).value;
            Whole(p, text, i, j, caps) && (mustEnd ==> j >= |text|)
  {
    var (j, caps) := Match(text, i, p, mustEnd).value;
    MatchIsAtomic(text, i, p, mustEnd);
    AtomicIsWhole(p, text, i, j, caps);
  }

  // ----- the shape of the captures -----

  /** Ranges lie in `[i, j]`, are well formed and do not overlap or go back. */
  predicate Ordered(caps: seq<Range>, i: nat, j: nat) {
    if caps == [] then i <= j
    else i <= caps[0].0 <= caps[0].1 && Ordered(caps[1..], caps[0].1, j)
  }

  lemma {:induction false} InsideAdvances(p: Pat, text: string, i: nat, j: nat)
    requires Inside(p, text, i, j)
    ensures i <= j && (i <= |text| ==> j <= |text|)
    decreases p
  {
    match p
    case End =>
    case One(e, q, rest) =>
      var k: nat :| Allows(q, k) && Fits(e, text, i, k) && Inside(rest, text, i + k, j);
      InsideAdvances(rest, text, i + k, j);
    case Grp(alts, _, rest) =>
      var a: nat, m: nat :| a < |alts| && Inside(alts[a], text, i, m) && Inside(rest, text, m, j);
      InsideAdvances(alts[a], text, i, m);
      InsideAdvances(rest, text, m, j);
  }

  lemma OneOfAdvances(alts: seq<Pat>, text: string, i: nat, j: nat)
    requires OneOf(alts, text, i, j)
    ensures i <= j && (i <= |text| ==> j <= |text|)
  {
    var a: nat :| a < |alts| && Inside(alts[a], text, i, j);
    InsideAdvances(alts[a], text, i, j);
  }

  lemma {:induction false} RepeatsAdvance(alts: seq<Pat>, text: string, i: nat, j: nat, n: nat)
    requires Repeats(alts, text, i, j, n)
    ensures i <= j && (i <= |text| ==> j <= |text|)
    decreases n
  {
    if n > 0 {
      var m: nat :| OneOf(alts, text, i, m) && Repeats(alts, text, m, j, n - 1);
      OneOfAdvances(alts, text, i, m);
      RepeatsAdvance(alts, text, m, j, n - 1);
    }
  }

  lemma GroupAdvances(q: Quant, alts: seq<Pat>, text: string, i: nat, j: nat)
    requires GroupMatches(q, alts, text, i, j)
    ensures i <= j && (i <= |text| ==> j <= |text|)
  {
    if q == Any || q == Many {
      var n: nat :| Repeats(alts, text, i, j, n);
      RepeatsAdvance(alts, text, i, j, n);
    } else if OneOf(alts, text, i, j) {
      OneOfAdvances(alts, text, i, j);
    }
  }

  /** A match reports one range per top-level group, in order, inside the match. */
  lemma {:induction false} CapturesAreOrdered(p: Pat, text: string, i: nat, j: nat, caps: seq<Range>)
    requires Whole(p, text, i, j, caps)
    ensures |caps| == TopGroups(p) && Ordered(caps, i, j) && (i <= |text| ==> j <= |text|)
    decreases p
  {
    match p
    case End =>
    case Grp(alts, q, rest) =>
      GroupAdvances(q, alts, text, i, caps[0].1);
      CapturesAreOrdered(rest, text, caps[0].1, j, caps[1..]);
    case One(e, q, rest) =>
      var k: nat :| Allows(q, k) && Fits(e, text, i, k) && Whole(rest, text, i + k, j, caps);
      CapturesAreOrdered(rest, text, i + k, j, caps);
  }
}
