/**
 * Where the regex search misses nothing, and where it does. It finds every
 * match of a pattern whose group alternatives each have one width. It misses
 * matches because a group settles for the first end of an alternative, and
 * because a repeated group never takes an empty turn.
 */
module RegexComplete {
  import opened Wrappers
  import opened RegexSyntax
  import opened RegexSearch
  import opened RegexAtomic

  ghost predicate HasMatchAt(p: Pat, text: string, i: nat, mustEnd: bool) {
    exists j: nat, caps: seq<Range> :: Whole(p, text, i, j, caps) && (mustEnd ==> j >= |text|)
  }

  // ----- alternatives of one width -----

  /** The number of bytes every match takes, if the pattern fixes it: no quantifiers, nested alternatives alike. */
  function Width(p: Pat): (w: Option<nat>) {
    match p
    case End => Some(0)
    case Broken => None
    case One(_, q, rest) => if q == Once && Width(rest).Some? then Some(1 + Width(rest).value) else None
    case Grp(alts, _, rest) =>
      if && alts != [] && Width(alts[0]).Some? && Width(rest).Some?
         && forall a | 0 <= a < |alts| :: Width(alts[a]) == Width(alts[0])
      then Some(Width(alts[0]).value + Width(rest).value)
      else None
  }

  predicate FixedAlts(alts: seq<Pat>) { forall a | 0 <= a < |alts| :: Width(alts[a]).Some? }

  predicate Searchable(p: Pat) {
    match p
    case End | Broken => true
    case One(_, _, rest) => Searchable(rest)
    case Grp(alts, q, rest) =>
      && FixedAlts(alts) && Searchable(rest)
      && (q == Many ==> forall a | 0 <= a < |alts| :: Width(alts[a]) != Some(0))
  }

  /** A pattern of one width has one end, and the search finds it. */
  lemma {:induction false} WidthFound(p: Pat, text: string, i: nat, j: nat)
    requires i <= |text| && Width(p).Some? && Inside(p, text, i, j)
    ensures j == i + Width(p).value && Try(text, i, p) == Some(j)
    decreases p, 1
  {
    match p
    case End =>
    case One(e, q, rest) =>
      var k: nat :| Allows(q, k) && Fits(e, text, i, k) && Inside(rest, text, i + k, j);
      WidthFound(rest, text, i + 1, j);
    case Grp(_, _, _) => GroupWidthFound(p, text, i, j);
  }

  lemma {:induction false} GroupWidthFound(p: Pat, text: string, i: nat, j: nat)
    requires i <= |text| && p.Grp? && Width(p).Some? && Inside(p, text, i, j)
    ensures j == i + Width(p).value && TryAlts(text, i, p, 0) == Some(j)
    decreases p, 0, 1
  {
    var a: nat, m: nat :| a < |p.alts| && Inside(p.alts[a], text, i, m) && Inside(p.rest, text, m, j);
    WidthFound(p.alts[a], text, i, m);
    WidthFound(p.rest, text, m, j);
    TryAltsFinds(text, i, p, 0, a);
    AnyAltFound(p, text, i);
  }

  /** Whichever alternative of a nested group works, it ends at the common width. */
  lemma {:induction false} AnyAltFound(p: Pat, text: string, i: nat)
    requires i <= |text| && p.Grp? && Width(p).Some? && TryAlts(text, i, p, 0).Some?
    ensures var m := i + Width(p.alts[0]).value; m <= |text| && TryAlts(text, i, p, 0) == Try(text, m, p.rest)
    decreases p, 0, 0
  {
    var b := TryAltsPicks(text, i, p, 0);
    var m := Try(text, i, p.alts[b]).value;
    TryIsFirst(p.alts[b], text, i);
    FirstIsInside(p.alts[b], text, i, m);
    WidthFound(p.alts[b], text, i, m);
  }

  lemma FixedIsFirst(alts: seq<Pat>, text: string, i: nat, j: nat)
    requires i <= |text| && FixedAlts(alts) && OneOf(alts, text, i, j)
    ensures SomeFirst(alts, text, i, j) && i <= j <= |text|
    ensures i == j ==> exists a: nat :: a < |alts| && Width(alts[a]) == Some(0)
  {
    var a: nat :| a < |alts| && Inside(alts[a], text, i, j);
    WidthFound(alts[a], text, i, j);
    TryIsFirst(alts[a], text, i);
  }

  /** Leaving out empty turns, repetitions of such alternatives are steps the search takes. */
  lemma {:induction false} RepeatsAreSteps(alts: seq<Pat>, text: string, i: nat, j: nat, n: nat) returns (n': nat)
    requires i <= |text| && FixedAlts(alts) && Repeats(alts, text, i, j, n)
    ensures Steps(alts, text, i, j, n')
    ensures n' == n || exists a: nat :: a < |alts| && Width(alts[a]) == Some(0)
    decreases n
  {
    if n == 0 {
      n' := 0;
    } else {
      var m: nat :| OneOf(alts, text, i, m) && Repeats(alts, text, m, j, n - 1);
      FixedIsFirst(alts, text, i, m);
      var more := RepeatsAreSteps(alts, text, m, j, n - 1);
      n' := if i == m then more else more + 1;
    }
  }

  lemma FixedGroupIsAtomic(q: Quant, alts: seq<Pat>, text: string, i: nat, j: nat)
    requires i <= |text| && FixedAlts(alts) && GroupMatches(q, alts, text, i, j)
    requires q == Many ==> forall a | 0 <= a < |alts| :: Width(alts[a]) != Some(0)
    ensures AtomicGroup(q, alts, text, i, j)
  {
    if q == Any || q == Many {
      var n: nat :| n >= Least(q) && Repeats(alts, text, i, j, n);
      var n' := RepeatsAreSteps(alts, text, i, j, n);
      assert n' >= Least(q) && Steps(alts, text, i, j, n');
    } else if OneOf(alts, text, i, j) {
      FixedIsFirst(alts, text, i, j);
    }
  }

  /** On searchable patterns every match is one with atomic groups. */
  lemma {:induction false} WholeIsAtomic(p: Pat, text: string, i: nat, j: nat, caps: seq<Range>)
    requires Searchable(p) && i <= |text| && Whole(p, text, i, j, caps)
    ensures AtomicWhole(p, text, i, j, caps)
    decreases p
  {
    match p
    case End =>
    case One(e, q, rest) =>
      var k: nat :| Allows(q, k) && Fits(e, text, i, k) && Whole(rest, text, i + k, j, caps);
      WholeIsAtomic(rest, text, i + k, j, caps);
      assert Allows(q, k) && Fits(e, text, i, k) && AtomicWhole(rest, text, i + k, j, caps);
    case Grp(alts, q, rest) =>
      GroupAdvances(q, alts, text, i, caps[0].1);
      FixedGroupIsAtomic(q, alts, text, i, caps[0].1);
      WholeIsAtomic(rest, text, caps[0].1, j, caps[1..]);
  }

  /** If some match starts at `i`, the search finds one there. */
  lemma MatchComplete(p: Pat, text: string, i: nat, j: nat, caps: seq<Range>, mustEnd: bool)
    requires Searchable(p) && i <= |text| && Whole(p, text, i, j, caps) && (mustEnd ==> j >= |text|)
    ensures Match(text, i, p, mustEnd).Some?
  {
    WholeIsAtomic(p, text, i, j, caps);
    AtomicIsFound(p, text, i, j, caps, mustEnd);
  }

  /** On searchable patterns the search succeeds exactly where a match starts; on all, only there. */
  lemma SearchIsExact(p: Pat, text: string, i: nat, mustEnd: bool)
    requires i <= |text|
    ensures Match(text, i, p, mustEnd).Some? ==> HasMatchAt(p, text, i, mustEnd)
    ensures Searchable(p) && HasMatchAt(p, text, i, mustEnd) ==> Match(text, i, p, mustEnd).Some?
  {
    if Match(text, i, p, mustEnd).Some? {
      MatchSound(text, i, p, mustEnd);
      var (j, caps) := Match(text, i, p, mustEnd).value;
      assert Whole(p, text, i, j, caps);
    }
    if Searchable(p) && HasMatchAt(p, text, i, mustEnd) {
      var j: nat, caps: seq<Range> :| Whole(p, text, i, j, caps) && (mustEnd ==> j >= |text|);
      MatchComplete(p, text, i, j, caps, mustEnd);
    }
  }
}
