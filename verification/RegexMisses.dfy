/**
 * Matches the regex search misses, as pattern texts: a quantifier inside a
 * group, a nested group whose first alternative is too short, and a repeated
 * group that would have to take an empty turn.
 */
module RegexMisses {
  import opened Wrappers
  import opened RegexSyntax
  import opened RegexSearch
  import opened RegexAtomic
  import opened RegexComplete
  import opened RegexPrint
  import opened GlobPrint
  import GlobSpec

  /** The whole search for a pattern finds nothing in a text that it matches. */
  ghost predicate Misses(core: string, text: string, mustEnd: bool) {
    && HasMatchAt(Read(core, true), text, 0, mustEnd)
    && forall i: nat | i <= |text| :: Match(text, i, Read(core, true), mustEnd).None?
  }

  function Lit(c: char, rest: Pat): Pat { One(GlobSpec.Lit(c), Once, rest) }

  lemma LitMatches(c: char, rest: Pat, text: string, i: nat, j: nat, caps: seq<Range>)
    requires i < |text| && text[i] == c && Whole(rest, text, i + 1, j, caps)
    ensures Whole(Lit(c, rest), text, i, j, caps)
  {
    assert Allows(Once, 1) && Fits(GlobSpec.Lit(c), text, i, 1);
  }

  lemma LitInside(c: char, rest: Pat, text: string, i: nat, j: nat)
    requires i < |text| && text[i] == c && Inside(rest, text, i + 1, j)
    ensures Inside(Lit(c, rest), text, i, j)
  {
    assert Allows(Once, 1) && Fits(GlobSpec.Lit(c), text, i, 1);
  }

  // ----- reading the patterns -----

  lemma LitText(c: char, rest: Pat, top: bool)
    requires !Special(c) && Writable(rest, top)
    ensures Writable(Lit(c, rest), top) && Print(Lit(c, rest)) == [c] + Print(rest)
  {
    assert "" + Print(rest) == Print(rest);
  }

  lemma StarText()
    ensures Print(One(GlobSpec.Lit('a'), Any, End)) == "a*"
  {
    assert PrintElem(GlobSpec.Lit('a')) == "a" && PrintQuant(Any) + Print(End) == "*";
  }

  lemma ReadsStarGroup()
    ensures Read("(a*)ab", true) == Grp([One(GlobSpec.Lit('a'), Any, End)], Once, Lit('a', Lit('b', End)))
  {
    var star, ab := One(GlobSpec.Lit('a'), Any, End), Lit('a', Lit('b', End));
    LitText('b', End, true);
    LitText('a', Lit('b', End), true);
    StarText();
    assert [] + Print(ab) == "ab";
    OneAlternative(star, ab, "a*", "ab", "(a*)ab");
  }

  lemma OneAlternative(alt: Pat, rest: Pat, body: string, tail: string, text: string)
    requires Writable(alt, false) && Writable(rest, true) && Print(alt) == body && Print(rest) == tail
    requires text == "(" + (body + (")" + tail))
    ensures Read(text, true) == Grp([alt], Once, rest)
  {
    var p := Grp([alt], Once, rest);
    assert Writable(p, true);
    GroupText(p);
    assert Joined([alt]) == body;
    Regroup(body, ")", tail);
    Regroup("(", body + ")", tail);
    ReadInvertsPrint(p, true);
  }

  /** The two alternatives of the nested group. */
  function AOrAB(): seq<Pat> { [Lit('a', End), Lit('a', Lit('b', End))] }

  lemma ReadsNestedGroup()
    ensures Read("((a|ab))c", true) == Grp([Grp(AOrAB(), Once, End)], Once, Lit('c', End))
  {
    var inner := Grp(AOrAB(), Once, End);
    LitText('a', End, false);
    LitText('b', End, false);
    LitText('a', Lit('b', End), false);
    LitText('c', End, true);
    assert AOrAB()[1..] == [Lit('a', Lit('b', End))];
    assert Joined(AOrAB()) == "a|ab";
    assert Print(inner) == "(a|ab)" && Joined([inner]) == "(a|ab)";
    assert Print(Grp([inner], Once, Lit('c', End))) == "((a|ab))c";
    ReadInvertsPrint(Grp([inner], Once, Lit('c', End)), true);
  }

  lemma ReadsEmptyAlternative()
    ensures Read("(|a)+b", true) == Grp([End, Lit('a', End)], Many, Lit('b', End))
  {
    var alts := [End, Lit('a', End)];
    LitText('a', End, false);
    LitText('b', End, true);
    assert alts[1..] == [Lit('a', End)];
    assert Joined(alts) == "|a";
    assert Print(Grp(alts, Many, Lit('b', End))) == "(|a)+b";
    ReadInvertsPrint(Grp(alts, Many, Lit('b', End)), true);
  }

  // ----- a quantifier inside a group -----

  /** `(a*)ab` finds nothing in any text: the group leaves no `a`, and is not reopened. */
  lemma StarGroupNeverMatches(text: string, i: nat, mustEnd: bool)
    requires i <= |text|
    ensures Match(text, i, Grp([One(GlobSpec.Lit('a'), Any, End)], Once, Lit('a', Lit('b', End))), mustEnd).None?
  {
    var star, ab := One(GlobSpec.Lit('a'), Any, End), Lit('a', Lit('b', End));
    var n := Count(text, i, GlobSpec.Lit('a'));
    assert Try(text, i + n, End) == Some(i + n);
    assert Try(text, i, star) == Some(i + n);
    if AcceptsAt(GlobSpec.Lit('a'), text, i + n) {
      CountIsMaximal(text, i, GlobSpec.Lit('a'), n + 1);
    }
    assert Match(text, i + n, ab, mustEnd).None?;
    assert MatchAlts(text, i, ab, mustEnd, [star], 1).None?;
  }

  lemma StarGroupHasMatch(text: string)
    requires text == "aab"
    ensures Whole(Grp([One(GlobSpec.Lit('a'), Any, End)], Once, Lit('a', Lit('b', End))), text, 0, 3, [(0, 1)])
  {
    var star := One(GlobSpec.Lit('a'), Any, End);
    LitMatches('b', End, text, 2, 3, []);
    LitMatches('a', Lit('b', End), text, 1, 3, []);
    assert Allows(Any, 1) && Fits(GlobSpec.Lit('a'), text, 0, 1) && Inside(End, text, 1, 1);
    assert Inside([star][0], text, 0, 1);
    var caps: seq<Range> := [(0, 1)];
    assert caps[1..] == [];
  }

  lemma QuantifiedGroupCanMiss(mustEnd: bool)
    ensures Misses("(a*)ab", "aab", mustEnd)
  {
    var text, p := "aab", Grp([One(GlobSpec.Lit('a'), Any, End)], Once, Lit('a', Lit('b', End)));
    ReadsStarGroup();
    StarGroupHasMatch(text);
    forall i: nat | i <= |text| ensures Match(text, i, p, mustEnd).None? {
      StarGroupNeverMatches(text, i, mustEnd);
    }
  }

  // ----- a nested group that settles for its first alternative -----

  lemma InnerTakesOne(text: string, i: nat)
    requires i <= |text|
    ensures Try(text, i, Grp(AOrAB(), Once, End)) ==
            if AcceptsAt(GlobSpec.Lit('a'), text, i) then Some(i + 1) else None
  {
    var inner := Grp(AOrAB(), Once, End);
    if AcceptsAt(GlobSpec.Lit('a'), text, i) {
      assert Try(text, i + 1, End) == Some(i + 1);
      assert Try(text, i, Lit('a', End)) == Some(i + 1);
      assert TryAlts(text, i, inner, 0) == Some(i + 1);
    } else {
      assert Try(text, i, AOrAB()[0]).None? && Try(text, i, AOrAB()[1]).None?;
      assert TryAlts(text, i, inner, 2).None?;
      assert TryAlts(text, i, inner, 1).None?;
      assert TryAlts(text, i, inner, 0).None?;
    }
  }

  lemma NestedNeverReaches(text: string, i: nat, mustEnd: bool)
    requires i <= |text| && text == "abc"
    ensures Match(text, i, Grp([Grp(AOrAB(), Once, End)], Once, Lit('c', End)), mustEnd).None?
  {
    var inner, c := Grp(AOrAB(), Once, End), Lit('c', End);
    InnerTakesOne(text, i);
    if AcceptsAt(GlobSpec.Lit('a'), text, i) {
      assert i == 0 && !AcceptsAt(GlobSpec.Lit('c'), text, 1);
      assert Match(text, 1, c, mustEnd).None?;
    }
    assert MatchAlts(text, i, c, mustEnd, [inner], 1).None?;
    assert MatchAlts(text, i, c, mustEnd, [inner], 0).None?;
  }

  lemma NestedHasMatch(text: string)
    requires text == "abc"
    ensures Whole(Grp([Grp(AOrAB(), Once, End)], Once, Lit('c', End)), text, 0, 3, [(0, 2)])
  {
    var inner := Grp(AOrAB(), Once, End);
    LitMatches('c', End, text, 2, 3, []);
    LitInside('b', End, text, 1, 2);
    LitInside('a', Lit('b', End), text, 0, 2);
    assert Inside(inner.alts[1], text, 0, 2) && Inside(End, text, 2, 2);
    assert Inside([inner][0], text, 0, 2);
    var caps: seq<Range> := [(0, 2)];
    assert caps[1..] == [];
  }

  lemma NestedGroupCanMiss(mustEnd: bool)
    ensures Misses("((a|ab))c", "abc", mustEnd)
  {
    var text, p := "abc", Grp([Grp(AOrAB(), Once, End)], Once, Lit('c', End));
    ReadsNestedGroup();
    NestedHasMatch(text);
    forall i: nat | i <= |text| ensures Match(text, i, p, mustEnd).None? {
      NestedNeverReaches(text, i, mustEnd);
    }
  }

  // ----- an empty turn of a repeated group -----

  lemma EmptyTurnIsNotTaken(text: string, i: nat, mustEnd: bool)
    requires i <= |text| && text == "b"
    ensures Match(text, i, Grp([End, Lit('a', End)], Many, Lit('b', End)), mustEnd).None?
  {
    var alts, b := [End, Lit('a', End)], Lit('b', End);
    if i == 0 {
      assert Try(text, 0, alts[0]) == Some(0) && Try(text, 0, alts[1]).None?;
      assert !FillsFrom(text, 0, 1, alts, 1, 2);
      assert !FillsFrom(text, 0, 1, alts, 1, 1);
      assert !Fills(text, 0, 1, alts, 1);
      assert !Fills(text, 0, 0, alts, 1);
      assert MatchRepeats(text, 0, -1, b, mustEnd, alts, 1).None?;
      assert MatchRepeats(text, 0, 0, b, mustEnd, alts, 1).None?;
      assert MatchRepeats(text, 0, 1, b, mustEnd, alts, 1).None?;
    } else {
      assert !Fills(text, 1, 1, alts, 1);
      assert MatchRepeats(text, 1, 0, b, mustEnd, alts, 1).None?;
      assert MatchRepeats(text, 1, 1, b, mustEnd, alts, 1).None?;
    }
  }

  lemma EmptyAlternativeCanMiss(mustEnd: bool)
    ensures Misses("(|a)+b", "b", mustEnd)
  {
    var text, alts := "b", [End, Lit('a', End)];
    var p := Grp(alts, Many, Lit('b', End));
    ReadsEmptyAlternative();
    LitMatches('b', End, text, 0, 1, []);
    assert Inside(alts[0], text, 0, 0);
    assert OneOf(alts, text, 0, 0) && Repeats(alts, text, 0, 0, 0);
    assert Repeats(alts, text, 0, 0, 1);
    var caps: seq<Range> := [(0, 0)];
    assert caps[1..] == [];
    assert Whole(p, text, 0, 1, caps);
    forall i: nat | i <= |text| ensures Match(text, i, p, mustEnd).None? {
      EmptyTurnIsNotTaken(text, i, mustEnd);
    }
  }
}
