/**
 * When the shell's two glob matchers give the same answers. They read a pattern
 * as the same elements unless a backslash quotes a byte, a class is not closed,
 * or a range in it would end in its closing bracket. Without classes, and
 * without stars, the condition is exact.
 */
module GlobAgreement {
  import opened Wrappers
  import opened GlobSpec
  import E = ExpandGlob
  import R = RuntimeGlob

  /** Both matchers give the same answer for every name. */
  ghost predicate Agree(p: string) {
    forall n: string :: Matches(E.Parse(p, 0), n) <==> Matches(R.Parse(p, 0), n)
  }

  // ----- patterns that read the same -----

  /** From `i` on a class body is closed, no range ends in `]`, and a leading `]` starts none. */
  predicate CleanBody(p: string, i: nat, first: bool)
    decreases |p| - i
  {
    && i < |p|
    && if !first && p[i] == ']' then true
       else if i + 2 < |p| && p[i + 1] == '-' then
         p[i + 2] != ']' && p[i] != ']' && CleanBody(p, i + 3, false)
       else CleanBody(p, i + 1, false)
  }

  /** From `i` on no backslash quotes a byte and all classes are clean. */
  predicate Clean(p: string, i: nat)
    requires i <= |p|
    decreases |p| - i
  {
    if i == |p| then true
    else if p[i] == '[' then CleanBody(p, BodyStart(p, i), true) && Clean(p, R.ClassAt(p, i + 1).0)
    else if p[i] == '\\' then i + 1 == |p|
    else Clean(p, i + 1)
  }

  function BodyStart(p: string, i: nat): nat { if R.Negates(p, i + 1) then i + 2 else i + 1 }

  lemma {:induction false} CleanItems(p: string, i: nat, members: nat)
    requires members > 0 && CleanBody(p, i, false)
    ensures var (end, ranges) := R.Items(p, i, false);
            end < |p| && p[end] == ']' && E.Items(p, i, members) == Some((end + 1, ranges))
    decreases |p| - i
  {
    if p[i] != ']' {
      if i + 2 < |p| && p[i + 1] == '-' {
        CleanItems(p, i + 3, members + 1);
      } else {
        CleanItems(p, i + 1, members + 1);
      }
    }
  }

  lemma CleanBodyItems(p: string, b: nat)
    requires CleanBody(p, b, true)
    ensures var (end, ranges) := R.Items(p, b, true);
            end < |p| && p[end] == ']' && E.Body(p, b) == Some((end + 1, ranges))
  {
    if b + 2 < |p| && p[b + 1] == '-' { CleanItems(p, b + 3, 1); } else { CleanItems(p, b + 1, 1); }
  }

  lemma CleanClass(p: string, i: nat)
    requires i < |p| && CleanBody(p, BodyStart(p, i), true)
    ensures E.ClassAt(p, i) == Some(R.ClassAt(p, i + 1))
  {
    var b := BodyStart(p, i);
    CleanBodyItems(p, b);
    ClassFromBody(p, i, R.Items(p, b, true).0, R.Items(p, b, true).1);
  }

  lemma ClassFromBody(p: string, i: nat, end: nat, ranges: seq<(char, char)>)
    requires i < |p| && end < |p| && p[end] == ']' && BodyStart(p, i) <= |p|
    requires E.Body(p, BodyStart(p, i)) == Some((end + 1, ranges)) && R.Items(p, BodyStart(p, i), true) == (end, ranges)
    ensures E.ClassAt(p, i) == Some(R.ClassAt(p, i + 1))
  {
    var negated := R.Negates(p, i + 1);
    assert E.ClassAt(p, i) == Some((end + 1, Class(negated, ranges)));
    assert R.ClassAt(p, i + 1) == (end + 1, Class(negated, ranges));
  }

  lemma {:induction false} CleanReadsTheSame(p: string, i: nat)
    requires i <= |p| && Clean(p, i)
    ensures E.Parse(p, i) == R.Parse(p, i)
    decreases |p| - i
  {
    if i < |p| {
      if p[i] == '[' { CleanClass(p, i); }
      CleanReadsTheSame(p, R.ElemAt(p, i).0);
    }
  }

  /** On clean patterns the matchers agree on every name. */
  lemma CleanPatternsAgree(p: string)
    requires Clean(p, 0)
    ensures Agree(p)
  {
    CleanReadsTheSame(p, 0);
  }

  // ----- the shortest names -----

  /** The elements that take a byte. */
  function Solid(es: seq<Elem>): (r: seq<Elem>)
    ensures NoStars(r) && |r| <= |es|
  {
    if es == [] then []
    else if es[0].Star? then Solid(es[1..])
    else [es[0]] + Solid(es[1..])
  }

  /** Every match takes a byte for each solid element, and the shortest ones nothing else. */
  lemma {:induction false} MatchesTakeSolid(es: seq<Elem>, s: string, i: nat)
    requires i <= |s| && MatchesAt(es, s, i)
    ensures |s| - i >= |Solid(es)|
    ensures |s| - i == |Solid(es)| ==> Fits(Solid(es), s, i)
    decreases |es|
  {
    if es != [] {
      if es[0].Star? {
        var j: nat :| i <= j <= |s| && MatchesAt(es[1..], s, j);
        MatchesTakeSolid(es[1..], s, j);
      } else {
        MatchesTakeSolid(es[1..], s, i + 1);
        if |s| - i == |Solid(es)| { FitsCons(es[0], Solid(es[1..]), s, i); }
      }
    }
  }

  lemma FitsCons(e: Elem, es: seq<Elem>, s: string, i: nat)
    requires i < |s| && !e.Star?
    ensures Fits([e] + es, s, i) <==> Accepts(e, s[i]) && Fits(es, s, i + 1)
  {
    var all := [e] + es;
    if Fits(all, s, i) {
      assert all[0] == e && Accepts(all[0], s[i + 0]);
      forall k | 0 <= k < |es| ensures !es[k].Star? && Accepts(es[k], s[i + 1 + k]) {
        assert all[k + 1] == es[k];
      }
    }
  }

  lemma {:induction false} SolidMatches(es: seq<Elem>, s: string, i: nat)
    requires i <= |s| && |s| - i == |Solid(es)| && Fits(Solid(es), s, i)
    ensures MatchesAt(es, s, i)
    decreases |es|
  {
    if es != [] {
      if es[0].Star? {
        SolidMatches(es[1..], s, i);
      } else {
        FitsCons(es[0], Solid(es[1..]), s, i);
        SolidMatches(es[1..], s, i + 1);
      }
    }
  }

  /** A name of the shortest length matches exactly if its bytes fit one by one. */
  lemma ShortestNames(es: seq<Elem>, s: string)
    requires |s| <= |Solid(es)|
    ensures Matches(es, s) <==> |s| == |Solid(es)| && Fits(Solid(es), s, 0)
  {
    if Matches(es, s) { MatchesTakeSolid(es, s, 0); }
    if |s| == |Solid(es)| && Fits(Solid(es), s, 0) { SolidMatches(es, s, 0); }
  }

  // ----- what agreement forces, for every pattern -----

  ghost predicate AcceptsSome(e: Elem) { exists c: char :: Accepts(e, c) }

  /** Some element accepts nothing, so nothing matches. */
  ghost predicate Void(es: seq<Elem>) { exists k :: 0 <= k < |es| && !es[k].Star? && !AcceptsSome(es[k]) }

  /** Byte for byte, the same sets. */
  ghost predicate SameSets(es: seq<Elem>, fs: seq<Elem>) {
    && |es| == |fs|
    && forall k, c: char | 0 <= k < |es| :: Accepts(es[k], c) == Accepts(fs[k], c)
  }

  lemma VoidSolid(es: seq<Elem>)
    ensures Void(es) <==> Void(Solid(es))
    decreases |es|
  {
    if es != [] {
      VoidSolid(es[1..]);
      VoidCons(es[0], es[1..]);
      if !es[0].Star? { VoidCons(es[0], Solid(es[1..])); }
      assert es == [es[0]] + es[1..];
    }
  }

  lemma VoidCons(e: Elem, es: seq<Elem>)
    ensures Void([e] + es) <==> (!e.Star? && !AcceptsSome(e)) || Void(es)
  {
    var all := [e] + es;
    if Void(es) {
      var k :| 0 <= k < |es| && !es[k].Star? && !AcceptsSome(es[k]);
      assert all[k + 1] == es[k];
    }
    if !e.Star? && !AcceptsSome(e) { assert all[0] == e; }
  }

  lemma {:induction false} VoidMatchesNothing(es: seq<Elem>, s: string, i: nat)
    requires i <= |s| && Void(es)
    ensures !MatchesAt(es, s, i)
    decreases |es|
  {
    assert es == [es[0]] + es[1..];
    VoidCons(es[0], es[1..]);
    if es[0].Star? {
      forall j: nat | i <= j <= |s| ensures !MatchesAt(es[1..], s, j) { VoidMatchesNothing(es[1..], s, j); }
    } else if i < |s| && Accepts(es[0], s[i]) {
      VoidMatchesNothing(es[1..], s, i + 1);
    }
  }

  /** A byte the element accepts. */
  ghost function Witness(e: Elem): (c: char)
    requires AcceptsSome(e)
    ensures Accepts(e, c)
  {
    var c: char :| Accepts(e, c);
    c
  }

  /** A shortest name, with a chosen byte in one place if wanted. */
  ghost function Sample(es: seq<Elem>, choice: Option<(nat, char)>): (s: string)
    requires NoStars(es) && !Void(es)
    requires choice.Some? ==> choice.value.0 < |es| && Accepts(es[choice.value.0], choice.value.1)
    ensures |s| == |es| && Fits(es, s, 0)
    ensures choice.Some? ==> s[choice.value.0] == choice.value.1
  {
    seq(|es|, j requires 0 <= j < |es| =>
      assert AcceptsSome(es[j]);
      if choice.Some? && choice.value.0 == j then choice.value.1 else Witness(es[j]))
  }

  /**
   * Agreement fixes the solid elements: unless nothing matches either way, the
   * two readings take the same number of bytes and accept the same in each place.
   */
  lemma AgreeingReadings(es: seq<Elem>, fs: seq<Elem>)
    requires forall n: string :: Matches(es, n) <==> Matches(fs, n)
    ensures (Void(es) && Void(fs)) || (!Void(es) && !Void(fs) && SameSets(Solid(es), Solid(fs)))
  {
    VoidSolid(es);
    VoidSolid(fs);
    if !Void(es) { SampleSeparates(es, fs); }
    if !Void(fs) { SampleSeparates(fs, es); }
  }

  /** If `fs` matches all that `es` does, it takes no more bytes, and if as many, accepts what `es` accepts. */
  lemma SampleSeparates(es: seq<Elem>, fs: seq<Elem>)
    requires !Void(es) && forall n: string :: Matches(es, n) ==> Matches(fs, n)
    ensures !Void(fs) && |Solid(fs)| <= |Solid(es)|
    ensures |Solid(fs)| == |Solid(es)| ==>
              forall k, c: char | 0 <= k < |Solid(es)| && Accepts(Solid(es)[k], c) :: Accepts(Solid(fs)[k], c)
  {
    VoidSolid(es);
    var a, b := Solid(es), Solid(fs);
    var any := Sample(a, None);
    ShortestNames(es, any);
    if Void(fs) { VoidMatchesNothing(fs, any, 0); }
    MatchesTakeSolid(fs, any, 0);
    if |a| == |b| {
      forall k, c: char | 0 <= k < |a| && Accepts(a[k], c) ensures Accepts(b[k], c) {
        var s := Sample(a, Some((k, c)));
        ShortestNames(es, s);
        ShortestNames(fs, s);
        assert Accepts(b[k], s[0 + k]);
      }
    }
  }

  /** For every pattern: agreement means that nothing matches, or that the shortest names are the same. */
  lemma AgreementFixesShortestNames(p: string)
    ensures Agree(p) ==>
              || (Void(E.Parse(p, 0)) && Void(R.Parse(p, 0)))
              || SameSets(Solid(E.Parse(p, 0)), Solid(R.Parse(p, 0)))
  {
    if Agree(p) { AgreeingReadings(E.Parse(p, 0), R.Parse(p, 0)); }
  }

  // ----- exact without stars -----

  lemma {:induction false} NoStarsAreSolid(es: seq<Elem>)
    requires NoStars(es)
    ensures Solid(es) == es
  {
    if es != [] {
      assert !es[0].Star?;
      NoStarsAreSolid(es[1..]);
    }
  }

  lemma NoStarsMatch(es: seq<Elem>, n: string)
    requires NoStars(es)
    ensures Matches(es, n) <==> |n| == |es| && Fits(es, n, 0)
  {
    FixedPrefix(es, [], n, 0);
    assert es + [] == es;
  }

  lemma {:induction false} StarFreeReadings(p: string, i: nat)
    requires i <= |p| && '*' !in p
    ensures NoStars(E.Parse(p, i)) && NoStars(R.Parse(p, i))
    decreases |p| - i
  {
    if i < |p| {
      StarFreeReadings(p, E.ElemAt(p, i).0);
      StarFreeReadings(p, R.ElemAt(p, i).0);
    }
  }

  /** Without a star, with classes and backslashes of any kind: agreement is equality of the sets, place by place. */
  lemma StarFreeAgreeExactly(p: string)
    requires '*' !in p
    ensures var es, fs := E.Parse(p, 0), R.Parse(p, 0);
            Agree(p) <==> (Void(es) && Void(fs)) || SameSets(es, fs)
  {
    var es, fs := E.Parse(p, 0), R.Parse(p, 0);
    StarFreeReadings(p, 0);
    NoStarsAreSolid(es);
    NoStarsAreSolid(fs);
    AgreementFixesShortestNames(p);
    if Void(es) && Void(fs) {
      forall n: string ensures Matches(es, n) <==> Matches(fs, n) {
        VoidMatchesNothing(es, n, 0);
        VoidMatchesNothing(fs, n, 0);
      }
    }
    if SameSets(es, fs) {
      forall n: string ensures Matches(es, n) <==> Matches(fs, n) {
        NoStarsMatch(es, n);
        NoStarsMatch(fs, n);
      }
    }
  }

  // ----- exact without classes -----

  /** Somewhere from `i` on a backslash stands before another byte. */
  predicate Quotes(p: string, i: nat) { exists b: nat :: i <= b && b + 1 < |p| && p[b] == '\\' }

  lemma {:induction false} CleanWithoutClasses(p: string, i: nat)
    requires i <= |p| && '[' !in p && !Quotes(p, i)
    ensures Clean(p, i)
    decreases |p| - i
  {
    if i < |p| {
      assert p[i] in p;
      CleanWithoutClasses(p, i + 1);
    }
  }

  lemma {:induction false} ExpandTakesMore(p: string, i: nat)
    requires i <= |p| && '[' !in p
    ensures |Solid(E.Parse(p, i))| >= |Solid(R.Parse(p, i))|
    decreases |p| - i
  {
    if i < |p| {
      assert p[i] in p;
      if p[i] == '\\' && i + 1 < |p| {
        assert p[i + 1] in p;
        ExpandTakesMore(p, i + 2);
        QuoteReadings(p, i);
      } else if p[i] != '\\' {
        ExpandTakesMore(p, i + 1);
        OrdinaryReadings(p, i);
      }
    }
  }

  /** The two readings of a quoted byte. */
  lemma QuoteReadings(p: string, i: nat)
    requires i + 1 < |p| && p[i] == '\\' && p[i + 1] != '['
    ensures Solid(R.Parse(p, i)) == [Lit(p[i + 1])] + Solid(R.Parse(p, i + 2))
    ensures Solid(E.Parse(p, i)) == [Lit('\\')] + Solid(E.Parse(p, i + 1))
    ensures p[i + 1] == '*' ==> Solid(E.Parse(p, i + 1)) == Solid(E.Parse(p, i + 2))
    ensures p[i + 1] != '*' ==> |Solid(E.Parse(p, i + 1))| == 1 + |Solid(E.Parse(p, i + 2))|
  {
    var e := E.ElemAt(p, i + 1).1;
    assert E.Parse(p, i + 1) == [e] + E.Parse(p, i + 2);
    assert E.Parse(p, i) == [Lit('\\')] + E.Parse(p, i + 1);
    assert R.Parse(p, i) == [Lit(p[i + 1])] + R.Parse(p, i + 2);
  }

  /** The place where the expansion reading wants a backslash and the runtime's a star. */
  ghost predicate Clash(es: seq<Elem>, fs: seq<Elem>, k: nat) {
    k < |es| && k < |fs| && es[k] == Lit('\\') && fs[k] == Lit('*')
  }

  ghost predicate Differ(es: seq<Elem>, fs: seq<Elem>) { |es| > |fs| || exists k: nat :: Clash(es, fs, k) }

  lemma DifferCons(e: Elem, es: seq<Elem>, fs: seq<Elem>)
    requires Differ(es, fs)
    ensures Differ([e] + es, [e] + fs)
  {
    if |es| <= |fs| {
      var k: nat :| Clash(es, fs, k);
      assert Clash([e] + es, [e] + fs, k + 1);
    }
  }

  lemma DifferentSets(es: seq<Elem>, fs: seq<Elem>)
    requires Differ(es, fs)
    ensures !SameSets(es, fs)
  {
    if |es| <= |fs| {
      var k: nat :| Clash(es, fs, k);
      assert !Accepts(es[k], '*') && Accepts(fs[k], '*');
    }
  }

  /** A quoted byte makes the expansion reading take more bytes, or want a backslash for a star. */
  lemma {:induction false} QuotesDiffer(p: string, i: nat)
    requires i <= |p| && '[' !in p && Quotes(p, i)
    ensures Differ(Solid(E.Parse(p, i)), Solid(R.Parse(p, i)))
    decreases |p| - i
  {
    assert p[i] in p && p[i + 1] in p;
    if p[i] == '\\' {
      QuoteReadings(p, i);
      ExpandTakesMore(p, i + 2);
      if p[i + 1] == '*' { assert Clash(Solid(E.Parse(p, i)), Solid(R.Parse(p, i)), 0); }
    } else {
      QuotesDiffer(p, i + 1);
      OrdinaryReadings(p, i);
      if p[i] != '*' { DifferCons(E.ElemAt(p, i).1, Solid(E.Parse(p, i + 1)), Solid(R.Parse(p, i + 1))); }
    }
  }

  lemma OrdinaryReadings(p: string, i: nat)
    requires i < |p| && p[i] != '[' && p[i] != '\\'
    ensures E.ElemAt(p, i) == R.ElemAt(p, i)
    ensures var e := E.ElemAt(p, i).1;
            && Solid(E.Parse(p, i)) == (if e.Star? then [] else [e]) + Solid(E.Parse(p, i + 1))
            && Solid(R.Parse(p, i)) == (if e.Star? then [] else [e]) + Solid(R.Parse(p, i + 1))
  {
    var e := E.ElemAt(p, i).1;
    assert E.Parse(p, i) == [e] + E.Parse(p, i + 1) && R.Parse(p, i) == [e] + R.Parse(p, i + 1);
  }

  lemma {:induction false} NotVoidWithoutClasses(p: string, i: nat)
    requires i <= |p| && '[' !in p
    ensures !Void(E.Parse(p, i))
    decreases |p| - i
  {
    if i < |p| {
      assert p[i] in p;
      var e := E.ElemAt(p, i).1;
      NotVoidWithoutClasses(p, i + 1);
      VoidCons(e, E.Parse(p, i + 1));
      assert e.Star? || Accepts(e, p[i]);
    }
  }

  /** Without classes the matchers agree on every name exactly if no backslash stands before another byte. */
  lemma ClassFreeAgreeExactly(p: string)
    requires '[' !in p
    ensures Agree(p) <==> !Quotes(p, 0)
  {
    if !Quotes(p, 0) {
      CleanWithoutClasses(p, 0);
      CleanPatternsAgree(p);
    } else {
      NotVoidWithoutClasses(p, 0);
      AgreementFixesShortestNames(p);
      QuotesDiffer(p, 0);
      DifferentSets(Solid(E.Parse(p, 0)), Solid(R.Parse(p, 0)));
    }
  }

  // ----- patterns on which they differ -----

  /** A quoted star: only the runtime matcher takes the backslash as a quote. */
  lemma DisagreeOnBackslash()
    ensures Matches(R.Parse("\\*", 0), "*") && !Matches(E.Parse("\\*", 0), "*")
  {
    assert R.Parse("\\*", 0) == [Lit('*')];
    assert E.ElemAt("\\*", 0) == (1, Lit('\\'));
    assert E.Parse("\\*", 0)[0] == Lit('\\');
  }

  /** A hyphen before the closing bracket: the runtime matcher takes the bracket as the end of a range. */
  lemma DisagreeOnRangeToBracket()
    ensures Matches(E.Parse("[a-]", 0), "-") && !Matches(R.Parse("[a-]", 0), "-")
  {
    var p := "[a-]";
    assert E.Items(p, 3, 2) == Some((4, []));
    assert E.Items(p, 2, 1) == Some((4, [('-', '-')] + []));
    assert E.Items(p, 1, 0) == Some((4, [('a', 'a')] + ([('-', '-')] + [])));
    var ranges := [('a', 'a'), ('-', '-')];
    assert [('a', 'a')] + ([('-', '-')] + []) == ranges;
    assert E.ClassAt(p, 0) == Some((4, Class(false, ranges)));
    assert E.Parse(p, 0) == [Class(false, ranges)] + E.Parse(p, 4);
    assert ranges[1].0 <= '-' <= ranges[1].1;
    NoStarsMatch(E.Parse(p, 0), "-");
    assert R.Items(p, 4, false) == (4, []);
    assert R.Items(p, 1, true) == (4, [('a', ']')] + []);
    assert R.Parse(p, 0)[0] == Class(false, [('a', ']')]);
  }

  /** A class that is not closed: only the expansion matcher takes its bracket as an ordinary byte. */
  lemma DisagreeOnUnclosedClass()
    ensures Matches(R.Parse("[a", 0), "a") && !Matches(E.Parse("[a", 0), "a")
  {
    var p := "[a";
    assert R.Items(p, 2, false) == (2, []);
    assert R.Items(p, 1, true) == (2, [('a', 'a')] + []);
    var ranges := [('a', 'a')];
    assert ranges + [] == ranges;
    assert R.ElemAt(p, 0) == (2, Class(false, ranges));
    assert R.Parse(p, 0) == [Class(false, ranges)] + R.Parse(p, 2);
    assert ranges[0].0 <= 'a' <= ranges[0].1;
    NoStarsMatch(R.Parse(p, 0), "a");
    assert E.Items(p, 2, 1) == None;
    assert E.Items(p, 1, 0) == None;
    assert E.Parse(p, 0)[0] == Lit('[');
  }
}
