/**
 * What a shell glob means, independently of how it is matched: `*` stands for
 * any split of the text, every other element for exactly one byte.  The module
 * also holds the argument, shared by both matchers of the shell, that it is
 * enough to remember the most recent `*`.
 */
module GlobSpec {
  datatype Elem =
    | Star
    | AnyOne
    | Lit(c: char)
    | Class(negated: bool, ranges: seq<(char, char)>)

  predicate InRanges(ranges: seq<(char, char)>, c: char) {
    exists i :: 0 <= i < |ranges| && ranges[i].0 <= c <= ranges[i].1
  }

  predicate Accepts(e: Elem, c: char) {
    match e
    case Star => false
    case AnyOne => true
    case Lit(d) => c == d
    case Class(negated, ranges) => InRanges(ranges, c) != negated
  }

  /** `es` matches the whole of `s[i..]`. */
  ghost predicate MatchesAt(es: seq<Elem>, s: string, i: nat)
    requires i <= |s|
    decreases |es|
  {
    if es == [] then i == |s|
    else if es[0].Star? then exists j: nat :: i <= j <= |s| && MatchesAt(es[1..], s, j)
    else i < |s| && Accepts(es[0], s[i]) && MatchesAt(es[1..], s, i + 1)
  }

  /** `es` matches some suffix of `s[i..]`. */
  ghost predicate SomeSplit(es: seq<Elem>, s: string, i: nat)
    requires i <= |s|
  {
    exists j: nat :: i <= j <= |s| && MatchesAt(es, s, j)
  }

  lemma StarMeansSplit(es: seq<Elem>, s: string, i: nat)
    requires i <= |s| && es != [] && es[0].Star?
    ensures MatchesAt(es, s, i) <==> SomeSplit(es[1..], s, i)
  {
    assert MatchesAt(es, s, i) == exists j: nat :: i <= j <= |s| && MatchesAt(es[1..], s, j);
  }

  ghost predicate Matches(es: seq<Elem>, s: string) {
    MatchesAt(es, s, 0)
  }

  predicate AllStars(es: seq<Elem>) {
    forall i :: 0 <= i < |es| ==> es[i].Star?
  }

  /** The elements `es` accept the bytes of `s` from `i` on, one each. */
  ghost predicate Fits(es: seq<Elem>, s: string, i: nat) {
    && i + |es| <= |s|
    && forall k :: 0 <= k < |es| ==> !es[k].Star? && Accepts(es[k], s[i + k])
  }

  predicate NoStars(es: seq<Elem>) {
    forall i :: 0 <= i < |es| ==> !es[i].Star?
  }

  lemma {:induction false} FixedPrefix(mid: seq<Elem>, rest: seq<Elem>, s: string, i: nat)
    requires NoStars(mid) && i <= |s|
    ensures MatchesAt(mid + rest, s, i) <==> Fits(mid, s, i) && MatchesAt(rest, s, i + |mid|)
    decreases |mid|
  {
    if mid == [] {
      assert mid + rest == rest;
    } else {
      assert (mid + rest)[1..] == mid[1..] + rest;
      if i < |s| {
        FixedPrefix(mid[1..], rest, s, i + 1);
        if Fits(mid[1..], s, i + 1) && Accepts(mid[0], s[i]) {
          forall k | 0 <= k < |mid| ensures !mid[k].Star? && Accepts(mid[k], s[i + k]) {
            if k > 0 { assert mid[k] == mid[1..][k - 1]; }
          }
        }
        if Fits(mid, s, i) {
          forall k | 0 <= k < |mid| - 1 ensures Accepts(mid[1..][k], s[i + 1 + k]) {
            assert mid[1..][k] == mid[k + 1];
          }
        }
      }
    }
  }

  lemma {:induction false} OnlyStarsMatchEmpty(es: seq<Elem>, s: string)
    ensures MatchesAt(es, s, |s|) <==> AllStars(es)
    decreases |es|
  {
    if es != [] {
      OnlyStarsMatchEmpty(es[1..], s);
      assert es[0].Star? && AllStars(es[1..]) ==> AllStars(es) by {
        assert forall i :: 1 <= i < |es| ==> es[i] == es[1..][i - 1];
      }
    }
  }

  /**
   * What a matcher remembers about the last `*` it met: the elements after it,
   * the text offset from which they are being tried, and the elements that
   * have been consumed since.
   */
  datatype Anchor = NoStar | LastStar(after: seq<Elem>, from: nat, mid: seq<Elem>)

  /** The invariant of a greedy match of `es` that still has to match `rest` at `i`. */
  ghost predicate Greedy(es: seq<Elem>, s: string, a: Anchor, rest: seq<Elem>, i: nat)
    requires i <= |s|
  {
    match a
    case NoStar => Matches(es, s) <==> MatchesAt(rest, s, i)
    case LastStar(after, from, mid) =>
      && i == from + |mid|
      && after == mid + rest
      && Fits(mid, s, from)
      && (Matches(es, s) <==> SomeSplit(after, s, from))
  }

  function Advance(a: Anchor, e: Elem): (b: Anchor) {
    if a.NoStar? then a else a.(mid := a.mid + [e])
  }

  lemma ConsumeStep(es: seq<Elem>, s: string, a: Anchor, rest: seq<Elem>, i: nat)
    requires i < |s| && Greedy(es, s, a, rest, i)
    requires rest != [] && !rest[0].Star? && Accepts(rest[0], s[i])
    ensures Greedy(es, s, Advance(a, rest[0]), rest[1..], i + 1)
  {
    if a.LastStar? {
      assert a.mid + [rest[0]] + rest[1..] == a.mid + rest;
    }
  }

  /** A new `*` supersedes the old one: a later start of the old one gains nothing. */
  lemma StarStep(es: seq<Elem>, s: string, a: Anchor, rest: seq<Elem>, i: nat)
    requires i <= |s| && Greedy(es, s, a, rest, i)
    requires rest != [] && rest[0].Star?
    ensures Greedy(es, s, LastStar(rest[1..], i, []), rest[1..], i)
  {
    assert [] + rest[1..] == rest[1..];
    StarMeansSplit(rest, s, i);
    if a.LastStar? {
      if SomeSplit(a.after, s, a.from) {
        var j: nat :| a.from <= j <= |s| && MatchesAt(a.after, s, j);
        FixedPrefix(a.mid, rest, s, j);
        StarMeansSplit(rest, s, j + |a.mid|);
      }
      if SomeSplit(rest[1..], s, i) {
        FixedPrefix(a.mid, rest, s, a.from);
        assert MatchesAt(a.after, s, a.from);
      }
    }
  }

  lemma BacktrackStep(es: seq<Elem>, s: string, a: Anchor, rest: seq<Elem>, i: nat)
    requires i < |s| && a.LastStar? && Greedy(es, s, a, rest, i)
    requires !MatchesAt(rest, s, i)
    ensures Greedy(es, s, LastStar(a.after, a.from + 1, []), a.after, a.from + 1)
  {
    FixedPrefix(a.mid, rest, s, a.from);
    assert [] + a.after == a.after;
  }

  lemma FinishStep(es: seq<Elem>, s: string, a: Anchor, rest: seq<Elem>)
    requires Greedy(es, s, a, rest, |s|)
    ensures Matches(es, s) <==> AllStars(rest)
  {
    OnlyStarsMatchEmpty(rest, s);
    if a.LastStar? {
      if SomeSplit(a.after, s, a.from) {
        var j: nat :| a.from <= j <= |s| && MatchesAt(a.after, s, j);
        FixedPrefix(a.mid, rest, s, j);
      }
      if MatchesAt(rest, s, |s|) {
        FixedPrefix(a.mid, rest, s, a.from);
        assert MatchesAt(a.after, s, a.from);
      }
    }
  }
}
