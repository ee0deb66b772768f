/** The byte-level glob matcher behind pathname expansion. */
module RuntimeGlob {
  import opened Wrappers
  import opened GlobSpec

  // ----- how a pattern reads as elements -----

  /** The ranges of a class body from `i` on, and the index where the body ends. */
  function Items(p: string, i: nat, first: bool): (r: (nat, seq<(char, char)>))
    requires i <= |p|
    ensures i <= r.0 <= |p|
    decreases |p| - i
  {
    if i < |p| && (first || p[i] != ']') then
      if i + 2 < |p| && p[i + 1] == '-' then
        var (end, ranges) := Items(p, i + 3, false);
        (end, [(p[i], p[i + 2])] + ranges)
      else
        var (end, ranges) := Items(p, i + 1, false);
        (end, [(p[i], p[i])] + ranges)
    else (i, [])
  }

  predicate Negates(p: string, i: nat) {
    i < |p| && (p[i] == '!' || p[i] == '^')
  }

  /** The class whose body starts at `i`; an unclosed class runs to the end. */
  function ClassAt(p: string, i: nat): (r: (nat, Elem))
    requires i <= |p|
    ensures i <= r.0 <= |p| && r.1.Class?
  {
    var negated := Negates(p, i);
    var (end, ranges) := Items(p, if negated then i + 1 else i, true);
    (if end < |p| && p[end] == ']' then end + 1 else end, Class(negated, ranges))
  }

  function ElemAt(p: string, i: nat): (r: (nat, Elem))
    requires i < |p|
    ensures i < r.0 <= |p|
    ensures r.1.Star? <==> p[i] == '*'
  {
    if p[i] == '?' then (i + 1, AnyOne)
    else if p[i] == '*' then (i + 1, Star)
    else if p[i] == '[' then ClassAt(p, i + 1)
    else if p[i] == '\\' && i + 1 < |p| then (i + 2, Lit(p[i + 1]))
    else (i + 1, Lit(p[i]))
  }

  function Parse(p: string, i: nat): (es: seq<Elem>)
    requires i <= |p|
    decreases |p| - i
  {
    if i == |p| then [] else [ElemAt(p, i).1] + Parse(p, ElemAt(p, i).0)
  }

  // ----- the matcher -----

  datatype GlobStep = Consume(next: nat) | StarStep | ClassStep(next: nat, matched: bool) | Mismatch

  lemma {:induction false} InRangesCons(r: (char, char), rs: seq<(char, char)>, c: char)
    ensures InRanges([r] + rs, c) <==> r.0 <= c <= r.1 || InRanges(rs, c)
  {
    var all := [r] + rs;
    if InRanges(rs, c) {
      var i :| 0 <= i < |rs| && rs[i].0 <= c <= rs[i].1;
      assert all[i + 1] == rs[i];
    }
    if r.0 <= c <= r.1 { assert all[0] == r; }
  }

  method GlobMatchCharClass(pattern: string, start: nat, ch: char) returns (pi: nat, hit: bool)
    requires start <= |pattern|
    ensures pi == ClassAt(pattern, start).0
    ensures hit <==> Accepts(ClassAt(pattern, start).1, ch)
  {
    pi := start;
    var negate := pi < |pattern| && (pattern[pi] == '!' || pattern[pi] == '^');
    if negate { pi := pi + 1; }
    ghost var whole := Items(pattern, pi, true);
    var matched, first := false, true;
    while pi < |pattern| && (first || pattern[pi] != ']')
      invariant pi <= |pattern|
      invariant Items(pattern, pi, first).0 == whole.0
      invariant InRanges(whole.1, ch) <==> matched || InRanges(Items(pattern, pi, first).1, ch)
      decreases |pattern| - pi
    {
      ghost var before := Items(pattern, pi, first).1;
      first := false;
      if pi + 2 < |pattern| && pattern[pi + 1] == '-' {
        var lo, hi := pattern[pi], pattern[pi + 2];
        InRangesCons((lo, hi), Items(pattern, pi + 3, false).1, ch);
        matched := matched || (ch >= lo && ch <= hi);
        pi := pi + 3;
      } else {
        InRangesCons((pattern[pi], pattern[pi]), Items(pattern, pi + 1, false).1, ch);
        matched := matched || pattern[pi] == ch;
        pi := pi + 1;
      }
    }
    if pi < |pattern| && pattern[pi] == ']' { pi := pi + 1; }
    hit := matched != negate;
  }

  method Step(pattern: string, pi: nat, ch: char) returns (s: GlobStep)
    requires pi <= |pattern|
    ensures pi == |pattern| ==> s == Mismatch
    ensures pi < |pattern| ==>
              var (next, e) := ElemAt(pattern, pi);
              match s
              case StarStep => e.Star?
              case Consume(n) => n == next && Accepts(e, ch)
              case ClassStep(n, matched) => n == next && !e.Star? && (matched <==> Accepts(e, ch))
              case Mismatch => !e.Star? && !Accepts(e, ch)
  {
    if pi >= |pattern| { return Mismatch; }
    match pattern[pi]
    case '?' => s := Consume(pi + 1);
    case '*' => s := StarStep;
    case '[' =>
      var n, matched := GlobMatchCharClass(pattern, pi + 1, ch);
      s := ClassStep(n, matched);
    case literal =>
      if literal == '\\' && pi + 1 < |pattern| {
        s := if pattern[pi + 1] == ch then Consume(pi + 2) else Mismatch;
      } else {
        s := if literal == ch then Consume(pi + 1) else Mismatch;
      }
  }

  /**
   * The matcher answers exactly the declarative question, for every pattern
   * and every name, and its loop terminates.
   */
  method GlobMatchInner(pattern: string, name: string) returns (matched: bool)
    ensures matched <==> Matches(Parse(pattern, 0), name)
  {
    var pi: nat, ni: nat := 0, 0;
    var starPi: Option<nat> := None;
    var starNi := 0;
    ghost var es, anchor := Parse(pattern, 0), NoStar;
    while ni < |name|
      invariant pi <= |pattern| && ni <= |name| && starNi <= ni
      invariant Greedy(es, name, anchor, Parse(pattern, pi), ni)
      invariant starPi.None? <==> anchor.NoStar?
      invariant starPi.Some? ==>
                  && starPi.value < pi && anchor.from == starNi
                  && anchor.after == Parse(pattern, starPi.value + 1)
      decreases if starPi.Some? then |pattern| - starPi.value else |pattern| + 1,
                |name| - starNi, |name| - ni
    {
      ghost var rest := Parse(pattern, pi);
      var step := Step(pattern, pi, name[ni]);
      if step.StarStep? {
        GlobSpec.StarStep(es, name, anchor, rest, ni);
        anchor := LastStar(rest[1..], ni, []);
        starPi, starNi := Some(pi), ni;
        pi := pi + 1;
      } else if step.Consume? || (step.ClassStep? && step.matched) {
        ConsumeStep(es, name, anchor, rest, ni);
        anchor := Advance(anchor, rest[0]);
        pi := step.next;
        ni := ni + 1;
      } else {
        if starPi.None? { return false; }
        BacktrackStep(es, name, anchor, rest, ni);
        anchor := LastStar(anchor.after, anchor.from + 1, []);
        pi := starPi.value + 1;
        starNi := starNi + 1;
        ni := starNi;
      }
    }
    FinishStep(es, name, anchor, Parse(pattern, pi));
    while pi < |pattern| && pattern[pi] == '*'
      invariant pi <= |pattern|
      invariant Matches(es, name) <==> AllStars(Parse(pattern, pi))
    {
      ghost var rest := Parse(pattern, pi);
      assert rest == [Star] + Parse(pattern, pi + 1);
      assert AllStars(rest[1..]) ==> AllStars(rest) by {
        assert forall i :: 1 <= i < |rest| ==> rest[i] == rest[1..][i - 1];
      }
      pi := pi + 1;
    }
    assert pi < |pattern| ==> !Parse(pattern, pi)[0].Star?;
    matched := pi == |pattern|;
  }
}
