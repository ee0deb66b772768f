/**
 * The glob matcher behind parameter expansion, and the `#`, `##`, `%` and `%%`
 * removals built on it.
 */
module ExpandGlob {
  import opened Wrappers
  import opened GlobSpec
  import RuntimeGlob

  // ----- how a pattern reads as elements -----

  /** The class body from `i` on: its end and ranges, or None when no `]` closes it. */
  function Items(p: string, i: nat, members: nat): (r: Option<(nat, seq<(char, char)>)>)
    requires i <= |p|
    ensures r.Some? ==> i < r.value.0 <= |p|
    decreases |p| - i
  {
    if i == |p| then None
    else if p[i] == ']' then if members == 0 then None else Some((i + 1, []))
    else if i + 2 < |p| && p[i + 1] == '-' && p[i + 2] != ']' then
      match Items(p, i + 3, members + 1)
      case None => None
      case Some((end, ranges)) => Some((end, [(p[i], p[i + 2])] + ranges))
    else
      match Items(p, i + 1, members + 1)
      case None => None
      case Some((end, ranges)) => Some((end, [(p[i], p[i])] + ranges))
  }

  /** The whole class body from `b` on; a `]` in first place is a member. */
  function Body(p: string, b: nat): (r: Option<(nat, seq<(char, char)>)>)
    requires b <= |p|
    ensures r.Some? ==> b < r.value.0 <= |p|
  {
    if b == |p| || p[b] != ']' then Items(p, b, 0)
    else if Items(p, b + 1, 1).None? then None
    else Some((Items(p, b + 1, 1).value.0, [(']', ']')] + Items(p, b + 1, 1).value.1))
  }

  /** The class starting at the `[` at `i`. */
  function ClassAt(p: string, i: nat): (r: Option<(nat, Elem)>)
    requires i < |p|
    ensures r.Some? ==> i < r.value.0 <= |p| && r.value.1.Class?
  {
    var negated := i + 1 < |p| && (p[i + 1] == '!' || p[i + 1] == '^');
    var body := Body(p, if negated then i + 2 else i + 1);
    if body.None? then None else Some((body.value.0, Class(negated, body.value.1)))
  }

  function ElemAt(p: string, i: nat): (r: (nat, Elem))
    requires i < |p|
    ensures i < r.0 <= |p|
    ensures r.1.Star? <==> p[i] == '*'
  {
    if p[i] == '*' then (i + 1, Star)
    else if p[i] == '?' then (i + 1, AnyOne)
    else if p[i] == '[' && ClassAt(p, i).Some? then ClassAt(p, i).value
    else (i + 1, Lit(p[i]))
  }

  function Parse(p: string, i: nat): (es: seq<Elem>)
    requires i <= |p|
    decreases |p| - i
  {
    if i == |p| then [] else [ElemAt(p, i).1] + Parse(p, ElemAt(p, i).0)
  }

  // ----- the matcher -----

  datatype ClassOutcome = Matched(next: nat) | NoMatch | Invalid

  /** Reads the members of a class up to its closing bracket: where it ends and whether one holds `c`. */
  method ScanMembers(p: string, start: nat, already: nat, early: bool, c: char) returns (r: Option<(nat, bool)>)
    requires start <= |p|
    ensures r.None? <==> Items(p, start, already).None?
    ensures r.Some? ==>
              && r.value.0 == Items(p, start, already).value.0
              && (r.value.1 <==> early || InRanges(Items(p, start, already).value.1, c))
  {
    var i, members, matched := start, already, early;
    ghost var whole := Items(p, start, already);
    while i < |p|
      invariant i <= |p|
      invariant whole.None? <==> Items(p, i, members).None?
      invariant whole.Some? ==>
                  && Items(p, i, members).value.0 == whole.value.0
                  && (early || InRanges(whole.value.1, c) <==>
                      matched || InRanges(Items(p, i, members).value.1, c))
      decreases |p| - i
    {
      var ch := p[i];
      if ch == ']' {
        return if members == 0 then None else Some((i + 1, matched));
      }
      if i + 2 < |p| && p[i + 1] == '-' && p[i + 2] != ']' {
        var hi := p[i + 2];
        if whole.Some? { RuntimeGlob.InRangesCons((ch, hi), Items(p, i + 3, members + 1).value.1, c); }
        members := members + 1;
        if ch <= c && c <= hi { matched := true; }
        i := i + 3;
        continue;
      }
      if whole.Some? { RuntimeGlob.InRangesCons((ch, ch), Items(p, i + 1, members + 1).value.1, c); }
      members := members + 1;
      if ch == c { matched := true; }
      i := i + 1;
    }
    return None;
  }

  method BracketClassMatches(p: string, pi: nat, c: char) returns (r: ClassOutcome)
    requires pi < |p|
    ensures r.Invalid? <==> ClassAt(p, pi).None?
    ensures ClassAt(p, pi).Some? ==>
              var (next, e) := ClassAt(p, pi).value;
              r == if Accepts(e, c) then Matched(next) else NoMatch
  {
    var i := pi + 1;
    var negated := i < |p| && (p[i] == '!' || p[i] == '^');
    if negated { i := i + 1; }
    var matched, members := false, 0;
    if i < |p| && p[i] == ']' {
      members := members + 1;
      matched := c == ']';
      i := i + 1;
    }
    ghost var whole := Items(p, i, members);
    if whole.Some? && members == 1 { RuntimeGlob.InRangesCons((']', ']'), whole.value.1, c); }
    var scanned := ScanMembers(p, i, members, matched, c);
    if scanned.None? { return Invalid; }
    var hit := if negated then !scanned.value.1 else scanned.value.1;
    return if hit then Matched(scanned.value.0) else NoMatch;
  }

  method MatchSingle(p: string, pi: nat, c: char) returns (r: Option<nat>)
    requires pi <= |p| && (pi < |p| ==> p[pi] != '*')
    ensures pi == |p| ==> r == None
    ensures pi < |p| ==>
              var (next, e) := ElemAt(p, pi);
              r == if Accepts(e, c) then Some(next) else None
  {
    if pi >= |p| { return None; }
    var cur := p[pi];
    if cur == '?' { return Some(pi + 1); }
    if cur == '[' {
      var outcome := BracketClassMatches(p, pi, c);
      match outcome
      case Matched(next) => return Some(next);
      case NoMatch => return None;
      case Invalid =>
    }
    return if cur == c then Some(pi + 1) else None;
  }

  method SimpleGlobMatch(p: string, n: string) returns (matched: bool)
    ensures matched <==> Matches(Parse(p, 0), n)
  {
    var pi: nat, ni: nat := 0, 0;
    var starP: Option<nat> := None;
    var starN := 0;
    ghost var es, anchor := Parse(p, 0), NoStar;
    while ni < |n|
      invariant pi <= |p| && ni <= |n| && starN <= ni
      invariant Greedy(es, n, anchor, Parse(p, pi), ni)
      invariant starP.None? <==> anchor.NoStar?
      invariant starP.Some? ==>
                  && starP.value < pi && anchor.from == starN
                  && anchor.after == Parse(p, starP.value + 1)
      decreases if starP.Some? then |p| - starP.value else |p| + 1, |n| - starN, |n| - ni
    {
      ghost var rest := Parse(p, pi);
      if pi < |p| && p[pi] == '*' {
        StarStep(es, n, anchor, rest, ni);
        anchor := LastStar(rest[1..], ni, []);
        starP, starN := Some(pi), ni;
        pi := pi + 1;
      } else {
        var next := MatchSingle(p, pi, n[ni]);
        if next.Some? {
          ConsumeStep(es, n, anchor, rest, ni);
          anchor := Advance(anchor, rest[0]);
          pi := next.value;
          ni := ni + 1;
        } else if starP.Some? {
          BacktrackStep(es, n, anchor, rest, ni);
          anchor := LastStar(anchor.after, anchor.from + 1, []);
          starN := starN + 1;
          ni := starN;
          pi := starP.value + 1;
        } else {
          return false;
        }
      }
    }
    FinishStep(es, n, anchor, Parse(p, pi));
    while pi < |p| && p[pi] == '*'
      invariant pi <= |p|
      invariant Matches(es, n) <==> AllStars(Parse(p, pi))
    {
      ghost var rest := Parse(p, pi);
      assert rest == [Star] + Parse(p, pi + 1);
      assert AllStars(rest[1..]) ==> AllStars(rest) by {
        assert forall i :: 1 <= i < |rest| ==> rest[i] == rest[1..][i - 1];
      }
      pi := pi + 1;
    }
    assert pi < |p| ==> !Parse(p, pi)[0].Star?;
    matched := pi == |p|;
  }

  // ----- `#`, `##`, `%`, `%%` -----

  ghost predicate PrefixMatches(val: string, pattern: string, end: nat) {
    end <= |val| && Matches(Parse(pattern, 0), val[..end])
  }

  ghost predicate SuffixMatches(val: string, pattern: string, start: nat) {
    start <= |val| && Matches(Parse(pattern, 0), val[start..])
  }

  /** Removes exactly the longest (`greedy`) or shortest matching prefix, if there is one. */
  method StripPrefixGlob(val: string, pattern: string, greedy: bool) returns (r: Option<string>)
    ensures r.None? <==> forall end: nat :: !PrefixMatches(val, pattern, end)
    ensures r.Some? ==>
              exists end: nat :: PrefixMatches(val, pattern, end) && r.value == val[end..] &&
                forall other: nat :: PrefixMatches(val, pattern, other) ==>
                                  if greedy then other <= end else end <= other
  {
    var chosen: Option<nat> := None;
    for end := 0 to |val| + 1
      invariant chosen.None? ==> forall e: nat :: PrefixMatches(val, pattern, e) ==> end <= e
      invariant chosen.Some? ==>
                  && chosen.value < end && PrefixMatches(val, pattern, chosen.value)
                  && forall e: nat :: PrefixMatches(val, pattern, e) && e < end ==>
                                   if greedy then e <= chosen.value else chosen.value <= e
    {
      var hit := SimpleGlobMatch(pattern, val[..end]);
      if hit {
        var better := chosen.None? || (if greedy then end > chosen.value else end < chosen.value);
        if better { chosen := Some(end); }
      }
    }
    r := if chosen.None? then None else Some(val[chosen.value..]);
    assert chosen.Some? ==> PrefixMatches(val, pattern, chosen.value);
  }

  /** Removes exactly the longest (`greedy`) or shortest matching suffix, if there is one. */
  method StripSuffixGlob(val: string, pattern: string, greedy: bool) returns (r: Option<string>)
    ensures r.None? <==> forall start: nat :: !SuffixMatches(val, pattern, start)
    ensures r.Some? ==>
              exists start: nat :: SuffixMatches(val, pattern, start) && r.value == val[..start] &&
                forall other: nat :: SuffixMatches(val, pattern, other) ==>
                                  if greedy then start <= other else other <= start
  {
    var chosen: Option<nat> := None;
    for start := 0 to |val| + 1
      invariant chosen.None? ==> forall e: nat :: SuffixMatches(val, pattern, e) ==> start <= e
      invariant chosen.Some? ==>
                  && chosen.value < start && SuffixMatches(val, pattern, chosen.value)
                  && forall e: nat :: SuffixMatches(val, pattern, e) && e < start ==>
                                   if greedy then chosen.value <= e else e <= chosen.value
    {
      var hit := SimpleGlobMatch(pattern, val[start..]);
      if hit {
        var better := chosen.None? || (if greedy then start < chosen.value else start > chosen.value);
        if better { chosen := Some(start); }
      }
    }
    r := if chosen.None? then None else Some(val[..chosen.value]);
    assert chosen.Some? ==> SuffixMatches(val, pattern, chosen.value);
  }
}
