/**
 * What a regex pattern matches, and the backtracking search for it. The search
 * tries longer runs and earlier alternatives first; inside a group it settles
 * for the first way an alternative works and never goes back into it.
 */
module RegexSearch {
  import opened Wrappers
  import opened RegexSyntax
  import GlobSpec

  type Range = (nat, nat)

  // ----- what a pattern matches -----

  predicate Allows(q: Quant, k: nat) {
    match q
    case Once => k == 1
    case Maybe => k <= 1
    case Any => true
    case Many => k >= 1
  }

  predicate Fits(e: Elem, text: string, i: nat, k: nat) {
    i + k <= |text| && forall j :: i <= j < i + k ==> GlobSpec.Accepts(e, text[j])
  }

  /** Inside a group, where nothing is captured: `p` matches `text[i..j]`. */
  ghost predicate Inside(p: Pat, text: string, i: nat, j: nat) {
    match p
    case End => i == j
    case Broken => false
    case One(e, q, rest) =>
      exists k: nat :: Allows(q, k) && Fits(e, text, i, k) && Inside(rest, text, i + k, j)
    case Grp(alts, _, rest) =>
      exists a: nat, m: nat :: a < |alts| && Inside(alts[a], text, i, m) && Inside(rest, text, m, j)
  }

  ghost predicate OneOf(alts: seq<Pat>, text: string, i: nat, j: nat) {
    exists a: nat :: a < |alts| && Inside(alts[a], text, i, j)
  }

  /** `n` times some alternative. */
  ghost predicate Repeats(alts: seq<Pat>, text: string, i: nat, j: nat, n: nat)
    decreases n
  {
    if n == 0 then i == j
    else exists m: nat :: OneOf(alts, text, i, m) && Repeats(alts, text, m, j, n - 1)
  }

  ghost predicate GroupMatches(q: Quant, alts: seq<Pat>, text: string, i: nat, j: nat) {
    match q
    case Once => OneOf(alts, text, i, j)
    case Maybe => i == j || OneOf(alts, text, i, j)
    case Any => exists n: nat :: Repeats(alts, text, i, j, n)
    case Many => exists n: nat :: n >= 1 && Repeats(alts, text, i, j, n)
  }

  /** `p` matches `text[i..j]` with `caps` the ranges of its groups, in order. */
  ghost predicate Whole(p: Pat, text: string, i: nat, j: nat, caps: seq<Range>)
    decreases p
  {
    match p
    case End => i == j && caps == []
    case Broken => false
    case One(e, q, rest) =>
      exists k: nat :: Allows(q, k) && Fits(e, text, i, k) && Whole(rest, text, i + k, j, caps)
    case Grp(alts, q, rest) =>
      && caps != [] && caps[0].0 == i
      && GroupMatches(q, alts, text, i, caps[0].1)
      && Whole(rest, text, caps[0].1, j, caps[1..])
  }

  function TopGroups(p: Pat): (n: nat) {
    match p
    case End | Broken => 0
    case One(_, _, rest) => TopGroups(rest)
    case Grp(_, _, rest) => 1 + TopGroups(rest)
  }

  // ----- the search inside a group: first way that works, longest run first -----

  function Count(text: string, i: nat, e: Elem): (n: nat)
    requires i <= |text|
    ensures Fits(e, text, i, n)
    decreases |text| - i
  {
    if i < |text| && GlobSpec.Accepts(e, text[i]) then 1 + Count(text, i + 1, e) else 0
  }

  function Least(q: Quant): nat { if q == Many then 1 else 0 }

  predicate AcceptsAt(e: Elem, text: string, i: nat) {
    i < |text| && GlobSpec.Accepts(e, text[i])
  }

  function Try(text: string, i: nat, p: Pat): (r: Option<nat>)
    requires i <= |text|
    ensures r.Some? ==> i <= r.value <= |text|
    decreases p, 0, 0
  {
    match p
    case End => Some(i)
    case Broken => None
    case Grp(_, _, _) => TryAlts(text, i, p, 0)
    case One(e, q, rest) =>
      match q
      case Any | Many => TryRun(text, i, Count(text, i, e), Least(q), rest)
      case Maybe =>
        if AcceptsAt(e, text, i) && Try(text, i + 1, rest).Some? then Try(text, i + 1, rest) else Try(text, i, rest)
      case Once => if AcceptsAt(e, text, i) then Try(text, i + 1, rest) else None
  }

  /** Tries `c`, `c - 1`, ... down to `least` repetitions. */
  function TryRun(text: string, i: nat, c: int, least: nat, rest: Pat): (r: Option<nat>)
    requires i + c <= |text|
    ensures r.Some? ==> i <= r.value <= |text|
    decreases rest, 1, c + 1
  {
    if c < least then None
    else if Try(text, i + c, rest).Some? then Try(text, i + c, rest)
    else TryRun(text, i, c - 1, least, rest)
  }

  /** Tries the alternatives of a group from the `k`-th on, each with the rest. */
  function TryAlts(text: string, i: nat, p: Pat, k: nat): (r: Option<nat>)
    requires i <= |text| && p.Grp? && k <= |p.alts|
    ensures r.Some? ==> i <= r.value <= |text|
    decreases p, 0, 0, |p.alts| - k
  {
    if k == |p.alts| then None
    else
      var after := Try(text, i, p.alts[k]);
      if after.Some? && Try(text, after.value, p.rest).Some? then Try(text, after.value, p.rest)
      else TryAlts(text, i, p, k + 1)
  }

  /** Whether repeated alternatives fill `text[start..end]`. */
  predicate Fills(text: string, start: nat, end: nat, alts: seq<Pat>, least: nat)
    requires end <= |text|
    decreases if start < end then end - start else 0, |alts| + 1
  {
    if start == end then least == 0
    else if start > end then false
    else FillsFrom(text, start, end, alts, least, 0)
  }

  predicate FillsFrom(text: string, start: nat, end: nat, alts: seq<Pat>, least: nat, k: nat)
    requires start < end <= |text| && k <= |alts|
    decreases end - start, |alts| - k
  {
    k < |alts| && (FillsWith(text, start, end, alts, least, alts[k]) || FillsFrom(text, start, end, alts, least, k + 1))
  }

  predicate FillsWith(text: string, start: nat, end: nat, alts: seq<Pat>, least: nat, alt: Pat)
    requires start < end <= |text|
    decreases end - start, 0
  {
    match Try(text, start, alt)
    case None => false
    case Some(after) =>
      if after <= start || after > end then false
      else if after == end && least <= 1 then true
      else Fills(text, after, end, alts, Pred(least))
  }

  function Pred(n: nat): nat { if n == 0 then 0 else n - 1 }

  // ----- the search at the top level, with captures -----

  function Match(text: string, i: nat, p: Pat, mustEnd: bool): (r: Option<(nat, seq<Range>)>)
    requires i <= |text|
    decreases p, 0, 0
  {
    match p
    case End => if mustEnd && i < |text| then None else Some((i, []))
    case Broken => None
    case Grp(alts, q, rest) =>
      (match q
       case Any | Many => MatchRepeats(text, i, |text|, rest, mustEnd, alts, Least(q))
       case Once => MatchAlts(text, i, rest, mustEnd, alts, 0)
       case Maybe =>
         var one := MatchAlts(text, i, rest, mustEnd, alts, 0);
         if one.Some? then one else Capture((i, i), Match(text, i, rest, mustEnd)))
    case One(e, q, rest) =>
      match q
      case Any | Many => MatchRun(text, i, Count(text, i, e), Least(q), rest, mustEnd)
      case Maybe =>
        if AcceptsAt(e, text, i) && Match(text, i + 1, rest, mustEnd).Some? then Match(text, i + 1, rest, mustEnd)
        else Match(text, i, rest, mustEnd)
      case Once => if AcceptsAt(e, text, i) then Match(text, i + 1, rest, mustEnd) else None
  }

  function Capture(c: Range, r: Option<(nat, seq<Range>)>): Option<(nat, seq<Range>)> {
    match r
    case None => None
    case Some((end, caps)) => Some((end, [c] + caps))
  }

  function MatchRun(text: string, i: nat, c: int, least: nat, rest: Pat, mustEnd: bool)
    : (r: Option<(nat, seq<Range>)>)
    requires i + c <= |text|
    decreases rest, 1, c + 1
  {
    if c < least then None
    else if Match(text, i + c, rest, mustEnd).Some? then Match(text, i + c, rest, mustEnd)
    else MatchRun(text, i, c - 1, least, rest, mustEnd)
  }

  function MatchRepeats(text: string, i: nat, end: int, rest: Pat, mustEnd: bool, alts: seq<Pat>, least: nat)
    : (r: Option<(nat, seq<Range>)>)
    requires i <= |text| && end <= |text|
    decreases rest, 1, end + 1
  {
    if end < i then None
    else
      var r := if Fills(text, i, end, alts, least) then Capture((i, end), Match(text, end, rest, mustEnd)) else None;
      if r.Some? then r else MatchRepeats(text, i, end - 1, rest, mustEnd, alts, least)
  }

  function MatchAlts(text: string, i: nat, rest: Pat, mustEnd: bool, alts: seq<Pat>, k: nat)
    : (r: Option<(nat, seq<Range>)>)
    requires i <= |text| && k <= |alts|
    decreases rest, 1, |alts| - k
  {
    if k == |alts| then None
    else
      var end := Try(text, i, alts[k]);
      var r := if end.Some? then Capture((i, end.value), Match(text, end.value, rest, mustEnd)) else None;
      if r.Some? then r else MatchAlts(text, i, rest, mustEnd, alts, k + 1)
  }
}
