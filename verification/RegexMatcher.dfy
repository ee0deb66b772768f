/**
 * The regex matcher as it runs: recursive methods over pattern offsets that
 * insert into and truncate one shared vector of captures.
 */
module RegexMatcher {
  import opened Wrappers
  import opened RegexSyntax
  import opened RegexSearch
  import opened RegexAtomic
  import GlobSpec

  // ----- reading the pattern -----

  method FindMatchingParen(pat: string, start: nat) returns (r: Option<nat>)
    ensures r == CloseParen(pat, start, 1)
  {
    var depth: nat, i: nat := 1, start;
    while i < |pat|
      invariant depth >= 1
      invariant CloseParen(pat, i, depth) == CloseParen(pat, start, 1)
    {
      if pat[i] == '\\' {
        i := i + 2;
        continue;
      }
      if pat[i] == '(' {
        depth := depth + 1;
      } else if pat[i] == ')' {
        if depth - 1 == 0 { return Some(i); }
        depth := depth - 1;
      }
      i := i + 1;
    }
    return None;
  }

  method SplitAlternatives(pat: string) returns (alternatives: seq<string>)
    ensures alternatives == Alternatives(pat, 0, 0, "")
  {
    alternatives := [];
    var current, depth, i := "", 0, 0;
    while i < |pat|
      invariant 0 <= i <= |pat|
      invariant Alternatives(pat, 0, 0, "") == alternatives + Alternatives(pat, i, depth, current)
    {
      if pat[i] == '\\' && i + 1 < |pat| {
        current := current + [pat[i], pat[i + 1]];
        i := i + 2;
        continue;
      }
      if pat[i] == '|' && depth == 0 {
        ghost var later := Alternatives(pat, i + 1, depth, "");
        assert alternatives + ([current] + later) == alternatives + [current] + later;
        alternatives := alternatives + [current];
        current := "";
      } else {
        if pat[i] == '(' { depth := depth + 1; }
        if pat[i] == ')' { depth := depth - 1; }
        current := current + [pat[i]];
      }
      i := i + 1;
    }
    alternatives := alternatives + [current];
  }

  method CountMatches(text: string, ti: nat, e: Elem) returns (count: nat)
    requires ti <= |text|
    ensures count == Count(text, ti, e)
  {
    count := 0;
    while ti + count < |text| && GlobSpec.Accepts(e, text[ti + count])
      invariant ti + count <= |text|
      invariant Count(text, ti, e) == count + Count(text, ti + count, e)
      decreases |text| - ti - count
    {
      count := count + 1;
    }
  }

  // ----- matching -----

  class Matcher {
    const text: string
    var captures: seq<Range>

    constructor (text: string)
      ensures this.text == text && captures == []
    {
      this.text, captures := text, [];
    }

    /** Failure leaves the captures alone; success appends exactly the new ones. */
    ghost predicate Does(spec: Option<(nat, seq<Range>)>, r: Option<nat>, before: seq<Range>)
      reads this
    {
      match spec
      case None => r.None? && captures == before
      case Some((end, caps)) => r == Some(end) && captures == before + caps
    }

    method Truncate(len: nat)
      requires len <= |captures|
      modifies this
      ensures captures == old(captures)[..len]
    {
      captures := captures[..len];
    }

    /** Puts a range behind the first `at` captures. */
    method Insert(at: nat, range: Range, ghost before: seq<Range>, ghost caps: seq<Range>)
      requires captures == before + caps && at == |before|
      modifies this
      ensures captures == before + ([range] + caps)
    {
      assert captures[..at] == before && captures[at..] == caps;
      captures := captures[..at] + [range] + captures[at..];
    }

    method MatchCapturing(ti: nat, pat: string, pi: nat, mustEnd: bool) returns (r: Option<nat>)
      requires ti <= |text| && pi <= |pat|
      modifies this
      ensures Does(Match(text, ti, Read(pat[pi..], true), mustEnd), r, old(captures))
      decreases |pat| - pi, 3
    {
      if pi >= |pat| {
        assert captures + [] == captures;
        return if mustEnd && ti < |text| then None else Some(ti);
      }
      if pat[pi] == '(' {
        r := MatchGroup(ti, pat, pi, mustEnd);
      } else {
        r := MatchElem(ti, pat, pi, mustEnd);
      }
    }

    method MatchGroup(ti: nat, pat: string, pi: nat, mustEnd: bool) returns (r: Option<nat>)
      requires ti <= |text| && pi < |pat| && pat[pi] == '('
      modifies this
      ensures Does(Match(text, ti, Read(pat[pi..], true), mustEnd), r, old(captures))
      decreases |pat| - pi, 2
    {
      var here := pat[pi..];
      var close := FindMatchingParen(here, 1);
      if close.None? {
        assert Read(here, true) == ReadGroup(here, true) == Broken;
        return None;
      }
      var alternatives := SplitAlternatives(here[1..close.value]);
      ghost var g := Group(alternatives, close.value);
      assert GroupAt(here) == Some(g);
      var quant := QuantAt(here, close.value + 1);
      var after := if quant == Once then here[close.value + 1..] else here[close.value + 2..];
      assert after == AfterGroup(here, g);
      ReadsGroup(here, g);
      match quant
      case Many => r := MatchGroupRep(ti, after, mustEnd, alternatives, 1);
      case Any => r := MatchGroupRep(ti, after, mustEnd, alternatives, 0);
      case Maybe => r := MatchGroupOpt(ti, after, mustEnd, alternatives);
      case Once => r := TryGroupOneAlt(ti, after, mustEnd, alternatives);
    }

    method MatchGroupRep(ti: nat, after: string, mustEnd: bool, alternatives: seq<string>, least: nat)
      returns (r: Option<nat>)
      requires ti <= |text|
      modifies this
      ensures Does(MatchRepeats(text, ti, |text|, Read(after, true), mustEnd, ReadAll(alternatives), least),
                   r, old(captures))
      decreases |after| + 1, 1
    {
      var save := |captures|;
      var endPos := |text|;
      ghost var alts, rest := ReadAll(alternatives), Read(after, true);
      ghost var spec := MatchRepeats(text, ti, |text|, rest, mustEnd, alts, least);
      while endPos >= ti
        invariant ti - 1 <= endPos <= |text|
        invariant save <= |captures| && captures[..save] == old(captures)
        invariant spec == MatchRepeats(text, ti, endPos, rest, mustEnd, alts, least)
      {
        Truncate(save);
        if Fills(text, ti, endPos, ReadAll(alternatives), least) {
          assert after[0..] == after;
          var end := MatchCapturing(endPos, after, 0, mustEnd);
          if end.Some? {
            Insert(save, (ti, endPos), old(captures), Match(text, endPos, rest, mustEnd).value.1);
            return end;
          }
        }
        endPos := endPos - 1;
      }
      Truncate(save);
      return None;
    }

    method MatchGroupOpt(ti: nat, after: string, mustEnd: bool, alternatives: seq<string>) returns (r: Option<nat>)
      requires ti <= |text|
      modifies this
      ensures Does(Match(text, ti, Grp(ReadAll(alternatives), Maybe, Read(after, true)), mustEnd), r, old(captures))
      decreases |after| + 1, 2
    {
      var save := |captures|;
      r := TryGroupOneAlt(ti, after, mustEnd, alternatives);
      if r.None? {
        assert captures == old(captures);
        Truncate(save);
        assert captures == old(captures);
        r := MatchZero(ti, after, mustEnd);
      }
    }

    /** The group matches nothing: it is captured as an empty range. */
    method MatchZero(ti: nat, after: string, mustEnd: bool) returns (r: Option<nat>)
      requires ti <= |text|
      modifies this
      ensures Does(Capture((ti, ti), Match(text, ti, Read(after, true), mustEnd)), r, old(captures))
      decreases |after| + 1, 1
    {
      var save := |captures|;
      assert after[0..] == after;
      r := MatchCapturing(ti, after, 0, mustEnd);
      if r.Some? {
        Insert(save, (ti, ti), old(captures), Match(text, ti, Read(after, true), mustEnd).value.1);
      } else {
        Truncate(save);
      }
    }

    method TryGroupOneAlt(ti: nat, after: string, mustEnd: bool, alternatives: seq<string>) returns (r: Option<nat>)
      requires ti <= |text|
      modifies this
      ensures Does(MatchAlts(text, ti, Read(after, true), mustEnd, ReadAll(alternatives), 0), r, old(captures))
      decreases |after| + 1, 1
    {
      var save := |captures|;
      ghost var alts, rest := ReadAll(alternatives), Read(after, true);
      ghost var spec := MatchAlts(text, ti, rest, mustEnd, alts, 0);
      for k := 0 to |alternatives|
        invariant captures == old(captures)
        invariant spec == MatchAlts(text, ti, rest, mustEnd, alts, k)
      {
        Truncate(save);
        r := TryAltThenContinue(ti, alternatives[k], after, mustEnd);
        if r.Some? { return; }
        Truncate(save);
      }
      return None;
    }

    method TryAltThenContinue(ti: nat, alt: string, after: string, mustEnd: bool) returns (r: Option<nat>)
      requires ti <= |text|
      modifies this
      ensures var end := Try(text, ti, Read(alt, false));
              Does(if end.None? then None
                   else Capture((ti, end.value), Match(text, end.value, Read(after, true), mustEnd)),
                   r, old(captures))
      decreases |after| + 1, 0
    {
      var save := |captures|;
      var end := Try(text, ti, Read(alt, false));
      if end.None? { return None; }
      assert after[0..] == after;
      r := MatchCapturing(end.value, after, 0, mustEnd);
      if r.Some? {
        Insert(save, (ti, end.value), old(captures), Match(text, end.value, Read(after, true), mustEnd).value.1);
      }
    }

    method MatchElem(ti: nat, pat: string, pi: nat, mustEnd: bool) returns (r: Option<nat>)
      requires ti <= |text| && pi < |pat| && pat[pi] != '('
      modifies this
      ensures Does(Match(text, ti, Read(pat[pi..], true), mustEnd), r, old(captures))
      decreases |pat| - pi, 2
    {
      var here := pat[pi..];
      var (len, e) := ElemAt(here);
      var quant := QuantAt(here, len);
      var next := if quant == Once then pi + len else pi + len + 1;
      assert pat[next..] == AfterElem(here);
      ReadsElem(here);
      match quant
      case Any | Many =>
        var least := if quant == Many then 1 else 0;
        var count := CountMatches(text, ti, e);
        r := MatchRepeatedElem(ti, pat, next, count, least, mustEnd);
      case Maybe =>
        r := MatchOptionalElem(ti, pat, next, e, mustEnd);
      case Once =>
        r := MatchSingleElem(ti, pat, next, e, mustEnd);
    }

    method MatchSingleElem(ti: nat, pat: string, next: nat, e: Elem, mustEnd: bool) returns (r: Option<nat>)
      requires ti <= |text| && next <= |pat|
      modifies this
      ensures Does(Match(text, ti, One(e, Once, Read(pat[next..], true)), mustEnd), r, old(captures))
      decreases |pat| - next, 4
    {
      if ti < |text| && GlobSpec.Accepts(e, text[ti]) {
        r := MatchCapturing(ti + 1, pat, next, mustEnd);
      } else {
        r := None;
      }
    }

    method MatchOptionalElem(ti: nat, pat: string, next: nat, e: Elem, mustEnd: bool) returns (r: Option<nat>)
      requires ti <= |text| && next <= |pat|
      modifies this
      ensures Does(Match(text, ti, One(e, Maybe, Read(pat[next..], true)), mustEnd), r, old(captures))
      decreases |pat| - next, 4
    {
      if ti < |text| && GlobSpec.Accepts(e, text[ti]) {
        r := MatchCapturing(ti + 1, pat, next, mustEnd);
        if r.Some? { return; }
      }
      r := MatchCapturing(ti, pat, next, mustEnd);
    }

    method MatchRepeatedElem(ti: nat, pat: string, next: nat, count: nat, least: nat, mustEnd: bool)
      returns (r: Option<nat>)
      requires ti + count <= |text| && next <= |pat|
      modifies this
      ensures Does(MatchRun(text, ti, count, least, Read(pat[next..], true), mustEnd), r, old(captures))
      decreases |pat| - next, 4
    {
      var c := count;
      ghost var rest := Read(pat[next..], true);
      ghost var spec := MatchRun(text, ti, count, least, rest, mustEnd);
      while c >= least
        invariant c <= count && captures == old(captures)
        invariant spec == MatchRun(text, ti, c, least, rest, mustEnd)
      {
        r := MatchCapturing(ti + c, pat, next, mustEnd);
        if r.Some? { return; }
        c := c - 1;
      }
      return None;
    }
  }

  // ----- the first match in a text -----

  /** The matched text followed by the text of each group. */
  function CaptureList(text: string, start: nat, end: nat, caps: seq<Range>): (r: seq<string>)
    requires start <= end <= |text| && forall k :: 0 <= k < |caps| ==> caps[k].0 <= caps[k].1 <= |text|
  {
    [text[start..end]] + seq(|caps|, k requires 0 <= k < |caps| => text[caps[k].0..caps[k].1])
  }

  lemma {:induction false} OrderedInBounds(caps: seq<Range>, i: nat, j: nat)
    requires Ordered(caps, i, j)
    ensures i <= j && forall k :: 0 <= k < |caps| ==> i <= caps[k].0 <= caps[k].1 <= j
    decreases |caps|
  {
    if caps != [] {
      OrderedInBounds(caps[1..], caps[0].1, j);
      assert forall k :: 1 <= k < |caps| ==> caps[k] == caps[1..][k - 1];
    }
  }

  lemma FoundInBounds(text: string, start: nat, p: Pat, mustEnd: bool)
    requires start <= |text| && Match(text, start, p, mustEnd).Some?
    ensures var (end, caps) := Match(text, start, p, mustEnd).value;
            start <= end <= |text| && forall k :: 0 <= k < |caps| ==> caps[k].0 <= caps[k].1 <= |text|
  {
    var (end, caps) := Match(text, start, p, mustEnd).value;
    MatchSound(text, start, p, mustEnd);
    CapturesAreOrdered(p, text, start, end, caps);
    OrderedInBounds(caps, start, end);
  }

  /** The result of a search whose first success is at offset `at`. */
  ghost predicate FirstMatch(text: string, p: Pat, anchoredEnd: bool, at: nat, r: seq<string>) {
    && at <= |text| && Match(text, at, p, anchoredEnd).Some?
    && (forall s: nat :: s < at ==> Match(text, s, p, anchoredEnd).None?)
    && var (end, caps) := Match(text, at, p, anchoredEnd).value;
       && at <= end <= |text|
       && (forall k :: 0 <= k < |caps| ==> caps[k].0 <= caps[k].1 <= |text|)
       && r == CaptureList(text, at, end, caps)
  }

  /** The search fails at every offset up to `last`. */
  ghost predicate Nowhere(p: Pat, text: string, last: nat, anchoredEnd: bool)
    requires last <= |text|
  {
    forall s: nat :: s <= last ==> Match(text, s, p, anchoredEnd).None?
  }

  /** Finds the leftmost offset at which the search succeeds, or none. */
  method FindFirstMatch(text: string, core: string, anchoredStart: bool, anchoredEnd: bool)
    returns (r: Option<seq<string>>)
    ensures r.None? <==> Nowhere(Read(core, true), text, if anchoredStart then 0 else |text|, anchoredEnd)
    ensures r.Some? ==>
              exists at: nat ::
                (anchoredStart ==> at == 0) && FirstMatch(text, Read(core, true), anchoredEnd, at, r.value)
  {
    var last := if anchoredStart then 0 else |text|;
    for start: nat := 0 to last + 1
      invariant forall s: nat :: s < start ==> Match(text, s, Read(core, true), anchoredEnd).None?
    {
      var m := new Matcher(text);
      assert core[0..] == core;
      var end := m.MatchCapturing(start, core, 0, anchoredEnd);
      if end.Some? {
        FoundInBounds(text, start, Read(core, true), anchoredEnd);
        ghost var caps := Match(text, start, Read(core, true), anchoredEnd).value.1;
        assert m.captures == [] + caps == caps;
        r := Some(CaptureList(text, start, end.value, m.captures));
        assert FirstMatch(text, Read(core, true), anchoredEnd, start, r.value);
        return;
      }
    }
    r := None;
  }
}
