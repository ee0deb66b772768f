/**
 * Brace expansion (`a{b,c}d`, `{1..9}`): the uncapped expansion as a
 * mathematical object, and the capped algorithm, which returns exactly its
 * first 10,000 words.
 */
module BraceExpansion {
  import opened Wrappers
  import opened Int64
  import opened Decimal

  const MAX_ITEMS: nat := 10_000

  /** The number of opening braces: what every expansion step reduces. */
  function Braces(s: string): (n: nat) {
    if s == [] then 0 else (if s[0] == '{' then 1 else 0) + Braces(s[1..])
  }

  lemma {:induction false} BracesAppend(a: string, b: string)
    ensures Braces(a + b) == Braces(a) + Braces(b)
    decreases |a|
  {
    if a == [] {
      assert a + b == b;
    } else {
      assert (a + b)[1..] == a[1..] + b;
      BracesAppend(a[1..], b);
    }
  }

  lemma BracesSlice(s: string, i: nat, j: nat)
    requires i <= j <= |s|
    ensures Braces(s[i..j]) <= Braces(s)
  {
    BracesAppend(s[..i], s[i..j]);
    BracesAppend(s[..j], s[j..]);
    assert s[..i] + s[i..j] == s[..j] && s[..j] + s[j..] == s;
  }

  lemma {:induction false} NoBraces(s: string)
    requires forall i :: 0 <= i < |s| ==> s[i] != '{'
    ensures Braces(s) == 0
    decreases |s|
  {
    if s != [] { NoBraces(s[1..]); }
  }

  // ----- finding the outermost pair -----

  /** The first outermost brace pair; a byte after a backslash is skipped. */
  function FindPair(word: string, i: nat, depth: nat, start: nat): (r: Option<(nat, nat)>)
    requires i <= |word| && (depth > 0 ==> start < i && word[start] == '{')
    ensures r.Some? ==> r.value.0 < r.value.1 < |word| && word[r.value.0] == '{'
    decreases |word| - i
  {
    if i == |word| then None
    else if i > 0 && word[i - 1] == '\\' then FindPair(word, i + 1, depth, start)
    else if word[i] == '{' then FindPair(word, i + 1, depth + 1, if depth == 0 then i else start)
    else if word[i] == '}' && depth > 0 then
      if depth == 1 then Some((start, i)) else FindPair(word, i + 1, depth - 1, start)
    else FindPair(word, i + 1, depth, start)
  }

  // ----- comma lists -----

  /** The pieces between top-level commas; the last one is always there. */
  function Pieces(inner: string, i: nat, depth: nat, start: nat): (r: seq<string>)
    requires start <= i <= |inner|
    ensures r != []
    decreases |inner| - i
  {
    if i == |inner| then [inner[start..]]
    else if inner[i] == '{' then Pieces(inner, i + 1, depth + 1, start)
    else if inner[i] == '}' then Pieces(inner, i + 1, if depth == 0 then 0 else depth - 1, start)
    else if inner[i] == ',' && depth == 0 then [inner[start..i]] + Pieces(inner, i + 1, depth, i + 1)
    else Pieces(inner, i + 1, depth, start)
  }

  predicate AllFit(items: seq<string>, n: nat) {
    forall k :: 0 <= k < |items| ==> Braces(items[k]) <= n
  }

  lemma FitCons(item: string, items: seq<string>, n: nat)
    requires Braces(item) <= n && AllFit(items, n)
    ensures AllFit([item] + items, n)
  {
  }

  lemma {:induction false} PiecesFit(inner: string, i: nat, depth: nat, start: nat)
    requires start <= i <= |inner|
    ensures AllFit(Pieces(inner, i, depth, start), Braces(inner))
    decreases |inner| - i
  {
    if i == |inner| {
      BracesSlice(inner, start, |inner|);
      assert inner[start..] == inner[start..|inner|];
    } else if inner[i] == '{' {
      PiecesFit(inner, i + 1, depth + 1, start);
    } else if inner[i] == '}' {
      PiecesFit(inner, i + 1, if depth == 0 then 0 else depth - 1, start);
    } else if inner[i] == ',' && depth == 0 {
      BracesSlice(inner, start, i);
      PiecesFit(inner, i + 1, depth, i + 1);
      FitCons(inner[start..i], Pieces(inner, i + 1, depth, i + 1), Braces(inner));
    } else {
      PiecesFit(inner, i + 1, depth, start);
    }
  }

  // ----- ranges -----

  predicate InBounds(c: int, end: int, step: int) {
    if step > 0 then c <= end else c >= end
  }

  predicate IsI64(x: int) { -TWO63 <= x < TWO63 }

  /** The values of a range, stopping at the bound or where 64 bits overflow. */
  function Values(cur: int, end: int, step: int): (r: seq<int>)
    requires step != 0
    decreases if InBounds(cur, end, step) then Abs(end - cur) + 1 else 0
  {
    if !InBounds(cur, end, step) then []
    else [cur] + if IsI64(cur + step) then Values(cur + step, end, step) else []
  }

  /** A range is exactly the arithmetic progression up to its bound; overflow loses nothing. */
  lemma {:induction false} ValuesAreTheProgression(cur: int, end: int, step: int, k: nat)
    requires step != 0 && IsI64(cur) && IsI64(end)
    ensures k < |Values(cur, end, step)| <==> InBounds(cur + k * step, end, step)
    ensures k < |Values(cur, end, step)| ==> Values(cur, end, step)[k] == cur + k * step
    decreases k
  {
    if k == 0 {
    } else if !InBounds(cur, end, step) {
      StaysOut(cur, end, step, k);
    } else {
      assert cur + k * step == (cur + step) + (k - 1) * step;
      if IsI64(cur + step) {
        ValuesAreTheProgression(cur + step, end, step, k - 1);
      } else {
        assert !InBounds(cur + step, end, step);
        StaysOut(cur + step, end, step, k - 1);
      }
    }
  }

  lemma StaysOut(cur: int, end: int, step: int, k: nat)
    requires step != 0 && !InBounds(cur, end, step)
    ensures !InBounds(cur + k * step, end, step)
  {
    if step > 0 { assert k * step >= 0; } else { assert k * step <= 0; }
  }

  function Padded(s: string, width: nat): (r: string) {
    if |s| < width then seq(width - |s|, _ => '0') + s else s
  }

  function Item(n: int, width: nat, pad: bool): (s: string) {
    if pad then Padded(Show(n), width) else Show(n)
  }

  function Items(values: seq<int>, width: nat, pad: bool): (r: seq<string>) {
    if values == [] then [] else [Item(values[0], width, pad)] + Items(values[1..], width, pad)
  }

  lemma {:induction false} ItemsFit(values: seq<int>, width: nat, pad: bool)
    ensures AllFit(Items(values, width, pad), 0)
    decreases |values|
  {
    if values != [] {
      NoBraces(Item(values[0], width, pad));
      ItemsFit(values[1..], width, pad);
      FitCons(Item(values[0], width, pad), Items(values[1..], width, pad), 0);
    }
  }

  /** Offset of the first `..` from `i` on, or the length. */
  function Dots(s: string, i: nat): (r: nat)
    requires i <= |s|
    ensures i <= r <= |s| && (r < |s| ==> r + 2 <= |s|)
    decreases |s| - i
  {
    if i + 2 > |s| then |s|
    else if s[i] == '.' && s[i + 1] == '.' then i
    else Dots(s, i + 1)
  }

  /** Split at the first two `..` only. */
  function RangeParts(inner: string): (r: seq<string>)
    ensures 1 <= |r| <= 3
  {
    var i := Dots(inner, 0);
    if i == |inner| then [inner]
    else
      var rest := inner[i + 2..];
      var j := Dots(rest, 0);
      if j == |rest| then [inner[..i], rest] else [inner[..i], rest[..j], rest[j + 2..]]
  }

  function StepOf(parts: seq<string>, start: int, end: int): (r: Option<int>)
    requires 2 <= |parts| <= 3
    ensures r.Some? ==> r.value != 0 && IsI64(r.value)
  {
    if |parts| == 3 then
      match ParseI64(parts[2])
      case None => None
      case Some(s) => if s == 0 then None else Some(s)
    else Some(if start <= end then 1 else -1)
  }

  predicate ZeroPadded(s: string) { |s| > 1 && s[0] == '0' }

  /** A parsed range: its bounds, step and print format. */
  datatype Range = Range(start: int, end: int, step: int, width: nat, pad: bool)

  predicate ValidRange(r: Range) {
    r.step != 0 && IsI64(r.start) && IsI64(r.end) && IsI64(r.step)
  }

  function ReadRange(inner: string): (r: Option<Range>)
    ensures r.Some? ==> ValidRange(r.value)
  {
    var parts := RangeParts(inner);
    if |parts| < 2 then None
    else
      match (ParseI64(parts[0]), ParseI64(parts[1]))
      case (Some(start), Some(end)) =>
        (match StepOf(parts, start, end)
         case None => None
         case Some(step) =>
           Some(Range(start, end, step, if |parts[0]| > |parts[1]| then |parts[0]| else |parts[1]|,
                      ZeroPadded(parts[0]) || ZeroPadded(parts[1]))))
      case _ => None
  }

  function RangeItems(r: Range): (items: seq<string>)
    requires ValidRange(r)
  {
    Items(Values(r.start, r.end, r.step), r.width, r.pad)
  }

  // ----- the uncapped expansion -----

  /** What stands around the choices of a word. */
  datatype Frame = Frame(prefix: string, suffix: string) {
    function Around(item: string): string { prefix + item + suffix }
  }

  predicate Shrinks(f: Frame, items: seq<string>, bound: nat) {
    forall k :: 0 <= k < |items| ==> Braces(f.prefix) + Braces(items[k]) + Braces(f.suffix) < bound
  }

  function Choices(inner: string): (r: Option<seq<string>>)
    ensures r.Some? ==> r.value != []
  {
    var range := ReadRange(inner);
    if range.Some? && RangeItems(range.value) != [] then Some(RangeItems(range.value))
    else if |Pieces(inner, 0, 0, 0)| > 1 then Some(Pieces(inner, 0, 0, 0))
    else None
  }

  lemma ChoicesFit(inner: string)
    ensures Choices(inner).Some? ==> AllFit(Choices(inner).value, Braces(inner))
  {
    PiecesFit(inner, 0, 0, 0);
    var range := ReadRange(inner);
    if range.Some? {
      var r := range.value;
      ItemsFit(Values(r.start, r.end, r.step), r.width, r.pad);
    }
  }

  /** Replacing the pair at `(start, end)` by one of its choices removes a brace. */
  lemma ChoicesShrink(word: string, start: nat, end: nat)
    requires start < end < |word| && word[start] == '{' && Choices(word[start + 1..end]).Some?
    ensures Shrinks(FrameOf(word, start, end), Choices(word[start + 1..end]).value, Braces(word))
  {
    OpeningShrinks(word, start, end);
    ChoicesFit(word[start + 1..end]);
  }

  function FrameOf(word: string, start: nat, end: nat): Frame
    requires start < end < |word|
  {
    Frame(word[..start], word[end + 1..])
  }

  lemma OpeningShrinks(word: string, start: nat, end: nat)
    requires start < end < |word| && word[start] == '{'
    ensures Braces(word[..start]) + Braces(word[start + 1..end]) + Braces(word[end + 1..]) < Braces(word)
  {
    SplitAt(word, start);
    SplitAt(word[start + 1..], end - start - 1);
    assert word[start + 1..][..end - start - 1] == word[start + 1..end];
    assert word[start + 1..][end - start..] == word[end + 1..];
  }

  lemma SplitAt(s: string, i: nat)
    requires i < |s|
    ensures Braces(s) == Braces(s[..i]) + (if s[i] == '{' then 1 else 0) + Braces(s[i + 1..])
  {
    BracesAppend(s[..i], s[i..]);
    assert s[..i] + s[i..] == s && s[i..][1..] == s[i + 1..];
  }

  function All(word: string): (r: seq<string>)
    ensures r != []
    decreases Braces(word), 1, 0
  {
    match FindPair(word, 0, 0, 0)
    case None => [word]
    case Some((start, end)) =>
      match Choices(word[start + 1..end])
      case None => [word]
      case Some(items) =>
        ChoicesShrink(word, start, end);
        AllOf(FrameOf(word, start, end), items, Braces(word))
  }

  function AllOf(f: Frame, items: seq<string>, ghost bound: nat): (r: seq<string>)
    requires Shrinks(f, items, bound)
    ensures |r| >= |items|
    decreases bound, 0, |items|
  {
    if items == [] then []
    else
      AroundShrinks(f, items[0]);
      All(f.Around(items[0])) + AllOf(f, items[1..], bound)
  }

  lemma AroundShrinks(f: Frame, item: string)
    ensures Braces(f.Around(item)) == Braces(f.prefix) + Braces(item) + Braces(f.suffix)
  {
    BracesAppend(f.prefix + item, f.suffix);
    BracesAppend(f.prefix, item);
  }

  lemma {:induction false} AllOfAppend(f: Frame, a: seq<string>, b: seq<string>, bound: nat)
    requires Shrinks(f, a + b, bound)
    ensures Shrinks(f, a, bound) && Shrinks(f, b, bound)
    ensures AllOf(f, a + b, bound) == AllOf(f, a, bound) + AllOf(f, b, bound)
    decreases |a|
  {
    assert forall k :: 0 <= k < |a| ==> (a + b)[k] == a[k];
    assert forall k :: 0 <= k < |b| ==> (a + b)[|a| + k] == b[k];
    if a == [] {
      assert a + b == b;
    } else {
      assert (a + b)[1..] == a[1..] + b;
      AllOfAppend(f, a[1..], b, bound);
    }
  }

  // ----- prefixes of lists -----

  function Take(s: seq<string>, n: nat): (r: seq<string>)
    ensures |r| <= n
  {
    if |s| <= n then s else s[..n]
  }

  lemma TakeAppend(a: seq<string>, a': seq<string>, b: seq<string>, n: nat)
    requires Take(a, n) == Take(a', n)
    ensures Take(a + Take(b, n), n) == Take(a' + b, n)
  {
    if |a| > n || |a'| > n {
      assert |a| >= n && |a'| >= n;
      assert (a + Take(b, n))[..n] == a[..n] && (a' + b)[..n] == a'[..n];
    }
  }

  lemma TakeOfLonger(a: seq<string>, b: seq<string>, n: nat)
    requires |a| >= n
    ensures Take(a + b, n) == Take(a, n)
  {
    assert (a + b)[..n] == a[..n];
  }

  // ----- the algorithm -----

  method FindBracePair(word: string) returns (r: Option<(nat, nat)>)
    ensures r == FindPair(word, 0, 0, 0)
  {
    var braceStart: nat, depth: nat := 0, 0;
    for i := 0 to |word|
      invariant depth > 0 ==> braceStart < i && word[braceStart] == '{'
      invariant FindPair(word, i, depth, braceStart) == FindPair(word, 0, 0, 0)
    {
      if i > 0 && word[i - 1] == '\\' { continue; }
      if word[i] == '{' {
        if depth == 0 { braceStart := i; }
        depth := depth + 1;
      } else if word[i] == '}' && depth > 0 {
        depth := depth - 1;
        if depth == 0 { return Some((braceStart, i)); }
      }
    }
    return None;
  }

  method SplitBraceItems(inner: string) returns (r: Option<seq<string>>)
    ensures r.Some? <==> |Pieces(inner, 0, 0, 0)| > 1
    ensures r.Some? ==> r.value == Pieces(inner, 0, 0, 0)
  {
    var items: seq<string>, depth: nat, start: nat := [], 0, 0;
    for i := 0 to |inner|
      invariant start <= i
      invariant Pieces(inner, 0, 0, 0) == items + Pieces(inner, i, depth, start)
    {
      if inner[i] == '{' {
        depth := depth + 1;
      } else if inner[i] == '}' {
        depth := if depth == 0 then 0 else depth - 1;
      } else if inner[i] == ',' && depth == 0 {
        ghost var later := Pieces(inner, i + 1, depth, i + 1);
        assert items + ([inner[start..i]] + later) == items + [inner[start..i]] + later;
        items := items + [inner[start..i]];
        start := i + 1;
      }
    }
    if items == [] { return None; }
    return Some(items + [inner[start..]]);
  }

  /** The items still to come when the generator is at `cur`. */
  function Upcoming(r: Range, cur: int): (items: seq<string>)
    requires ValidRange(r)
  {
    Items(Values(cur, r.end, r.step), r.width, r.pad)
  }

  lemma UpcomingStep(r: Range, cur: int)
    requires ValidRange(r) && InBounds(cur, r.end, r.step)
    ensures Upcoming(r, cur) ==
            [Item(cur, r.width, r.pad)] + if IsI64(cur + r.step) then Upcoming(r, cur + r.step) else []
  {
    var later := if IsI64(cur + r.step) then Values(cur + r.step, r.end, r.step) else [];
    var values := Values(cur, r.end, r.step);
    assert values == [cur] + later && values[0] == cur && values[1..] == later;
    assert Items(values, r.width, r.pad) == [Item(cur, r.width, r.pad)] + Items(later, r.width, r.pad);
  }

  lemma TakeExactly(a: seq<string>, b: seq<string>, n: nat)
    requires |a| <= n && (b == [] || |a| == n)
    ensures Take(a + b, n) == a
  {
    if b == [] { assert a + b == a; } else { assert (a + b)[..n] == a; }
  }

  method GenerateRange(r: Range) returns (result: seq<string>)
    requires ValidRange(r)
    ensures result == Take(RangeItems(r), MAX_ITEMS)
  {
    result := [];
    var cur, more := r.start, true;
    ghost var all, todo := RangeItems(r), Upcoming(r, r.start);
    while more && InBounds(cur, r.end, r.step) && |result| < MAX_ITEMS
      invariant |result| <= MAX_ITEMS && all == result + todo
      invariant todo == if more then Upcoming(r, cur) else []
      decreases MAX_ITEMS - |result|
    {
      UpcomingStep(r, cur);
      var item := Item(cur, r.width, r.pad);
      if IsI64(cur + r.step) { cur := cur + r.step; } else { more := false; }
      ghost var later := if more then Upcoming(r, cur) else [];
      assert result + ([item] + later) == result + [item] + later;
      result, todo := result + [item], later;
    }
    TakeExactly(result, todo, MAX_ITEMS);
  }

  /** The choices inside a brace pair: a range first, then a comma list. */
  method ReadChoices(inner: string) returns (r: Option<seq<string>>)
    ensures r.Some? <==> Choices(inner).Some?
    ensures r.Some? ==> r.value == Choices(inner).value || r.value == Take(Choices(inner).value, MAX_ITEMS)
  {
    var range := ReadRange(inner);
    if range.Some? {
      var result := GenerateRange(range.value);
      if result != [] { return Some(result); }
    }
    r := SplitBraceItems(inner);
  }

  lemma {:induction false} AllOfSnoc(f: Frame, items: seq<string>, k: nat, bound: nat)
    requires k < |items| && Shrinks(f, items, bound)
    ensures Shrinks(f, items[..k], bound) && Shrinks(f, items[..k + 1], bound)
    ensures AllOf(f, items[..k + 1], bound) == AllOf(f, items[..k], bound) + All(f.Around(items[k]))
  {
    assert items[..k] + [items[k]] == items[..k + 1];
    AllOfAppend(f, items[..k], [items[k]], bound);
    assert AllOf(f, [items[k]], bound) == All(f.Around(items[k])) + [];
  }

  /** Once enough words are there, the remaining items change nothing. */
  lemma EnoughIsEnough(f: Frame, items: seq<string>, k: nat, bound: nat)
    requires k <= |items| && Shrinks(f, items, bound)
    ensures Shrinks(f, items[..k], bound)
    ensures |AllOf(f, items[..k], bound)| >= MAX_ITEMS ==>
              Take(AllOf(f, items, bound), MAX_ITEMS) == Take(AllOf(f, items[..k], bound), MAX_ITEMS)
  {
    assert items[..k] + items[k..] == items;
    AllOfAppend(f, items[..k], items[k..], bound);
    if |AllOf(f, items[..k], bound)| >= MAX_ITEMS {
      TakeOfLonger(AllOf(f, items[..k], bound), AllOf(f, items[k..], bound), MAX_ITEMS);
    }
  }

  /** Joins and expands item by item, stopping early once enough words are there. */
  method CombineAndRecurse(f: Frame, items: seq<string>, ghost bound: nat) returns (result: seq<string>)
    requires Shrinks(f, items, bound)
    ensures result == Take(AllOf(f, items, bound), MAX_ITEMS)
    decreases bound, 0
  {
    result := [];
    var k := 0;
    while k < |items|
      invariant 0 <= k <= |items| && Shrinks(f, items[..k], bound)
      invariant Take(result, MAX_ITEMS) == Take(AllOf(f, items[..k], bound), MAX_ITEMS)
    {
      if |result| >= MAX_ITEMS {
        EnoughIsEnough(f, items, k, bound);
        return Take(result, MAX_ITEMS);
      }
      AroundShrinks(f, items[k]);
      var expanded := ExpandBraces(f.Around(items[k]));
      AllOfSnoc(f, items, k, bound);
      TakeAppend(result, AllOf(f, items[..k], bound), All(f.Around(items[k])), MAX_ITEMS);
      result := result + expanded;
      k := k + 1;
    }
    assert items[..|items|] == items;
    return Take(result, MAX_ITEMS);
  }

  /** The first 10,000 items of a range are enough: each yields at least one word. */
  lemma CappedItemsSuffice(f: Frame, items: seq<string>, bound: nat)
    requires Shrinks(f, items, bound)
    ensures Shrinks(f, Take(items, MAX_ITEMS), bound)
    ensures Take(AllOf(f, Take(items, MAX_ITEMS), bound), MAX_ITEMS) == Take(AllOf(f, items, bound), MAX_ITEMS)
  {
    if |items| > MAX_ITEMS { EnoughIsEnough(f, items, MAX_ITEMS, bound); }
  }

  /**
   * Terminates on every word, never returns an empty list, and returns exactly
   * the first 10,000 words of the uncapped expansion.
   */
  method ExpandBraces(word: string) returns (r: seq<string>)
    ensures r == Take(All(word), MAX_ITEMS) && r != []
    decreases Braces(word), 1
  {
    var pair := FindBracePair(word);
    if pair.None? { return [word]; }
    var (start, end) := pair.value;
    var f, inner := FrameOf(word, start, end), word[start + 1..end];
    var items := ReadChoices(inner);
    if items.None? { return [word]; }
    ChoicesShrink(word, start, end);
    CappedItemsSuffice(f, Choices(inner).value, Braces(word));
    r := CombineAndRecurse(f, items.value, Braces(word));
  }
}
