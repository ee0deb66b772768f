/**
 * What brace expansion gives for the words people write: one word for each item
 * of a comma list, and one for each number of a range, up or down.
 */
module BraceLaws {
  import opened Wrappers
  import opened Int64
  import opened Decimal
  import opened BraceExpansion

  /** Text that neither opens, closes nor escapes anything. */
  predicate Plain(s: string) { forall i :: 0 <= i < |s| ==> s[i] !in "{}\\" }

  /** From `i` to `j`, `d` levels deep, braces match and nothing is escaped; commas at the top only if allowed. */
  predicate Matched(t: string, i: nat, j: nat, d: nat, commas: bool)
    requires j <= |t|
    decreases j - i
  {
    if i >= j then i == j && d == 0
    else if t[i] == '{' then Matched(t, i + 1, j, d + 1, commas)
    else if t[i] == '}' then d > 0 && Matched(t, i + 1, j, d - 1, commas)
    else t[i] != '\\' && (t[i] == ',' ==> commas || d > 0) && Matched(t, i + 1, j, d, commas)
  }

  predicate IsMatched(s: string, commas: bool) { Matched(s, 0, |s|, 0, commas) }

  lemma {:induction false} MatchedShift(a: string, i: nat, t: string, off: nat, d: nat, commas: bool)
    requires i <= |a| && off + |a| <= |t| && forall k :: 0 <= k < |a| ==> t[off + k] == a[k]
    ensures Matched(t, off + i, off + |a|, d, commas) == Matched(a, i, |a|, d, commas)
    decreases |a| - i
  {
    if i < |a| {
      assert t[off + i] == a[i];
      MatchedShift(a, i + 1, t, off, if a[i] == '{' then d + 1 else if a[i] == '}' && d > 0 then d - 1 else d, commas);
    }
  }

  lemma {:induction false} MatchedJoin(t: string, i: nat, j: nat, k: nat, d: nat)
    requires i <= j <= k <= |t| && Matched(t, i, j, d, true) && Matched(t, j, k, 0, true)
    ensures Matched(t, i, k, d, true)
    decreases j - i
  {
    if i < j { MatchedJoin(t, i + 1, j, k, if t[i] == '{' then d + 1 else if t[i] == '}' then d - 1 else d); }
  }

  lemma {:induction false} MatchedWeakens(t: string, i: nat, j: nat, d: nat)
    requires i <= j <= |t| && Matched(t, i, j, d, false)
    ensures Matched(t, i, j, d, true)
    decreases j - i
  {
    if i < j { MatchedWeakens(t, i + 1, j, if t[i] == '{' then d + 1 else if t[i] == '}' then d - 1 else d); }
  }

  lemma {:induction false} PlainMatches(t: string, i: nat, commas: bool)
    requires i <= |t| && Plain(t) && (commas || ',' !in t)
    ensures Matched(t, i, |t|, 0, commas)
    decreases |t| - i
  {
    if i < |t| {
      assert t[i] in t;
      PlainMatches(t, i + 1, commas);
    }
  }

  /** A word with one pair of braces. */
  function Braced(p: string, inner: string, s: string): (word: string) { p + ("{" + (inner + ("}" + s))) }

  /** The expansions of the words around each item, in order. */
  function EachWord(p: string, items: seq<string>, s: string): (r: seq<string>) {
    if items == [] then [] else All(p + items[0] + s) + EachWord(p, items[1..], s)
  }

  // ----- the pair -----

  lemma {:induction false} PlainSkipped(word: string, i: nat, j: nat, depth: nat, start: nat)
    requires i <= j <= |word| && (depth > 0 ==> start < i && word[start] == '{')
    requires (i > 0 ==> word[i - 1] != '\\') && forall k :: i <= k < j ==> word[k] !in "{}\\"
    ensures FindPair(word, i, depth, start) == FindPair(word, j, depth, start)
    decreases j - i
  {
    if i < j { PlainSkipped(word, i + 1, j, depth, start); }
  }

  lemma {:induction false} MatchedSkipped(word: string, i: nat, j: nat, d: nat, start: nat)
    requires i <= j <= |word| && Matched(word, i, j, d, true) && start < i && word[start] == '{' && word[i - 1] != '\\'
    ensures FindPair(word, i, d + 1, start) == FindPair(word, j, 1, start)
    decreases j - i
  {
    if i < j {
      var next := if word[i] == '{' then d + 1 else if word[i] == '}' then d - 1 else d;
      MatchedSkipped(word, i + 1, j, next, start);
    }
  }

  lemma BracedShape(p: string, inner: string, s: string)
    ensures var word, close := Braced(p, inner, s), |p| + 1 + |inner|;
            && close < |word| && word[..|p|] == p && word[|p|] == '{' && word[|p| + 1..close] == inner
            && word[close] == '}' && word[close + 1..] == s
  {
  }

  lemma FindsPair(p: string, inner: string, s: string)
    requires Plain(p) && IsMatched(inner, true)
    ensures FindPair(Braced(p, inner, s), 0, 0, 0) == Some((|p|, |p| + 1 + |inner|))
  {
    var word, close := Braced(p, inner, s), |p| + 1 + |inner|;
    BracedShape(p, inner, s);
    assert forall k :: 0 <= k < |p| ==> word[k] == word[..|p|][k] == p[k];
    PlainSkipped(word, 0, |p|, 0, 0);
    InnerIsMatched(p, inner, s);
    PairFrom(word, |p|, close);
  }

  lemma InnerIsMatched(p: string, inner: string, s: string)
    requires IsMatched(inner, true)
    ensures Matched(Braced(p, inner, s), |p| + 1, |p| + 1 + |inner|, 0, true)
  {
    var word := Braced(p, inner, s);
    forall k | 0 <= k < |inner| ensures word[|p| + 1 + k] == inner[k] { }
    MatchedShift(inner, 0, word, |p| + 1, 0, true);
  }

  lemma PairFrom(word: string, open: nat, close: nat)
    requires open < close < |word| && word[open] == '{' && word[close] == '}' && Matched(word, open + 1, close, 0, true)
    requires open == 0 || word[open - 1] != '\\'
    ensures FindPair(word, open, 0, 0) == Some((open, close))
  {
    assert FindPair(word, open, 0, 0) == FindPair(word, open + 1, 1, open);
    MatchedSkipped(word, open + 1, close, 0, open);
    MatchedEnds(word, open + 1, close, 0);
  }

  /** Matched text does not end in a backslash. */
  lemma {:induction false} MatchedEnds(word: string, i: nat, j: nat, d: nat)
    requires i <= j <= |word| && Matched(word, i, j, d, true) && (i == 0 || word[i - 1] != '\\')
    ensures j == 0 || word[j - 1] != '\\'
    decreases j - i
  {
    if i < j { MatchedEnds(word, i + 1, j, if word[i] == '{' then d + 1 else if word[i] == '}' then d - 1 else d); }
  }

  lemma {:induction false} AllOfIsEach(f: Frame, items: seq<string>, bound: nat)
    requires Shrinks(f, items, bound)
    ensures AllOf(f, items, bound) == EachWord(f.prefix, items, f.suffix)
    decreases |items|
  {
    if items != [] { AllOfIsEach(f, items[1..], bound); }
  }

  lemma AllOfBraced(p: string, inner: string, s: string, items: seq<string>)
    requires Plain(p) && IsMatched(inner, true) && Choices(inner) == Some(items)
    ensures All(Braced(p, inner, s)) == EachWord(p, items, s)
  {
    FindsPair(p, inner, s);
    BracedShape(p, inner, s);
    AllOfFound(Braced(p, inner, s), p, inner, s, items);
  }

  lemma AllOfFound(word: string, p: string, inner: string, s: string, items: seq<string>)
    requires var close := |p| + 1 + |inner|;
             && FindPair(word, 0, 0, 0) == Some((|p|, close))
             && word[..|p|] == p && word[|p| + 1..close] == inner && word[close + 1..] == s
    requires Choices(inner) == Some(items)
    ensures All(word) == EachWord(p, items, s)
  {
    AllOfFramed(word, |p|, |p| + 1 + |inner|, Frame(p, s), items);
  }

  lemma AllOfFramed(word: string, start: nat, end: nat, f: Frame, items: seq<string>)
    requires FindPair(word, 0, 0, 0) == Some((start, end)) && Choices(word[start + 1..end]) == Some(items)
    requires FrameOf(word, start, end) == f
    ensures All(word) == EachWord(f.prefix, items, f.suffix)
  {
    AllOfPair(word, start, end, items);
    AllOfIsEach(f, items, Braces(word));
  }

  lemma AllOfPair(word: string, start: nat, end: nat, items: seq<string>)
    requires FindPair(word, 0, 0, 0) == Some((start, end)) && Choices(word[start + 1..end]) == Some(items)
    ensures Shrinks(FrameOf(word, start, end), items, Braces(word))
    ensures All(word) == AllOf(FrameOf(word, start, end), items, Braces(word))
  {
    ChoicesShrink(word, start, end);
  }

  // ----- comma lists -----

  function Commas(items: seq<string>): (s: string) {
    if items == [] then "" else if |items| == 1 then items[0] else items[0] + ("," + Commas(items[1..]))
  }

  lemma {:induction false} PieceSkipped(inner: string, i: nat, j: nat, d: nat, start: nat)
    requires start <= i <= j <= |inner| && Matched(inner, i, j, d, false)
    ensures Pieces(inner, i, d, start) == Pieces(inner, j, 0, start)
    decreases j - i
  {
    if i < j {
      PieceSkipped(inner, i + 1, j, if inner[i] == '{' then d + 1 else if inner[i] == '}' then d - 1 else d, start);
    }
  }

  predicate AllItems(items: seq<string>) { forall k :: 0 <= k < |items| ==> IsMatched(items[k], false) }

  lemma {:induction false} PiecesAreItems(inner: string, i: nat, items: seq<string>)
    requires i <= |inner| && inner[i..] == Commas(items) && items != [] && AllItems(items)
    ensures Pieces(inner, i, 0, i) == items
    decreases |items|
  {
    var first, j := items[0], i + |items[0]|;
    FirstItem(inner, i, items);
    PieceSkipped(inner, i, j, 0, i);
    if |items| > 1 {
      assert inner[j + 1..] == Commas(items[1..]);
      PiecesAreItems(inner, j + 1, items[1..]);
      assert items == [first] + items[1..];
    }
  }

  lemma FirstItem(inner: string, i: nat, items: seq<string>)
    requires i <= |inner| && inner[i..] == Commas(items) && items != [] && IsMatched(items[0], false)
    ensures var j := i + |items[0]|;
            && j <= |inner| && inner[i..j] == items[0] && Matched(inner, i, j, 0, false)
            && if |items| == 1 then j == |inner|
               else j < |inner| && inner[j] == ',' && inner[j + 1..] == Commas(items[1..])
  {
    var first, j := items[0], i + |items[0]|;
    assert inner[i..][..|first|] == first;
    assert inner[i..j] == first;
    forall k | 0 <= k < |first| ensures inner[i + k] == first[k] { assert inner[i..j][k] == first[k]; }
    MatchedShift(first, 0, inner, i, 0, false);
    if |items| > 1 {
      var tail := inner[i..][|first|..];
      assert tail == "," + Commas(items[1..]) && tail == inner[j..];
      assert tail[0] == ',' && tail[1..] == Commas(items[1..]) && tail[1..] == inner[j + 1..];
    }
  }

  lemma {:induction false} DigitsOnly(s: string)
    requires DigitsValue(s).Some?
    ensures forall i :: 0 <= i < |s| ==> IsDigit(s[i])
    decreases |s|
  {
    if s != [] {
      DigitsOnly(s[..|s| - 1]);
      assert forall i :: 0 <= i < |s| - 1 ==> s[i] == s[..|s| - 1][i];
    }
  }

  lemma NumbersHaveNoComma(s: string)
    requires ParseI64(s).Some?
    ensures ',' !in s && '.' !in s && Plain(s)
  {
    var body := if s[0] == '-' || s[0] == '+' then s[1..] else s;
    DigitsOnly(body);
    forall i | 0 <= i < |s| ensures IsDigit(s[i]) || s[i] == '-' || s[i] == '+' {
      if |body| < |s| && i > 0 { assert s[i] == body[i - 1]; }
    }
  }

  lemma CommaIsNoRange(inner: string)
    requires ',' in inner
    ensures ReadRange(inner).None?
  {
    if ReadRange(inner).Some? {
      var parts := RangeParts(inner);
      NumbersHaveNoComma(parts[0]);
      NumbersHaveNoComma(parts[1]);
      if |parts| == 3 { NumbersHaveNoComma(parts[2]); }
      PartsCover(inner);
    }
  }

  lemma PartsCover(inner: string)
    requires |RangeParts(inner)| > 1 && ',' in inner
    ensures var parts := RangeParts(inner); ',' in parts[0] || ',' in parts[1] || (|parts| == 3 && ',' in parts[2])
  {
    var i := Dots(inner, 0);
    var rest := inner[i + 2..];
    var j := Dots(rest, 0);
    DotsAreDots(inner, 0);
    DotsAreDots(rest, 0);
    EitherSide(inner, i);
    if ',' !in inner[..i] && j < |rest| { EitherSide(rest, j); }
  }

  lemma EitherSide(s: string, i: nat)
    requires i + 2 <= |s| && s[i] == '.' && s[i + 1] == '.' && ',' in s
    ensures ',' in s[..i] || ',' in s[i + 2..]
  {
    var k :| 0 <= k < |s| && s[k] == ',';
    if k < i { assert s[..i][k] == ','; } else { assert s[i + 2..][k - i - 2] == ','; }
  }

  lemma {:induction false} DotsAreDots(s: string, i: nat)
    requires i <= |s|
    ensures var r := Dots(s, i); r < |s| ==> s[r] == '.' && s[r + 1] == '.'
    decreases |s| - i
  {
    if i + 2 <= |s| && !(s[i] == '.' && s[i + 1] == '.') { DotsAreDots(s, i + 1); }
  }

  lemma {:induction false} CommasMatch(items: seq<string>)
    requires AllItems(items)
    ensures IsMatched(Commas(items), true) && (|items| > 1 ==> ',' in Commas(items))
    decreases |items|
  {
    if items != [] {
      var first, t := items[0], Commas(items);
      MatchedWeakens(first, 0, |first|, 0);
      if |items| > 1 {
        CommasMatch(items[1..]);
        CommaJoins(first, Commas(items[1..]), t);
      }
    }
  }

  lemma CommaJoins(first: string, rest: string, t: string)
    requires t == first + ("," + rest) && IsMatched(first, true) && IsMatched(rest, true)
    ensures IsMatched(t, true) && ',' in t
  {
    MatchedShift(first, 0, t, 0, 0, true);
    MatchedShift(rest, 0, t, |first| + 1, 0, true);
    assert t[|first|] == ',';
    MatchedJoin(t, 0, |first|, |t|, 0);
  }

  /** A comma list, nested lists in its items included: the word around each item, expanded in turn. */
  lemma CommaWords(p: string, items: seq<string>, s: string)
    requires Plain(p) && |items| > 1 && AllItems(items)
    ensures All(Braced(p, Commas(items), s)) == EachWord(p, items, s)
  {
    var inner := Commas(items);
    CommasMatch(items);
    CommaIsNoRange(inner);
    assert inner[0..] == inner;
    PiecesAreItems(inner, 0, items);
    AllOfBraced(p, inner, s, items);
  }

  // ----- ranges -----

  lemma {:induction false} DotsBehind(s: string, i: nat, j: nat)
    requires i <= j && j + 2 <= |s| && s[j] == '.' && s[j + 1] == '.' && forall k :: i <= k < j ==> s[k] != '.'
    ensures Dots(s, i) == j
    decreases j - i
  {
    if i < j { DotsBehind(s, i + 1, j); }
  }

  lemma {:induction false} NoDots(s: string, i: nat)
    requires i <= |s| && forall k :: i <= k < |s| ==> s[k] != '.'
    ensures Dots(s, i) == |s|
    decreases |s| - i
  {
    if i < |s| { NoDots(s, i + 1); }
  }

  lemma PartsOfRange(x: string, y: string)
    requires '.' !in x && '.' !in y
    ensures RangeParts(x + (".." + y)) == [x, y]
  {
    var inner := x + (".." + y);
    DotsBehind(inner, 0, |x|);
    assert inner[..|x|] == x && inner[|x| + 2..] == y;
    NoDots(y, 0);
  }

  /** The numbers from `a` to `b`, up or down. */
  function Through(a: int, b: int): (r: seq<int>)
    ensures |r| == Abs(b - a) + 1
    ensures forall k :: 0 <= k < |r| ==> r[k] == if a <= b then a + k else a - k
  {
    seq(Abs(b - a) + 1, k => if a <= b then a + k else a - k)
  }

  lemma ValuesThrough(a: I64, b: I64)
    ensures Values(a, b, if a <= b then 1 else -1) == Through(a, b)
  {
    var step, n := if a <= b then 1 else -1, Abs(b - a) + 1;
    var values := Values(a, b, step);
    ValuesAreTheProgression(a, b, step, n);
    ValuesAreTheProgression(a, b, step, n - 1);
    forall k: nat | k < n ensures k < |values| && values[k] == Through(a, b)[k] {
      ValuesAreTheProgression(a, b, step, k);
    }
  }

  /** A number as a range writes it: with a leading zero in a bound, filled up to the longer bound. */
  function Written(n: int, x: string, y: string): (r: string) {
    var width := if |x| > |y| then |x| else |y|;
    var filled := (|x| > 1 && x[0] == '0') || (|y| > 1 && y[0] == '0');
    (if filled && |Show(n)| < width then seq(width - |Show(n)|, _ => '0') else "") + Show(n)
  }

  function AllWritten(ns: seq<int>, x: string, y: string): (r: seq<string>)
    ensures |r| == |ns|
  {
    seq(|ns|, k requires 0 <= k < |ns| => Written(ns[k], x, y))
  }

  lemma {:induction false} ItemsAreWritten(ns: seq<int>, x: string, y: string)
    ensures Items(ns, if |x| > |y| then |x| else |y|, ZeroPadded(x) || ZeroPadded(y)) == AllWritten(ns, x, y)
    decreases |ns|
  {
    if ns != [] {
      ItemsAreWritten(ns[1..], x, y);
      assert "" + Show(ns[0]) == Show(ns[0]);
      assert AllWritten(ns, x, y) == [Written(ns[0], x, y)] + AllWritten(ns[1..], x, y);
    }
  }

  lemma RangeChoices(x: string, y: string)
    requires ParseI64(x).Some? && ParseI64(y).Some?
    ensures Choices(x + (".." + y)) == Some(AllWritten(Through(ParseI64(x).value, ParseI64(y).value), x, y))
  {
    var a, b := ParseI64(x).value, ParseI64(y).value;
    NumbersHaveNoComma(x);
    NumbersHaveNoComma(y);
    PartsOfRange(x, y);
    ValuesThrough(a, b);
    ItemsAreWritten(Through(a, b), x, y);
  }

  /** A range: the word around each number from one bound to the other, upwards or downwards. */
  lemma RangeWords(p: string, x: string, y: string, s: string)
    requires Plain(p) && ParseI64(x).Some? && ParseI64(y).Some?
    ensures var numbers := Through(ParseI64(x).value, ParseI64(y).value);
            All(Braced(p, x + (".." + y), s)) == EachWord(p, AllWritten(numbers, x, y), s)
  {
    NumbersHaveNoComma(x);
    NumbersHaveNoComma(y);
    RangeChoices(x, y);
    PlainMatches(x + (".." + y), 0, true);
    AllOfBraced(p, x + (".." + y), s, AllWritten(Through(ParseI64(x).value, ParseI64(y).value), x, y));
  }

  lemma PartsOfSteps(x: string, y: string, z: string)
    requires '.' !in x && '.' !in y && '.' !in z
    ensures RangeParts(x + (".." + (y + (".." + z)))) == [x, y, z]
  {
    var rest := y + (".." + z);
    var inner := x + (".." + rest);
    DotsBehind(inner, 0, |x|);
    assert inner[..|x|] == x && inner[|x| + 2..] == rest;
    DotsBehind(rest, 0, |y|);
    assert rest[..|y|] == y && rest[|y| + 2..] == z;
  }

  /** The numbers from `a` by steps of `c`, as long as they do not pass `b`. */
  ghost predicate StepsTo(ns: seq<int>, a: int, b: int, c: int) {
    && (forall k: nat :: k < |ns| <==> if c > 0 then a + k * c <= b else a + k * c >= b)
    && (forall k: nat :: k < |ns| ==> ns[k] == a + k * c)
  }

  lemma OnePiece(inner: string)
    requires Plain(inner) && ',' !in inner
    ensures |Pieces(inner, 0, 0, 0)| == 1
  {
    PlainMatches(inner, 0, false);
    PieceSkipped(inner, 0, |inner|, 0, 0);
  }

  lemma SteppedRange(x: string, y: string, z: string)
    requires ParseI64(x).Some? && ParseI64(y).Some? && ParseI64(z).Some?
    ensures ReadRange(x + (".." + (y + (".." + z)))) ==
            if ParseI64(z).value == 0 then None
            else Some(Range(ParseI64(x).value, ParseI64(y).value, ParseI64(z).value,
                            if |x| > |y| then |x| else |y|, ZeroPadded(x) || ZeroPadded(y)))
    ensures |Pieces(x + (".." + (y + (".." + z))), 0, 0, 0)| == 1
  {
    NumbersHaveNoComma(x);
    NumbersHaveNoComma(y);
    NumbersHaveNoComma(z);
    PartsOfSteps(x, y, z);
    PlainSteps(x, y, z);
    OnePiece(x + (".." + (y + (".." + z))));
  }

  lemma PlainSteps(x: string, y: string, z: string)
    requires Plain(x) && Plain(y) && Plain(z) && ',' !in x && ',' !in y && ',' !in z
    ensures Plain(x + (".." + (y + (".." + z)))) && ',' !in x + (".." + (y + (".." + z)))
  {
  }

  lemma ValuesStep(a: I64, b: I64, c: I64)
    requires c != 0
    ensures StepsTo(Values(a, b, c), a, b, c)
  {
    var ns := Values(a, b, c);
    forall k: nat
      ensures k < |ns| <==> if c > 0 then a + k * c <= b else a + k * c >= b
      ensures k < |ns| ==> ns[k] == a + k * c
    {
      ValuesAreTheProgression(a, b, c, k);
    }
  }

  /** With an explicit step, which may be negative but not zero; a step that leads away gives no choices. */
  lemma SteppedChoices(x: string, y: string, z: string) returns (ns: seq<int>)
    requires ParseI64(x).Some? && ParseI64(y).Some? && ParseI64(z).Some?
    ensures ParseI64(z).value != 0 ==> StepsTo(ns, ParseI64(x).value, ParseI64(y).value, ParseI64(z).value)
    ensures Choices(x + (".." + (y + (".." + z)))) ==
            if ParseI64(z).value != 0 && ns != [] then Some(AllWritten(ns, x, y)) else None
  {
    var a, b, c := ParseI64(x).value, ParseI64(y).value, ParseI64(z).value;
    SteppedRange(x, y, z);
    ns := [];
    if c != 0 {
      ns := Values(a, b, c);
      ItemsAreWritten(ns, x, y);
      ValuesStep(a, b, c);
    }
  }

  // ----- words without braces -----

  /** A word without an opening brace is its own expansion, so plain parts give plain words. */
  lemma PlainWordsStay(word: string)
    requires Plain(word)
    ensures All(word) == [word]
  {
    PlainSkipped(word, 0, |word|, 0, 0);
  }

  /** An escaped brace opens nothing. */
  lemma EscapedBracesStay(word: string)
    requires forall i :: 0 <= i < |word| && word[i] == '{' ==> i > 0 && word[i - 1] == '\\'
    ensures All(word) == [word]
  {
    NothingOpens(word, 0);
  }

  lemma {:induction false} NothingOpens(word: string, i: nat)
    requires i <= |word| && forall k :: i <= k < |word| && word[k] == '{' ==> k > 0 && word[k - 1] == '\\'
    ensures FindPair(word, i, 0, 0).None?
    decreases |word| - i
  {
    if i < |word| { NothingOpens(word, i + 1); }
  }

  lemma {:induction false} PlainListIsLiteral(p: string, items: seq<string>, s: string)
    requires Plain(p) && Plain(s) && forall k :: 0 <= k < |items| ==> Plain(items[k])
    ensures |EachWord(p, items, s)| == |items|
    ensures forall k :: 0 <= k < |items| ==> EachWord(p, items, s)[k] == p + items[k] + s
    decreases |items|
  {
    if items != [] {
      PlainWordsStay(p + items[0] + s);
      PlainListIsLiteral(p, items[1..], s);
    }
  }
}
