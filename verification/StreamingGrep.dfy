/**
 * The streaming `grep` stage: a reader that sees one line at a time, and the
 * windows around selected lines that it must show.
 */
module StreamingGrep {
  import opened Wrappers

  datatype Flags = Flags(countOnly: bool, filesOnly: bool, quiet: bool,
                         before: nat, after: nat, maxCount: Option<nat>)

  predicate ShowsLines(f: Flags) { !f.countOnly && !f.filesOnly && !f.quiet }

  /** What is written: a line with its number, a `--`, or the count. */
  datatype Event = Line(num: nat, text: string) | Separator | Summary(count: nat)

  // ----- what must be shown -----

  /** A line is not shown, shown, or shown behind a `--`. */
  datatype Mark = Hidden | Plain | Opening

  function RenderOne(m: Mark, line: Event): (r: seq<Event>) {
    match m
    case Hidden => []
    case Plain => [line]
    case Opening => [Separator, line]
  }

  datatype Job = Job(lines: seq<string>, test: string -> bool, flags: Flags) {
    predicate Selected(k: nat) { k < |lines| && test(lines[k]) }

    /** Line `k` lies in the window of one of the first `n` lines. */
    predicate Near(k: nat, n: nat) {
      exists m: nat :: m < n && Selected(m) && m <= k + flags.before && k <= m + flags.after
    }

    /** The first line after every after-context of the first `n` lines. */
    function Clear(n: nat): (c: nat)
      requires n <= |lines|
    {
      if n == 0 then 0
      else if Selected(n - 1) then n + flags.after
      else Clear(n - 1)
    }

    function Matches(n: nat): (c: nat)
      requires n <= |lines|
    {
      if n == 0 then 0 else Matches(n - 1) + if Selected(n - 1) then 1 else 0
    }

    /** The lines from `i` to `n`. */
    function Block(i: nat, n: nat): (r: seq<Event>)
      requires i <= n <= |lines|
      decreases n
    {
      if i == n then [] else Block(i, n - 1) + [Line(n, lines[n - 1])]
    }

    /** Where the before-context of a match at `n` starts. */
    function From(n: nat): (f: nat)
      requires n <= |lines|
      ensures f <= n
    {
      var c := Clear(n);
      var b := if n < flags.before then 0 else n - flags.before;
      if c >= n then n else if b < c then c else b
    }

    lemma {:induction false} ClearBounds(n: nat)
      requires n <= |lines|
      ensures forall m: nat :: m < n && Selected(m) ==> m + flags.after < Clear(n)
      ensures Clear(n) == 0 || exists m: nat :: m < n && Selected(m) && Clear(n) == m + flags.after + 1
      decreases n
    {
      if n > 0 { ClearBounds(n - 1); }
    }

    /** Enough lines are selected: the last of the first `n` lines reached the maximum. */
    predicate Enough(n: nat)
      requires n <= |lines|
    {
      n > 0 && Selected(n - 1) && flags.maxCount.Some? && Matches(n) >= flags.maxCount.value
    }

    /** How many lines are read: up to the first that makes enough, or all. */
    function StopFrom(n: nat): (s: nat)
      requires n <= |lines|
      ensures n <= s <= |lines|
      decreases |lines| - n
    {
      if n == |lines| || Enough(n) then n else StopFrom(n + 1)
    }

    function Stop(): (s: nat)
      ensures s <= |lines|
    {
      StopFrom(0)
    }

    /** What is written where no lines are: the count, if asked for and not cut short in file-name mode. */
    function Tally(n: nat): (r: seq<Event>)
      requires n <= |lines|
    {
      if flags.countOnly && !flags.quiet && !(flags.filesOnly && Enough(n)) then [Summary(Matches(n))] else []
    }

    lemma {:induction false} StopIsFirst(n: nat)
      requires n <= |lines|
      ensures var s := StopFrom(n); (s == |lines| || Enough(s)) && forall k: nat :: n <= k < s ==> !Enough(k)
      decreases |lines| - n
    {
      if n < |lines| && !Enough(n) { StopIsFirst(n + 1); }
    }

    /**
     * Line `k` is the first of the lines held back before the next selected
     * line, adjacent to lines already shown or not, and a line was selected before.
     */
    predicate Opens(k: nat, n: nat)
      requires n <= |lines|
    {
      && (exists m: nat :: m < k && Selected(m))
      && exists m: nat :: k < m < n && Selected(m) && k == From(m)
    }

    function MarkOf(k: nat, n: nat): (m: Mark)
      requires n <= |lines|
    {
      if !Near(k, n) then Hidden else if Opens(k, n) then Opening else Plain
    }

    /** How each line is treated, for the windows of the first `n` lines. */
    ghost function Marks(n: nat): (r: seq<Mark>)
      requires n <= |lines|
    {
      seq(|lines|, k requires 0 <= k < |lines| => MarkOf(k, n))
    }

    /** The output for lines with given marks: shown in order, `--` before each that opens a group. */
    function Render(marks: seq<Mark>, i: nat): (r: seq<Event>)
      requires i <= |lines| == |marks|
    {
      if i == 0 then [] else Render(marks, i - 1) + RenderOne(marks[i - 1], Line(i, lines[i - 1]))
    }

    /** The whole output for the lines below `i`: the windows of the first `n` lines, with the separators. */
    ghost function Full(i: nat, n: nat): (r: seq<Event>)
      requires i <= |lines| && n <= |lines|
    {
      Render(Marks(n), i)
    }

    lemma {:induction false} RenderAgrees(marks: seq<Mark>, marks': seq<Mark>, i: nat)
      requires i <= |lines| == |marks| == |marks'| && forall k | 0 <= k < i :: marks[k] == marks'[k]
      ensures Render(marks, i) == Render(marks', i)
      decreases i
    {
      if i > 0 { RenderAgrees(marks, marks', i - 1); }
    }

    lemma {:induction false} RenderNone(marks: seq<Mark>, i: nat, j: nat)
      requires i <= j <= |lines| == |marks| && forall k | i <= k < j :: marks[k] == Hidden
      ensures Render(marks, j) == Render(marks, i)
      decreases j
    {
      if i < j { RenderNone(marks, i, j - 1); }
    }

    lemma {:induction false} RenderAll(marks: seq<Mark>, i: nat, j: nat)
      requires i <= j <= |lines| == |marks| && forall k | i <= k < j :: marks[k] == Plain
      ensures Render(marks, j) == Render(marks, i) + Block(i, j)
      decreases j
    {
      if i < j {
        RenderAll(marks, i, j - 1);
        Regroup(Render(marks, i), Block(i, j - 1), [Line(j, lines[j - 1])]);
      }
    }

    lemma {:induction false} BlockHead(i: nat, j: nat)
      requires i < j <= |lines|
      ensures Block(i, j) == [Line(i + 1, lines[i])] + Block(i + 1, j)
      decreases j
    {
      if i + 1 < j {
        BlockHead(i, j - 1);
        Regroup([Line(i + 1, lines[i])], Block(i + 1, j - 1), [Line(j, lines[j - 1])]);
      }
    }

    /** A row of shown lines, the first of which may open a group. */
    lemma RenderGroup(marks: seq<Mark>, i: nat, j: nat)
      requires i < j <= |lines| == |marks| && marks[i] != Hidden && forall k | i < k < j :: marks[k] == Plain
      ensures Render(marks, j) ==
              Render(marks, i) + ((if marks[i] == Opening then [Separator] else []) + Block(i, j))
    {
      var line, sep := [Line(i + 1, lines[i])], if marks[i] == Opening then [Separator] else [];
      var here, rest := Render(marks, i), Block(i + 1, j);
      RenderAll(marks, i + 1, j);
      BlockHead(i, j);
      calc {
        Render(marks, j);
        here + RenderOne(marks[i], Line(i + 1, lines[i])) + rest;
        { assert RenderOne(marks[i], Line(i + 1, lines[i])) == sep + line; }
        here + (sep + line) + rest;
        { Regroup(here, sep + line, rest); Regroup(sep, line, rest); }
        here + (sep + (line + rest));
      }
    }

    /** The lines below `i` that are shown. */
    function Rows(marks: seq<Mark>, i: nat): (r: seq<Event>)
      requires i <= |lines| == |marks|
    {
      if i == 0 then [] else Rows(marks, i - 1) + if marks[i - 1] == Hidden then [] else [Line(i, lines[i - 1])]
    }

    /** The lines below `i` in the window of one of the first `n` lines, in order. */
    ghost function Window(i: nat, n: nat): (r: seq<Event>)
      requires i <= |lines| && n <= |lines|
    {
      Rows(Marks(n), i)
    }

    lemma {:induction false} RenderedRows(marks: seq<Mark>, i: nat)
      requires i <= |lines| == |marks|
      ensures LinesOf(Render(marks, i)) == Rows(marks, i)
      decreases i
    {
      if i > 0 {
        var out, line := Render(marks, i - 1), Line(i, lines[i - 1]);
        RenderedRows(marks, i - 1);
        RenderedLines(out, marks[i - 1], line);
        assert Render(marks, i) == out + RenderOne(marks[i - 1], line);
      }
    }

    /** Without the separators the output is the lines of the windows. */
    lemma FullLines(i: nat, n: nat)
      requires i <= |lines| && n <= |lines|
      ensures LinesOf(Full(i, n)) == Window(i, n)
    {
      RenderedRows(Marks(n), i);
    }

    /** A line that is not selected is shown now exactly while an after-context lasts. */
    lemma FullSkips(n: nat)
      requires n < |lines| && !Selected(n)
      ensures Full(n + 1, n + 1) == Full(n, n) + if n < Clear(n) then [Line(n + 1, lines[n])] else []
    {
      forall k: nat | k < n ensures MarkOf(k, n) == MarkOf(k, n + 1) { SkippedChangesNothing(k, n); }
      RenderAgrees(Marks(n), Marks(n + 1), n);
      ClearBounds(n);
      assert Near(n, n + 1) <==> n < Clear(n);
      assert !Opens(n, n + 1);
    }

    lemma AfterSkip(n: nat)
      requires n < |lines| && !Selected(n)
      ensures Clear(n + 1) == Clear(n) && Matches(n + 1) == Matches(n)
      ensures n < Clear(n) ==> Block(From(n), n) == [] == Block(From(n + 1), n + 1)
    {
    }

    lemma SkippedChangesNothing(k: nat, n: nat)
      requires k < n < |lines| && !Selected(n)
      ensures MarkOf(k, n) == MarkOf(k, n + 1)
    {
      assert Near(k, n) <==> Near(k, n + 1);
      assert Opens(k, n) <==> Opens(k, n + 1);
    }

    /** The lines held back before line `n`, behind `--` if a line was selected before. */
    function Flushed(n: nat): (r: seq<Event>)
      requires n <= |lines|
    {
      if From(n) == n then [] else (if Matches(n) > 0 then [Separator] else []) + Block(From(n), n)
    }

    /** What a selected line adds: the lines held back, and itself. */
    lemma FullGrows(n: nat)
      requires n < |lines| && Selected(n)
      ensures Full(n + 1, n + 1) == Full(n, n) + Flushed(n) + [Line(n + 1, lines[n])]
    {
      var f, n1 := From(n), n + 1;
      forall k: nat | k < f ensures MarkOf(k, n) == MarkOf(k, n1) { BelowIsSettled(k, n); }
      RenderAgrees(Marks(n), Marks(n1), f);
      forall k: nat | f <= k < n
        ensures MarkOf(k, n) == Hidden && MarkOf(k, n1) == if k == f && Matches(n) > 0 then Opening else Plain
      {
        HeldBack(k, n);
        OpensAtFirst(k, n);
      }
      RenderNone(Marks(n), f, n);
      if f < n { RenderGroup(Marks(n1), f, n); }
      SelectedIsPlain(n);
    }

    lemma SelectedIsPlain(n: nat)
      requires n < |lines| && Selected(n)
      ensures MarkOf(n, n + 1) == Plain
    {
      assert Selected(n) && n <= n + flags.before;
      assert Near(n, n + 1) && !Opens(n, n + 1);
    }

    /** Lines before those held back are decided already. */
    lemma BelowIsSettled(k: nat, n: nat)
      requires n < |lines| && Selected(n) && k < From(n)
      ensures MarkOf(k, n) == MarkOf(k, n + 1)
    {
      ClearBounds(n);
      assert Near(k, n) <==> Near(k, n + 1);
      assert Opens(k, n) <==> Opens(k, n + 1);
    }

    lemma HeldBack(k: nat, n: nat)
      requires n < |lines| && Selected(n) && From(n) <= k < n
      ensures !Near(k, n) && Near(k, n + 1)
    {
      ClearBounds(n);
      assert Clear(n) <= k;
      assert Selected(n) && n <= k + flags.before;
    }

    lemma OpensAtFirst(k: nat, n: nat)
      requires n < |lines| && Selected(n) && From(n) <= k < n
      ensures Opens(k, n + 1) <==> k == From(n) && Matches(n) > 0
    {
      ClearBounds(n);
      MatchesMeansSelected(this, n);
      forall m: nat | m < n && Selected(m) ensures m < From(n) { assert m + flags.after < Clear(n); }
      if Matches(n) > 0 {
        var m: nat :| m < n && Selected(m);
        assert m < From(n) <= k;
      }
      if k == From(n) { assert k < n < n + 1 && Selected(n); }
    }

    predicate InWindow(e: Event, i: nat, n: nat)
      requires i <= |lines|
    {
      e.Line? && 1 <= e.num <= i && Near(e.num - 1, n) && e.text == lines[e.num - 1]
    }

    lemma {:induction false} RowsAreExact(marks: seq<Mark>, e: Event, i: nat)
      requires i <= |lines| == |marks|
      ensures e in Rows(marks, i) <==>
              e.Line? && 1 <= e.num <= i && marks[e.num - 1] != Hidden && e.text == lines[e.num - 1]
      decreases i
    {
      if i > 0 {
        RowsAreExact(marks, e, i - 1);
        var tail := if marks[i - 1] == Hidden then [] else [Line(i, lines[i - 1])];
        assert e in Rows(marks, i) <==> e in Rows(marks, i - 1) || e in tail;
      }
    }

    /** Shown are exactly the lines in some window ... */
    lemma WindowIsExact(e: Event, i: nat, n: nat)
      requires i <= |lines| && n <= |lines|
      ensures e in Window(i, n) <==> InWindow(e, i, n)
    {
      RowsAreExact(Marks(n), e, i);
    }

    lemma {:induction false} RowsIncrease(marks: seq<Mark>, i: nat, a: nat, b: nat)
      requires i <= |lines| == |marks| && a < b < |Rows(marks, i)|
      ensures var w := Rows(marks, i); w[a].Line? && w[b].Line? && w[a].num < w[b].num
      decreases i
    {
      var w, all := Rows(marks, i - 1), Rows(marks, i);
      if b < |w| {
        RowsIncrease(marks, i - 1, a, b);
      } else {
        assert all[a] == w[a] && w[a] in w;
        RowsAreExact(marks, w[a], i - 1);
      }
    }

    /** ... each once, in input order. */
    lemma WindowIncreases(i: nat, n: nat, a: nat, b: nat)
      requires i <= |lines| && n <= |lines| && a < b < |Window(i, n)|
      ensures var w := Window(i, n); w[a].Line? && w[b].Line? && w[a].num < w[b].num
    {
      RowsIncrease(Marks(n), i, a, b);
    }

    /** At `x`: a `--` is followed by a line, and a line is preceded by `--` exactly if it is marked so. */
    predicate Separated(out: seq<Event>, marks: seq<Mark>, i: nat, x: nat)
      requires x < |out| && i <= |marks|
    {
      && (out[x].Separator? ==> x + 1 < |out| && out[x + 1].Line?)
      && (out[x].Line? ==>
            && 1 <= out[x].num <= i
            && (marks[out[x].num - 1] == Opening <==> x > 0 && out[x - 1].Separator?))
    }

    lemma {:induction false} SeparatorsOpenGroups(marks: seq<Mark>, i: nat, x: nat)
      requires i <= |lines| == |marks| && x < |Render(marks, i)|
      ensures Separated(Render(marks, i), marks, i, x)
      decreases i
    {
      var before, m := Render(marks, i - 1), marks[i - 1];
      var line := Line(i, lines[i - 1]);
      if x < |before| {
        SeparatorsOpenGroups(marks, i - 1, x);
        StaysSeparated(before, RenderOne(m, line), marks, i, x);
      } else {
        if 0 < x == |before| { SeparatorsOpenGroups(marks, i - 1, x - 1); }
        NewIsSeparated(before, m, line, marks, i, x);
      }
    }

    lemma StaysSeparated(before: seq<Event>, more: seq<Event>, marks: seq<Mark>, i: nat, x: nat)
      requires 0 < i <= |marks| && x < |before| && Separated(before, marks, i - 1, x)
      ensures Separated(before + more, marks, i, x)
    {
      var all := before + more;
      assert all[x] == before[x] && (x > 0 ==> all[x - 1] == before[x - 1]);
    }

    lemma NewIsSeparated(before: seq<Event>, m: Mark, line: Event, marks: seq<Mark>, i: nat, x: nat)
      requires 0 < i <= |marks| && marks[i - 1] == m && line.Line? && line.num == i
      requires |before| <= x < |before| + |RenderOne(m, line)|
      requires 0 < x == |before| ==> Separated(before, marks, i - 1, x - 1)
      ensures Separated(before + RenderOne(m, line), marks, i, x)
    {
      var one := RenderOne(m, line);
      var all := before + one;
      assert all[x] == one[x - |before|];
      if x > |before| { assert all[x - 1] == one[0]; } else if x > 0 { assert all[x - 1] == before[x - 1]; }
    }

    /** In the whole output: `--` exactly before the first line held back, once a line was selected. */
    lemma SeparatorsAreExact(i: nat, n: nat, x: nat)
      requires i <= |lines| && n <= |lines| && x < |Full(i, n)|
      ensures var out := Full(i, n);
              && (out[x].Separator? ==> x + 1 < |out| && out[x + 1].Line?)
              && (out[x].Line? ==>
                    1 <= out[x].num <= i && (Opens(out[x].num - 1, n) <==> x > 0 && out[x - 1].Separator?))
    {
      SeparatorsOpenGroups(Marks(n), i, x);
      var out := Full(i, n);
      if out[x].Line? { OpensOnlyShown(out[x].num - 1, n); }
    }

    lemma OpensOnlyShown(k: nat, n: nat)
      requires n <= |lines|
      ensures Opens(k, n) ==> MarkOf(k, n) == Opening
    {
      if Opens(k, n) {
        var m: nat :| k < m < n && Selected(m) && k == From(m);
        assert m <= k + flags.before && k <= m + flags.after;
      }
    }
  }

  function LinesOf(out: seq<Event>): (r: seq<Event>) {
    if out == [] then []
    else LinesOf(out[..|out| - 1]) + if out[|out| - 1].Line? then [out[|out| - 1]] else []
  }

  lemma Regroup(a: seq<Event>, b: seq<Event>, c: seq<Event>)
    ensures a + b + c == a + (b + c)
  {
  }

  predicate AllLines(out: seq<Event>) { forall i :: 0 <= i < |out| ==> out[i].Line? }

  lemma {:induction false} LinesOfAppend(a: seq<Event>, b: seq<Event>)
    requires AllLines(b)
    ensures LinesOf(a + b) == LinesOf(a) + b
    decreases |b|
  {
    if b == [] {
      assert a + b == a;
    } else {
      var c := b[..|b| - 1];
      assert (a + b)[..|a + b| - 1] == a + c;
      LinesOfAppend(a, c);
      assert b == c + [b[|b| - 1]];
    }
  }

  lemma LinesOfSeparator(a: seq<Event>)
    ensures LinesOf(a + [Separator]) == LinesOf(a)
  {
    assert (a + [Separator])[..|a|] == a;
  }

  lemma RenderedLines(out: seq<Event>, m: Mark, line: Event)
    requires line.Line?
    ensures LinesOf(out + RenderOne(m, line)) == LinesOf(out) + if m == Hidden then [] else [line]
  {
    if m == Hidden {
      assert out + [] == out;
    } else if m == Plain {
      LinesOfAppend(out, [line]);
    } else {
      SeparatedLine(out, line);
    }
  }

  lemma SeparatedLine(out: seq<Event>, line: Event)
    requires line.Line?
    ensures LinesOf(out + [Separator, line]) == LinesOf(out) + [line]
  {
    LinesOfSeparator(out);
    LinesOfAppend(out + [Separator], [line]);
    assert out + [Separator, line] == out + [Separator] + [line];
  }

  // ----- the reader -----

  class GrepStreamReader {
    const job: Job
    /** The lines upstream will still deliver. */
    var inner: seq<string>
    var status: int
    var output: seq<Event>
    var finished: bool
    var matchCount: nat
    var found: bool
    var remainingAfter: nat
    var printedSeparator: bool
    var beforeBuf: seq<Event>
    var lineNum: nat
    var emittedSummary: bool

    /** Progress through the input, the counters and the exit status. */
    ghost predicate Counts()
      reads this
    {
      && lineNum <= |job.lines| && inner == job.lines[lineNum..]
      && matchCount == job.Matches(lineNum)
      && (found <==> matchCount > 0)
      && (found ==> status == 0)
      && (finished && !found ==> status == 1)
      && job.Stop() == job.StopFrom(lineNum)
      && (if finished then lineNum == job.Stop() else !job.Enough(lineNum))
    }

    /** In line mode, after `n` lines: what has been shown, what is held back, what is owed. */
    ghost predicate Windows(n: nat)
      reads this
      requires n <= |job.lines|
    {
      ShowsLines(job.flags) ==>
        && output == job.Full(n, n)
        && (printedSeparator <==> job.Matches(n) > 0)
        && remainingAfter == (if n < job.Clear(n) then job.Clear(n) - n else 0)
        && beforeBuf == (if job.flags.before == 0 then [] else job.Block(job.From(n), n))
    }

    /** Where no lines are shown, nothing is written before the end. */
    ghost predicate Summaries()
      reads this
      requires Counts()
    {
      !ShowsLines(job.flags) ==>
        && remainingAfter == 0 && (!finished ==> !emittedSummary)
        && output == (if finished then job.Tally(lineNum) else [])
    }

    ghost predicate Valid()
      reads this
    {
      Counts() && Windows(lineNum) && Summaries()
    }

    constructor (lines: seq<string>, test: string -> bool, flags: Flags, status: int)
      ensures Valid() && job == Job(lines, test, flags) && !finished && lineNum == 0
    {
      job, inner, this.status := Job(lines, test, flags), lines, status;
      output, finished, matchCount, found := [], false, 0, false;
      remainingAfter, printedSeparator, beforeBuf, lineNum := 0, false, [], 0;
      emittedSummary := false;
    }

    method EmitCountSummary()
      modifies this`output, this`emittedSummary
      ensures if job.flags.countOnly && !job.flags.quiet && !old(emittedSummary)
              then output == old(output) + [Summary(matchCount)] && emittedSummary
              else output == old(output) && emittedSummary == old(emittedSummary)
    {
      if job.flags.countOnly && !job.flags.quiet && !emittedSummary {
        output := output + [Summary(matchCount)];
        emittedSummary := true;
      }
    }

    /** Writes the held-back lines, behind a `--` if anything was shown before. */
    method FlushBeforeContext()
      modifies this`output, this`beforeBuf
      ensures beforeBuf == []
      ensures output == old(output) +
                        if job.flags.before == 0 || old(beforeBuf) == [] then []
                        else (if printedSeparator then [Separator] else []) + old(beforeBuf)
    {
      if job.flags.before > 0 && beforeBuf != [] {
        if printedSeparator { output := output + [Separator]; }
        output := output + beforeBuf;
      }
      beforeBuf := [];
    }

    /** After a selected line: whether it was the last one to be read. */
    method ShouldStop() returns (stop: bool)
      requires 1 <= lineNum <= |job.lines| && job.Selected(lineNum - 1) && matchCount == job.Matches(lineNum)
      ensures stop <==> job.Enough(lineNum)
    {
      stop := job.flags.maxCount.Some? && matchCount >= job.flags.maxCount.value;
    }

    method Finish()
      requires Valid() && !finished && inner == []
      modifies this`output, this`emittedSummary, this`status, this`finished
      ensures Valid() && finished
    {
      if job.flags.countOnly { assert !ShowsLines(job.flags); }
      EmitCountSummary();
      if !found { status := 1; }
      finished := true;
    }

    /** One upstream line, or the end of the input. */
    method PumpOneLine()
      requires Valid() && !finished
      modifies this
      ensures Valid()
      ensures old(lineNum) <= lineNum <= old(lineNum) + 1
      ensures finished || lineNum == old(lineNum) + 1
    {
      if inner == [] {
        Finish();
      } else {
        var line := ReadLine();
        if job.test(line) { OnMatch(line); } else { OnNonmatch(line); }
      }
    }

    method ReadLine() returns (line: string)
      requires Valid() && !finished && inner != []
      modifies this`inner, this`lineNum
      ensures HasRead(line) && lineNum == old(lineNum) + 1
    {
      line := inner[0];
      inner := inner[1..];
      lineNum := lineNum + 1;
    }

    /** The state between reading a line and acting on it. */
    ghost predicate HasRead(line: string)
      reads this
    {
      && 1 <= lineNum <= |job.lines| && inner == job.lines[lineNum..]
      && line == job.lines[lineNum - 1] && !finished
      && matchCount == job.Matches(lineNum - 1)
      && (found <==> matchCount > 0) && (found ==> status == 0)
      && job.Stop() == job.StopFrom(lineNum)
      && Windows(lineNum - 1)
      && (!ShowsLines(job.flags) ==> remainingAfter == 0 && !emittedSummary && output == [])
    }

    /** Shows the held-back lines and the selected one. */
    method ShowMatch(line: string)
      requires 1 <= lineNum <= |job.lines| && line == job.lines[lineNum - 1] && job.Selected(lineNum - 1)
      requires Windows(lineNum - 1)
      modifies this`output, this`beforeBuf, this`remainingAfter, this`printedSeparator
      ensures Windows(lineNum)
    {
      ghost var n := lineNum - 1;
      if ShowsLines(job.flags) {
        BlockIsLines(job, job.From(n), n);
        job.FullGrows(n);
      }
      FlushBeforeContext();
      assert ShowsLines(job.flags) ==> output == old(output) + job.Flushed(n);
      output := output + [Line(lineNum, line)];
      remainingAfter := job.flags.after;
      printedSeparator := true;
    }

    method OnMatch(line: string)
      requires HasRead(line) && job.Selected(lineNum - 1)
      modifies this`found, this`status, this`matchCount, this`output, this`beforeBuf,
               this`remainingAfter, this`printedSeparator, this`finished, this`emittedSummary
      ensures Valid()
    {
      CountMatch(line);
      if ShowsLines(job.flags) { OnShownMatch(line); } else { OnHiddenMatch(); }
    }

    method CountMatch(ghost line: string)
      requires HasRead(line) && job.Selected(lineNum - 1)
      modifies this`found, this`status, this`matchCount
      ensures HasCounted() && Windows(lineNum - 1)
    {
      found := true;
      status := 0;
      matchCount := matchCount + 1;
    }

    /** A selected line that is not shown; in file-name mode the count is dropped when it is the last. */
    method OnHiddenMatch()
      requires HasCounted() && !ShowsLines(job.flags)
      modifies this`output, this`emittedSummary, this`finished
      ensures Valid()
    {
      if job.flags.quiet || job.flags.filesOnly { finished := ShouldStop(); } else { StopIfEnough(); }
    }

    /** The state once a selected line has been counted. */
    ghost predicate HasCounted()
      reads this
    {
      && 1 <= lineNum <= |job.lines| && inner == job.lines[lineNum..] && job.Selected(lineNum - 1)
      && matchCount == job.Matches(lineNum) && found && status == 0 && !finished
      && job.Stop() == job.StopFrom(lineNum)
      && (!ShowsLines(job.flags) ==> remainingAfter == 0 && !emittedSummary && output == [])
    }

    method OnShownMatch(line: string)
      requires HasCounted() && line == job.lines[lineNum - 1] && ShowsLines(job.flags) && Windows(lineNum - 1)
      modifies this`output, this`beforeBuf, this`remainingAfter, this`printedSeparator,
               this`finished, this`emittedSummary
      ensures Valid()
    {
      ShowMatch(line);
      StopIfEnough();
    }

    /** After a selected line: the end of the reading, with the count if it is asked for. */
    method StopIfEnough()
      requires 1 <= lineNum <= |job.lines| && job.Selected(lineNum - 1) && matchCount == job.Matches(lineNum)
      modifies this`output, this`emittedSummary, this`finished
      ensures job.Enough(lineNum) && job.flags.countOnly && !job.flags.quiet && !old(emittedSummary) ==>
                output == old(output) + [Summary(matchCount)] && emittedSummary
      ensures !job.Enough(lineNum) || !job.flags.countOnly ==>
                output == old(output) && emittedSummary == old(emittedSummary)
      ensures finished <==> old(finished) || job.Enough(lineNum)
    {
      var stop := ShouldStop();
      if stop {
        EmitCountSummary();
        finished := true;
      }
    }

    method OnNonmatch(line: string)
      requires HasRead(line) && !job.Selected(lineNum - 1)
      modifies this`output, this`remainingAfter, this`beforeBuf
      ensures Valid()
    {
      ShowOrHold(line);
    }

    /** A line that is not selected: after-context is shown, anything else may become before-context. */
    method ShowOrHold(line: string)
      requires 1 <= lineNum <= |job.lines| && line == job.lines[lineNum - 1] && !job.Selected(lineNum - 1)
      requires Windows(lineNum - 1)
      modifies this`output, this`remainingAfter, this`beforeBuf
      ensures Windows(lineNum)
      ensures job.flags.countOnly || old(remainingAfter) == 0 ==>
                output == old(output) && remainingAfter == old(remainingAfter)
    {
      if ShowsLines(job.flags) {
        job.FullSkips(lineNum - 1);
        job.AfterSkip(lineNum - 1);
      }
      if remainingAfter > 0 && !job.flags.countOnly {
        output := output + [Line(lineNum, line)];
        remainingAfter := remainingAfter - 1;
      } else {
        if ShowsLines(job.flags) && job.flags.before > 0 { BlockSlides(job, lineNum - 1); }
        HoldBack(line);
      }
    }

    /** Keeps a line as possible before-context; the oldest leaves when the buffer is full. */
    method HoldBack(line: string)
      modifies this`beforeBuf
      ensures var held := old(beforeBuf) + [Line(lineNum, line)];
              beforeBuf == if job.flags.before == 0 then old(beforeBuf)
                           else if |held| > job.flags.before then held[1..] else held
    {
      if job.flags.before > 0 {
        beforeBuf := beforeBuf + [Line(lineNum, line)];
        if |beforeBuf| > job.flags.before { beforeBuf := beforeBuf[1..]; }
      }
    }

    /**
     * Reads to the end of the input, or to the selected line that makes enough.
     * In line mode the output is the windows of the selected lines read, with
     * the separators. Otherwise it is their number or nothing: in file-name mode
     * a count is dropped when the maximum ends the reading. In every mode the
     * status is 0 exactly if some line is selected.
     */
    method Drain()
      requires Valid()
      modifies this
      ensures Valid() && finished && lineNum == job.Stop()
      ensures status == 0 <==> exists k: nat :: job.Selected(k)
      ensures ShowsLines(job.flags) ==> output == job.Full(job.Stop(), job.Stop())
      ensures !ShowsLines(job.flags) ==>
                output == if !job.flags.countOnly || job.flags.quiet then []
                          else if job.flags.filesOnly && job.Enough(job.Stop()) then []
                          else [Summary(job.Matches(job.Stop()))]
    {
      while !finished
        invariant Valid()
        decreases |job.lines| - lineNum, !finished
      {
        PumpOneLine();
      }
      MatchesMeansSelected(job, lineNum);
    }
  }

  // ----- facts about the held-back lines -----

  lemma {:induction false} BlockIsLines(job: Job, i: nat, n: nat)
    requires i <= n <= |job.lines|
    ensures AllLines(job.Block(i, n)) && |job.Block(i, n)| == n - i
    decreases n
  {
    if i < n { BlockIsLines(job, i, n - 1); }
  }

  lemma {:induction false} BlockTail(job: Job, i: nat, n: nat)
    requires i < n <= |job.lines|
    ensures |job.Block(i, n)| == n - i && job.Block(i, n)[1..] == job.Block(i + 1, n)
    decreases n
  {
    BlockIsLines(job, i, n);
    if i + 1 < n {
      BlockTail(job, i, n - 1);
      BlockIsLines(job, i, n - 1);
    }
  }

  /** A line outside every window enters the buffer; the oldest leaves when it is full. */
  lemma BlockSlides(job: Job, n: nat)
    requires n < |job.lines| && !job.Selected(n) && job.flags.before > 0 && job.Clear(n) <= n
    ensures var held := job.Block(job.From(n), n) + [Line(n + 1, job.lines[n])];
            job.Block(job.From(n + 1), n + 1) == if |held| > job.flags.before then held[1..] else held
  {
    var f := job.From(n);
    BlockIsLines(job, f, n);
    assert job.Clear(n + 1) == job.Clear(n);
    var held := job.Block(f, n) + [Line(n + 1, job.lines[n])];
    assert held == job.Block(f, n + 1);
    if |held| > job.flags.before {
      BlockTail(job, f, n + 1);
    }
  }

  /** The count is the number of selected lines. */
  lemma {:induction false} MatchesIsTheNumber(job: Job, n: nat)
    requires n <= |job.lines|
    ensures job.Matches(n) == |set k: nat | k < n && job.Selected(k)|
    decreases n
  {
    var all := set k: nat | k < n && job.Selected(k);
    if n == 0 {
      assert all == {};
    } else {
      MatchesIsTheNumber(job, n - 1);
      var before := set k: nat | k < n - 1 && job.Selected(k);
      assert all == before + if job.Selected(n - 1) then {n - 1} else {};
    }
  }

  lemma {:induction false} MatchesMeansSelected(job: Job, n: nat)
    requires n <= |job.lines|
    ensures job.Matches(n) > 0 <==> exists k: nat :: k < n && job.Selected(k)
    decreases n
  {
    if n > 0 { MatchesMeansSelected(job, n - 1); }
  }
}
