/**
 * The `getopts` builtin: one option per call, with the position kept in shell
 * variables between calls, and the one-shot scan that the calls add up to.
 */
module Getopts {
  import opened Wrappers
  import opened Decimal

  /** What a successful call leaves in the named variable and in OPTARG. */
  datatype Event = Event(value: string, optarg: Option<string>)

  predicate Silent(optstring: string) { optstring != [] && optstring[0] == ':' }

  function IndexOf(s: string, c: char): (i: nat)
    ensures i <= |s| && (i < |s| ==> s[i] == c)
  {
    if s == [] || s[0] == c then 0 else 1 + IndexOf(s[1..], c)
  }

  predicate Known(optstring: string, c: char) { IndexOf(optstring, c) < |optstring| }

  predicate TakesArg(optstring: string, c: char) {
    var i := IndexOf(optstring, c);
    i + 1 < |optstring| && optstring[i + 1] == ':'
  }

  function Unknown(optstring: string, c: char): Event {
    Event("?", if Silent(optstring) then Some([c]) else None)
  }

  function Missing(optstring: string, c: char): Event {
    if Silent(optstring) then Event(":", Some([c])) else Event("?", None)
  }

  // ----- the one-shot scan -----

  /** Whether an argument word starts a cluster of options. */
  predicate IsCluster(a: string) { |a| > 1 && a[0] == '-' && a != "--" }

  /** All options, and the 1-based index of the first operand. */
  datatype Scanned = Scanned(events: seq<Event>, next: nat)

  function Cons(e: Event, s: Scanned): Scanned { Scanned([e] + s.events, s.next) }

  /** The scan of words the first of which has index `ind`; `--` ends it and is skipped. */
  function Scan(optstring: string, args: seq<string>, ind: nat): (r: Scanned)
    decreases |args|, 0
  {
    if args == [] then Scanned([], ind)
    else if args[0] == "--" then Scanned([], ind + 1)
    else if !IsCluster(args[0]) then Scanned([], ind)
    else ScanCluster(optstring, args[0], 1, args[1..], ind)
  }

  /** The options of cluster `a` from offset `k` on, then those of the words behind it. */
  function ScanCluster(optstring: string, a: string, k: nat, rest: seq<string>, ind: nat): (r: Scanned)
    decreases |rest|, 1, if k < |a| then |a| - k else 0
  {
    if k >= |a| then Scan(optstring, rest, ind + 1)
    else if !Known(optstring, a[k]) then Cons(Unknown(optstring, a[k]), ScanCluster(optstring, a, k + 1, rest, ind))
    else if !TakesArg(optstring, a[k]) then Cons(Event([a[k]], None), ScanCluster(optstring, a, k + 1, rest, ind))
    else if k + 1 < |a| then Cons(Event([a[k]], Some(a[k + 1..])), Scan(optstring, rest, ind + 1))
    else if rest != [] then Cons(Event([a[k]], Some(rest[0])), Scan(optstring, rest[1..], ind + 2))
    else Scanned([Missing(optstring, a[k])], ind + 1)
  }

  /** Where `c` first stands in the option string. */
  predicate Listed(optstring: string, c: char, i: nat) { i < |optstring| && optstring[i] == c && c !in optstring[..i] }

  lemma {:induction false} IndexIsFirst(s: string, c: char, i: nat)
    requires Listed(s, c, i)
    ensures IndexOf(s, c) == i
  {
    if i > 0 {
      assert s[..i] == [s[0]] + s[1..][..i - 1];
      IndexIsFirst(s[1..], c, i - 1);
    }
  }

  lemma {:induction false} IndexOfAbsent(s: string, c: char)
    requires c !in s
    ensures IndexOf(s, c) == |s|
  {
    if s != [] { IndexOfAbsent(s[1..], c); }
  }

  /** The reports for one option word, by the option string alone. */
  lemma OneOption(optstring: string, c: char, i: nat, arg: string, ind: nat)
    requires c != '-' && Listed(optstring, c, i)
    ensures var takes := i + 1 < |optstring| && optstring[i + 1] == ':';
            var lone, attached, apart := ["-" + [c]], ["-" + [c] + arg], ["-" + [c], arg];
            && (!takes ==> Scan(optstring, lone, ind).events == [Event([c], None)])
            && (takes && optstring[0] == ':' ==> Scan(optstring, lone, ind).events == [Event(":", Some([c]))])
            && (takes && optstring[0] != ':' ==> Scan(optstring, lone, ind).events == [Event("?", None)])
            && (takes && arg != [] ==> Scan(optstring, attached, ind).events == [Event([c], Some(arg))])
            && (takes ==> Scan(optstring, apart, ind).events == [Event([c], Some(arg))])
  {
    IndexIsFirst(optstring, c, i);
    LoneWord(optstring, c, ind);
    if TakesArg(optstring, c) { ArgumentWords(optstring, c, arg, ind); }
  }

  lemma LoneWord(optstring: string, c: char, ind: nat)
    requires c != '-'
    ensures Scan(optstring, ["-" + [c]], ind).events ==
            [if !Known(optstring, c) then Unknown(optstring, c)
             else if !TakesArg(optstring, c) then Event([c], None)
             else Missing(optstring, c)]
  {
    var a: string, none: seq<string> := "-" + [c], [];
    assert a[1] == c && [a][1..] == none;
    assert Scan(optstring, [], ind + 1) == Scanned([], ind + 1);
    assert ScanCluster(optstring, a, 2, [], ind) == Scanned([], ind + 1);
  }

  lemma ArgumentWords(optstring: string, c: char, arg: string, ind: nat)
    requires c != '-' && Known(optstring, c) && TakesArg(optstring, c)
    ensures arg != [] ==> Scan(optstring, ["-" + [c] + arg], ind).events == [Event([c], Some(arg))]
    ensures Scan(optstring, ["-" + [c], arg], ind).events == [Event([c], Some(arg))]
  {
    var a, b, none: seq<string> := "-" + [c] + arg, "-" + [c], [];
    assert a[1] == c && a[2..] == arg && [a][1..] == none;
    assert b[1] == c && [b, arg][1..] == [arg] && [arg][1..] == none;
    assert Scan(optstring, [], ind + 1) == Scanned([], ind + 1) && Scan(optstring, [], ind + 2) == Scanned([], ind + 2);
  }

  /** A word that is no option ends the scan and counts as an operand; `--` ends it and does not. */
  lemma OperandsStop(optstring: string, w: string, rest: seq<string>, ind: nat)
    ensures w == "" || w[0] != '-' || w == "-" ==> Scan(optstring, [w] + rest, ind) == Scanned([], ind)
    ensures w == "--" ==> Scan(optstring, [w] + rest, ind) == Scanned([], ind + 1)
  {
    assert ([w] + rest)[0] == w;
  }

  /** Options without arguments may share a word. */
  lemma FlagsMayCluster(optstring: string, c: char, d: char, ind: nat)
    requires c != '-' && d != '-' && !TakesArg(optstring, c)
    ensures Scan(optstring, ["-" + [c, d]], ind).events ==
            Scan(optstring, ["-" + [c]], ind).events + Scan(optstring, ["-" + [d]], ind).events
  {
    var a: string, none: seq<string> := "-" + [c, d], [];
    LoneWord(optstring, c, ind);
    LoneWord(optstring, d, ind);
    assert a[1] == c && a[2] == d && [a][1..] == none;
    assert Scan(optstring, [], ind + 1) == Scanned([], ind + 1);
    assert ScanCluster(optstring, a, 3, [], ind) == Scanned([], ind + 1);
    assert ScanCluster(optstring, a, 2, [], ind).events == Scan(optstring, ["-" + [d]], ind).events;
  }

  /** An unknown option: `?`, and its letter only when errors are silent. */
  lemma UnknownOption(optstring: string, c: char, ind: nat)
    requires c != '-' && c !in optstring
    ensures Scan(optstring, ["-" + [c]], ind).events ==
            [Event("?", if optstring != [] && optstring[0] == ':' then Some([c]) else None)]
  {
    IndexOfAbsent(optstring, c);
    LoneWord(optstring, c, ind);
  }

  /** The scan ends at the end of the words, behind `--`, or at a word that is no option. */
  lemma {:induction false} ScanStopsAtOperand(optstring: string, args: seq<string>, ind: nat)
    ensures var next := Scan(optstring, args, ind).next;
            && ind <= next <= ind + |args|
            && (next < ind + |args| ==> !IsCluster(args[next - ind]) || (next > ind && args[next - ind - 1] == "--"))
    decreases |args|, 0
  {
    if args != [] && IsCluster(args[0]) { ClusterStopsAtOperand(optstring, args[0], 1, args[1..], ind); }
  }

  lemma {:induction false} ClusterStopsAtOperand(optstring: string, a: string, k: nat, rest: seq<string>, ind: nat)
    ensures var next := ScanCluster(optstring, a, k, rest, ind).next;
            && ind + 1 <= next <= ind + 1 + |rest|
            && (next < ind + 1 + |rest| ==>
                  !IsCluster(rest[next - ind - 1]) || (next > ind + 1 && rest[next - ind - 2] == "--"))
    decreases |rest|, 1, if k < |a| then |a| - k else 0
  {
    if k >= |a| {
      ScanStopsAtOperand(optstring, rest, ind + 1);
    } else if !Known(optstring, a[k]) || !TakesArg(optstring, a[k]) {
      ClusterStopsAtOperand(optstring, a, k + 1, rest, ind);
    } else if k + 1 < |a| {
      ScanStopsAtOperand(optstring, rest, ind + 1);
    } else if rest != [] {
      ScanStopsAtOperand(optstring, rest[1..], ind + 2);
    }
  }

  // ----- one resumable step -----

  /** A position: the 1-based argument and the offset inside its cluster. */
  datatype Position = Position(ind: nat, off: nat)

  datatype Next = Stop(ind: nat) | Got(ev: Event, at: Position)

  predicate Before(p: Position, q: Position) {
    p.ind < q.ind || (p.ind == q.ind && p.off < q.off)
  }

  /** Positions that calls can leave behind. */
  predicate Sensible(args: seq<string>, p: Position) {
    && 1 <= p.ind <= |args| + 1 && 1 <= p.off
    && (p.off > 1 ==> p.ind <= |args| && p.off < |args[p.ind - 1]|)
  }

  function Advanced(a: string, p: Position): Position {
    if p.off + 1 >= |a| then Position(p.ind + 1, 1) else Position(p.ind, p.off + 1)
  }

  function Step(optstring: string, args: seq<string>, p: Position): (n: Next)
    requires p.ind >= 1
    decreases if p.ind <= |args| then |args| - p.ind + 1 else 0
  {
    if p.ind > |args| then Stop(p.ind)
    else
      var a := args[p.ind - 1];
      if p.off <= 1 && a == "--" then Stop(p.ind + 1)
      else if p.off <= 1 && (a == [] || a[0] != '-' || a == "-") then Stop(p.ind)
      else if p.off >= |a| then Step(optstring, args, Position(p.ind + 1, 1))
      else
        var c := a[p.off];
        if !Known(optstring, c) then Got(Unknown(optstring, c), Advanced(a, p))
        else if !TakesArg(optstring, c) then Got(Event([c], None), Advanced(a, p))
        else if p.off + 1 < |a| then Got(Event([c], Some(a[p.off + 1..])), Position(p.ind + 1, 1))
        else if p.ind < |args| then Got(Event([c], Some(args[p.ind])), Position(p.ind + 2, 1))
        else Got(Missing(optstring, c), Position(p.ind + 1, 1))
  }

  /** What the one-shot scan would still report from a position on. */
  function Remaining(optstring: string, args: seq<string>, p: Position): (r: Scanned)
    requires Sensible(args, p)
  {
    if p.off <= 1 then Scan(optstring, args[p.ind - 1..], p.ind)
    else ScanCluster(optstring, args[p.ind - 1], p.off, args[p.ind..], p.ind)
  }

  lemma RemainingInCluster(optstring: string, args: seq<string>, p: Position)
    requires Sensible(args, p) && p.ind <= |args| && (p.off <= 1 ==> IsCluster(args[p.ind - 1]))
    ensures Remaining(optstring, args, p) == ScanCluster(optstring, args[p.ind - 1], p.off, args[p.ind..], p.ind)
  {
    assert args[p.ind - 1..][1..] == args[p.ind..];
  }

  lemma RemainingAfterCluster(optstring: string, args: seq<string>, p: Position)
    requires Sensible(args, p) && p.ind <= |args| && p.off < |args[p.ind - 1]|
    ensures var q := Advanced(args[p.ind - 1], p);
            && Sensible(args, q)
            && Remaining(optstring, args, q) ==
               ScanCluster(optstring, args[p.ind - 1], p.off + 1, args[p.ind..], p.ind)
  {
  }

  lemma RemainingAfterArgument(optstring: string, args: seq<string>, p: Position)
    requires 1 <= p.ind <= |args|
    ensures Remaining(optstring, args, Position(p.ind + 1, 1)) == Scan(optstring, args[p.ind..], p.ind + 1)
    ensures p.ind < |args| ==>
              && args[p.ind..][0] == args[p.ind]
              && Remaining(optstring, args, Position(p.ind + 2, 1)) == Scan(optstring, args[p.ind..][1..], p.ind + 2)
  {
    if p.ind < |args| { assert args[p.ind..][1..] == args[p.ind + 1..]; }
  }

  ghost predicate Reports(optstring: string, args: seq<string>, p: Position)
    requires Sensible(args, p)
  {
    var n := Step(optstring, args, p);
    && n.Got? && Sensible(args, n.at) && Before(p, n.at)
    && Remaining(optstring, args, p) == Cons(n.ev, Remaining(optstring, args, n.at))
  }

  predicate InCluster(args: seq<string>, p: Position) {
    Sensible(args, p) && p.ind <= |args| && (p.off > 1 || IsCluster(args[p.ind - 1]))
  }

  lemma FlagStep(optstring: string, args: seq<string>, p: Position)
    requires InCluster(args, p)
    requires !Known(optstring, args[p.ind - 1][p.off]) || !TakesArg(optstring, args[p.ind - 1][p.off])
    ensures Reports(optstring, args, p)
  {
    RemainingInCluster(optstring, args, p);
    RemainingAfterCluster(optstring, args, p);
  }

  predicate AtArgument(optstring: string, args: seq<string>, p: Position) {
    && InCluster(args, p)
    && Known(optstring, args[p.ind - 1][p.off]) && TakesArg(optstring, args[p.ind - 1][p.off])
  }

  lemma AttachedScan(optstring: string, a: string, k: nat, rest: seq<string>, ind: nat)
    requires k + 1 < |a| && Known(optstring, a[k]) && TakesArg(optstring, a[k])
    ensures ScanCluster(optstring, a, k, rest, ind) ==
            Cons(Event([a[k]], Some(a[k + 1..])), Scan(optstring, rest, ind + 1))
  {
  }

  lemma AttachedNext(optstring: string, args: seq<string>, p: Position)
    requires AtArgument(optstring, args, p) && p.off + 1 < |args[p.ind - 1]|
    ensures Step(optstring, args, p) ==
            Got(Event([args[p.ind - 1][p.off]], Some(args[p.ind - 1][p.off + 1..])), Position(p.ind + 1, 1))
  {
  }

  lemma AttachedStep(optstring: string, args: seq<string>, p: Position)
    requires AtArgument(optstring, args, p) && p.off + 1 < |args[p.ind - 1]|
    ensures Reports(optstring, args, p)
  {
    AttachedNext(optstring, args, p);
    AttachedScan(optstring, args[p.ind - 1], p.off, args[p.ind..], p.ind);
    RemainingInCluster(optstring, args, p);
    RemainingAfterArgument(optstring, args, p);
  }

  lemma SeparateScan(optstring: string, a: string, k: nat, rest: seq<string>, ind: nat)
    requires k + 1 == |a| && Known(optstring, a[k]) && TakesArg(optstring, a[k]) && rest != []
    ensures ScanCluster(optstring, a, k, rest, ind) ==
            Cons(Event([a[k]], Some(rest[0])), Scan(optstring, rest[1..], ind + 2))
  {
  }

  lemma SeparateNext(optstring: string, args: seq<string>, p: Position)
    requires AtArgument(optstring, args, p) && p.off + 1 == |args[p.ind - 1]| && p.ind < |args|
    ensures Step(optstring, args, p) == Got(Event([args[p.ind - 1][p.off]], Some(args[p.ind])), Position(p.ind + 2, 1))
  {
  }

  lemma SeparateStep(optstring: string, args: seq<string>, p: Position)
    requires AtArgument(optstring, args, p) && p.off + 1 == |args[p.ind - 1]| && p.ind < |args|
    ensures Reports(optstring, args, p)
  {
    SeparateNext(optstring, args, p);
    SeparateScan(optstring, args[p.ind - 1], p.off, args[p.ind..], p.ind);
    RemainingInCluster(optstring, args, p);
    RemainingAfterArgument(optstring, args, p);
  }

  lemma MissingStep(optstring: string, args: seq<string>, p: Position)
    requires AtArgument(optstring, args, p) && p.off + 1 == |args[p.ind - 1]| && p.ind == |args|
    ensures Reports(optstring, args, p)
  {
    RemainingInCluster(optstring, args, p);
    var missing := Missing(optstring, args[p.ind - 1][p.off]);
    assert ScanCluster(optstring, args[p.ind - 1], p.off, args[p.ind..], p.ind) == Scanned([missing], p.ind + 1);
    assert Step(optstring, args, p) == Got(missing, Position(p.ind + 1, 1));
    assert Remaining(optstring, args, Position(p.ind + 1, 1)) == Scanned([], p.ind + 1);
  }

  /** One call reports the head of the scan and moves strictly forward; it stops when nothing is left. */
  lemma StepFollowsScan(optstring: string, args: seq<string>, p: Position)
    requires Sensible(args, p)
    ensures var n := Step(optstring, args, p);
            && (n.Stop? ==> Remaining(optstring, args, p) == Scanned([], n.ind) && p.ind <= n.ind <= |args| + 1)
            && (n.Got? ==>
                  && Sensible(args, n.at) && Before(p, n.at)
                  && Remaining(optstring, args, p) == Cons(n.ev, Remaining(optstring, args, n.at)))
  {
    if p.ind <= |args| {
      assert args[p.ind - 1..][0] == args[p.ind - 1];
      if InCluster(args, p) {
        var c := args[p.ind - 1][p.off];
        if !Known(optstring, c) || !TakesArg(optstring, c) {
          FlagStep(optstring, args, p);
        } else if p.off + 1 < |args[p.ind - 1]| {
          AttachedStep(optstring, args, p);
        } else if p.ind < |args| {
          SeparateStep(optstring, args, p);
        } else {
          MissingStep(optstring, args, p);
        }
      }
    }
  }

  // ----- the builtin -----

  function ReadNat(vars: map<string, string>, name: string): (r: Option<nat>) {
    if name in vars then ParseUnsigned(vars[name]) else None
  }

  function PositionIn(vars: map<string, string>): (p: Position)
    ensures p.ind >= 1
  {
    var raw := ReadNat(vars, "OPTIND");
    var ind := if raw.None? || raw.value < 1 then 1 else raw.value;
    var off := ReadNat(vars, "_GETOPTS_OFFSET");
    Position(ind, if ReadNat(vars, "_GETOPTS_OPTIND") == Some(ind) && off.Some? then off.value else 1)
  }

  function GetVar(vars: map<string, string>, name: string): Option<string> {
    if name in vars then Some(vars[name]) else None
  }

  predicate Ordinary(name: string) {
    name != "OPTIND" && name != "OPTARG" && name != "_GETOPTS_OPTIND" && name != "_GETOPTS_OFFSET"
  }

  /** Skips to the next option, or finds that there is none. */
  method FindOption(optstring: string, args: seq<string>, start: Position) returns (stop: bool, at: Position)
    requires start.ind >= 1
    ensures at.ind >= 1
    ensures stop ==> Step(optstring, args, start) == Stop(at.ind)
    ensures !stop ==>
              && Step(optstring, args, start) == Step(optstring, args, at)
              && at.ind <= |args| && at.off < |args[at.ind - 1]|
              && (at.off > 1 || IsCluster(args[at.ind - 1]))
  {
    var optind: nat, offset: nat := start.ind, start.off;
    while true
      invariant optind >= 1
      invariant Step(optstring, args, Position(optind, offset)) == Step(optstring, args, start)
      decreases if optind <= |args| then |args| - optind + 1 else 0
    {
      if optind > |args| { return true, Position(optind, offset); }
      var arg := args[optind - 1];
      if offset <= 1 {
        if arg == "--" { return true, Position(optind + 1, offset); }
        if arg == [] || arg[0] != '-' || arg == "-" { return true, Position(optind, offset); }
      }
      if offset >= |arg| {
        optind, offset := optind + 1, 1;
        continue;
      }
      return false, Position(optind, offset);
    }
  }

  class Shell {
    var vars: map<string, string>
    var positional: seq<string>

    method SetOrUnset(name: string, value: Option<string>)
      modifies this`vars
      ensures GetVar(vars, name) == value
      ensures forall n :: n != name ==> GetVar(vars, n) == GetVar(old(vars), n)
    {
      vars := if value.Some? then vars[name := value.value] else vars - {name};
    }

    method SavePosition(p: Position)
      requires p.ind >= 1
      modifies this`vars
      ensures PositionIn(vars) == p
      ensures forall n :: n != "OPTIND" && n != "_GETOPTS_OPTIND" && n != "_GETOPTS_OFFSET" ==>
                GetVar(vars, n) == GetVar(old(vars), n)
    {
      ParseInvertsDigits(p.ind);
      ParseInvertsDigits(p.off);
      vars := vars["OPTIND" := Digits(p.ind)]["_GETOPTS_OPTIND" := Digits(p.ind)]["_GETOPTS_OFFSET" := Digits(p.off)];
    }

    /**
     * One call: the step from the stored position decides the status, the
     * named variable, OPTARG and the position stored for the next call.
     */
    method Getopts(argv: seq<string>) returns (status: int)
      modifies this`vars
      ensures |argv| < 3 ==> status == 2 && vars == old(vars)
      ensures |argv| >= 3 ==>
                var args := if |argv| > 3 then argv[3..] else positional;
                var n := Step(argv[1], args, PositionIn(old(vars)));
                && (n.Stop? ==> status == 1 && (n.ind >= 1 ==> PositionIn(vars) == Position(n.ind, 1)))
                && (n.Got? ==> status == 0 && PositionIn(vars) == n.at)
                && (n.Got? && Ordinary(argv[2]) ==>
                      GetVar(vars, argv[2]) == Some(n.ev.value) && GetVar(vars, "OPTARG") == n.ev.optarg)
    {
      if |argv| < 3 { return 2; }
      var optstring, varName := argv[1], argv[2];
      var args := if |argv| > 3 then argv[3..] else positional;
      var stop, at := FindOption(optstring, args, PositionIn(vars));
      if stop {
        Finish(at.ind);
        return 1;
      }
      Report(optstring, varName, args, at);
      return 0;
    }

    method Finish(ind: nat)
      modifies this`vars
      ensures ind >= 1 ==> PositionIn(vars) == Position(ind, 1)
    {
      ParseInvertsDigits(ind);
      vars := vars["OPTIND" := Digits(ind)];
      vars := vars - {"_GETOPTS_OPTIND"};
      vars := vars - {"_GETOPTS_OFFSET"};
      assert ReadNat(vars, "OPTIND") == Some(ind) && ReadNat(vars, "_GETOPTS_OPTIND") == None;
    }

    /** The option at a position inside a cluster. */
    method Report(optstring: string, varName: string, args: seq<string>, p: Position)
      requires 1 <= p.ind <= |args| && p.off < |args[p.ind - 1]|
      requires p.off > 1 || IsCluster(args[p.ind - 1])
      modifies this`vars
      ensures var n := Step(optstring, args, p);
              && n.Got? && PositionIn(vars) == n.at
              && (Ordinary(varName) ==>
                    GetVar(vars, varName) == Some(n.ev.value) && GetVar(vars, "OPTARG") == n.ev.optarg)
    {
      var arg := args[p.ind - 1];
      var c := arg[p.off];
      var silent := optstring != [] && optstring[0] == ':';
      var index := IndexOf(optstring, c);
      var requiresArg := index + 1 < |optstring| && optstring[index + 1] == ':';
      var consumed := p.off + 1 >= |arg|;
      var stay := if consumed then Position(p.ind + 1, 1) else Position(p.ind, p.off + 1);
      if index == |optstring| {
        SetOrUnset("OPTARG", if silent then Some([c]) else None);
        SetOrUnset(varName, Some("?"));
        SavePosition(stay);
      } else if requiresArg {
        var attached := arg[p.off + 1..];
        if attached != [] {
          SetOrUnset("OPTARG", Some(attached));
          SetOrUnset(varName, Some([c]));
          SavePosition(Position(p.ind + 1, 1));
        } else if p.ind < |args| {
          SetOrUnset("OPTARG", Some(args[p.ind]));
          SetOrUnset(varName, Some([c]));
          SavePosition(Position(p.ind + 2, 1));
        } else {
          SetOrUnset("OPTARG", if silent then Some([c]) else None);
          SetOrUnset(varName, Some(if silent then ":" else "?"));
          SavePosition(Position(p.ind + 1, 1));
        }
      } else {
        SetOrUnset(varName, Some([c]));
        SetOrUnset("OPTARG", None);
        SavePosition(stay);
      }
    }

    function Arguments(argv: seq<string>): seq<string>
      requires |argv| >= 3
      reads this
    {
      if |argv| > 3 then argv[3..] else positional
    }

    /** One call from a position that calls leave behind, and what the caller reads off afterwards. */
    method Poll(argv: seq<string>) returns (e: Option<Event>)
      requires |argv| >= 3 && Ordinary(argv[2]) && Sensible(Arguments(argv), PositionIn(vars))
      modifies this`vars
      ensures e.None? ==>
                Remaining(argv[1], Arguments(argv), old(PositionIn(vars))) == Scanned([], PositionIn(vars).ind)
      ensures e.Some? ==>
                && Sensible(Arguments(argv), PositionIn(vars)) && Before(old(PositionIn(vars)), PositionIn(vars))
                && Remaining(argv[1], Arguments(argv), old(PositionIn(vars))) ==
                   Cons(e.value, Remaining(argv[1], Arguments(argv), PositionIn(vars)))
    {
      StepFollowsScan(argv[1], Arguments(argv), PositionIn(vars));
      var status := Getopts(argv);
      if status == 1 { return None; }
      assert argv[2] in vars;
      e := Some(Event(vars[argv[2]], if "OPTARG" in vars then Some(vars["OPTARG"]) else None));
    }

    /** Calling from a position until the status is 1, with the position left alone in between. */
    method CollectRest(argv: seq<string>) returns (events: seq<Event>)
      requires |argv| >= 3 && Ordinary(argv[2]) && Sensible(Arguments(argv), PositionIn(vars))
      modifies this`vars
      ensures Scanned(events, PositionIn(vars).ind) == Remaining(argv[1], Arguments(argv), old(PositionIn(vars)))
      decreases |Remaining(argv[1], Arguments(argv), PositionIn(vars)).events|
    {
      var e := Poll(argv);
      if e.None? { return []; }
      var rest := CollectRest(argv);
      events := [e.value] + rest;
    }

    /** The calls of a whole run yield exactly the one-shot scan, and leave OPTIND at the first operand. */
    method CollectAll(argv: seq<string>) returns (events: seq<Event>)
      requires |argv| >= 3 && Ordinary(argv[2]) && PositionIn(vars) == Position(1, 1)
      modifies this`vars
      ensures Scanned(events, PositionIn(vars).ind) == Scan(argv[1], Arguments(argv), 1)
    {
      assert Arguments(argv)[0..] == Arguments(argv);
      events := CollectRest(argv);
    }
  }
}
