/**
 * Lowering of `&&`/`||` chains to linear jump code, the machine that runs the
 * code, and the proof that the code does what the chain means for every
 * executor of the primitive commands.
 */
module AndOrLowering {
  import opened Wrappers

  // ----- source: the supported part of the shell's HIR -----

  datatype WordPart =
    | Literal(text: string) | SingleQuoted(text: string) | DoubleQuoted(parts: seq<WordPart>) | Expansion

  datatype Word = Word(parts: seq<WordPart>)

  datatype Redirection = Redirection(fd: Option<nat>, op: nat, target: Word, hereDoc: Option<string>)

  datatype Assignment = Assignment(name: string, value: Option<Word>)

  datatype Command =
    | Exec(argv: seq<Word>, env: seq<Assignment>, redirections: seq<Redirection>)
    | Assign(assignments: seq<Assignment>, assignRedirections: seq<Redirection>)
    | Compound

  datatype Pipeline = Pipeline(negated: bool, commands: seq<Command>)

  datatype Op = And | Or

  datatype AndOr = AndOr(first: Pipeline, rest: seq<(Op, Pipeline)>)

  // ----- target -----

  datatype Ir =
    | AssignVar(name: string, value: Option<Word>)
    | ExecuteBuiltin(name: string, argv: seq<Word>, redirections: seq<Redirection>)
    | JumpIfFailure(target: nat)
    | JumpIfSuccess(target: nat)
    | ReturnLastStatus
    | Return(status: int)
    | Nop

  datatype Unsupported =
    NegatedPipeline | MultiStagePipeline | AssignmentRedirection | EnvPrefix | NonLiteralName | OtherCommand

  /** Placeholder target of a jump that is still to be patched. */
  const UNPATCHED: nat := 0xFFFF_FFFF_FFFF_FFFF

  // ----- what the primitives do, left open -----

  datatype Machine<S> = Machine(state: S, status: int)

  /** `assign` and `builtin` serve the machine too; `command` and `stages` run what the code has no instruction for. */
  datatype Executor<!S> = Executor(
    assign: (Machine<S>, string, Option<Word>) -> Machine<S>,
    builtin: (Machine<S>, string, seq<Word>, seq<Redirection>) -> (Machine<S>, int),
    command: (Machine<S>, Command) -> Machine<S>,
    stages: (Machine<S>, seq<Command>) -> Machine<S>)

  function Assigned<S>(x: Executor<S>, m: Machine<S>, a: Assignment): Machine<S> {
    x.assign(m, a.name, a.value)
  }

  function Executed<S>(x: Executor<S>, m: Machine<S>, name: string, argv: seq<Word>, rs: seq<Redirection>): Machine<S> {
    var (after, status) := x.builtin(m, name, argv, rs);
    after.(status := status)
  }

  // ----- literal words -----

  /** The parts of a word with double quotes opened. */
  function Leaves(parts: seq<WordPart>): (r: seq<WordPart>)
    decreases parts, 1
  {
    if parts == [] then [] else Leaves(parts[..|parts| - 1]) + LeavesOf(parts[|parts| - 1])
  }

  function LeavesOf(part: WordPart): (r: seq<WordPart>)
    decreases part, 0
  {
    if part.DoubleQuoted? then Leaves(part.parts) else [part]
  }

  /** The texts of literal parts, one after the other. */
  function TextOf(leaves: seq<WordPart>): (r: string) {
    if leaves == [] then ""
    else
      var last := leaves[|leaves| - 1];
      TextOf(leaves[..|leaves| - 1]) + if last.Literal? || last.SingleQuoted? then last.text else ""
  }

  predicate IsLiteral(parts: seq<WordPart>) { Expansion !in Leaves(parts) }

  lemma {:induction false} TextOfAppend(a: seq<WordPart>, b: seq<WordPart>)
    ensures TextOf(a + b) == TextOf(a) + TextOf(b)
    decreases |b|
  {
    if b == [] {
      assert a + b == a;
    } else {
      var init, last := b[..|b| - 1], b[|b| - 1];
      assert (a + b)[..|a + b| - 1] == a + init && (a + b)[|a + b| - 1] == last;
      TextOfAppend(a, init);
    }
  }

  lemma LeavesSnoc(parts: seq<WordPart>, k: nat)
    requires k < |parts|
    ensures Leaves(parts[..k + 1]) == Leaves(parts[..k]) + LeavesOf(parts[k])
    ensures TextOf(Leaves(parts[..k + 1])) == TextOf(Leaves(parts[..k])) + TextOf(LeavesOf(parts[k]))
  {
    assert parts[..k + 1][..k] == parts[..k] && parts[..k + 1][k] == parts[k];
    TextOfAppend(Leaves(parts[..k]), LeavesOf(parts[k]));
  }

  lemma {:induction false} LeavesOfPrefix(parts: seq<WordPart>, k: nat)
    requires k <= |parts| && Expansion in Leaves(parts[..k])
    ensures Expansion in Leaves(parts)
    decreases |parts| - k
  {
    if k < |parts| {
      LeavesSnoc(parts, k);
      LeavesOfPrefix(parts, k + 1);
    } else {
      assert parts[..k] == parts;
    }
  }

  /** Appends the text of a part; nothing if it contains an expansion. */
  method AppendLiteralPart(part: WordPart, text: string) returns (r: Option<string>)
    ensures r == if Expansion in LeavesOf(part) then None else Some(text + TextOf(LeavesOf(part)))
    decreases part, 0
  {
    match part
    case Literal(s) =>
      LeafText(part);
      r := Some(text + s);
    case SingleQuoted(s) =>
      LeafText(part);
      r := Some(text + s);
    case DoubleQuoted(inner) => r := AppendLiteralParts(inner, text);
    case Expansion => r := None;
  }

  lemma LeafText(part: WordPart)
    requires part.Literal? || part.SingleQuoted?
    ensures TextOf([part]) == part.text
  {
    assert [part][..0] == [] && "" + part.text == part.text;
  }

  method AppendLiteralParts(parts: seq<WordPart>, text: string) returns (r: Option<string>)
    ensures r == if IsLiteral(parts) then Some(text + TextOf(Leaves(parts))) else None
    decreases parts, 1
  {
    r := Some(text);
    var k := 0;
    assert parts[..0] == [] && text + "" == text;
    while k < |parts| && r.Some?
      invariant 0 <= k <= |parts| && r == Appended(text, parts[..k])
    {
      AppendedSnoc(text, parts, k);
      r := AppendLiteralPart(parts[k], r.value);
      k := k + 1;
    }
    AppendedPrefix(text, parts, k);
  }

  function Appended(text: string, parts: seq<WordPart>): (r: Option<string>) {
    if IsLiteral(parts) then Some(text + TextOf(Leaves(parts))) else None
  }

  lemma AppendedSnoc(text: string, parts: seq<WordPart>, k: nat)
    requires k < |parts|
    ensures var before, part := Appended(text, parts[..k]), LeavesOf(parts[k]);
            Appended(text, parts[..k + 1]) ==
            if before.None? || Expansion in part then None else Some(before.value + TextOf(part))
  {
    LeavesSnoc(parts, k);
    var a, b := TextOf(Leaves(parts[..k])), TextOf(LeavesOf(parts[k]));
    assert text + (a + b) == text + a + b;
  }

  lemma AppendedPrefix(text: string, parts: seq<WordPart>, k: nat)
    requires k <= |parts| && (k == |parts| || Appended(text, parts[..k]).None?)
    ensures Appended(text, parts) == Appended(text, parts[..k])
  {
    if k == |parts| { assert parts[..k] == parts; } else { LeavesOfPrefix(parts, k); }
  }

  /** The text of a word is that of its literal parts, in order; a word with an expansion has none. */
  method LiteralWordText(argv: seq<Word>) returns (r: Option<string>)
    ensures r == if argv != [] && IsLiteral(argv[0].parts) then Some(TextOf(Leaves(argv[0].parts))) else None
  {
    if argv == [] { return None; }
    r := AppendLiteralParts(argv[0].parts, "");
    assert "" + TextOf(Leaves(argv[0].parts)) == TextOf(Leaves(argv[0].parts));
  }

  // ----- which commands are supported -----

  predicate SupportedCommand(c: Command) {
    match c
    case Assign(_, redirections) => redirections == []
    case Exec(argv, env, _) => env == [] && argv != [] && IsLiteral(argv[0].parts)
    case Compound => false
  }

  predicate Supported(p: Pipeline) { !p.negated && |p.commands| == 1 && SupportedCommand(p.commands[0]) }

  predicate AllSupported(c: AndOr) {
    Supported(c.first) && forall i :: 0 <= i < |c.rest| ==> Supported(c.rest[i].1)
  }

  // ----- what a chain means -----

  function RunAssignments<S>(x: Executor<S>, m: Machine<S>, assignments: seq<Assignment>): Machine<S>
    decreases |assignments|
  {
    if assignments == [] then m
    else RunAssignments(x, Assigned(x, m, assignments[0]), assignments[1..])
  }

  /** Assignments one after the other; a command whose name is literal text; anything else is the executor's. */
  function RunCommand<S>(x: Executor<S>, m: Machine<S>, c: Command): Machine<S> {
    match c
    case Assign(assignments, redirections) =>
      if redirections == [] then RunAssignments(x, m, assignments) else x.command(m, c)
    case Exec(argv, env, redirections) =>
      if env == [] && argv != [] && IsLiteral(argv[0].parts)
      then Executed(x, m, TextOf(Leaves(argv[0].parts)), argv, redirections)
      else x.command(m, c)
    case Compound => x.command(m, c)
  }

  /** `!` turns success into failure and failure into success. */
  function RunPipeline<S>(x: Executor<S>, m: Machine<S>, p: Pipeline): Machine<S> {
    var after := if |p.commands| == 1 then RunCommand(x, m, p.commands[0]) else x.stages(m, p.commands);
    if p.negated then after.(status := if after.status == 0 then 1 else 0) else after
  }

  predicate Proceeds<S>(op: Op, m: Machine<S>) {
    match op
    case And => m.status == 0
    case Or => m.status != 0
  }

  function DropLast(c: AndOr): AndOr
    requires c.rest != []
  {
    c.(rest := c.rest[..|c.rest| - 1])
  }

  function Last(c: AndOr): (Op, Pipeline)
    requires c.rest != []
  {
    c.rest[|c.rest| - 1]
  }

  /** Left-associative short-circuit evaluation. */
  function Meaning<S>(x: Executor<S>, c: AndOr, m: Machine<S>): (r: Machine<S>)
    decreases |c.rest|
  {
    if c.rest == [] then RunPipeline(x, m, c.first)
    else
      var m1 := Meaning(x, DropLast(c), m);
      if Proceeds(Last(c).0, m1) then RunPipeline(x, m1, Last(c).1) else m1
  }

  // ----- the code -----

  function AssignCode(assignments: seq<Assignment>): (code: seq<Ir>)
    ensures |code| == |assignments|
    ensures forall i :: 0 <= i < |code| ==> code[i] == AssignVar(assignments[i].name, assignments[i].value)
  {
    seq(|assignments|, i requires 0 <= i < |assignments| => AssignVar(assignments[i].name, assignments[i].value))
  }

  function PipelineCode(p: Pipeline): (code: seq<Ir>)
    requires Supported(p)
    ensures forall i :: 0 <= i < |code| ==> code[i].AssignVar? || code[i].ExecuteBuiltin?
  {
    match p.commands[0]
    case Assign(assignments, _) => AssignCode(assignments)
    case Exec(argv, _, redirections) => [ExecuteBuiltin(TextOf(Leaves(argv[0].parts)), argv, redirections)]
  }

  function Jump(op: Op, target: nat): Ir {
    match op
    case And => JumpIfFailure(target)
    case Or => JumpIfSuccess(target)
  }

  function ChainCode(c: AndOr): (code: seq<Ir>)
    requires AllSupported(c)
    decreases |c.rest|
  {
    if c.rest == [] then PipelineCode(c.first)
    else
      var before := ChainCode(DropLast(c));
      var body := PipelineCode(Last(c).1);
      before + [Jump(Last(c).0, |before| + 1 + |body|)] + body
  }

  function Program(c: AndOr): (code: seq<Ir>)
    requires AllSupported(c)
  {
    ChainCode(c) + [ReturnLastStatus]
  }

  predicate IsJump(i: Ir) { i.JumpIfFailure? || i.JumpIfSuccess? }

  predicate JumpsForward(code: seq<Ir>, limit: nat) {
    forall i :: 0 <= i < |code| && IsJump(code[i]) ==> i < code[i].target <= limit
  }

  /** Every jump is patched, strictly forward and inside the program. */
  lemma {:induction false} JumpsAreForward(c: AndOr)
    requires AllSupported(c)
    ensures JumpsForward(ChainCode(c), |ChainCode(c)|)
    decreases |c.rest|
  {
    if c.rest != [] {
      JumpsAreForward(DropLast(c));
      var before, code := ChainCode(DropLast(c)), ChainCode(c);
      forall i | 0 <= i < |code| && IsJump(code[i]) ensures i < code[i].target <= |code| {
        if i < |before| { assert code[i] == before[i]; }
      }
    }
  }

  // ----- the lowering pass -----

  function Prefix(c: AndOr, k: nat): AndOr
    requires k <= |c.rest|
  {
    c.(rest := c.rest[..k])
  }

  lemma PrefixGrows(c: AndOr, k: nat)
    requires k < |c.rest| && AllSupported(Prefix(c, k)) && Supported(c.rest[k].1)
    ensures AllSupported(Prefix(c, k + 1))
    ensures var before, body := ChainCode(Prefix(c, k)), PipelineCode(c.rest[k].1);
            ChainCode(Prefix(c, k + 1)) == before + [Jump(c.rest[k].0, |before| + 1 + |body|)] + body
  {
    var next := Prefix(c, k + 1);
    forall i | 0 <= i < k + 1 ensures Supported(next.rest[i].1) {
      if i < k { assert next.rest[i] == Prefix(c, k).rest[i]; }
    }
    assert next.rest[..k] == c.rest[..k];
    assert DropLast(next) == Prefix(c, k);
  }

  lemma Patched(before: seq<Ir>, hole: Ir, body: seq<Ir>, jump: Ir)
    ensures (before + [hole] + body)[|before| := jump] == before + [jump] + body
  {
  }

  /** What the reason of a refusal says about the pipeline refused. */
  predicate Explains(e: Unsupported, p: Pipeline) {
    match e
    case NegatedPipeline => p.negated
    case MultiStagePipeline => |p.commands| != 1
    case AssignmentRedirection =>
      |p.commands| == 1 && p.commands[0].Assign? && p.commands[0].assignRedirections != []
    case EnvPrefix => |p.commands| == 1 && p.commands[0].Exec? && p.commands[0].env != []
    case NonLiteralName =>
      |p.commands| == 1 && p.commands[0].Exec? &&
      (p.commands[0].argv == [] || !IsLiteral(p.commands[0].argv[0].parts))
    case OtherCommand => |p.commands| == 1 && p.commands[0].Compound?
  }

  method LowerCommand(c: Command, instructions: seq<Ir>) returns (r: Result<seq<Ir>, Unsupported>)
    ensures r.Ok? <==> SupportedCommand(c)
    ensures r.Ok? ==> r.value == instructions + PipelineCode(Pipeline(false, [c]))
    ensures r.Err? ==> Explains(r.error, Pipeline(false, [c]))
  {
    match c
    case Assign(assignments, redirections) =>
      if redirections != [] { return Err(AssignmentRedirection); }
      var out := instructions;
      for k := 0 to |assignments|
        invariant out == instructions + AssignCode(assignments)[..k]
      {
        out := out + [AssignVar(assignments[k].name, assignments[k].value)];
      }
      assert AssignCode(assignments)[..|assignments|] == AssignCode(assignments);
      return Ok(out);
    case Exec(argv, env, redirections) =>
      if env != [] { return Err(EnvPrefix); }
      var name := LiteralWordText(argv);
      if name.None? { return Err(NonLiteralName); }
      return Ok(instructions + [ExecuteBuiltin(name.value, argv, redirections)]);
    case Compound => return Err(OtherCommand);
  }

  method LowerPipeline(p: Pipeline, instructions: seq<Ir>) returns (r: Result<seq<Ir>, Unsupported>)
    ensures r.Ok? <==> Supported(p)
    ensures r.Ok? ==> r.value == instructions + PipelineCode(p)
    ensures r.Err? ==> Explains(r.error, p)
  {
    if p.negated { return Err(NegatedPipeline); }
    if |p.commands| != 1 { return Err(MultiStagePipeline); }
    assert p.commands == [p.commands[0]];
    r := LowerCommand(p.commands[0], instructions);
  }

  /** Emits a placeholder jump before a further pipeline and patches it once the pipeline's length is known. */
  method LowerLink(op: Op, p: Pipeline, before: seq<Ir>) returns (r: Result<seq<Ir>, Unsupported>)
    ensures r.Ok? <==> Supported(p)
    ensures r.Ok? ==> r.value == before + [Jump(op, |before| + 1 + |PipelineCode(p)|)] + PipelineCode(p)
    ensures r.Err? ==> Explains(r.error, p)
  {
    r := LowerPipeline(p, before + [Jump(op, UNPATCHED)]);
    if r.Ok? {
      var jump := Jump(op, |r.value|);
      Patched(before, Jump(op, UNPATCHED), PipelineCode(p), jump);
      r := Ok(r.value[|before| := jump]);
    }
  }

  /**
   * One link after the other; fails exactly on unsupported chains, for a
   * reason that one of the pipelines gives.
   */
  method LowerAndOr(c: AndOr) returns (r: Result<seq<Ir>, Unsupported>)
    ensures r.Ok? <==> AllSupported(c)
    ensures r.Ok? ==> r.value == Program(c)
    ensures r.Err? ==> Explains(r.error, c.first) || exists i :: 0 <= i < |c.rest| && Explains(r.error, c.rest[i].1)
  {
    var step := LowerPipeline(c.first, []);
    if step.Err? { return step; }
    var instructions := step.value;
    assert instructions == ChainCode(Prefix(c, 0));
    for k := 0 to |c.rest|
      invariant AllSupported(Prefix(c, k)) && instructions == ChainCode(Prefix(c, k))
    {
      step := LowerLink(c.rest[k].0, c.rest[k].1, instructions);
      if step.Err? { return step; }
      instructions := step.value;
      PrefixGrows(c, k);
    }
    assert c.rest[..|c.rest|] == c.rest;
    return Ok(instructions + [ReturnLastStatus]);
  }

  // ----- the machine -----

  datatype StepResult = Done(status: int) | Yield

  predicate Halts(i: Ir) { i.Return? || i.ReturnLastStatus? }

  function NextPc<S>(i: Ir, pc: nat, m: Machine<S>): (r: nat) {
    match i
    case JumpIfFailure(t) => if m.status != 0 then t else pc + 1
    case JumpIfSuccess(t) => if m.status == 0 then t else pc + 1
    case _ => pc + 1
  }

  function NextMachine<S>(x: Executor<S>, i: Ir, m: Machine<S>): Machine<S> {
    match i
    case AssignVar(name, value) => x.assign(m, name, value)
    case ExecuteBuiltin(name, argv, rs) => Executed(x, m, name, argv, rs)
    case _ => m
  }

  predicate ForwardOnly(code: seq<Ir>) {
    forall i :: 0 <= i < |code| && IsJump(code[i]) ==> i < code[i].target
  }

  /**
   * The run loop with its step budget; a limit of 0 means no limit, which
   * only programs without backward jumps can be given.
   */
  function Run<S>(x: Executor<S>, code: seq<Ir>, pc: nat, m: Machine<S>, steps: nat, limit: nat)
    : (r: (StepResult, Machine<S>, nat))
    requires limit > 0 || ForwardOnly(code)
    decreases if ForwardOnly(code) then if pc < |code| then |code| - pc else 0
              else if steps < limit then limit - steps else 0
  {
    if pc >= |code| then (Done(m.status), m, steps)
    else if limit > 0 && steps >= limit then (Yield, m, steps)
    else
      match code[pc]
      case ReturnLastStatus => (Done(m.status), m, steps + 1)
      case Return(s) => (Done(s), m.(status := s), steps + 1)
      case i => Run(x, code, NextPc(i, pc, m), NextMachine(x, i, m), steps + 1, limit)
  }

  method RunWithExecutor<S>(x: Executor<S>, code: seq<Ir>, start: Machine<S>, used: nat, limit: nat)
    returns (result: StepResult, m: Machine<S>, steps: nat)
    requires limit > 0 || ForwardOnly(code)
    ensures (result, m, steps) == Run(x, code, 0, start, used, limit)
  {
    var pc := 0;
    m, steps := start, used;
    while pc < |code|
      invariant pc >= 0
      invariant Run(x, code, pc, m, steps, limit) == Run(x, code, 0, start, used, limit)
      decreases if ForwardOnly(code) then if pc < |code| then |code| - pc else 0
                else if steps < limit then limit - steps else 0
    {
      if limit > 0 && steps >= limit { return Yield, m, steps; }
      steps := steps + 1;
      var next := pc + 1;
      match code[pc] {
        case AssignVar(name, value) => m := x.assign(m, name, value);
        case ExecuteBuiltin(name, argv, rs) =>
          var (after, status) := x.builtin(m, name, argv, rs);
          m := after.(status := status);
        case JumpIfFailure(target) => if m.status != 0 { next := target; }
        case JumpIfSuccess(target) => if m.status == 0 { next := target; }
        case ReturnLastStatus => return Done(m.status), m, steps;
        case Return(status) =>
          m := m.(status := status);
          return Done(status), m, steps;
        case Nop =>
      }
      pc := next;
    }
    return Done(m.status), m, steps;
  }

  // ----- lowering preserves meaning -----

  /** `n` steps lead from `(pc, m)` to `(pc', m')` without halting. */
  ghost predicate Reaches<S>(x: Executor<S>, code: seq<Ir>, pc: nat, m: Machine<S>, n: nat, pc': nat, m': Machine<S>)
    decreases n
  {
    if n == 0 then pc == pc' && m == m'
    else
      && pc < |code| && !Halts(code[pc])
      && Reaches(x, code, NextPc(code[pc], pc, m), NextMachine(x, code[pc], m), n - 1, pc', m')
  }

  lemma {:induction false} ReachesTrans<S>(x: Executor<S>, code: seq<Ir>, pc: nat, m: Machine<S>, n: nat,
                                           pc1: nat, m1: Machine<S>, n1: nat, pc2: nat, m2: Machine<S>)
    requires Reaches(x, code, pc, m, n, pc1, m1) && Reaches(x, code, pc1, m1, n1, pc2, m2)
    ensures Reaches(x, code, pc, m, n + n1, pc2, m2)
    decreases n
  {
    if n > 0 {
      ReachesTrans(x, code, NextPc(code[pc], pc, m), NextMachine(x, code[pc], m), n - 1, pc1, m1, n1, pc2, m2);
    }
  }

  lemma {:induction false} AssignmentsRun<S>(x: Executor<S>, code: seq<Ir>, pc: nat, m: Machine<S>,
                                             assignments: seq<Assignment>)
    requires pc + |assignments| <= |code| && code[pc..pc + |assignments|] == AssignCode(assignments)
    ensures Reaches(x, code, pc, m, |assignments|, pc + |assignments|, RunAssignments(x, m, assignments))
    decreases |assignments|
  {
    if assignments != [] {
      var here := code[pc..pc + |assignments|];
      assert code[pc] == here[0];
      assert code[pc + 1..pc + |assignments|] == here[1..] == AssignCode(assignments[1..]);
      AssignmentsRun(x, code, pc + 1, Assigned(x, m, assignments[0]), assignments[1..]);
    }
  }

  lemma PipelineRuns<S>(x: Executor<S>, code: seq<Ir>, pc: nat, m: Machine<S>, p: Pipeline)
    requires Supported(p)
    requires var body := PipelineCode(p); pc + |body| <= |code| && code[pc..pc + |body|] == body
    ensures var n := |PipelineCode(p)|; Reaches(x, code, pc, m, n, pc + n, RunPipeline(x, m, p))
  {
    match p.commands[0]
    case Assign(assignments, _) => AssignmentsRun(x, code, pc, m, assignments);
    case Exec(argv, _, _) =>
      assert code[pc] == code[pc..pc + 1][0];
      var m1 := NextMachine(x, code[pc], m);
      assert Reaches(x, code, pc + 1, m1, 0, pc + 1, m1);
  }

  lemma FirstRuns<S>(x: Executor<S>, p: Pipeline, code: seq<Ir>, m: Machine<S>)
    requires Supported(p) && PipelineCode(p) <= code
    ensures var n := |PipelineCode(p)|; Reaches(x, code, 0, m, n, n, RunPipeline(x, m, p))
  {
    PipelineRuns(x, code, 0, m, p);
  }

  lemma DropLastSupported(c: AndOr)
    requires c.rest != [] && AllSupported(c)
    ensures AllSupported(DropLast(c)) && Supported(Last(c).1)
  {
  }

  /** The steps one link takes: the jump, and the pipeline if it is not skipped. */
  function LinkSteps<S>(op: Op, p: Pipeline, m: Machine<S>): (n: nat)
    requires Supported(p)
  {
    if Proceeds(op, m) then 1 + |PipelineCode(p)| else 1
  }

  /** The steps the chain takes from `m`: fixed by executor, chain and machine. */
  function ChainSteps<S>(x: Executor<S>, c: AndOr, m: Machine<S>): (n: nat)
    requires AllSupported(c)
    decreases |c.rest|
  {
    if c.rest == [] then |PipelineCode(c.first)|
    else ChainSteps(x, DropLast(c), m) + LinkSteps(Last(c).0, Last(c).1, Meaning(x, DropLast(c), m))
  }

  /** Running the chain's code from its start ends just behind it, with its meaning. */
  lemma {:induction false} ChainRuns<S>(x: Executor<S>, c: AndOr, code: seq<Ir>, m: Machine<S>)
    requires AllSupported(c) && ChainCode(c) <= code
    ensures ChainSteps(x, c, m) <= |ChainCode(c)|
    ensures Reaches(x, code, 0, m, ChainSteps(x, c, m), |ChainCode(c)|, Meaning(x, c, m))
    decreases |c.rest|
  {
    if c.rest == [] {
      FirstRuns(x, c.first, code, m);
    } else {
      DropLastSupported(c);
      LinkLayout(c, code);
      ChainRuns(x, DropLast(c), code, m);
      LastLinkRuns(x, c, code, m);
    }
  }

  /** From the end of all links but the last, the run goes on to the end of the chain. */
  lemma LastLinkRuns<S>(x: Executor<S>, c: AndOr, code: seq<Ir>, m: Machine<S>)
    requires c.rest != [] && AllSupported(c) && AllSupported(DropLast(c)) && Supported(Last(c).1)
    requires ChainCode(c) <= code
    requires ChainSteps(x, DropLast(c), m) <= |ChainCode(DropLast(c))|
    requires Reaches(x, code, 0, m, ChainSteps(x, DropLast(c), m), |ChainCode(DropLast(c))|, Meaning(x, DropLast(c), m))
    ensures ChainSteps(x, c, m) <= |ChainCode(c)|
    ensures Reaches(x, code, 0, m, ChainSteps(x, c, m), |ChainCode(c)|, Meaning(x, c, m))
  {
    LinkLayout(c, code);
    var pc, m1 := |ChainCode(DropLast(c))|, Meaning(x, DropLast(c), m);
    LinkRuns(x, Last(c).0, Last(c).1, code, pc, m1);
    ReachesTrans(x, code, 0, m, ChainSteps(x, DropLast(c), m), pc, m1,
                 LinkSteps(Last(c).0, Last(c).1, m1), |ChainCode(c)|, Meaning(x, c, m));
  }

  /** Where the last link of a chain sits in its code. */
  lemma LinkLayout(c: AndOr, code: seq<Ir>)
    requires c.rest != [] && AllSupported(c) && AllSupported(DropLast(c)) && Supported(Last(c).1)
    requires ChainCode(c) <= code
    ensures var before, body := ChainCode(DropLast(c)), PipelineCode(Last(c).1);
            var pc := |before|;
            && before <= code && |ChainCode(c)| == pc + 1 + |body|
            && code[pc] == Jump(Last(c).0, pc + 1 + |body|)
            && code[pc + 1..pc + 1 + |body|] == body
  {
    var before, body := ChainCode(DropLast(c)), PipelineCode(Last(c).1);
    PiecesOf(before, Jump(Last(c).0, |before| + 1 + |body|), body, code);
  }

  lemma PiecesOf(before: seq<Ir>, jump: Ir, body: seq<Ir>, code: seq<Ir>)
    requires before + [jump] + body <= code
    ensures var pc := |before|;
            before <= code && code[pc] == jump && code[pc + 1..pc + 1 + |body|] == body
  {
    var all := before + [jump] + body;
    assert all[..|before|] == before && all[|before| + 1..] == body && all[|before|] == jump;
    assert code[..|all|] == all;
  }

  /** The code of one `&&` or `||` link runs or skips its pipeline as the status says. */
  lemma LinkRuns<S>(x: Executor<S>, op: Op, p: Pipeline, code: seq<Ir>, pc: nat, m: Machine<S>)
    requires Supported(p)
    requires var body := PipelineCode(p);
             && pc + 1 + |body| <= |code| && code[pc] == Jump(op, pc + 1 + |body|)
             && code[pc + 1..pc + 1 + |body|] == body
    ensures Reaches(x, code, pc, m, LinkSteps(op, p, m), pc + 1 + |PipelineCode(p)|,
                    if Proceeds(op, m) then RunPipeline(x, m, p) else m)
  {
    var end := pc + 1 + |PipelineCode(p)|;
    if Proceeds(op, m) {
      PipelineRuns(x, code, pc + 1, m, p);
    } else {
      assert Reaches(x, code, end, m, 0, end, m);
    }
  }

  /** The run loop follows a reachable stretch as far as the budget allows. */
  lemma {:induction false} RunFollows<S>(x: Executor<S>, code: seq<Ir>, pc: nat, m: Machine<S>, n: nat,
                                         pc': nat, m': Machine<S>, steps: nat, limit: nat)
    requires limit > 0 || ForwardOnly(code)
    requires Reaches(x, code, pc, m, n, pc', m')
    ensures limit == 0 || steps + n <= limit ==>
              Run(x, code, pc, m, steps, limit) == Run(x, code, pc', m', steps + n, limit)
    ensures limit > 0 && steps + n > limit && pc' < |code| ==> Run(x, code, pc, m, steps, limit).0 == Yield
    decreases n
  {
    if n > 0 && (limit == 0 || steps < limit) {
      RunFollows(x, code, NextPc(code[pc], pc, m), NextMachine(x, code[pc], m), n - 1, pc', m', steps + 1, limit);
    }
  }

  /** The budget the lowered program needs: the chain's steps and the final instruction. */
  function Needed<S>(x: Executor<S>, c: AndOr, m: Machine<S>): (n: nat)
    requires AllSupported(c)
  {
    ChainSteps(x, c, m) + 1
  }

  /**
   * For every executor and every supported chain: the lowered program has only
   * patched, forward, in-range jumps and needs at most one step per
   * instruction. One threshold, fixed before the run, decides: with that budget
   * left it stops at the final `ReturnLastStatus` in the chain's meaning, with
   * less it yields.
   */
  lemma LoweringPreservesMeaning<S>(x: Executor<S>, c: AndOr, m: Machine<S>, steps: nat, limit: nat)
    requires AllSupported(c)
    ensures JumpsForward(Program(c), |Program(c)| - 1) && ForwardOnly(Program(c))
    ensures 1 <= Needed(x, c, m) <= |Program(c)|
    ensures limit == 0 || steps + Needed(x, c, m) <= limit ==>
              var end := Meaning(x, c, m);
              Run(x, Program(c), 0, m, steps, limit) == (Done(end.status), end, steps + Needed(x, c, m))
    ensures limit > 0 && steps + Needed(x, c, m) > limit ==> Run(x, Program(c), 0, m, steps, limit).0 == Yield
  {
    var code, body := Program(c), ChainCode(c);
    JumpsAreForward(c);
    forall i | 0 <= i < |code| && IsJump(code[i]) ensures i < code[i].target <= |code| - 1 {
      assert code[i] == body[i];
    }
    assert body <= code;
    ChainRuns(x, c, code, m);
    RunFollows(x, code, 0, m, ChainSteps(x, c, m), |body|, Meaning(x, c, m), steps, limit);
  }
}
