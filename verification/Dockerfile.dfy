/** pkg/dockerfile, `Parse`: from logical lines to a build graph, and on to its schedule.
    JSON decoding and `filepath.Join` are parameters. Warnings are not modelled. */
module Dockerfile {
  import opened Text
  import opened Expansion
  import opened ShellWords
  import opened Digraph
  import Dag

  datatype CopySpec = CopySpec(source: string, dest: string)
  datatype Job = Job(run: string, copy: seq<CopySpec>)
  datatype Stage = Stage(base: string, steps: seq<Job>, entry: seq<string>)
  datatype Step = Step(name: string, job: Job, dependsOn: seq<string>)
  datatype BuildGraph = BuildGraph(steps: map<string, Step>, baseImage: string, entryCmd: seq<string>, edges: Edges)

  datatype Error =
    | FromNeedsImage
    | BeforeFrom(instr: string)
    | CopyNeedsOperands(instr: string)
    | UnknownInstruction(instr: string)
    | NoFrom

  datatype Result<T> = Ok(value: T) | Err(error: Error)

  /** The decoders the parser calls into. */
  datatype Foreign = Foreign(json: string -> Option<seq<string>>, joinPath: (string, string) -> string)

  // ---- lexical helpers (ASCII) ----

  predicate IsSpace(c: char) { c == ' ' || '\t' <= c <= '\r' }

  function TrimLeft(s: string): string { if s != [] && IsSpace(s[0]) then TrimLeft(s[1..]) else s }

  function TrimRight(s: string): string {
    if s != [] && IsSpace(s[|s| - 1]) then TrimRight(s[..|s| - 1]) else s
  }

  function TrimSpace(s: string): string { TrimRight(TrimLeft(s)) }

  function Upper(s: string): string {
    seq(|s|, i requires 0 <= i < |s| => if 'a' <= s[i] <= 'z' then ((s[i] as int) - 32) as char else s[i])
  }

  /** `strings.Fields`; `word` is the field being read. */
  function FieldsFrom(s: string, word: string): seq<string> {
    if s == [] then if word == [] then [] else [word]
    else if IsSpace(s[0]) then (if word == [] then [] else [word]) + FieldsFrom(s[1..], [])
    else FieldsFrom(s[1..], word + [s[0]])
  }

  function Fields(s: string): seq<string> { FieldsFrom(s, []) }

  predicate HasPrefix(s: string, p: string) { p <= s }

  /** `strings.Cut` at the first `c`. */
  function Cut(s: string, c: char): (string, string) {
    var i := IndexByte(s, c);
    if i < 0 then (s, "") else (s[..i], s[i + 1..])
  }

  /** The first blank or tab, or -1. */
  function FirstGap(s: string): (i: int)
    ensures -1 <= i < |s|
  {
    if s == [] then -1 else if s[0] == ' ' || s[0] == '\t' then 0
    else var i := FirstGap(s[1..]); if i < 0 then -1 else i + 1
  }

  /** `splitInstruction`. */
  function Split(line: string): (string, string) {
    var i := FirstGap(line);
    if i >= 0 then (Upper(line[..i]), TrimSpace(line[i + 1..])) else (Upper(line), "")
  }

  function Instr(line: string): string { Split(line).0 }
  function Operand(line: string): string { Split(line).1 }

  predicate IsFrom(line: string) { Instr(line) == "FROM" }
  predicate IsBuild(line: string) { Instr(line) == "RUN" || Instr(line) == "COPY" || Instr(line) == "ADD" }
  predicate NeedsStage(line: string) { IsBuild(line) || Instr(line) == "CMD" || Instr(line) == "ENTRYPOINT" }
  predicate IsNoOp(line: string) {
    Instr(line) in {"EXPOSE", "LABEL", "VOLUME", "USER", "HEALTHCHECK", "STOPSIGNAL", "SHELL", "ONBUILD", "MAINTAINER"}
  }
  predicate IsKnown(line: string) {
    IsFrom(line) || NeedsStage(line) || IsNoOp(line) || Instr(line) in {"ARG", "ENV", "WORKDIR"}
  }

  // ---- the parser state ----

  datatype PState = PState(stages: seq<Stage>, args: Vars, env: Vars, workdir: string)

  function Init(buildArgs: Vars): PState { PState([], buildArgs, map[], "") }

  function ArgsAfter(args: Vars, rest: string): Vars {
    var (name, def) := Cut(rest, '=');
    var name' := TrimSpace(name);
    if name' !in args && def != "" then args[name' := TrimSpace(def)] else args
  }

  function DropFlags(fields: seq<string>): seq<string> {
    if fields != [] && HasPrefix(fields[0], "--") then DropFlags(fields[1..]) else fields
  }

  /** `parseCopyRest`: sources and destination; no sources when malformed. */
  function CopyOperands(f: Foreign, rest: string): (seq<string>, string) {
    var fields := DropFlags(Fields(rest));
    if |fields| >= 2 then (fields[..|fields| - 1], fields[|fields| - 1])
    else
      var arr := f.json(rest);
      if arr.Some? && |arr.value| >= 2 then (arr.value[..|arr.value| - 1], arr.value[|arr.value| - 1]) else ([], "")
  }

  /** `parseEnvRest`. Later assignments to a key win. */
  function EnvPairs(fields: seq<string>): Vars {
    if fields == [] then map[]
    else
      var (k, v) := Cut(fields[|fields| - 1], '=');
      EnvPairs(fields[..|fields| - 1])[k := v]
  }

  function EnvOperands(rest: string): Vars {
    if '=' in rest then EnvPairs(Fields(rest))
    else
      var fields := Fields(rest);
      if |fields| >= 2 then map[fields[0] := Join(fields[1..], " ")] else map[]
  }

  /** The environment after assigning `keys` one after another; each value is expanded in the
      environment its predecessors left. */
  function EnvAfter(keys: seq<string>, pairs: Vars, args: Vars, env: Vars): Vars
    requires forall k :: k in keys ==> k in pairs
  {
    if keys == [] then env
    else
      var env' := EnvAfter(keys[..|keys| - 1], pairs, args, env);
      var k := keys[|keys| - 1];
      env'[k := Expand(pairs[k], args, env')]
  }

  /** Some iteration order of the pairs leads from `env` to `env'`. */
  ghost predicate EnvStep(pairs: Vars, args: Vars, env: Vars, env': Vars) {
    exists keys: seq<string> :: NoDups(keys) && Elems(keys) == pairs.Keys && env' == EnvAfter(keys, pairs, args, env)
  }

  function RunText(f: Foreign, st: PState, rest: string): string {
    var body := TrimSpace(rest);
    var parts := if HasPrefix(body, "[") then f.json(body) else None;
    var text := Expand(if parts.Some? then JoinQuoted(parts.value) else body, st.args, st.env);
    if st.workdir != "" then "cd " + Quote(st.workdir) + " && " + text else text
  }

  function CopyDest(f: Foreign, st: PState, dst: string): string {
    var d := Expand(dst, st.args, st.env);
    if st.workdir != "" && !HasPrefix(d, "/") then f.joinPath(st.workdir, d) else d
  }

  /** The build step a RUN, COPY or ADD line stands for in state `st`. */
  function JobFor(f: Foreign, st: PState, line: string): Job {
    if Instr(line) == "RUN" then Job(RunText(f, st, Operand(line)), [])
    else
      var (srcs, dst) := CopyOperands(f, Operand(line));
      Job("", seq(|srcs|, i requires 0 <= i < |srcs| =>
          CopySpec(Expand(srcs[i], st.args, st.env), CopyDest(f, st, dst))))
  }

  function EntryFor(f: Foreign, st: PState, rest: string): seq<string> {
    var parts := if HasPrefix(rest, "[") then f.json(rest) else None;
    if parts.Some? then
      seq(|parts.value|, i requires 0 <= i < |parts.value| => Expand(parts.value[i], st.args, st.env))
    else Fields(Expand(rest, st.args, st.env))
  }

  /** Why a line is rejected in state `st`, if it is. */
  function LineError(f: Foreign, st: PState, line: string): Option<Error> {
    if IsFrom(line) then if Fields(Operand(line)) == [] then Some(FromNeedsImage) else None
    else if NeedsStage(line) && st.stages == [] then
      Some(BeforeFrom(if Instr(line) == "ADD" then "COPY" else Instr(line)))
    else if Instr(line) == "COPY" || Instr(line) == "ADD" then
      var (srcs, dst) := CopyOperands(f, Operand(line));
      if srcs == [] || dst == "" then Some(CopyNeedsOperands(Instr(line))) else None
    else if IsKnown(line) then None
    else Some(UnknownInstruction(Instr(line)))
  }

  function AddStep(stages: seq<Stage>, s: Job): seq<Stage>
    requires stages != []
  {
    var last := stages[|stages| - 1];
    stages[|stages| - 1 := last.(steps := last.steps + [s])]
  }

  function SetEntry(stages: seq<Stage>, entry: seq<string>): seq<Stage>
    requires stages != []
  {
    stages[|stages| - 1 := stages[|stages| - 1].(entry := entry)]
  }

  /** An accepted line takes `st` to `st'`. */
  ghost predicate LineStep(f: Foreign, st: PState, line: string, st': PState) {
    && LineError(f, st, line).None?
    && var rest := Operand(line);
       if IsFrom(line) then
         st' == PState(st.stages + [Stage(Expand(Fields(rest)[0], st.args, st.env), [], [])], st.args, map[], "")
       else if IsBuild(line) then st' == st.(stages := AddStep(st.stages, JobFor(f, st, line)))
       else if Instr(line) == "ARG" then st' == st.(args := ArgsAfter(st.args, rest))
       else if Instr(line) == "ENV" then
         EnvStep(EnvOperands(rest), st.args, st.env, st'.env) && st' == st.(env := st'.env)
       else if Instr(line) == "WORKDIR" then st' == st.(workdir := Expand(TrimSpace(rest), st.args, st.env))
       else if NeedsStage(line) then st' == st.(stages := SetEntry(st.stages, EntryFor(f, st, TrimSpace(rest))))
       else st' == st
  }

  /** `trace[i]` is the state before line `i`, for the first `k` lines. */
  ghost predicate Trace(f: Foreign, buildArgs: Vars, lines: seq<string>, trace: seq<PState>, k: nat) {
    && k <= |lines| && |trace| == k + 1 && trace[0] == Init(buildArgs)
    && forall i {:trigger lines[i]} :: 0 <= i < k ==> LineStep(f, trace[i], lines[i], trace[i + 1])
  }

  // ---- the parser ----

  lemma EnvAfterSnoc(keys: seq<string>, k: string, pairs: Vars, args: Vars, env: Vars)
    requires (forall x :: x in keys ==> x in pairs) && k in pairs
    ensures forall x :: x in keys + [k] ==> x in pairs
    ensures var env' := EnvAfter(keys, pairs, args, env);
            EnvAfter(keys + [k], pairs, args, env) == env'[k := Expand(pairs[k], args, env')]
  {
    assert (keys + [k])[..|keys|] == keys;
  }

  /** The ENV loop, in whatever order the map iterates. */
  method ApplyEnv(pairs: Vars, args: Vars, env: Vars) returns (env': Vars)
    ensures EnvStep(pairs, args, env, env')
  {
    env' := env;
    ghost var keys: seq<string> := [];
    var todo := pairs.Keys;
    while todo != {}
      invariant todo <= pairs.Keys && NoDups(keys)
      invariant forall k :: k in keys <==> k in pairs && k !in todo
      invariant env' == EnvAfter(keys, pairs, args, env)
    {
      var k :| k in todo;
      todo := todo - {k};
      var v := Substitute(pairs[k], args, env');
      env' := env'[k := v];
      EnvAfterSnoc(keys, k, pairs, args, env);
      keys := keys + [k];
    }
    assert Elems(keys) == pairs.Keys;
  }

  /** What a shell makes of the text of a RUN instruction: under a working directory, a `cd` there
      and then the command. An exec form whose quoted text is inert is one command, with its own
      words; a shell form is expanded, without '$' it is unchanged. */
  ghost predicate RunReads(f: Foreign, st: PState, rest: string, text: string) {
    var body := TrimSpace(rest);
    var parts := if HasPrefix(body, "[") then f.json(body) else None;
    var command := RunText(f, st.(workdir := ""), rest);
    && AndList(text) == (if st.workdir == "" then AndList(command) else Cons(["cd", st.workdir], AndList(command)))
    && (parts.Some? && Inert(Tokenize(JoinQuoted(parts.value))) ==> AndList(command) == Some([parts.value]))
    && (parts.None? ==> command == Expand(body, st.args, st.env))
    && (parts.None? && '$' !in body ==> command == body)
  }

  lemma RunTextReads(f: Foreign, st: PState, rest: string)
    ensures RunReads(f, st, rest, RunText(f, st, rest))
  {
    hide AndList;
    hide Expand;
    hide Quote;
    hide JoinQuoted;
    hide Lex;
    hide Inert;
    var body := TrimSpace(rest);
    var parts := if HasPrefix(body, "[") then f.json(body) else None;
    var command := RunText(f, st.(workdir := ""), rest);
    if st.workdir != "" { CdThenReads(st.workdir, command); }
    if parts.Some? {
      ExecFormSurvivesIffInert(parts.value);
      if Inert(Tokenize(JoinQuoted(parts.value))) { AndListOf(command, ""); }
    } else if '$' !in body {
      DollarFree(body, st.args, st.env);
    }
  }

  /** The RUN case. */
  method RunLine(f: Foreign, st: PState, rest: string) returns (text: string)
    ensures text == RunText(f, st, rest)
    ensures RunReads(f, st, rest, text)
  {
    hide RunReads;
    RunTextReads(f, st, rest);
    var body := TrimSpace(rest);
    if HasPrefix(body, "[") {
      var parts := f.json(body);
      if parts.Some? { body := ShellJoin(parts.value); }
    }
    text := Substitute(body, st.args, st.env);
    if st.workdir != "" {
      var q := ShellQuote(st.workdir);
      text := "cd " + q + " && " + text;
    }
  }

  /** The COPY and ADD cases, once the operands are known to be there. */
  method CopyLine(f: Foreign, st: PState, srcs: seq<string>, dst: string) returns (specs: seq<CopySpec>)
    ensures |specs| == |srcs|
    ensures forall i :: 0 <= i < |srcs| ==> specs[i] == CopySpec(Expand(srcs[i], st.args, st.env), CopyDest(f, st, dst))
  {
    hide Expand;
    specs := [];
    ghost var d0 := Expand(dst, st.args, st.env);
    for i := 0 to |srcs|
      invariant |specs| == i
      invariant forall k :: 0 <= k < i ==> specs[k].source == Expand(srcs[k], st.args, st.env)
      invariant forall k :: 0 <= k < i ==> specs[k].dest == d0
    {
      var src := Substitute(srcs[i], st.args, st.env);
      var d := Substitute(dst, st.args, st.env);
      specs := specs + [CopySpec(src, d)];
    }
    if st.workdir != "" {
      for i := 0 to |specs|
        invariant |specs| == |srcs|
        invariant forall k :: 0 <= k < |srcs| ==> specs[k].source == Expand(srcs[k], st.args, st.env)
        invariant forall k :: 0 <= k < i ==> specs[k].dest == CopyDest(f, st, dst)
        invariant forall k :: i <= k < |srcs| ==> specs[k].dest == d0
      {
        if !HasPrefix(specs[i].dest, "/") {
          specs := specs[i := specs[i].(dest := f.joinPath(st.workdir, specs[i].dest))];
        }
      }
    }
  }

  /** One turn of the instruction switch. */
  method Line(f: Foreign, st: PState, line: string) returns (r: Result<PState>)
    ensures r.Ok? ==> LineError(f, st, line).None? && LineStep(f, st, line, r.value)
    ensures r.Err? ==> LineError(f, st, line) == Some(r.error) && r.error != NoFrom
  {
    var (instr, rest) := Split(line);
    if instr == "FROM" {
      var fields := Fields(rest);
      if fields == [] { return Err(FromNeedsImage); }
      var base := Substitute(fields[0], st.args, st.env);
      return Ok(PState(st.stages + [Stage(base, [], [])], st.args, map[], ""));
    } else if instr == "ARG" {
      return Ok(st.(args := ArgsAfter(st.args, rest)));
    } else if instr == "RUN" {
      if st.stages == [] { return Err(BeforeFrom(instr)); }
      var text := RunLine(f, st, rest);
      return Ok(st.(stages := AddStep(st.stages, Job(text, []))));
    } else if instr == "COPY" || instr == "ADD" {
      if st.stages == [] { return Err(BeforeFrom("COPY")); }
      var (srcs, dst) := CopyOperands(f, rest);
      if srcs == [] || dst == "" { return Err(CopyNeedsOperands(instr)); }
      var specs := CopyLine(f, st, srcs, dst);
      assert Job("", specs) == JobFor(f, st, line);
      return Ok(st.(stages := AddStep(st.stages, Job("", specs))));
    } else if instr == "ENV" {
      var env' := ApplyEnv(EnvOperands(rest), st.args, st.env);
      return Ok(st.(env := env'));
    } else if instr == "WORKDIR" {
      var dir := Substitute(TrimSpace(rest), st.args, st.env);
      return Ok(st.(workdir := dir));
    } else if instr == "CMD" || instr == "ENTRYPOINT" {
      if st.stages == [] { return Err(BeforeFrom(instr)); }
      return Ok(st.(stages := SetEntry(st.stages, EntryFor(f, st, TrimSpace(rest)))));
    } else if IsNoOp(line) {
      return Ok(st);
    } else {
      return Err(UnknownInstruction(instr));
    }
  }

  /** The name of the i-th step. */
  function StepName(i: nat): string { "step-" + Itoa(i) }

  lemma StepNameInjective(i: nat, j: nat)
    ensures StepName(i) == StepName(j) <==> i == j
  {
    ItoaInjective(i, j);
    assert StepName(i)[5..] == Itoa(i) && StepName(j)[5..] == Itoa(j);
  }

  /** What step `i` depends on: its predecessor. */
  function Before(i: nat): seq<string> { if i == 0 then [] else [StepName(i - 1)] }

  function StepNames(n: nat): set<string> {
    if n == 0 then {} else StepNames(n - 1) + {StepName(n - 1)}
  }

  lemma {:induction false} StepNamesFresh(n: nat, i: nat)
    ensures StepName(i) in StepNames(n) <==> i < n
  {
    if n > 0 {
      StepNamesFresh(n - 1, i);
      StepNameInjective(n - 1, i);
    }
  }

  /** Step `i` of the graph: job `i` of the stage, waiting for step `i - 1`. */
  ghost predicate HasStep(g: BuildGraph, i: nat, job: Job) {
    && StepName(i) in g.steps && g.steps[StepName(i)] == Step(StepName(i), job, Before(i))
    && StepName(i) in g.edges && g.edges[StepName(i)] == Before(i)
  }

  /** The graph holds exactly the jobs of the stage, each waiting for the previous one. */
  ghost predicate Assembled(final: Stage, g: BuildGraph) {
    && g.baseImage == final.base && g.entryCmd == final.entry
    && g.steps.Keys == g.edges.Keys == StepNames(|final.steps|)
    && forall i :: 0 <= i < |final.steps| ==> HasStep(g, i, final.steps[i])
  }

  lemma AssembleOne(jobs: seq<Job>, i: nat, g: BuildGraph)
    requires i < |jobs| && Assembled(Stage(g.baseImage, jobs[..i], g.entryCmd), g)
    ensures var g' := g.(steps := g.steps[StepName(i) := Step(StepName(i), jobs[i], Before(i))],
                         edges := g.edges[StepName(i) := Before(i)]);
            Assembled(Stage(g.baseImage, jobs[..i + 1], g.entryCmd), g')
  {
    var g' := g.(steps := g.steps[StepName(i) := Step(StepName(i), jobs[i], Before(i))],
                 edges := g.edges[StepName(i) := Before(i)]);
    assert |jobs[..i]| == i && |jobs[..i + 1]| == i + 1;
    assert StepNames(i + 1) == StepNames(i) + {StepName(i)};
    assert g'.steps.Keys == g.steps.Keys + {StepName(i)} && g'.edges.Keys == g.edges.Keys + {StepName(i)};
    var jobs' := jobs[..i + 1];
    forall k | 0 <= k < |jobs'| ensures HasStep(g', k, jobs'[k]) {
      StepNameInjective(k, i);
      if k < i { assert HasStep(g, k, jobs[..i][k]); }
    }
  }

  /** The final loop of `Parse`: names the steps and chains them. */
  method Assemble(final: Stage) returns (g: BuildGraph)
    ensures Assembled(final, g)
  {
    hide HasStep;
    hide StepName;
    var steps: map<string, Step>, edges: Edges := map[], map[];
    var prev := "";
    for i := 0 to |final.steps|
      invariant if i == 0 then prev == "" else prev == StepName(i - 1) && prev != ""
      invariant Assembled(Stage(final.base, final.steps[..i], final.entry),
                          BuildGraph(steps, final.base, final.entry, edges))
    {
      AssembleOne(final.steps, i, BuildGraph(steps, final.base, final.entry, edges));
      var name := StepName(i);
      StepNameNonEmpty(i);
      var s := Step(name, final.steps[i], []);
      if prev != "" {
        s := s.(dependsOn := [prev]);
        edges := edges[name := [prev]];
      } else {
        edges := edges[name := []];
      }
      steps := steps[name := s];
      prev := name;
    }
    assert final.steps[..|final.steps|] == final.steps;
    g := BuildGraph(steps, final.base, final.entry, edges);
  }

  lemma StepNameNonEmpty(i: nat)
    ensures StepName(i) != ""
  {
    assert |StepName(i)| >= 5;
  }

  // ---- acceptance, read off the lines alone ----

  /** Some line among the first `k` is a FROM. */
  predicate FromAmong(lines: seq<string>, k: nat)
    requires k <= |lines|
  {
    k > 0 && (IsFrom(lines[k - 1]) || FromAmong(lines, k - 1))
  }

  /** Line `i` is a known instruction with its operands, after a FROM if it needs one. */
  predicate LineFine(f: Foreign, lines: seq<string>, i: nat)
    requires i < |lines|
  {
    var line := lines[i];
    && IsKnown(line)
    && (IsFrom(line) ==> Fields(Operand(line)) != [])
    && (NeedsStage(line) ==> FromAmong(lines, i))
    && (Instr(line) == "COPY" || Instr(line) == "ADD" ==>
          var (srcs, dst) := CopyOperands(f, Operand(line)); srcs != [] && dst != "")
  }

  ghost predicate Accepts(f: Foreign, lines: seq<string>) {
    FromAmong(lines, |lines|) && forall i :: 0 <= i < |lines| ==> LineFine(f, lines, i)
  }

  lemma StagesAfterLine(f: Foreign, st: PState, line: string, st': PState)
    requires LineStep(f, st, line, st')
    ensures st'.stages != [] <==> IsFrom(line) || st.stages != []
  {
    hide JobFor;
    hide EnvStep;
    hide Expand;
    hide Split;
  }

  /** A stage is open exactly when a FROM has been read. */
  lemma {:induction false} StagesMeanFrom(f: Foreign, buildArgs: Vars, lines: seq<string>, trace: seq<PState>, k: nat)
    requires Trace(f, buildArgs, lines, trace, k)
    ensures trace[k].stages != [] <==> FromAmong(lines, k)
  {
    hide LineStep;
    hide IsFrom;
    if k > 0 {
      TracePrefix(f, buildArgs, lines, trace, k);
      StagesMeanFrom(f, buildArgs, lines, trace[..k], k - 1);
      assert LineStep(f, trace[k - 1], lines[k - 1], trace[k]);
      StagesAfterLine(f, trace[k - 1], lines[k - 1], trace[k]);
    }
  }

  lemma TracePrefix(f: Foreign, buildArgs: Vars, lines: seq<string>, trace: seq<PState>, k: nat)
    requires Trace(f, buildArgs, lines, trace, k) && k > 0
    ensures Trace(f, buildArgs, lines, trace[..k], k - 1)
  {
    hide LineStep;
    var before := trace[..k];
    forall i | 0 <= i < k - 1 ensures LineStep(f, before[i], lines[i], before[i + 1]) {
      assert before[i] == trace[i] && before[i + 1] == trace[i + 1];
    }
  }

  lemma FineIffNoError(f: Foreign, st: PState, lines: seq<string>, i: nat)
    requires i < |lines| && (st.stages != [] <==> FromAmong(lines, i))
    ensures LineFine(f, lines, i) <==> LineError(f, st, lines[i]).None?
  {
    hide Split;
    hide CopyOperands;
    hide Fields;
  }

  lemma StepIsFine(f: Foreign, buildArgs: Vars, lines: seq<string>, trace: seq<PState>, k: nat)
    requires Trace(f, buildArgs, lines, trace, k) && k < |lines|
    ensures LineFine(f, lines, k) <==> LineError(f, trace[k], lines[k]).None?
  {
    hide LineStep;
    StagesMeanFrom(f, buildArgs, lines, trace, k);
    FineIffNoError(f, trace[k], lines, k);
  }

  /** `Parse`. The ghost trace is the run of the instruction loop. */
  method Parse(f: Foreign, lines: seq<string>, buildArgs: Vars)
    returns (r: Result<BuildGraph>, ghost trace: seq<PState>)
    ensures r.Ok? ==>
      && Trace(f, buildArgs, lines, trace, |lines|)
      && trace[|lines|].stages != []
      && Assembled(trace[|lines|].stages[|trace[|lines|].stages| - 1], r.value)
    ensures r.Err? && r.error != NoFrom ==>
      && 0 < |trace| <= |lines| && Trace(f, buildArgs, lines, trace, |trace| - 1)
      && LineError(f, trace[|trace| - 1], lines[|trace| - 1]) == Some(r.error)
    ensures r == Err(NoFrom) ==> Trace(f, buildArgs, lines, trace, |lines|) && trace[|lines|].stages == []
    ensures r.Ok? <==> Accepts(f, lines)
  {
    hide LineStep;
    hide LineFine;
    hide LineError;
    hide IsFrom;
    var st := Init(buildArgs);
    trace := [st];
    for i := 0 to |lines|
      invariant Trace(f, buildArgs, lines, trace, i) && trace[i] == st
      invariant forall k :: 0 <= k < i ==> LineFine(f, lines, k)
    {
      StepIsFine(f, buildArgs, lines, trace, i);
      var next := Line(f, st, lines[i]);
      if next.Err? { return Err(next.error), trace; }
      st := next.value;
      ghost var trace' := trace + [st];
      assert forall k :: 0 <= k <= i ==> trace'[k] == trace[k];
      trace := trace';
    }
    StagesMeanFrom(f, buildArgs, lines, trace, |lines|);
    if st.stages == [] { return Err(NoFrom), trace; }
    var g := Assemble(st.stages[|st.stages| - 1]);
    r := Ok(g);
  }

  // ---- what an accepted Dockerfile builds ----

  /** Indices, in source order, of the RUN, COPY and ADD lines among the first `k` that come
      after the last FROM among them. */
  function BuildIndices(lines: seq<string>, k: nat): (r: seq<nat>)
    requires k <= |lines|
  {
    if k == 0 || IsFrom(lines[k - 1]) then []
    else BuildIndices(lines, k - 1) + (if IsBuild(lines[k - 1]) then [k - 1] else [])
  }

  /** Line `i` is a build line with no FROM after it among the first `k`. */
  ghost predicate InFinalStage(lines: seq<string>, k: nat, i: nat)
    requires k <= |lines|
  {
    i < k && IsBuild(lines[i]) && forall m :: i < m < k ==> !IsFrom(lines[m])
  }

  /** Exactly those lines, in ascending order. */
  lemma {:induction false} BuildIndicesExact(lines: seq<string>, k: nat)
    requires k <= |lines|
    ensures var r := BuildIndices(lines, k);
            && (forall a, b :: 0 <= a < b < |r| ==> r[a] < r[b])
            && (forall i: nat :: i in r <==> InFinalStage(lines, k, i))
  {
    hide Instr;
    if k > 0 {
      BuildIndicesExact(lines, k - 1);
      var r, r' := BuildIndices(lines, k), BuildIndices(lines, k - 1);
      forall a | 0 <= a < |r'| ensures r'[a] < k - 1 { assert r'[a] in r' && InFinalStage(lines, k - 1, r'[a]); }
      forall i: nat ensures i in r <==> InFinalStage(lines, k, i) {
        if i < k - 1 {
          assert i in r' <==> InFinalStage(lines, k - 1, i);
          assert InFinalStage(lines, k, i) <==> InFinalStage(lines, k - 1, i) && !IsFrom(lines[k - 1]);
        } else if i == k - 1 {
          assert !InFinalStage(lines, k - 1, i);
        }
      }
    }
  }

  /** The jobs of the stage being parsed. */
  function CurrentJobs(st: PState): seq<Job> {
    if st.stages == [] then [] else st.stages[|st.stages| - 1].steps
  }

  lemma JobsAfterLine(f: Foreign, st: PState, line: string, st': PState)
    requires LineStep(f, st, line, st')
    ensures CurrentJobs(st') ==
            if IsFrom(line) then []
            else if IsBuild(line) then CurrentJobs(st) + [JobFor(f, st, line)]
            else CurrentJobs(st)
  {
    hide JobFor;
    hide EnvStep;
    hide Expand;
    hide Split;
  }

  /** After any run, the current stage holds the jobs of exactly those lines, each compiled in
      the state before its line. */
  lemma {:induction false} JobsFollowSource(f: Foreign, buildArgs: Vars, lines: seq<string>, trace: seq<PState>, k: nat)
    requires Trace(f, buildArgs, lines, trace, k)
    ensures var jobs, ix := CurrentJobs(trace[k]), BuildIndices(lines, k);
            && |jobs| == |ix|
            && forall j :: 0 <= j < |ix| ==> ix[j] < k && jobs[j] == JobFor(f, trace[ix[j]], lines[ix[j]])
  {
    assert k == 0 ==> CurrentJobs(trace[k]) == [];
    hide LineStep;
    hide JobFor;
    hide Split;
    hide CurrentJobs;
    hide IsFrom;
    hide IsBuild;
    if k > 0 {
      var before := trace[..k];
      TracePrefix(f, buildArgs, lines, trace, k);
      JobsFollowSource(f, buildArgs, lines, before, k - 1);
      assert before[k - 1] == trace[k - 1] && LineStep(f, trace[k - 1], lines[k - 1], trace[k]);
      JobsAfterLine(f, trace[k - 1], lines[k - 1], trace[k]);
    }
  }

  /** A FROM starts from scratch except for build arguments. */
  lemma FromResets(f: Foreign, buildArgs: Vars, lines: seq<string>, trace: seq<PState>, k: nat, i: nat)
    requires Trace(f, buildArgs, lines, trace, k) && i < k && IsFrom(lines[i])
    ensures trace[i + 1].env == map[] && trace[i + 1].workdir == "" && trace[i + 1].args == trace[i].args
    ensures trace[i + 1].stages[|trace[i + 1].stages| - 1].steps == []
  {
    assert LineStep(f, trace[i], lines[i], trace[i + 1]);
  }

  // ---- scheduling the parsed graph (pkg/build, Execute) ----

  /** One step per level, in source order. */
  function Singletons(n: nat): seq<seq<string>> {
    if n == 0 then [] else Singletons(n - 1) + [[StepName(n - 1)]]
  }

  ghost function StepLevel(n: nat): map<string, nat> {
    if n == 0 then map[] else StepLevel(n - 1)[StepName(n - 1) := n - 1]
  }

  lemma {:induction false} StepLevelExact(n: nat)
    ensures StepLevel(n).Keys == StepNames(n)
    ensures forall i :: 0 <= i < n ==> StepName(i) in StepLevel(n) && StepLevel(n)[StepName(i)] == i
    ensures forall x :: x in StepLevel(n) ==> StepLevel(n)[x] < n && x == StepName(StepLevel(n)[x])
  {
    hide StepName;
    if n > 0 {
      StepLevelExact(n - 1);
      forall i | 0 <= i < n ensures StepName(i) in StepLevel(n) && StepLevel(n)[StepName(i)] == i {
        StepNameInjective(i, n - 1);
      }
    }
  }

  lemma {:induction false} SingletonsExact(n: nat)
    ensures |Singletons(n)| == n && forall i :: 0 <= i < n ==> Singletons(n)[i] == [StepName(i)]
  {
    hide StepName;
    if n > 0 { SingletonsExact(n - 1); }
  }

  lemma ChainDeps(final: Stage, g: BuildGraph, x: string)
    requires Assembled(final, g) && x in g.edges
    ensures x in StepLevel(|final.steps|) && DepsOf(g.edges, x) == Before(StepLevel(|final.steps|)[x])
  {
    hide StepName;
    var n := |final.steps|;
    StepLevelExact(n);
    var i := StepLevel(n)[x];
    assert HasStep(g, i, final.steps[i]);
  }

  lemma StepLevelGroups(n: nat)
    ensures Dag.Grouped(StepLevel(n), Singletons(n))
  {
    hide StepName;
    StepLevelExact(n);
    SingletonsExact(n);
  }

  /** The chain of steps is levelled by position. */
  lemma ChainIsLevelled(final: Stage, g: BuildGraph)
    requires Assembled(final, g)
    ensures var n := |final.steps|;
            && Targets(g.edges) <= g.steps.Keys
            && Dag.Levelling(g.edges, g.steps.Keys, StepLevel(n)) && Dag.Grouped(StepLevel(n), Singletons(n))
  {
    hide *;
    var n := |final.steps|;
    var level := StepLevel(n);
    assert level.Keys == g.edges.Keys == g.steps.Keys by { StepLevelExact(n); StepKeys(final, g); }
    forall x, d | x in g.edges && d in DepsOf(g.edges, x) ensures d in level && level[d] + 1 == level[x] {
      ChainStep(final, g, x);
    }
    forall x | x in level && level[x] > 0 ensures DepsOf(g.edges, x) != [] { ChainStep(final, g, x); }
    Dag.UnitStepsLevel(g.edges, level);
    StepLevelGroups(n);
  }

  lemma StepKeys(final: Stage, g: BuildGraph)
    requires Assembled(final, g)
    ensures g.steps.Keys == g.edges.Keys == StepNames(|final.steps|)
  {
  }

  lemma ChainStep(final: Stage, g: BuildGraph, x: string)
    requires Assembled(final, g) && x in g.edges
    ensures var level := StepLevel(|final.steps|);
            && x in level && (level[x] > 0 ==> DepsOf(g.edges, x) != [])
            && forall d :: d in DepsOf(g.edges, x) ==> d in level && level[d] + 1 == level[x]
  {
    hide StepName;
    StepLevelExact(|final.steps|);
    ChainDeps(final, g, x);
  }

  /** The scheduling part of `Execute`: steps in any map order, their edges, the level sort. */
  method Schedule(g: BuildGraph) returns (levels: Option<seq<seq<string>>>)
    ensures forall final :: Assembled(final, g) ==>
              levels == if final.steps == [] then None else Some(Singletons(|final.steps|))
  {
    hide HasStep;
    hide StepName;
    if g.steps == map[] {
      forall final | Assembled(final, g) ensures final.steps == [] { StepNamesNonEmpty(|final.steps|); }
      return None;
    }
    var nodes: seq<string> := [];
    var todo := g.steps.Keys;
    while todo != {}
      invariant todo <= g.steps.Keys && Elems(nodes) == g.steps.Keys - todo
    {
      var name :| name in todo;
      todo := todo - {name};
      assert Elems(nodes + [name]) == Elems(nodes) + {name};
      nodes := nodes + [name];
    }
    var dag := new Dag.Graph.New(nodes, g.edges);
    ghost var level;
    levels, level := Dag.TopologicalSort(dag);
    forall final | Assembled(final, g)
      ensures final.steps != [] && levels == Some(Singletons(|final.steps|))
    {
      var n := |final.steps|;
      ChainIsLevelled(final, g);
      assert dag.nodes == g.steps.Keys;
      Dag.CompleteMeansAcyclic(g.edges, g.steps.Keys, StepLevel(n));
      Dag.LevelsUnique(g.edges, g.steps.Keys, level, levels.value, StepLevel(n), Singletons(n));
    }
  }

  lemma StepNamesNonEmpty(n: nat)
    ensures StepNames(n) == {} <==> n == 0
  {
    if n > 0 { assert StepName(n - 1) in StepNames(n); }
  }

  /** From Dockerfile to plan: an accepted file with build lines is executed one step at a time,
      in source order, and step `j` is the j-th build line after the last FROM. */
  method Plan(f: Foreign, lines: seq<string>, buildArgs: Vars)
    returns (r: Result<BuildGraph>, levels: Option<seq<seq<string>>>, ghost trace: seq<PState>)
    ensures r.Ok? <==> Accepts(f, lines)
    ensures r.Ok? ==>
      var ix := BuildIndices(lines, |lines|);
      && Trace(f, buildArgs, lines, trace, |lines|)
      && levels == (if ix == [] then None else Some(Singletons(|ix|)))
      && |r.value.steps| == |ix| && trace[|lines|].stages != []
      && r.value.baseImage == trace[|lines|].stages[|trace[|lines|].stages| - 1].base
      && r.value.entryCmd == trace[|lines|].stages[|trace[|lines|].stages| - 1].entry
      && forall j :: 0 <= j < |ix| ==>
          ix[j] < |lines| && HasStep(r.value, j, JobFor(f, trace[ix[j]], lines[ix[j]]))
  {
    hide HasStep;
    hide JobFor;
    hide LineStep;
    hide StepName;
    hide LineError;
    hide LineFine;
    levels := None;
    r, trace := Parse(f, lines, buildArgs);
    if r.Ok? {
      levels := Schedule(r.value);
      JobsFollowSource(f, buildArgs, lines, trace, |lines|);
      StepNamesCount(|CurrentJobs(trace[|lines|])|);
    }
  }

  lemma {:induction false} StepNamesCount(n: nat)
    ensures |StepNames(n)| == n
  {
    if n > 0 {
      StepNamesCount(n - 1);
      StepNamesFresh(n - 1, n - 1);
    }
  }

  /** An exec-form RUN reaches the shell as the list the Dockerfile gave, after a `cd` if there is a
      working directory, for all variables exactly when its quoted text is inert; in particular
      when no word has a '$'. */
  lemma ExecFormRunsAsGiven(f: Foreign, st: PState, line: string, parts: seq<string>)
    requires Instr(line) == "RUN"
    requires HasPrefix(TrimSpace(Operand(line)), "[") && f.json(TrimSpace(Operand(line))) == Some(parts)
    ensures (forall args, env ::
               AndList(JobFor(f, st.(args := args, env := env), line).run) == Some(InDir(st.workdir, parts)))
            <==> Inert(Tokenize(JoinQuoted(parts)))
    ensures (forall p :: p in parts ==> '$' !in p) ==> Inert(Tokenize(JoinQuoted(parts)))
  {
    hide Split;
    hide Expand;
    hide Lex;
    hide AndList;
    hide Inert;
    hide Quote;
    hide JoinQuoted;
    var quoted := JoinQuoted(parts);
    forall args, env
      ensures AndList(JobFor(f, st.(args := args, env := env), line).run) == Some(InDir(st.workdir, parts)) <==>
              Lex(Expand(quoted, args, env)) == Some(parts)
    {
      var command := Expand(quoted, args, env);
      OneCommandIff(command, parts);
      assert JobFor(f, st.(args := args, env := env), line).run ==
        if st.workdir == "" then command else "cd " + Quote(st.workdir) + " && " + command;
      CdThenReads(st.workdir, command);
      ConsIff(["cd", st.workdir], AndList(command), parts);
    }
    ExecFormSurvivesIffInert(parts);
    if forall p :: p in parts ==> '$' !in p {
      forall args, env ensures Lex(Expand(quoted, args, env)) == Some(parts) { DollarFreeExecForm(parts, args, env); }
    }
  }

  /** A command, behind a change of directory if there is one. */
  function InDir(dir: string, command: seq<string>): seq<seq<string>> {
    if dir == "" then [command] else [["cd", dir], command]
  }

  lemma ConsIff(first: seq<string>, r: Option<seq<seq<string>>>, second: seq<string>)
    ensures Cons(first, r) == Some([first, second]) <==> r == Some([second])
  {
    if r.Some? {
      assert ([first] + r.value)[1..] == r.value;
      assert [first, second][1..] == [second] && [first] + [second] == [first, second];
    }
  }

  lemma OneCommandIff(s: string, words: seq<string>)
    ensures AndList(s) == Some([words]) <==> Lex(s) == Some(words)
    ensures AndList(s).Some? ==> |AndList(s).value| > 0
  {
    hide Lex;
    if Lex(s).Some? {
      AndListOf(s, "");
    } else if FindAnd(s, 0).Some? {
      OneCommandIff(s[FindAnd(s, 0).value + 2..], words);
    }
  }
}
