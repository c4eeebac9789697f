/** internal/runtime: the state record of one container and its restart counter. Every writer loads
    the record, works on its copy and saves it later, so the model interleaves loads and saves;
    a run is any list of events, with events that are not enabled ignored. */
module Lifecycle {
  import opened Text

  datatype Status = Created | Running | Paused | Stopped

  datatype Record = Record(status: Status, pid: int, exitCode: int)

  datatype PolicyName = No | Always | OnFailure | UnlessStopped
  datatype Policy = Policy(name: PolicyName, maxRetries: nat)

  /** What a writer holding a copy is about to do with it. */
  datatype Task =
    | Pausing | Unpausing | Reconciling
    | Resetting                          // restart command and compose: back to created, PID kept
    | Reviving                           // start command: the same, unless it is running
    | Restoring                          // checkpoint restore
    | Renaming
    | Starting(origin: Option<nat>)      // Start, between load and save; called by a supervisor or not
    | Supervising                        // the goroutine that waits for the process
    | Deciding(code: int, seen: nat)     // tryRestart, after reading the counter
    | Relaunching(code: int)             // tryRestart, in its call of Start
    | Stopping(code: int)                // the supervisor gives up; tryRestart could not save
    | Finished

  datatype Thread = Thread(task: Task, copy: Record)

  /** `decided` holds the supervisors that decided to restart, `relaunched` those whose restart put a
      new process in place. */
  datatype State = State(
    record: Option<Record>,
    counter: nat,
    threads: map<nat, Thread>,
    decided: set<nat>,
    relaunched: set<nat>)

  /** `ok` tells whether the record could be saved, `readable` and `counted` whether the counter file
      could be read and written; the source carries on without any of them. */
  datatype Event =
    | Create
    | Load(t: nat, task: Task)
    | Save(t: nat, pid: int, ok: bool)   // `pid` is the process just started or restored; for a
                                         // relaunching supervisor: its Start failed
    | Read(t: nat, code: int, readable: bool)          // the process exits; tryRestart reads the counter
    | Commit(t: nat, counted: bool, ok: bool)          // and acts on what it read
    | Exit(t: nat, code: int, readable: bool, counted: bool, ok: bool) // both in one step

  const INIT := State(None, 0, map[], {}, {})

  predicate InTask(s: State, t: nat, task: Task) { t in s.threads && s.threads[t].task == task }

  predicate IsRelaunching(s: State, t: nat) { t in s.threads && s.threads[t].task.Relaunching? }

  /** Whether a command may start from this record. */
  predicate MayLoad(s: State, task: Task, r: Record) {
    match task
    case Pausing => r.status == Running
    case Unpausing => r.status == Paused
    case Reconciling => r.status == Running && r.pid > 0
    case Starting(origin) => r.status == Created && (origin.Some? ==> IsRelaunching(s, origin.value))
    case Resetting => true
    case Reviving => r.status != Running
    case Restoring => true
    case Renaming => true
    case _ => false
  }

  /** Whether a task is at a point where it saves its copy. A process that was started or restored
      has a positive PID; a Start called by a supervisor returns while that supervisor waits. */
  predicate MaySave(s: State, task: Task, pid: int) {
    match task
    case Supervising => false
    case Deciding(_, _) => false
    case Finished => false
    case Restoring => pid > 0
    case Starting(origin) => pid > 0 && (origin.Some? ==> IsRelaunching(s, origin.value))
    case _ => true
  }

  /** The record a task saves. */
  function Outcome(task: Task, r: Record, pid: int): Record {
    match task
    case Pausing => r.(status := Paused)
    case Unpausing => r.(status := Running)
    case Reconciling => r.(status := Stopped)
    case Resetting => r.(status := Created)
    case Reviving => r.(status := Created)
    case Restoring => r.(status := Running, pid := pid)
    case Starting(_) => r.(status := Running, pid := pid)
    case Relaunching(code) => r.(status := Stopped, exitCode := code)
    case Stopping(code) => r.(status := Stopped, exitCode := code)
    case _ => r
  }

  function Write(s: State, r: Record, ok: bool): State {
    if ok then s.(record := Some(r)) else s
  }

  function Saved(s: State, t: nat, pid: int, ok: bool): State
    requires t in s.threads
  {
    var Thread(task, copy) := s.threads[t];
    var next := Outcome(task, copy, pid);
    var after := if task.Starting? then Supervising else Finished;
    var s' := Write(s, next, ok).(threads := s.threads[t := Thread(after, next)]);
    if task.Starting? && task.origin.Some? && IsRelaunching(s', task.origin.value) then
      var u := task.origin.value;
      s'.(threads := s'.threads[u := s'.threads[u].(task := Finished)], relaunched := s'.relaunched + {u})
    else s'
  }

  /** `tryRestart`: the policy wants a restart and the counter it read allows one. */
  predicate Restarts(p: Policy, code: int, seen: nat) {
    && (p.name == Always || p.name == UnlessStopped || (p.name == OnFailure && code != 0))
    && (p.maxRetries > 0 ==> seen < p.maxRetries)
  }

  /** What the supervisor does once it has read the counter. */
  function Decide(s: State, p: Policy, t: nat, code: int, seen: nat, counted: bool, ok: bool): State
    requires t in s.threads
  {
    var r := s.threads[t].copy;
    if Restarts(p, code, seen) then
      var next := r.(status := Created, pid := 0);
      Write(s, next, ok).(counter := if counted then seen + 1 else s.counter, decided := s.decided + {t},
                          threads := s.threads[t := Thread(if ok then Relaunching(code) else Stopping(code), next)])
    else
      var next := r.(status := Stopped, exitCode := code);
      Write(s, next, ok).(threads := s.threads[t := Thread(Finished, next)])
  }

  /** The number of restarts read from the counter file, 0 if that fails. */
  function Seen(s: State, readable: bool): nat { if readable then s.counter else 0 }

  function Apply(s: State, p: Policy, e: Event): State {
    match e
    case Create => Write(s, Record(Created, 0, 0), true)
    case Load(t, task) =>
      if t in s.threads || s.record.None? || !MayLoad(s, task, s.record.value) then s
      else s.(threads := s.threads[t := Thread(task, s.record.value)])
    case Save(t, pid, ok) =>
      if t !in s.threads || !MaySave(s, s.threads[t].task, pid) then s else Saved(s, t, pid, ok)
    case Read(t, code, readable) =>
      if !InTask(s, t, Supervising) then s
      else s.(threads := s.threads[t := s.threads[t].(task := Deciding(code, Seen(s, readable)))])
    case Commit(t, counted, ok) =>
      if t !in s.threads || !s.threads[t].task.Deciding? then s
      else Decide(s, p, t, s.threads[t].task.code, s.threads[t].task.seen, counted, ok)
    case Exit(t, code, readable, counted, ok) =>
      if !InTask(s, t, Supervising) then s else Decide(s, p, t, code, Seen(s, readable), counted, ok)
  }

  function Exec(p: Policy, es: seq<Event>): State {
    if es == [] then INIT else Apply(Exec(p, es[..|es| - 1]), p, es[|es| - 1])
  }

  // ---- a live status always comes with a process ----

  predicate Live(r: Record) { r.status == Running || r.status == Paused ==> r.pid > 0 }

  ghost predicate Inv(s: State, p: Policy) {
    && (s.record.Some? ==> Live(s.record.value))
    && (forall t :: t in s.threads ==> ThreadOk(s, t))
    && (p.maxRetries > 0 ==> s.counter <= p.maxRetries)
    && s.counter <= |s.decided|
    && s.decided <= s.threads.Keys && s.relaunched <= s.decided
  }

  /** A copy is live and fits the work it was taken for; a supervisor decides once. */
  predicate ThreadOk(s: State, t: nat)
    requires t in s.threads
  {
    var Thread(task, copy) := s.threads[t];
    && Live(copy)
    && (task.Pausing? ==> copy.status == Running)
    && (task.Unpausing? ==> copy.status == Paused)
    && (task.Deciding? ==> task.seen <= |s.decided|)
    && (task.Relaunching? ==> t in s.decided)
    && (t in s.decided ==> task.Relaunching? || task.Stopping? || task.Finished?)
  }

  lemma KeepDecide(s: State, p: Policy, t: nat, code: int, seen: nat, counted: bool, ok: bool)
    requires Inv(s, p) && t in s.threads && t !in s.decided && seen <= |s.decided|
    ensures Inv(Decide(s, p, t, code, seen, counted, ok), p)
  {
    var s' := Decide(s, p, t, code, seen, counted, ok);
    forall u | u in s'.threads ensures ThreadOk(s', u) {
      assert u != t ==> s'.threads[u] == s.threads[u] && ThreadOk(s, u);
      assert ThreadOk(s, t);
    }
  }

  lemma KeepSaved(s: State, p: Policy, t: nat, pid: int, ok: bool)
    requires Inv(s, p) && t in s.threads && MaySave(s, s.threads[t].task, pid)
    ensures Inv(Saved(s, t, pid, ok), p)
  {
    var s' := Saved(s, t, pid, ok);
    assert ThreadOk(s, t);
    forall u | u in s'.threads ensures ThreadOk(s', u) { assert ThreadOk(s, u); }
  }

  lemma Keep(s: State, p: Policy, e: Event)
    requires Inv(s, p)
    ensures Inv(Apply(s, p, e), p)
  {
    hide Decide;
    hide Saved;
    match e
    case Save(t, pid, ok) =>
      if t in s.threads && MaySave(s, s.threads[t].task, pid) { KeepSaved(s, p, t, pid, ok); }
    case Commit(t, counted, ok) =>
      if t in s.threads && s.threads[t].task.Deciding? {
        assert ThreadOk(s, t);
        KeepDecide(s, p, t, s.threads[t].task.code, s.threads[t].task.seen, counted, ok);
      }
    case Exit(t, code, readable, counted, ok) =>
      if InTask(s, t, Supervising) {
        assert ThreadOk(s, t);
        KeepDecide(s, p, t, code, Seen(s, readable), counted, ok);
      }
    case _ =>
      var s' := Apply(s, p, e);
      forall u | u in s'.threads ensures ThreadOk(s', u) { if u in s.threads { assert ThreadOk(s, u); } }
  }

  lemma {:induction false} Reachable(p: Policy, es: seq<Event>)
    ensures Inv(Exec(p, es), p)
  {
    hide Apply;
    if es != [] {
      Reachable(p, es[..|es| - 1]);
      Keep(Exec(p, es[..|es| - 1]), p, es[|es| - 1]);
    }
  }

  /** Every record ever written as running or paused names a process, however loads and saves
      interleave. */
  lemma LiveRecordsHaveProcess(p: Policy, es: seq<Event>, r: Record)
    requires Exec(p, es).record == Some(r)
    ensures r.status == Running || r.status == Paused ==> r.pid > 0
  {
    hide Exec;
    Reachable(p, es);
  }

  /** In any interleaving, and whatever fails, the persisted counter stays within a positive limit,
      never claims more restarts than were decided, and every relaunch was decided. */
  lemma CounterBounded(p: Policy, es: seq<Event>)
    ensures var s := Exec(p, es);
            && (p.maxRetries > 0 ==> s.counter <= p.maxRetries)
            && s.counter <= |s.decided| && s.relaunched <= s.decided && |s.relaunched| <= |s.decided|
  {
    hide Exec;
    Reachable(p, es);
    SubsetCard(Exec(p, es).relaunched, Exec(p, es).decided);
  }

  // ---- how often a container restarts ----

  /** A supervisor acting on the count it saw. */
  datatype Decision = Decision(t: nat, code: int, seen: nat, counted: bool)

  /** The decision that `e` makes, if any. */
  function DecisionOf(s: State, e: Event): Option<Decision> {
    match e
    case Commit(t, counted, _) =>
      if t in s.threads && s.threads[t].task.Deciding? then
        Some(Decision(t, s.threads[t].task.code, s.threads[t].task.seen, counted))
      else None
    case Exit(t, code, readable, counted, _) =>
      if InTask(s, t, Supervising) then Some(Decision(t, code, Seen(s, readable), counted)) else None
    case _ => None
  }

  /** If `e` decides on a restart, it does so on the current count and stores the next one. */
  predicate Clean(s: State, p: Policy, e: Event) {
    var d := DecisionOf(s, e);
    d.Some? && Restarts(p, d.value.code, d.value.seen) ==> d.value.seen == s.counter && d.value.counted
  }

  ghost predicate CleanRun(p: Policy, es: seq<Event>) {
    forall i :: 0 <= i < |es| ==> Clean(Exec(p, es[..i]), p, es[i])
  }

  predicate Counted(s: State) { |s.decided| == s.counter }

  lemma NoDecision(s: State, p: Policy, e: Event)
    requires DecisionOf(s, e).None?
    ensures Apply(s, p, e).decided == s.decided && Apply(s, p, e).counter == s.counter
  {
  }

  lemma DecisionStep(s: State, p: Policy, e: Event)
    requires Inv(s, p) && DecisionOf(s, e).Some?
    ensures var Decision(t, code, seen, counted) := DecisionOf(s, e).value; var s' := Apply(s, p, e);
            && t !in s.decided
            && s'.decided == (if Restarts(p, code, seen) then s.decided + {t} else s.decided)
            && s'.counter == (if Restarts(p, code, seen) && counted then seen + 1 else s.counter)
  {
    hide Restarts;
    hide Live;
    assert ThreadOk(s, e.t);
  }

  lemma CountedStep(s: State, p: Policy, e: Event)
    requires Inv(s, p) && Counted(s)
    ensures Counted(Apply(s, p, e)) <==> Clean(s, p, e)
  {
    hide Apply;
    hide Inv;
    hide Restarts;
    if DecisionOf(s, e).None? { NoDecision(s, p, e); } else { DecisionStep(s, p, e); }
  }

  /** The counter tells the number of restarts all along a run exactly when every decision acts on
      the current count and manages to store the next one. */
  lemma {:induction false} CountedIff(p: Policy, es: seq<Event>)
    ensures (forall i :: 0 <= i <= |es| ==> Counted(Exec(p, es[..i]))) <==> CleanRun(p, es)
  {
    hide Exec;
    hide Apply;
    hide Clean;
    hide Counted;
    if es == [] {
      ExecEmpty(p);
      assert es[..0] == [];
      assert Counted(INIT) by { InitCounted(); }
    } else {
      var front := es[..|es| - 1];
      CountedIff(p, front);
      Reachable(p, front);
      ExecLast(p, es);
      assert forall i :: 0 <= i <= |front| ==> front[..i] == es[..i];
      assert es[..|es|] == es;
      if Counted(Exec(p, front)) { CountedStep(Exec(p, front), p, es[|es| - 1]); }
    }
  }

  lemma InitCounted()
    ensures Counted(INIT)
  {
  }

  lemma ExecLast(p: Policy, es: seq<Event>)
    requires es != []
    ensures Exec(p, es) == Apply(Exec(p, es[..|es| - 1]), p, es[|es| - 1])
  {
  }

  /** So in such a run a bounded policy stops: at most `maxRetries` restarts, and no more new
      processes than that. */
  lemma CleanRestartsBounded(p: Policy, es: seq<Event>)
    requires CleanRun(p, es) && p.maxRetries > 0
    ensures |Exec(p, es).relaunched| <= |Exec(p, es).decided| <= p.maxRetries
  {
    hide Exec;
    CountedIff(p, es);
    assert es[..|es|] == es;
    CounterBounded(p, es);
  }

  /** A run whose decisions are single steps, with a counter file that can be read and written, is
      one. */
  lemma AtomicRestartsBounded(p: Policy, es: seq<Event>)
    requires forall i :: 0 <= i < |es| ==> !es[i].Commit? && (es[i].Exit? ==> es[i].readable && es[i].counted)
    ensures CleanRun(p, es)
    ensures p.maxRetries > 0 ==> |Exec(p, es).relaunched| <= |Exec(p, es).decided| <= p.maxRetries
  {
    hide Exec;
    if p.maxRetries > 0 { CleanRestartsBounded(p, es); }
  }

  // ---- the on-failure policy ----

  /** `e` ends a supervised process with a failure. */
  predicate IsFailure(s: State, e: Event) { (e.Read? || e.Exit?) && e.code != 0 && InTask(s, e.t, Supervising) }

  /** The positions in a run at which a supervised process ends with a failure. */
  function Failures(p: Policy, es: seq<Event>): set<nat> {
    set i | 0 <= i < |es| && IsFailure(Exec(p, es[..i]), es[i])
  }

  /** The supervisors whose process so ended. */
  function FailedIn(p: Policy, es: seq<Event>): set<nat> {
    if es == [] then {}
    else
      var front, last := es[..|es| - 1], es[|es| - 1];
      FailedIn(p, front) + (if IsFailure(Exec(p, front), last) then {last.t} else {})
  }

  lemma FailuresGrow(p: Policy, es: seq<Event>)
    requires es != []
    ensures var front, last := es[..|es| - 1], es[|es| - 1];
            Failures(p, es) == Failures(p, front) + if IsFailure(Exec(p, front), last) then {|front|} else {}
  {
    hide Exec;
    hide IsFailure;
    var front := es[..|es| - 1];
    forall i | 0 <= i < |front| ensures es[..i] == front[..i] && es[i] == front[i] {
    }
  }

  lemma {:induction false} FailedCount(p: Policy, es: seq<Event>)
    ensures |FailedIn(p, es)| <= |Failures(p, es)|
    ensures forall t :: t in FailedIn(p, es) ==> exists i :: i in Failures(p, es) && es[i].t == t
  {
    hide Exec;
    hide IsFailure;
    hide Failures;
    if es != [] {
      var front, last := es[..|es| - 1], es[|es| - 1];
      FailedCount(p, front);
      FailuresGrow(p, es);
      FailuresInside(p, front);
      FailuresInside(p, es);
      forall t | t in FailedIn(p, es) ensures exists i :: i in Failures(p, es) && es[i].t == t {
        if t in FailedIn(p, front) {
          var i :| i in Failures(p, front) && front[i].t == t;
          assert es[i] == front[i] && i in Failures(p, es);
        } else {
          assert |front| in Failures(p, es);
        }
      }
    }
  }

  lemma FailuresInside(p: Policy, es: seq<Event>)
    ensures forall i :: i in Failures(p, es) ==> i < |es| && (es[i].Read? || es[i].Exit?)
  {
    hide Exec;
  }

  ghost predicate FailedFirst(s: State, failed: set<nat>) {
    && s.decided <= failed
    && forall t :: t in s.threads && s.threads[t].task.Deciding? && s.threads[t].task.code != 0 ==> t in failed
  }

  lemma FailedFirstStep(s: State, p: Policy, e: Event, failed: set<nat>)
    requires p.name == OnFailure && FailedFirst(s, failed)
    ensures FailedFirst(Apply(s, p, e), failed + (if IsFailure(s, e) then {e.t} else {}))
  {
  }

  /** Under on-failure a restart is decided only by a supervisor whose process ended with a failure
      earlier in the run, and no run has more restarts than there were such ends. */
  lemma {:induction false} OnFailureIgnoresSuccess(p: Policy, es: seq<Event>)
    requires p.name == OnFailure
    ensures FailedFirst(Exec(p, es), FailedIn(p, es))
    ensures forall t :: t in Exec(p, es).decided ==>
      exists i :: i in Failures(p, es) && i < |es| && (es[i].Read? || es[i].Exit?) && es[i].t == t && es[i].code != 0
    ensures |Exec(p, es).relaunched| <= |Exec(p, es).decided| <= |Failures(p, es)|
  {
    hide Apply;
    CounterBounded(p, es);
    if es != [] {
      OnFailureIgnoresSuccess(p, es[..|es| - 1]);
      FailedFirstStep(Exec(p, es[..|es| - 1]), p, es[|es| - 1], FailedIn(p, es[..|es| - 1]));
    }
    FailedCount(p, es);
    SubsetCard(Exec(p, es).decided, FailedIn(p, es));
  }

  // ---- what each step does, on runs ----

  lemma ExecEmpty(p: Policy)
    ensures Exec(p, []) == INIT
  {
  }

  lemma Then(p: Policy, es: seq<Event>, e: Event) returns (r: seq<Event>)
    ensures r == es + [e] && Exec(p, r) == Apply(Exec(p, es), p, e)
  {
    r := es + [e];
    assert r[..|es|] == es;
  }

  /** When the process of a supervisor ends after any run, the container is to be restarted exactly
      if the policy is always or unless-stopped, or on-failure and the process failed, and the
      number of restarts read is below the limit, if there is one. Then it is saved as created,
      without a process, and otherwise as stopped with the exit code. */
  lemma RestartsIff(p: Policy, es: seq<Event>, t: nat, code: int, readable: bool, counted: bool, ok: bool)
    requires InTask(Exec(p, es), t, Supervising)
    ensures var s, s' := Exec(p, es), Exec(p, es + [Exit(t, code, readable, counted, ok)]);
            var count, copy := if readable then s.counter else 0, s.threads[t].copy;
            && (t in s'.decided <==>
                  && (p.name == Always || p.name == UnlessStopped || (p.name == OnFailure && code != 0))
                  && (p.maxRetries == 0 || count < p.maxRetries))
            && s'.decided - {t} == s.decided
            && InTask(s', t, if t !in s'.decided then Finished else if ok then Relaunching(code) else Stopping(code))
            && s'.counter == (if t in s'.decided && counted then count + 1 else s.counter)
            && s'.record == (if !ok then s.record
                             else if t in s'.decided then Some(copy.(status := Created, pid := 0))
                             else Some(copy.(status := Stopped, exitCode := code)))
  {
    hide Exec;
    SupervisorUndecided(p, es, t);
    var r := Then(p, es, Exit(t, code, readable, counted, ok));
  }

  /** The same in two steps, with anything happening in between: what counts is the number read. */
  lemma CommitRestartsIff(p: Policy, es: seq<Event>, t: nat, code: int, seen: nat, counted: bool, ok: bool)
    requires InTask(Exec(p, es), t, Deciding(code, seen))
    ensures var s, s' := Exec(p, es), Exec(p, es + [Commit(t, counted, ok)]);
            && (t in s'.decided <==>
                  && (p.name == Always || p.name == UnlessStopped || (p.name == OnFailure && code != 0))
                  && (p.maxRetries == 0 || seen < p.maxRetries))
            && s'.counter == (if t in s'.decided && counted then seen + 1 else s.counter)
            && s'.record == (if !ok then s.record
                             else if t in s'.decided then Some(s.threads[t].copy.(status := Created, pid := 0))
                             else Some(s.threads[t].copy.(status := Stopped, exitCode := code)))
  {
    hide Exec;
    Reachable(p, es);
    assert ThreadOk(Exec(p, es), t);
    var r := Then(p, es, Commit(t, counted, ok));
  }

  /** Under the policy `no` nothing is ever restarted. */
  lemma {:induction false} NoNeverRestarts(p: Policy, es: seq<Event>)
    requires p.name == No
    ensures Exec(p, es).decided == {} && Exec(p, es).relaunched == {}
  {
    if es != [] {
      NoNeverRestarts(p, es[..|es| - 1]);
      Reachable(p, es);
    }
  }

  /** A supervisor whose restart fails, or whose decision could not be saved, records the exit. */
  lemma GivesUp(p: Policy, es: seq<Event>, t: nat, code: int, pid: int)
    requires InTask(Exec(p, es), t, Relaunching(code)) || InTask(Exec(p, es), t, Stopping(code))
    ensures var s, s' := Exec(p, es), Exec(p, es + [Save(t, pid, true)]);
            && s'.record == Some(s.threads[t].copy.(status := Stopped, exitCode := code))
            && InTask(s', t, Finished) && s'.relaunched == s.relaunched
  {
    hide Exec;
    var r := Then(p, es, Save(t, pid, true));
  }

  /** A container starts out created, without a process or an exit code. */
  lemma CreatedFresh(p: Policy, es: seq<Event>)
    ensures Exec(p, es + [Create]).record == Some(Record(Created, 0, 0))
  {
    var r := Then(p, es, Create);
  }

  /** What a command does to the record when nobody else writes meanwhile, after any run. */
  lemma LoneCommand(p: Policy, es: seq<Event>, t: nat, task: Task, pid: int)
    requires t !in Exec(p, es).threads && Exec(p, es).record.Some? && pid > 0
    ensures var r := Exec(p, es).record.value;
            var after := Exec(p, es + [Load(t, task)] + [Save(t, pid, true)]).record;
            && (task == Pausing ==> after == Some(if r.status == Running then r.(status := Paused) else r))
            && (task == Unpausing ==> after == Some(if r.status == Paused then r.(status := Running) else r))
            && (task == Reconciling ==>
                  after == Some(if r.status == Running && r.pid > 0 then r.(status := Stopped) else r))
            && (task == Resetting ==> after == Some(r.(status := Created)))
            && (task == Reviving ==> after == Some(if r.status == Running then r else r.(status := Created)))
            && (task == Renaming ==> after == Some(r))
            && (task == Restoring ==> after == Some(r.(status := Running, pid := pid)))
            && (task == Starting(None) ==>
                  after == Some(if r.status == Created then r.(status := Running, pid := pid) else r))
  {
    hide Exec;
    var r := Then(p, es, Load(t, task));
    var r' := Then(p, r, Save(t, pid, true));
  }

  /** A start that a supervisor calls puts a process in place, and ends that supervisor's wait, exactly
      if the supervisor is in its restart and the container is recorded as created; otherwise nothing
      happens. If the supervisor has given up meanwhile, the start does not save. */
  lemma RelaunchIff(p: Policy, es: seq<Event>, t: nat, u: nat, pid: int)
    requires pid > 0
    ensures t !in Exec(p, es).threads && Exec(p, es).record.Some? ==>
      var s, s' := Exec(p, es), Exec(p, es + [Load(t, Starting(Some(u)))] + [Save(t, pid, true)]);
      if IsRelaunching(s, u) && s.record.value.status == Created then
        && s'.record == Some(s.record.value.(status := Running, pid := pid))
        && s'.relaunched == s.relaunched + {u} && InTask(s', u, Finished) && InTask(s', t, Supervising)
      else s' == s
    ensures InTask(Exec(p, es), t, Starting(Some(u))) && !IsRelaunching(Exec(p, es), u) ==>
      Exec(p, es + [Save(t, pid, true)]) == Exec(p, es)
  {
    hide Exec;
    var r := Then(p, es, Load(t, Starting(Some(u))));
    var r' := Then(p, r, Save(t, pid, true));
    var r'' := Then(p, es, Save(t, pid, true));
  }

  // ---- runs that break the limit ----

  /** A created container can be started, by a command or by a supervisor that relaunches it. */
  lemma StartIt(p: Policy, es: seq<Event>, t: nat, origin: Option<nat>, pid: int) returns (r: seq<Event>)
    requires t !in Exec(p, es).threads && pid > 0
    requires Exec(p, es).record.Some? && Exec(p, es).record.value.status == Created
    requires origin.Some? ==> IsRelaunching(Exec(p, es), origin.value)
    ensures r == es + [Load(t, Starting(origin)), Save(t, pid, true)]
    ensures var s, s' := Exec(p, es), Exec(p, r);
            && s'.threads.Keys == s.threads.Keys + {t} && InTask(s', t, Supervising)
            && (forall u :: u in s.threads && Some(u) != origin ==> s'.threads[u] == s.threads[u])
            && s'.record == Some(s.record.value.(status := Running, pid := pid))
            && s'.counter == s.counter && s'.decided == s.decided
            && s'.relaunched == s.relaunched + (if origin.Some? then {origin.value} else {})
  {
    hide Exec;
    r := Then(p, es, Load(t, Starting(origin)));
    r := Then(p, r, Save(t, pid, true));
  }

  predicate NothingFails(es: seq<Event>) {
    forall i :: 0 <= i < |es| ==>
      && (es[i].Commit? ==> es[i].counted && es[i].ok) && (es[i].Save? ==> es[i].ok) && (es[i].Read? ==> es[i].readable)
  }

  /** Two supervisors can be alive for one container: started, reset while running, started again. */
  lemma TwoSupervisors(p: Policy) returns (es: seq<Event>)
    ensures var s := Exec(p, es);
            && InTask(s, 0, Supervising) && InTask(s, 2, Supervising) && s.threads.Keys == {0, 1, 2}
            && s.counter == 0 && s.decided == {} && s.relaunched == {}
    ensures NothingFails(es)
  {
    hide Exec;
    ExecEmpty(p);
    es := Then(p, [], Create);
    es := StartIt(p, es, 0, None, 100);
    ghost var running := Exec(p, es);
    es := Then(p, es, Load(1, Resetting));
    es := Then(p, es, Save(1, 0, true));
    assert Exec(p, es).threads[0] == running.threads[0];
    es := StartIt(p, es, 2, None, 200);
  }

  /** Both can have read the same count. */
  lemma BothDeciding(p: Policy) returns (es: seq<Event>)
    ensures var s := Exec(p, es);
            && InTask(s, 0, Deciding(1, 0)) && InTask(s, 2, Deciding(1, 0)) && s.threads.Keys == {0, 1, 2}
            && s.counter == 0 && s.relaunched == {}
    ensures NothingFails(es)
  {
    hide Exec;
    es := TwoSupervisors(p);
    es := Then(p, es, Read(0, 1, true));
    es := Then(p, es, Read(2, 1, true));
  }

  /** A supervisor that read no restarts yet relaunches the container. */
  lemma Relaunch(p: Policy, es: seq<Event>, t: nat, u: nat) returns (r: seq<Event>)
    requires p.name == Always && u !in Exec(p, es).threads && InTask(Exec(p, es), t, Deciding(1, 0))
    ensures r == es + [Commit(t, true, true), Load(u, Starting(Some(t))), Save(u, 100, true)]
    ensures var s, s' := Exec(p, es), Exec(p, r);
            && s'.threads.Keys == s.threads.Keys + {u} && s'.counter == 1 && s'.relaunched == s.relaunched + {t}
            && forall v :: v in s.threads && v != t ==> s'.threads[v] == s.threads[v]
    ensures NothingFails(es) ==> NothingFails(r)
  {
    hide Exec;
    r := Then(p, es, Commit(t, true, true));
    r := StartIt(p, r, u, Some(t), 100);
  }

  /** Nothing fails, and yet the limit is overrun: two supervisors of one container read the same
      count and both put a new process in place, on a policy that allows one restart. */
  lemma RacingSupervisorsOverrun() returns (es: seq<Event>)
    ensures var s := Exec(Policy(Always, 1), es); |s.relaunched| == 2 && s.counter == 1
    ensures NothingFails(es)
  {
    hide Exec;
    hide Apply;
    hide NothingFails;
    var p := Policy(Always, 1);
    var both := BothDeciding(p);
    var once := Relaunch(p, both, 0, 3);
    assert InTask(Exec(p, once), 2, Deciding(1, 0));
    es := Relaunch(p, once, 2, 4);
    assert Exec(p, es).relaunched == {0, 2};
  }

  lemma SupervisorUndecided(p: Policy, es: seq<Event>, t: nat)
    requires InTask(Exec(p, es), t, Supervising)
    ensures t !in Exec(p, es).decided && t !in Exec(p, es).relaunched
  {
    hide Exec;
    Reachable(p, es);
    assert ThreadOk(Exec(p, es), t);
  }

  lemma RelaunchUncounted(p: Policy, es: seq<Event>, t: nat, readable: bool, counted: bool) returns (r: seq<Event>)
    requires (p.name == Always || p.name == UnlessStopped) && !(readable && counted)
    requires var s := Exec(p, es);
             && InTask(s, t, Supervising) && t + 1 !in s.threads && (!counted ==> s.counter == 0)
    ensures r == es + [Exit(t, 1, readable, counted, true), Load(t + 1, Starting(Some(t))), Save(t + 1, 100, true)]
    ensures var s, s' := Exec(p, es), Exec(p, r);
            && InTask(s', t + 1, Supervising) && s'.threads.Keys == s.threads.Keys + {t + 1}
            && s'.counter == (if counted then 1 else 0) && s'.relaunched == s.relaunched + {t}
  {
    hide Exec;
    r := Then(p, es, Exit(t, 1, readable, counted, true));
    assert IsRelaunching(Exec(p, r), t);
    r := StartIt(p, r, t + 1, Some(t), 100);
  }

  /** With a counter file that cannot be written, or that cannot be read, there is no limit at all:
      for every limit and every number there is a run, without any race, with that many
      relaunches. */
  lemma {:induction false} UncountedRestartsUnbounded(p: Policy, n: nat, readable: bool, counted: bool)
    returns (es: seq<Event>, t: nat)
    requires (p.name == Always || p.name == UnlessStopped) && !(readable && counted)
    ensures var s := Exec(p, es);
            && InTask(s, t, Supervising) && (forall u :: u in s.threads ==> u <= t)
            && s.counter <= (if counted then 1 else 0) && |s.relaunched| == n
    ensures forall i :: 0 <= i < |es| ==>
      !es[i].Read? && !es[i].Commit? && (es[i].Exit? ==> es[i].readable == readable && es[i].counted == counted)
  {
    hide Exec;
    hide Apply;
    if n == 0 {
      t := 0;
      es := FirstStart(p);
    } else {
      var before;
      before, t := UncountedRestartsUnbounded(p, n - 1, readable, counted);
      SupervisorUndecided(p, before, t);
      es := RelaunchUncounted(p, before, t, readable, counted);
      t := t + 1;
    }
  }

  lemma FirstStart(p: Policy) returns (es: seq<Event>)
    ensures es == [Create, Load(0, Starting(None)), Save(0, 100, true)]
    ensures var s := Exec(p, es);
            s.threads.Keys == {0} && InTask(s, 0, Supervising) && s.counter == 0 && s.relaunched == {}
  {
    hide Exec;
    ExecEmpty(p);
    es := Then(p, [], Create);
    es := StartIt(p, es, 0, None, 100);
  }

  /** Reading and acting with nothing in between is the same as deciding in one step. */
  lemma LoneDecisionIsAtomic(p: Policy, s: State, t: nat, code: int, readable: bool, counted: bool, ok: bool)
    requires InTask(s, t, Supervising)
    ensures Apply(Apply(s, p, Read(t, code, readable)), p, Commit(t, counted, ok)) ==
            Apply(s, p, Exit(t, code, readable, counted, ok))
  {
    var mid := Apply(s, p, Read(t, code, readable));
    var seen := Seen(s, readable);
    var a, b := Decide(mid, p, t, code, seen, counted, ok), Decide(s, p, t, code, seen, counted, ok);
    assert a.threads == b.threads;
  }

  // ---- commit ----

  /** How pausing or unpausing goes: refused by the freezer, not saved, or done. */
  datatype Attempt = Refused | NotSaved | Done

  /** Events of other commands that only load. */
  ghost predicate Quiet(x: seq<Event>, t: nat, u: nat) {
    forall i :: 0 <= i < |x| ==> (x[i].Load? || x[i].Read?) && x[i].t != t && x[i].t != u
  }

  /** `Pause` or `Unpause` by thread `t`, with `x` between its load and its save. */
  function Try(t: nat, task: Task, a: Attempt, x: seq<Event>): seq<Event> {
    [Load(t, task)] + x + (if a.Refused? then [] else [Save(t, 0, a.Done?)])
  }

  /** `CommitWithOptions` as far as the record goes: pause if asked and running, copy, and unpause
      if pausing worked; an error from unpausing is dropped. */
  function CommitRun(running: bool, t: nat, a: Attempt, x: seq<Event>, copy: seq<Event>,
                     u: nat, b: Attempt, y: seq<Event>): seq<Event> {
    TryIf(running, t, Pausing, a, x) + copy + TryIf(running && a.Done?, u, Unpausing, b, y)
  }

  function TryIf(wanted: bool, t: nat, task: Task, a: Attempt, x: seq<Event>): seq<Event> {
    if wanted then Try(t, task, a, x) else []
  }

  lemma {:induction false} QuietKeeps(p: Policy, es: seq<Event>, x: seq<Event>, t: nat, u: nat)
    requires Quiet(x, t, u)
    ensures var s, s' := Exec(p, es), Exec(p, es + x);
            && s'.record == s.record
            && (forall v :: v in {t, u} ==> (v in s'.threads <==> v in s.threads))
            && (forall v :: v in {t, u} && v in s.threads ==> s'.threads[v] == s.threads[v])
  {
    if x == [] {
      assert es + x == es;
    } else {
      QuietKeeps(p, es, x[..|x| - 1], t, u);
      hide Exec;
      var r := Then(p, es + x[..|x| - 1], x[|x| - 1]);
      assert es + x == r;
    }
  }

  lemma TryRun(p: Policy, es: seq<Event>, t: nat, u: nat, task: Task, a: Attempt, x: seq<Event>)
    requires task == Pausing || task == Unpausing
    requires var s := Exec(p, es); s.record.Some? && MayLoad(s, task, s.record.value) && t !in s.threads
    requires Quiet(x, t, u) && t != u
    ensures var s, s' := Exec(p, es), Exec(p, es + Try(t, task, a, x));
            && s'.record == (if a.Done? then Some(Outcome(task, s.record.value, 0)) else s.record)
            && (u in s'.threads <==> u in s.threads)
  {
    hide Exec;
    var r := Then(p, es, Load(t, task));
    QuietKeeps(p, r, x, t, u);
    if a.Refused? {
      assert es + Try(t, task, a, x) == r + x;
    } else {
      var r' := Then(p, r + x, Save(t, 0, a.Done?));
      assert es + Try(t, task, a, x) == r';
    }
  }

  lemma TryIfRun(p: Policy, es: seq<Event>, wanted: bool, t: nat, u: nat, task: Task, a: Attempt, x: seq<Event>)
    requires task == Pausing || task == Unpausing
    requires var s := Exec(p, es); s.record.Some? && t !in s.threads && (wanted ==> MayLoad(s, task, s.record.value))
    requires Quiet(x, t, u) && t != u
    ensures var s, s' := Exec(p, es), Exec(p, es + TryIf(wanted, t, task, a, x));
            && s'.record == (if wanted && a.Done? then Some(Outcome(task, s.record.value, 0)) else s.record)
            && (u in s'.threads <==> u in s.threads)
  {
    hide Exec;
    hide Try;
    if wanted { TryRun(p, es, t, u, task, a, x); } else { assert es + [] == es; }
  }

  /** After any run, a commit during which nobody else writes leaves the record as it found it
      exactly when it did not pause the container or managed to unpause it. */
  lemma CommitKeepsRecordIff(p: Policy, es: seq<Event>, pause: bool, t: nat, a: Attempt, x: seq<Event>,
                             copy: seq<Event>, u: nat, b: Attempt, y: seq<Event>)
    requires var s := Exec(p, es); s.record.Some? && t !in s.threads && u !in s.threads && t != u
    requires Quiet(x, t, u) && Quiet(copy, t, u) && Quiet(y, u, t)
    ensures var s := Exec(p, es); var running := pause && s.record.value.status == Running;
            Exec(p, es + CommitRun(running, t, a, x, copy, u, b, y)).record == s.record <==>
                !(running && a.Done? && !b.Done?)
  {
    hide *;
    var s := Exec(p, es);
    var running := pause && s.record.value.status == Running;
    PausesRunning(s);
    TryIfRun(p, es, running, t, u, Pausing, a, x);
    var paused := es + TryIf(running, t, Pausing, a, x);
    QuietKeeps(p, paused, copy, t, u);
    UnpausesPaused(Exec(p, paused + copy), s.record.value);
    TryIfRun(p, paused + copy, running && a.Done?, u, t, Unpausing, b, y);
    CommitParts(es, running, t, a, x, copy, u, b, y);
  }

  lemma PausesRunning(s: State)
    requires s.record.Some?
    ensures s.record.value.status == Running ==> MayLoad(s, Pausing, s.record.value)
  {
  }

  lemma UnpausesPaused(s: State, r: Record)
    ensures MayLoad(s, Unpausing, Outcome(Pausing, r, 0)) && Outcome(Pausing, r, 0).status == Paused
    ensures r.status == Running ==> Outcome(Unpausing, Outcome(Pausing, r, 0), 0) == r
  {
  }

  lemma CommitParts(es: seq<Event>, running: bool, t: nat, a: Attempt, x: seq<Event>, copy: seq<Event>,
                    u: nat, b: Attempt, y: seq<Event>)
    ensures es + CommitRun(running, t, a, x, copy, u, b, y) ==
            es + TryIf(running, t, Pausing, a, x) + copy + TryIf(running && a.Done?, u, Unpausing, b, y)
  {
    hide TryIf;
  }

  // ---- commands that race with other writers ----

  /** Commands that load the record, change its status or nothing, and save it. */
  predicate Edits(task: Task) {
    || task == Pausing || task == Unpausing || task == Reconciling || task == Renaming
    || task == Resetting || task == Reviving
  }

  lemma KeepsCopyStep(s: State, p: Policy, e: Event, t: nat, task: Task)
    requires Edits(task) && InTask(s, t, task) && s.record.Some? && !(e.Save? && e.t == t)
    ensures var s' := Apply(s, p, e); t in s'.threads && s'.threads[t] == s.threads[t] && s'.record.Some?
  {
  }

  lemma {:induction false} KeepsCopy(p: Policy, es: seq<Event>, x: seq<Event>, t: nat, task: Task)
    requires Edits(task) && InTask(Exec(p, es), t, task) && Exec(p, es).record.Some?
    requires forall i :: 0 <= i < |x| ==> !(x[i].Save? && x[i].t == t)
    ensures var s, s' := Exec(p, es), Exec(p, es + x);
            t in s'.threads && s'.threads[t] == s.threads[t] && s'.record.Some?
  {
    if x == [] {
      assert es + x == es;
    } else {
      KeepsCopy(p, es, x[..|x| - 1], t, task);
      hide Exec;
      hide Apply;
      KeepsCopyStep(Exec(p, es + x[..|x| - 1]), p, x[|x| - 1], t, task);
      var r := Then(p, es + x[..|x| - 1], x[|x| - 1]);
      assert es + x == r;
    }
  }

  /** Whatever happens between its load and its save, a command writes what it makes of the record
      it loaded. */
  lemma CommandWritesItsCopy(p: Policy, es: seq<Event>, t: nat, task: Task, x: seq<Event>)
    requires Edits(task) && t !in Exec(p, es).threads
    requires var s := Exec(p, es); s.record.Some? && MayLoad(s, task, s.record.value)
    requires forall i :: 0 <= i < |x| ==> !(x[i].Save? && x[i].t == t)
    ensures var mid := es + [Load(t, task)] + x;
            && Exec(p, mid).record.Some?
            && Exec(p, mid + [Save(t, 0, true)]).record == Some(Outcome(task, Exec(p, es).record.value, 0))
  {
    hide Exec;
    var r := Then(p, es, Load(t, task));
    KeepsCopy(p, r, x, t, task);
    var r' := Then(p, r + x, Save(t, 0, true));
  }

  /** The current record is the one that was loaded, as far as it matters to the command: a reset
      overwrites the status, so only process and exit code do, but the start command still must
      not meet a running container. */
  predicate Unchanged(task: Task, loaded: Record, now: Record) {
    if task.Resetting? || task.Reviving? then
      now == loaded.(status := now.status) && (task.Reviving? ==> now.status != Running)
    else now == loaded
  }

  /** That is what the command would be allowed to do to the current record, exactly when the record
      is unchanged. */
  lemma ActsOnCurrentIff(p: Policy, es: seq<Event>, t: nat, task: Task, x: seq<Event>)
    requires Edits(task) && t !in Exec(p, es).threads
    requires var s := Exec(p, es); s.record.Some? && MayLoad(s, task, s.record.value)
    requires forall i :: 0 <= i < |x| ==> !(x[i].Save? && x[i].t == t)
    ensures var loaded := Exec(p, es).record.value;
            var mid := Exec(p, es + [Load(t, task)] + x);
            var end := Exec(p, es + [Load(t, task)] + x + [Save(t, 0, true)]);
            && mid.record.Some?
            && (MayLoad(mid, task, mid.record.value) && end.record == Some(Outcome(task, mid.record.value, 0)) <==>
                  Unchanged(task, loaded, mid.record.value))
  {
    hide Exec;
    CommandWritesItsCopy(p, es, t, task, x);
  }

  /** So an exit recorded while a container is being paused is lost, whatever the code and whatever
      the policy decided: the record says paused, with the PID that has ended. */
  lemma PauseHidesExit(p: Policy, es: seq<Event>, t: nat, v: nat, exit: Event)
    requires var s := Exec(p, es);
             && s.record.Some? && s.record.value.status == Running && t !in s.threads && InTask(s, v, Supervising)
    requires exit.Exit? && exit.t == v && exit.ok
    ensures var mid := Exec(p, es + [Load(t, Pausing)] + [exit]);
            var end := Exec(p, es + [Load(t, Pausing)] + [exit] + [Save(t, 0, true)]);
            && mid.record.Some? && mid.record.value.status in {Created, Stopped}
            && end.record == Some(Exec(p, es).record.value.(status := Paused))
  {
    hide Exec;
    CommandWritesItsCopy(p, es, t, Pausing, [exit]);
    var r := Then(p, es, Load(t, Pausing));
    r := Then(p, r, exit);
  }

  /** And a reconciliation overwrites the exit code that the supervisor has just recorded: it
      survives exactly when it is the one the record held before. */
  lemma ReconcileKeepsCodeIff(p: Policy, es: seq<Event>, t: nat, v: nat, exit: Event)
    requires var s := Exec(p, es);
             && s.record.Some? && s.record.value.status == Running && s.record.value.pid > 0
             && t !in s.threads && InTask(s, v, Supervising)
    requires exit.Exit? && exit.t == v && exit.ok && !Restarts(p, exit.code, Seen(Exec(p, es), exit.readable))
    ensures var mid := Exec(p, es + [Load(t, Reconciling)] + [exit]);
            var end := Exec(p, es + [Load(t, Reconciling)] + [exit] + [Save(t, 0, true)]);
            && mid.record.Some? && mid.record.value.exitCode == exit.code && mid.record.value.status == Stopped
            && end.record.Some? && end.record.value.status == Stopped
            && (end.record.value.exitCode == exit.code <==> Exec(p, es).record.value.exitCode == exit.code)
  {
    hide Exec;
    CommandWritesItsCopy(p, es, t, Reconciling, [exit]);
    var r := Then(p, es, Load(t, Reconciling));
    r := Then(p, r, exit);
  }
}
