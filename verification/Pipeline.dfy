/** Intent pipelines racing with user cancellation, as interleaved atomic steps
    (llm_nephio_oran/intentd/app_v2.py, lines 52, 84-119 and 253-452). */
module Pipeline {
  import opened Lifecycle

  const MAX_WORKERS: nat := 4

  datatype Result = ResultCompleted | ResultFailed

  /** Program points of `_run_pipeline`. `To...` is just before a store transition, `...Work` just
      before a stage body that may raise, `HandleError` the except branch, `Count` and `Decrement`
      the two metric updates. */
  datatype Pc =
    | Queued
    | ToPlanning | PlanningWork
    | ToValidating | ValidatingWork
    | ToGenerating | GeneratingWork
    | ToManifestFailed
    | ToExecuting | ExecutingWork
    | ToProposed | ToApplied | ToCompleted
    | HandleError
    | Count(result: Result, cleanup: bool)
    | Decrement(result: Result, cleanup: bool)
    | Cleanup(result: Result)
    | Finished(result: Result)

  type Id = nat

  /** `states` is the store. History variables: `lateErrors` are the intents whose final transition
      changed the record but then raised while appending to the log, `loaded` is what the store held
      when the process started, and `created` are the intents created since. */
  datatype Sys = Sys(
    states: map<Id, State>,
    pipes: map<Id, Pc>,
    dryRun: map<Id, bool>,
    active: int,
    completed: nat,
    failed: nat,
    lateErrors: set<Id>,
    loaded: map<Id, State>,
    created: set<Id>)

  /** A process starts on whatever its state directory holds, with all metrics at zero. */
  function Init(loaded: map<Id, State>): Sys {
    Sys(loaded, map[], map[], 0, 0, 0, {}, loaded, {})
  }

  /** What happens in one step of a pipeline besides what its program point fixes. */
  datatype Luck = Fine | Raises | ManifestErrors

  datatype Event =
    | CreateRecord(id: Id)
    | Submit(id: Id, dryRun: bool)
    | CancelByUser(id: Id)
    | Start(id: Id)
    | Step(id: Id, luck: Luck)

  /** Between the increment and the decrement of the active gauge. */
  predicate RunningPc(pc: Pc) {
    !pc.Queued? && !pc.Cleanup? && !pc.Finished?
  }

  /** Occupying one of the pool's worker threads. */
  predicate BusyPc(pc: Pc) {
    !pc.Queued? && !pc.Finished?
  }

  ghost function Running(s: Sys): set<Id> {
    set id | id in s.pipes && RunningPc(s.pipes[id])
  }

  ghost function Busy(s: Sys): set<Id> {
    set id | id in s.pipes && BusyPc(s.pipes[id])
  }

  predicate CountedAs(pc: Pc, r: Result) {
    (pc.Decrement? || pc.Cleanup? || pc.Finished?) && pc.result == r
  }

  ghost function Counted(s: Sys, r: Result): set<Id> {
    set id | id in s.pipes && CountedAs(s.pipes[id], r)
  }

  ghost function InState(s: Sys, st: State): set<Id> {
    set id | id in s.states && s.states[id] == st
  }

  ghost predicate Enabled(s: Sys, e: Event) {
    match e
    case CreateRecord(id) => id !in s.states
    case Submit(id, _) => id in s.created && id !in s.pipes
    case CancelByUser(id) => id in s.states
    case Start(id) => id in s.pipes && s.pipes[id].Queued? && |Busy(s)| < MAX_WORKERS
    case Step(id, luck) =>
      && id in s.pipes && id in s.states && id in s.dryRun && BusyPc(s.pipes[id])
      && (luck.ManifestErrors? ==> s.pipes[id].GeneratingWork?)
  }

  /** One pipeline's own data: its program point, its intent's state, and whether it failed late. */
  datatype Local = Local(pc: Pc, st: State, late: bool)

  /** A store transition at a program point. The record changes before the log append, so an append
      that raises still leaves the new state behind. */
  function TransitionTo(l: Local, to: State, luck: Luck, next: Pc): Local {
    if to !in ValidNext(l.st) then l.(pc := HandleError)
    else Local(if luck.Raises? then HandleError else next, to, l.late || (to.Completed? && luck.Raises?))
  }

  function Work(l: Local, luck: Luck, next: Pc): Local {
    l.(pc := if luck.Raises? then HandleError else next)
  }

  function StepLocal(l: Local, dry: bool, luck: Luck): Local
    requires BusyPc(l.pc)
  {
    match l.pc
    case ToPlanning => TransitionTo(l, Planning, luck, PlanningWork)
    case PlanningWork => Work(l, luck, ToValidating)
    case ToValidating => TransitionTo(l, Validating, luck, ValidatingWork)
    case ValidatingWork => Work(l, luck, ToGenerating)
    case ToGenerating => TransitionTo(l, Generating, luck, GeneratingWork)
    case GeneratingWork => Work(l, luck, if luck.ManifestErrors? then ToManifestFailed else ToExecuting)
    case ToManifestFailed => TransitionTo(l, Failed, luck, Count(ResultFailed, false))
    case ToExecuting => TransitionTo(l, Executing, luck, if dry then ToProposed else ExecutingWork)
    case ExecutingWork => Work(l, luck, ToProposed)
    case ToProposed => TransitionTo(l, Proposed, luck, ToApplied)
    case ToApplied => TransitionTo(l, Applied, luck, ToCompleted)
    case ToCompleted => TransitionTo(l, Completed, luck, Count(ResultCompleted, !dry))
    case HandleError =>
      l.(pc := Count(ResultFailed, true), st := if Failed in ValidNext(l.st) then Failed else l.st)
    case Count(r, cleanup) => l.(pc := Decrement(r, cleanup))
    case Decrement(r, cleanup) => l.(pc := if cleanup then Cleanup(r) else Finished(r))
    case Cleanup(r) => l.(pc := Finished(r))
  }

  /** The metric updates of the step taken at program point `pc`. */
  function ActiveDelta(pc: Pc): int {
    if pc.Decrement? then -1 else 0
  }

  function CountDelta(pc: Pc, r: Result): nat {
    if pc.Count? && pc.result == r then 1 else 0
  }

  ghost function Next(s: Sys, e: Event): Sys
    requires Enabled(s, e)
  {
    match e
    case CreateRecord(id) => s.(states := s.states[id := Acknowledged], created := s.created + {id})
    case Submit(id, dry) => s.(pipes := s.pipes[id := Queued], dryRun := s.dryRun[id := dry])
    case CancelByUser(id) =>
      if Cancelled in ValidNext(s.states[id]) then s.(states := s.states[id := Cancelled]) else s
    case Start(id) => s.(pipes := s.pipes[id := ToPlanning], active := s.active + 1)
    case Step(id, luck) =>
      var pc := s.pipes[id];
      var l := StepLocal(Local(pc, s.states[id], id in s.lateErrors), s.dryRun[id], luck);
      Sys(s.states[id := l.st], s.pipes[id := l.pc], s.dryRun,
          s.active + ActiveDelta(pc),
          s.completed + CountDelta(pc, ResultCompleted), s.failed + CountDelta(pc, ResultFailed),
          if l.late then s.lateErrors + {id} else s.lateErrors, s.loaded, s.created)
  }

  /** Which store states a pipeline at this point can see. */
  predicate Sees(pc: Pc, st: State, late: bool) {
    match pc
    case Queued => st.Acknowledged? || st.Cancelled?
    case ToPlanning => st.Acknowledged? || st.Cancelled?
    case PlanningWork => st.Planning?
    case ToValidating => st.Planning?
    case ValidatingWork => st.Validating?
    case ToGenerating => st.Validating?
    case GeneratingWork => st.Generating?
    case ToManifestFailed => st.Generating?
    case ToExecuting => st.Generating?
    case ExecutingWork => st.Executing?
    case ToProposed => st.Executing?
    case ToApplied => st.Proposed?
    case ToCompleted => st.Applied?
    case HandleError => !st.Acknowledged? && (st.Completed? ==> late)
    case Count(r, _) => Settled(r, st, late)
    case Decrement(r, _) => Settled(r, st, late)
    case Cleanup(r) => Settled(r, st, late)
    case Finished(r) => Settled(r, st, late)
  }

  predicate Settled(r: Result, st: State, late: bool) {
    if r.ResultCompleted? then st.Completed? && !late
    else st.Failed? || st.Cancelled? || (st.Completed? && late)
  }

  /** A loaded intent gets no pipeline; all that can happen to it is a cancellation. */
  ghost predicate LoadedInv(s: Sys) {
    forall id :: id in s.loaded ==>
      && id in s.states && id !in s.created
      && (s.states[id] == s.loaded[id] || (s.loaded[id].Acknowledged? && s.states[id].Cancelled?))
  }

  ghost predicate PipesInv(s: Sys) {
    && s.pipes.Keys <= s.created && s.dryRun.Keys == s.pipes.Keys
    && s.states.Keys == s.loaded.Keys + s.created
    && LoadedInv(s)
    && (forall id :: id in s.pipes ==> Sees(s.pipes[id], s.states[id], id in s.lateErrors))
    && (forall id :: id in s.lateErrors ==> id in s.pipes && s.states[id].Completed?)
    && (forall id :: id in s.created && id !in s.pipes ==> s.states[id].Acknowledged? || s.states[id].Cancelled?)
  }

  ghost predicate Inv(s: Sys) {
    && PipesInv(s)
    && s.active == |Running(s)|
    && |Busy(s)| <= MAX_WORKERS
    && s.completed == |Counted(s, ResultCompleted)|
    && s.failed == |Counted(s, ResultFailed)|
  }

  /** Two finite sets that differ in at most one element. */
  lemma OneElement(a: set<Id>, b: set<Id>, id: Id)
    requires forall x :: x != id ==> (x in a <==> x in b)
    ensures |b| == |a| + (if id in b then 1 else 0) - (if id in a then 1 else 0)
  {
    assert a - {id} == b - {id};
    assert |a - {id}| == |a| - (if id in a then 1 else 0);
    assert |b - {id}| == |b| - (if id in b then 1 else 0);
  }

  lemma CountsStep(s: Sys, t: Sys, id: Id)
    requires forall x :: x != id ==> (x in s.pipes <==> x in t.pipes)
    requires forall x :: x != id && x in s.pipes ==> s.pipes[x] == t.pipes[x]
    ensures |Running(t)| == |Running(s)| + (if id in Running(t) then 1 else 0) - (if id in Running(s) then 1 else 0)
    ensures |Busy(t)| == |Busy(s)| + (if id in Busy(t) then 1 else 0) - (if id in Busy(s) then 1 else 0)
    ensures forall r :: |Counted(t, r)|
                     == |Counted(s, r)| + (if id in Counted(t, r) then 1 else 0) - (if id in Counted(s, r) then 1 else 0)
  {
    OneElement(Running(s), Running(t), id);
    OneElement(Busy(s), Busy(t), id);
    forall r ensures |Counted(t, r)|
                  == |Counted(s, r)| + (if id in Counted(t, r) then 1 else 0) - (if id in Counted(s, r) then 1 else 0)
    {
      OneElement(Counted(s, r), Counted(t, r), id);
    }
  }

  /** What one pipeline step keeps about its own intent. */
  lemma LocalSees(l: Local, dry: bool, luck: Luck)
    requires BusyPc(l.pc) && Sees(l.pc, l.st, l.late) && (l.late ==> l.st.Completed?)
    requires luck.ManifestErrors? ==> l.pc.GeneratingWork?
    ensures var m := StepLocal(l, dry, luck);
            && Sees(m.pc, m.st, m.late) && (l.late ==> m.late) && (m.late ==> m.st.Completed?)
  {
  }

  /** How one pipeline step moves its intent between the counted sets. */
  lemma LocalCounts(l: Local, dry: bool, luck: Luck)
    requires BusyPc(l.pc)
    ensures var m := StepLocal(l, dry, luck);
            && (RunningPc(m.pc) ==> RunningPc(l.pc))
            && (RunningPc(l.pc) && !RunningPc(m.pc) <==> l.pc.Decrement?)
            && !m.pc.Queued? && StepsLeft(m.pc) < StepsLeft(l.pc)
            && (forall r :: CountedAs(l.pc, r) ==> CountedAs(m.pc, r))
            && (forall r :: CountedAs(m.pc, r) && !CountedAs(l.pc, r) <==> CountDelta(l.pc, r) == 1)
  {
  }

  lemma LocalTerminal(l: Local, dry: bool, luck: Luck)
    requires BusyPc(l.pc) && Terminal(l.st)
    ensures StepLocal(l, dry, luck).st == l.st
  {
  }

  lemma LoadedStep(s: Sys, e: Event)
    requires PipesInv(s) && Enabled(s, e)
    ensures LoadedInv(Next(s, e)) && Next(s, e).states.Keys == s.loaded.Keys + Next(s, e).created
    ensures Next(s, e).loaded == s.loaded && s.created <= Next(s, e).created
  {
  }

  lemma OwnStep(s: Sys, e: Event, id: Id)
    requires PipesInv(s) && Enabled(s, e) && id in Next(s, e).pipes
    ensures id in Next(s, e).states && Sees(Next(s, e).pipes[id], Next(s, e).states[id], id in Next(s, e).lateErrors)
    ensures id in Next(s, e).lateErrors ==> Next(s, e).states[id].Completed?
  {
    if e.Step? {
      LocalSees(Local(s.pipes[e.id], s.states[e.id], e.id in s.lateErrors), s.dryRun[e.id], e.luck);
    }
  }

  lemma PipesStep(s: Sys, e: Event)
    requires PipesInv(s) && Enabled(s, e)
    ensures PipesInv(Next(s, e))
  {
    LoadedStep(s, e);
    var t := Next(s, e);
    forall id | id in t.pipes
      ensures id in t.states && Sees(t.pipes[id], t.states[id], id in t.lateErrors)
      ensures id in t.lateErrors ==> t.states[id].Completed?
    {
      OwnStep(s, e, id);
    }
  }

  lemma CountersStep(s: Sys, id: Id, luck: Luck)
    requires Inv(s) && Enabled(s, Step(id, luck))
    ensures var t := Next(s, Step(id, luck));
            && t.active == |Running(t)| && |Busy(t)| <= MAX_WORKERS
            && t.completed == |Counted(t, ResultCompleted)| && t.failed == |Counted(t, ResultFailed)|
  {
    LocalCounts(Local(s.pipes[id], s.states[id], id in s.lateErrors), s.dryRun[id], luck);
    CountsStep(s, Next(s, Step(id, luck)), id);
  }

  lemma HandlerCounters(s: Sys, e: Event)
    requires Inv(s) && Enabled(s, e) && !e.Step?
    ensures var t := Next(s, e);
            && t.active == |Running(t)| && |Busy(t)| <= MAX_WORKERS
            && t.completed == |Counted(t, ResultCompleted)| && t.failed == |Counted(t, ResultFailed)|
  {
    CountsStep(s, Next(s, e), e.id);
  }

  lemma StepKeepsInv(s: Sys, e: Event)
    requires Inv(s) && Enabled(s, e)
    ensures Inv(Next(s, e))
  {
    PipesStep(s, e);
    if e.Step? {
      CountersStep(s, e.id, e.luck);
    } else {
      HandlerCounters(s, e);
    }
  }

  ghost predicate IsRun(s: Sys, run: seq<Event>)
    decreases |run|
  {
    run == [] || (Enabled(s, run[0]) && IsRun(Next(s, run[0]), run[1..]))
  }

  ghost function Final(s: Sys, run: seq<Event>): Sys
    requires IsRun(s, run)
    decreases |run|
  {
    if run == [] then s else Final(Next(s, run[0]), run[1..])
  }

  lemma {:induction false} RunKeepsInv(s: Sys, run: seq<Event>)
    requires Inv(s) && IsRun(s, run)
    ensures Inv(Final(s, run))
    decreases |run|
  {
    if run != [] {
      StepKeepsInv(s, run[0]);
      RunKeepsInv(Next(s, run[0]), run[1..]);
    }
  }

  /** Pipelines that have completed their intent and are about to count it. */
  ghost function AboutToCount(s: Sys): set<Id> {
    set id | id in s.pipes && s.pipes[id].Count? && s.pipes[id].result.ResultCompleted?
  }

  /** Intents that were completed when the process started. */
  ghost function LoadedCompleted(s: Sys): set<Id> {
    set id | id in s.loaded && s.loaded[id] == Completed
  }

  lemma CompletedIs(s: Sys, id: Id)
    requires PipesInv(s)
    ensures id in InState(s, Completed) <==>
              id in LoadedCompleted(s) || id in Counted(s, ResultCompleted) || id in AboutToCount(s) || id in s.lateErrors
    ensures id in s.lateErrors ==> id !in Counted(s, ResultCompleted) && id !in AboutToCount(s)
    ensures id in LoadedCompleted(s) ==> id !in s.pipes && id !in s.lateErrors
  {
    if id in s.pipes {
      assert Sees(s.pipes[id], s.states[id], id in s.lateErrors);
    }
  }

  /** Completed intents were loaded so, are counted, are about to be counted, or failed late, and never
      two of these. */
  lemma CompletedSplit(s: Sys)
    requires PipesInv(s)
    ensures InState(s, Completed) == LoadedCompleted(s) + (Counted(s, ResultCompleted) + AboutToCount(s) + s.lateErrors)
    ensures |InState(s, Completed)|
         == |LoadedCompleted(s)| + |Counted(s, ResultCompleted)| + |AboutToCount(s)| + |s.lateErrors|
  {
    forall id
      ensures id in InState(s, Completed) <==>
                id in LoadedCompleted(s) || id in Counted(s, ResultCompleted) || id in AboutToCount(s) || id in s.lateErrors
      ensures id in s.lateErrors ==> id !in Counted(s, ResultCompleted) && id !in AboutToCount(s)
      ensures id in LoadedCompleted(s) ==>
                id !in Counted(s, ResultCompleted) && id !in AboutToCount(s) && id !in s.lateErrors
    {
      CompletedIs(s, id);
    }
    DisjointUnion(InState(s, Completed), LoadedCompleted(s), Counted(s, ResultCompleted), AboutToCount(s), s.lateErrors);
  }

  lemma DisjointUnion(all: set<Id>, a: set<Id>, b: set<Id>, c: set<Id>, d: set<Id>)
    requires forall id :: id in all <==> id in a || id in b || id in c || id in d
    requires b !! c && (b + c) !! d && a !! (b + c + d)
    ensures all == a + (b + c + d) && |all| == |a| + |b| + |c| + |d|
  {
    assert all == a + (b + c + d);
    assert |b + c + d| == |b + c| + |d|;
  }

  /** Past the counter update: the pipeline has reported its result. */
  predicate Reported(pc: Pc) {
    pc.Decrement? || pc.Cleanup? || pc.Finished?
  }

  /** Pipelines that have reported and whose intent is failed, was cancelled first, or completed with a
      late append error. */
  ghost function Unsuccessful(s: Sys): set<Id> {
    set id | id in s.pipes && id in s.states && Reported(s.pipes[id])
             && (!s.states[id].Completed? || id in s.lateErrors)
  }

  /** A pipeline that is about to report, or has, leaves its intent in a terminal state. */
  lemma ReportedIsTerminal(s: Sys, id: Id)
    requires PipesInv(s) && id in s.pipes && (s.pipes[id].Count? || Reported(s.pipes[id]))
    ensures Terminal(s.states[id])
    ensures id in Counted(s, ResultFailed) <==> id in Unsuccessful(s)
  {
    assert Sees(s.pipes[id], s.states[id], id in s.lateErrors);
  }

  /** In every state the failed counter's pipelines are the unsuccessful ones. */
  lemma FailedSplit(s: Sys)
    requires PipesInv(s)
    ensures Counted(s, ResultFailed) == Unsuccessful(s)
  {
    forall id | id in s.pipes && Reported(s.pipes[id])
      ensures id in Counted(s, ResultFailed) <==> id in Unsuccessful(s)
    {
      ReportedIsTerminal(s, id);
    }
  }

  /** No pipeline between its increment and its decrement: every started one has reported. */
  lemma Quiescent(s: Sys)
    requires PipesInv(s) && Running(s) == {}
    ensures forall id :: id in s.pipes && !s.pipes[id].Queued? ==> Terminal(s.states[id]) && Reported(s.pipes[id])
    ensures AboutToCount(s) == {}
  {
    forall id | id in s.pipes && !s.pipes[id].Queued? ensures Terminal(s.states[id]) && Reported(s.pipes[id]) {
      assert id !in Running(s);
      ReportedIsTerminal(s, id);
    }
  }

  lemma InitInv(loaded: map<Id, State>)
    ensures Inv(Init(loaded))
  {
    var s := Init(loaded);
    assert Running(s) == {} && Busy(s) == {};
    assert Counted(s, ResultCompleted) == {} && Counted(s, ResultFailed) == {};
  }

  /** Every interleaving of creates, cancels and up to four pipelines, in a process started on any store,
      with any stage or log append raising anywhere, in every state of the run: the gauge equals the
      pipelines between their increment and decrement and never exceeds four; every pipeline that is
      about to report or has reported has a terminal intent; the failed counter equals the reported
      pipelines whose intent failed, was cancelled first or failed late; the intents in completed are
      those loaded so, those counted, those about to be and those that failed late. So whenever no
      pipeline runs, every started one has reported, and the completed counter equals the intents in
      completed if and only if none was loaded so and no append raised after a final transition. */
  lemma MetricsAreExact(loaded: map<Id, State>, run: seq<Event>)
    requires IsRun(Init(loaded), run)
    ensures var s := Final(Init(loaded), run);
            && s.pipes.Keys <= s.states.Keys
            && s.active == |Running(s)| <= 4
            && (forall id :: id in s.pipes && (s.pipes[id].Count? || Reported(s.pipes[id])) ==> Terminal(s.states[id]))
            && s.failed == |Unsuccessful(s)|
            && s.loaded == loaded
            && |InState(s, Completed)| == |LoadedCompleted(s)| + s.completed + |AboutToCount(s)| + |s.lateErrors|
            && (s.active == 0 ==>
                  && (forall id :: id in s.pipes && !s.pipes[id].Queued? ==> Terminal(s.states[id]) && Reported(s.pipes[id]))
                  && (s.completed == |InState(s, Completed)| <==> LoadedCompleted(s) == {} && s.lateErrors == {}))
  {
    InitInv(loaded);
    RunKeepsInv(Init(loaded), run);
    LoadedStays(Init(loaded), run);
    var s := Final(Init(loaded), run);
    CompletedSplit(s);
    FailedSplit(s);
    SubsetCard(Running(s), Busy(s));
    forall id | id in s.pipes && (s.pipes[id].Count? || Reported(s.pipes[id])) ensures Terminal(s.states[id]) {
      ReportedIsTerminal(s, id);
    }
    if s.active == 0 {
      Quiescent(s);
    }
  }

  lemma {:induction false} LoadedStays(s: Sys, run: seq<Event>)
    requires IsRun(s, run)
    ensures Final(s, run).loaded == s.loaded
    decreases |run|
  {
    if run != [] {
      LoadedStays(Next(s, run[0]), run[1..]);
    }
  }

  lemma {:induction false} SubsetCard(a: set<Id>, b: set<Id>)
    requires a <= b
    ensures |a| <= |b|
  {
    assert b == a + (b - a);
    assert |a + (b - a)| == |a| + |b - a|;
  }

  /** Program points left before the end of a pipeline. */
  function StepsLeft(pc: Pc): nat {
    match pc
    case Queued => 17
    case ToPlanning => 16
    case PlanningWork => 15
    case ToValidating => 14
    case ValidatingWork => 13
    case ToGenerating => 12
    case GeneratingWork => 11
    case ToManifestFailed => 10
    case ToExecuting => 10
    case ExecutingWork => 9
    case ToProposed => 8
    case ToApplied => 7
    case ToCompleted => 6
    case HandleError => 5
    case Count(_, _) => 4
    case Decrement(_, _) => 3
    case Cleanup(_) => 2
    case Finished(_) => 1
  }

  /** Every step of a pipeline brings its own end closer and moves no other pipeline; a terminal intent
      never changes state again. */
  lemma PipelinesFinish(s: Sys, e: Event)
    requires PipesInv(s) && Enabled(s, e)
    ensures (e.Start? || e.Step?) ==> StepsLeft(Next(s, e).pipes[e.id]) < StepsLeft(s.pipes[e.id])
    ensures forall id :: id in s.pipes && id != e.id ==> id in Next(s, e).pipes && Next(s, e).pipes[id] == s.pipes[id]
    ensures forall id :: id in s.states && Terminal(s.states[id]) ==>
              id in Next(s, e).states && Next(s, e).states[id] == s.states[id]
    ensures Next(s, e).active == s.active - 1 <==> e.Step? && s.pipes[e.id].Decrement?
  {
    if e.Step? {
      var l := Local(s.pipes[e.id], s.states[e.id], e.id in s.lateErrors);
      LocalCounts(l, s.dryRun[e.id], e.luck);
      if Terminal(l.st) {
        LocalTerminal(l, s.dryRun[e.id], e.luck);
      }
    }
  }

  /** How often a pipeline steps along a run, and how often it steps through a given kind of point. */
  ghost function StepsOf(s: Sys, run: seq<Event>, id: Id, at: Pc -> bool): nat
    requires IsRun(s, run)
    decreases |run|
  {
    if run == [] then 0
    else
      (if run[0].Step? && run[0].id == id && at(s.pipes[id]) then 1 else 0)
      + StepsOf(Next(s, run[0]), run[1..], id, at)
  }

  predicate IsDecrement(pc: Pc) {
    pc.Decrement?
  }

  predicate IsCount(pc: Pc) {
    pc.Count?
  }

  predicate Anywhere(pc: Pc) {
    true
  }

  predicate PastDecrement(s: Sys, id: Id) {
    id in s.pipes && (s.pipes[id].Cleanup? || s.pipes[id].Finished?)
  }

  predicate PastCount(s: Sys, id: Id) {
    id in s.pipes && Reported(s.pipes[id])
  }

  lemma {:induction false} DecrementsBetween(s: Sys, run: seq<Event>, id: Id)
    requires IsRun(s, run)
    ensures StepsOf(s, run, id, IsDecrement) + (if PastDecrement(s, id) then 1 else 0)
         == if PastDecrement(Final(s, run), id) then 1 else 0
    decreases |run|
  {
    if run != [] {
      DecrementsBetween(Next(s, run[0]), run[1..], id);
    }
  }

  lemma {:induction false} CountsBetween(s: Sys, run: seq<Event>, id: Id)
    requires IsRun(s, run)
    ensures StepsOf(s, run, id, IsCount) + (if PastCount(s, id) then 1 else 0)
         == if PastCount(Final(s, run), id) then 1 else 0
    decreases |run|
  {
    if run != [] {
      CountsBetween(Next(s, run[0]), run[1..], id);
    }
  }

  function PointsLeft(s: Sys, id: Id): nat {
    if id in s.pipes && !s.pipes[id].Queued? then StepsLeft(s.pipes[id]) else 16
  }

  lemma {:induction false} StepsBetween(s: Sys, run: seq<Event>, id: Id)
    requires PipesInv(s) && IsRun(s, run)
    ensures StepsOf(s, run, id, Anywhere) + PointsLeft(Final(s, run), id) <= PointsLeft(s, id)
    decreases |run|
  {
    if run != [] {
      PipesStep(s, run[0]);
      PipelinesFinish(s, run[0]);
      StepsBetween(Next(s, run[0]), run[1..], id);
    }
  }

  /** Over every run: a pipeline takes its decrement step exactly once if it is past it, and never
      otherwise; likewise its counter update; it takes at most fifteen steps in all; and unless it is
      over, a pipeline that holds a worker always has a next step. */
  lemma PipelineReportsOnce(loaded: map<Id, State>, run: seq<Event>, id: Id)
    requires IsRun(Init(loaded), run)
    ensures var f := Final(Init(loaded), run);
            && StepsOf(Init(loaded), run, id, IsDecrement) == (if PastDecrement(f, id) then 1 else 0)
            && StepsOf(Init(loaded), run, id, IsCount) == (if PastCount(f, id) then 1 else 0)
            && StepsOf(Init(loaded), run, id, Anywhere) <= 15
            && (id in f.pipes && BusyPc(f.pipes[id]) ==> Enabled(f, Step(id, Fine)))
  {
    InitInv(loaded);
    DecrementsBetween(Init(loaded), run, id);
    CountsBetween(Init(loaded), run, id);
    StepsBetween(Init(loaded), run, id);
    RunKeepsInv(Init(loaded), run);
    BusyCanStep(Final(Init(loaded), run), id);
  }

  lemma BusyCanStep(s: Sys, id: Id)
    requires PipesInv(s)
    ensures id in s.pipes && BusyPc(s.pipes[id]) ==> Enabled(s, Step(id, Fine))
  {
  }

  // --- Which way a pipeline goes ------------------------------------------------------------

  /** The stages of a run in which nothing goes wrong. */
  function FinePath(dry: bool): seq<Pc> {
    [ToPlanning, PlanningWork, ToValidating, ValidatingWork, ToGenerating, GeneratingWork, ToExecuting]
    + (if dry then [] else [ExecutingWork])
    + [ToProposed, ToApplied, ToCompleted, Count(ResultCompleted, !dry), Decrement(ResultCompleted, !dry)]
    + (if dry then [] else [Cleanup(ResultCompleted)])
    + [Finished(ResultCompleted)]
  }

  ghost predicate AllFine(run: seq<Event>, id: Id) {
    forall i :: 0 <= i < |run| && run[i].Step? && run[i].id == id ==> run[i].luck.Fine?
  }

  /** A step that goes well leads from each place of the path to the next, and not before the last one
      is the pipeline over. */
  ghost predicate Walks(path: seq<Pc>, dry: bool) {
    && path != [] && path[0] == ToPlanning
    && (forall k, st: State :: 0 <= k < |path| && BusyPc(path[k]) && !st.Cancelled? && Sees(path[k], st, false) ==>
          && k + 1 < |path|
          && StepLocal(Local(path[k], st, false), dry, Fine).pc == path[k + 1]
          && !StepLocal(Local(path[k], st, false), dry, Fine).late)
  }

  lemma FinePathStep(dry: bool, k: nat, st: State)
    requires k < |FinePath(dry)| && BusyPc(FinePath(dry)[k]) && !st.Cancelled? && Sees(FinePath(dry)[k], st, false)
    ensures k + 1 < |FinePath(dry)|
    ensures StepLocal(Local(FinePath(dry)[k], st, false), dry, Fine).pc == FinePath(dry)[k + 1]
    ensures !StepLocal(Local(FinePath(dry)[k], st, false), dry, Fine).late
  {
  }

  lemma FinePathWalks(dry: bool)
    ensures Walks(FinePath(dry), dry)
  {
    var path := FinePath(dry);
    forall k, st: State | 0 <= k < |path| && BusyPc(path[k]) && !st.Cancelled? && Sees(path[k], st, false)
      ensures k + 1 < |path|
      ensures StepLocal(Local(path[k], st, false), dry, Fine).pc == path[k + 1]
      ensures !StepLocal(Local(path[k], st, false), dry, Fine).late
    {
      FinePathStep(dry, k, st);
    }
  }

  lemma {:induction false} TerminalRun(s: Sys, run: seq<Event>, id: Id)
    requires PipesInv(s) && IsRun(s, run) && id in s.states && Terminal(s.states[id])
    ensures id in Final(s, run).states && Final(s, run).states[id] == s.states[id]
    decreases |run|
  {
    if run != [] {
      PipesStep(s, run[0]);
      PipelinesFinish(s, run[0]);
      TerminalRun(Next(s, run[0]), run[1..], id);
    }
  }

  lemma {:induction false} DryStays(s: Sys, run: seq<Event>, id: Id)
    requires PipesInv(s) && IsRun(s, run) && id in s.pipes
    ensures id in Final(s, run).pipes && id in Final(s, run).dryRun && Final(s, run).dryRun[id] == s.dryRun[id]
    decreases |run|
  {
    if run != [] {
      PipesStep(s, run[0]);
      DryStays(Next(s, run[0]), run[1..], id);
    }
  }

  /** The pipeline is at place `k` of the path, or has not started. */
  ghost predicate OnPath(s: Sys, id: Id, dry: bool, path: seq<Pc>, k: nat) {
    && k < |path| && id !in s.lateErrors
    && (if id in s.pipes && !s.pipes[id].Queued? then s.pipes[id] == path[k] else k == 0)
    && (id in s.pipes && id in s.dryRun ==> s.dryRun[id] == dry)
  }

  lemma OnPathStep(s: Sys, e: Event, id: Id, dry: bool, path: seq<Pc>, k: nat)
    requires PipesInv(s) && Enabled(s, e) && Walks(path, dry) && OnPath(s, id, dry, path, k)
    requires e.Step? && e.id == id ==> e.luck.Fine?
    requires e.Submit? && e.id == id ==> e.dryRun == dry
    requires id in s.states ==> !s.states[id].Cancelled?
    ensures OnPath(Next(s, e), id, dry, path, if e.Step? && e.id == id then k + 1 else k)
  {
    if e.Step? && e.id == id {
      assert Sees(path[k], s.states[id], false);
    }
  }

  /** What the run so far asks of its first event. */
  lemma FineFirst(s: Sys, run: seq<Event>, id: Id, dry: bool, path: seq<Pc>, k: nat)
    requires PipesInv(s) && IsRun(s, run) && run != [] && AllFine(run, id) && Walks(path, dry) && OnPath(s, id, dry, path, k)
    requires EndsFine(Final(s, run), id, dry)
    ensures PipesInv(Next(s, run[0])) && AllFine(run[1..], id)
    ensures OnPath(Next(s, run[0]), id, dry, path, if run[0].Step? && run[0].id == id then k + 1 else k)
    ensures run[0].Step? && run[0].id == id ==> id in s.pipes && s.pipes[id] == path[k]
  {
    var e, t := run[0], Next(s, run[0]);
    PipesStep(s, e);
    NotCancelledYet(s, run, id);
    if e.Submit? && e.id == id {
      DryStays(t, run[1..], id);
    }
    OnPathStep(s, e, id, dry, path, k);
  }

  ghost predicate EndsFine(f: Sys, id: Id, dry: bool) {
    && (id in f.pipes ==> id in f.dryRun && f.dryRun[id] == dry)
    && (id in f.states ==> !f.states[id].Cancelled?)
  }

  /** Places of a path among `k` up to `k + n` that are the executing stage. */
  function Executions(path: seq<Pc>, k: nat, n: nat): nat
    decreases n
  {
    if n == 0 || k >= |path| then 0
    else (if path[k] == ExecutingWork then 1 else 0) + Executions(path, k + 1, n - 1)
  }

  predicate IsExecuting(pc: Pc) {
    pc == ExecutingWork
  }

  lemma StepsFirst(s: Sys, run: seq<Event>, id: Id, at: Pc -> bool)
    requires IsRun(s, run) && run != []
    ensures StepsOf(s, run, id, at)
         == (if run[0].Step? && run[0].id == id && at(s.pipes[id]) then 1 else 0)
            + StepsOf(Next(s, run[0]), run[1..], id, at)
  {
  }

  lemma {:induction false} FineBetween(s: Sys, run: seq<Event>, id: Id, dry: bool, path: seq<Pc>, k: nat)
    requires PipesInv(s) && IsRun(s, run) && AllFine(run, id) && Walks(path, dry) && OnPath(s, id, dry, path, k)
    requires EndsFine(Final(s, run), id, dry)
    ensures OnPath(Final(s, run), id, dry, path, k + StepsOf(s, run, id, Anywhere))
    decreases |run|
  {
    if run != [] {
      FineFirst(s, run, id, dry, path, k);
      StepsFirst(s, run, id, Anywhere);
      FineBetween(Next(s, run[0]), run[1..], id, dry, path, if run[0].Step? && run[0].id == id then k + 1 else k);
    }
  }

  lemma {:induction false} ExecutionsBetween(s: Sys, run: seq<Event>, id: Id, dry: bool, path: seq<Pc>, k: nat)
    requires PipesInv(s) && IsRun(s, run) && AllFine(run, id) && Walks(path, dry) && OnPath(s, id, dry, path, k)
    requires EndsFine(Final(s, run), id, dry)
    ensures StepsOf(s, run, id, IsExecuting) == Executions(path, k, StepsOf(s, run, id, Anywhere))
    decreases |run|
  {
    if run != [] {
      FineFirst(s, run, id, dry, path, k);
      StepsFirst(s, run, id, Anywhere);
      StepsFirst(s, run, id, IsExecuting);
      ExecutionsBetween(Next(s, run[0]), run[1..], id, dry, path, if run[0].Step? && run[0].id == id then k + 1 else k);
    }
  }

  lemma NotCancelledYet(s: Sys, run: seq<Event>, id: Id)
    requires PipesInv(s) && IsRun(s, run)
    requires id in Final(s, run).states ==> !Final(s, run).states[id].Cancelled?
    ensures id in s.states ==> !s.states[id].Cancelled?
  {
    if id in s.states && Terminal(s.states[id]) {
      TerminalRun(s, run, id);
    }
  }

  lemma FineEnds(loaded: map<Id, State>, run: seq<Event>, id: Id, path: seq<Pc>)
    requires IsRun(Init(loaded), run) && AllFine(run, id)
    requires var f := Final(Init(loaded), run);
             id in f.pipes && id in f.dryRun && id in f.states && !f.states[id].Cancelled? && Walks(path, f.dryRun[id])
    ensures var f, n := Final(Init(loaded), run), StepsOf(Init(loaded), run, id, Anywhere);
            && n < |path| && (!f.pipes[id].Queued? ==> f.pipes[id] == path[n])
            && StepsOf(Init(loaded), run, id, IsExecuting) == Executions(path, 0, n)
            && Sees(f.pipes[id], f.states[id], false)
  {
    InitInv(loaded);
    RunKeepsInv(Init(loaded), run);
    var f := Final(Init(loaded), run);
    FineBetween(Init(loaded), run, id, f.dryRun[id], path, 0);
    ExecutionsBetween(Init(loaded), run, id, f.dryRun[id], path, 0);
    assert Sees(f.pipes[id], f.states[id], id in f.lateErrors);
  }

  /** Over every run: a pipeline all of whose steps go well and whose intent is not cancelled is, after n
      steps, at place n of the fine path; so when it is over its intent is completed and counted as
      completed, and it went through the executing stage once, or never if it was a dry run. */
  lemma FinePipelineCompletes(loaded: map<Id, State>, run: seq<Event>, id: Id)
    requires IsRun(Init(loaded), run) && AllFine(run, id)
    requires var f := Final(Init(loaded), run);
             id in f.pipes && id in f.dryRun && id in f.states && !f.states[id].Cancelled?
    ensures var f, n := Final(Init(loaded), run), StepsOf(Init(loaded), run, id, Anywhere);
            var path := FinePath(f.dryRun[id]);
            && n < |path| && (!f.pipes[id].Queued? ==> f.pipes[id] == path[n])
            && (f.pipes[id].Finished? ==>
                  && f.states[id] == Completed && id in Counted(f, ResultCompleted)
                  && StepsOf(Init(loaded), run, id, IsExecuting) == if f.dryRun[id] then 0 else 1)
  {
    var f, n := Final(Init(loaded), run), StepsOf(Init(loaded), run, id, Anywhere);
    FinePathWalks(f.dryRun[id]);
    FineEnds(loaded, run, id, FinePath(f.dryRun[id]));
    FinishedIsLast(f.dryRun[id], n);
    PathExecutions(f.dryRun[id]);
  }

  lemma {:induction false} ExecutionsAre(path: seq<Pc>, k: nat, n: nat, at: int)
    requires k + n <= |path| && forall i :: 0 <= i < |path| ==> (path[i] == ExecutingWork <==> i == at)
    ensures Executions(path, k, n) == if k <= at < k + n then 1 else 0
    decreases n
  {
    if n > 0 {
      ExecutionsAre(path, k + 1, n - 1, at);
    }
  }

  lemma PathExecutions(dry: bool)
    ensures Executions(FinePath(dry), 0, |FinePath(dry)| - 1) == if dry then 0 else 1
  {
    var path := FinePath(dry);
    forall i | 0 <= i < |path| ensures path[i] == ExecutingWork <==> !dry && i == 7 {
      FinePathExecutes(dry, i);
    }
    ExecutionsAre(path, 0, |path| - 1, if dry then -1 else 7);
  }

  lemma FinishedIsLast(dry: bool, k: nat)
    requires k < |FinePath(dry)|
    ensures FinePath(dry)[k].Finished? <==> k == |FinePath(dry)| - 1
    ensures FinePath(dry)[k].Finished? ==> FinePath(dry)[k].result == ResultCompleted
  {
  }

  /** The fine path executes once, unless it is a dry run, and completes in its last transition. */
  lemma FinePathExecutes(dry: bool, k: nat)
    requires k < |FinePath(dry)|
    ensures FinePath(dry)[k] == ExecutingWork <==> !dry && k == 7
    ensures FinePath(dry)[k] == ToCompleted <==> k == |FinePath(dry)| - (if dry then 4 else 5)
  {
  }

  /** A pipeline on its way to report a failure, with an intent that cannot complete any more. */
  predicate Condemned(pc: Pc, st: State) {
    || (pc == ToManifestFailed && st == Generating)
    || (st == Failed && (pc == HandleError || ((pc.Count? || Reported(pc)) && pc.result == ResultFailed)))
  }

  lemma CondemnedStep(l: Local, dry: bool, luck: Luck)
    requires BusyPc(l.pc) && Condemned(l.pc, l.st) && !luck.ManifestErrors?
    ensures var m := StepLocal(l, dry, luck); Condemned(m.pc, m.st)
  {
  }

  lemma {:induction false} CondemnedRun(s: Sys, run: seq<Event>, id: Id)
    requires PipesInv(s) && IsRun(s, run) && id in s.pipes && id in s.states && Condemned(s.pipes[id], s.states[id])
    ensures var f := Final(s, run);
            id in f.pipes && id in f.states && Condemned(f.pipes[id], f.states[id])
    decreases |run|
  {
    if run != [] {
      PipesStep(s, run[0]);
      if run[0].Step? && run[0].id == id {
        CondemnedStep(Local(s.pipes[id], s.states[id], id in s.lateErrors), s.dryRun[id], run[0].luck);
      }
      CondemnedRun(Next(s, run[0]), run[1..], id);
    }
  }

  lemma {:induction false} ManifestBetween(s: Sys, run: seq<Event>, id: Id)
    requires PipesInv(s) && IsRun(s, run) && Step(id, ManifestErrors) in run
    ensures var f := Final(s, run);
            id in f.pipes && id in f.states && Condemned(f.pipes[id], f.states[id])
    decreases |run|
  {
    PipesStep(s, run[0]);
    if run[0] == Step(id, ManifestErrors) {
      assert Sees(s.pipes[id], s.states[id], id in s.lateErrors);
      CondemnedRun(Next(s, run[0]), run[1..], id);
    } else {
      ManifestBetween(Next(s, run[0]), run[1..], id);
    }
  }

  /** Over every run: once a pipeline has found manifest errors, its intent is never completed and never
      counted so, whatever else happens; and once it has reported, the intent is failed and counted as
      failed. */
  lemma ManifestErrorsFail(loaded: map<Id, State>, run: seq<Event>, id: Id)
    requires IsRun(Init(loaded), run) && Step(id, ManifestErrors) in run
    ensures var f := Final(Init(loaded), run);
            && id in f.pipes && id in f.states && f.states[id] != Completed
            && id !in Counted(f, ResultCompleted) && id !in AboutToCount(f)
            && (Reported(f.pipes[id]) ==> f.states[id] == Failed && id in Counted(f, ResultFailed))
  {
    InitInv(loaded);
    ManifestBetween(Init(loaded), run, id);
  }

  /** The end of a pipeline: manifest errors are reported without cleanup, exceptions with it, and the
      cleanup happens after the gauge has been decremented. */
  lemma TailSteps(l: Local, dry: bool, luck: Luck)
    requires BusyPc(l.pc)
    ensures l.pc == ToManifestFailed && l.st == Generating && luck.Fine? ==>
              StepLocal(l, dry, luck) == Local(Count(ResultFailed, false), Failed, l.late)
    ensures l.pc.Count? ==> StepLocal(l, dry, luck) == l.(pc := Decrement(l.pc.result, l.pc.cleanup))
    ensures l.pc.Decrement? ==>
              StepLocal(l, dry, luck) == l.(pc := if l.pc.cleanup then Cleanup(l.pc.result) else Finished(l.pc.result))
    ensures l.pc.Cleanup? ==> StepLocal(l, dry, luck) == l.(pc := Finished(l.pc.result))
  {
  }

  /** A stage that can still raise. */
  predicate IsStage(pc: Pc) {
    BusyPc(pc) && pc != HandleError && !pc.Count? && !Reported(pc)
  }

  /** Past an exception: the except branch, or reporting a failure with cleanup. */
  predicate Excepted(pc: Pc) {
    || pc == HandleError
    || ((pc.Count? || pc.Decrement?) && pc.result == ResultFailed && pc.cleanup)
    || ((pc.Cleanup? || pc.Finished?) && pc.result == ResultFailed)
  }

  lemma ExceptedStep(l: Local, dry: bool, luck: Luck)
    requires BusyPc(l.pc)
    ensures Excepted(l.pc) ==> Excepted(StepLocal(l, dry, luck).pc)
    ensures IsStage(l.pc) && luck.Raises? ==> StepLocal(l, dry, luck).pc == HandleError
    ensures l.pc == HandleError ==> StepLocal(l, dry, luck).pc == Count(ResultFailed, true)
  {
  }

  lemma {:induction false} ExceptedRun(s: Sys, run: seq<Event>, id: Id)
    requires IsRun(s, run) && id in s.pipes && Excepted(s.pipes[id])
    ensures id in Final(s, run).pipes && Excepted(Final(s, run).pipes[id])
    decreases |run|
  {
    if run != [] {
      if run[0].Step? && run[0].id == id {
        ExceptedStep(Local(s.pipes[id], s.states[id], id in s.lateErrors), s.dryRun[id], run[0].luck);
      }
      ExceptedRun(Next(s, run[0]), run[1..], id);
    }
  }

  /** A stage that raises, in any state of any run, is reported as a failure and cleaned up after. */
  lemma RaisedIsReportedFailed(s: Sys, id: Id, rest: seq<Event>)
    requires Enabled(s, Step(id, Raises)) && IsStage(s.pipes[id]) && IsRun(Next(s, Step(id, Raises)), rest)
    ensures var f := Final(Next(s, Step(id, Raises)), rest);
            && id in f.pipes && id !in Counted(f, ResultCompleted)
            && (Reported(f.pipes[id]) ==> id in Counted(f, ResultFailed))
            && (f.pipes[id].Decrement? ==> f.pipes[id].cleanup)
  {
    ExceptedStep(Local(s.pipes[id], s.states[id], id in s.lateErrors), s.dryRun[id], Raises);
    ExceptedRun(Next(s, Step(id, Raises)), rest, id);
  }

  /** What the two handlers and the pool do, in any state. */
  lemma HandlerEffects(s: Sys, e: Event)
    requires Enabled(s, e) && !e.Step?
    ensures e.CreateRecord? ==>
              Next(s, e) == s.(states := s.states[e.id := Acknowledged], created := s.created + {e.id})
    ensures e.Submit? ==> Next(s, e) == s.(pipes := s.pipes[e.id := Queued], dryRun := s.dryRun[e.id := e.dryRun])
    ensures e.CancelByUser? ==>
              Next(s, e) == if s.states[e.id] == Acknowledged then s.(states := s.states[e.id := Cancelled]) else s
    ensures e.Start? ==>
              && |Busy(s)| < 4
              && Next(s, e) == s.(pipes := s.pipes[e.id := ToPlanning], active := s.active + 1)
  {
  }

  /** When each of them can happen: in particular a queued pipeline starts exactly when one of the four
      workers is free. */
  lemma HandlersReadyIff(s: Sys, id: Id, dry: bool)
    ensures Enabled(s, CreateRecord(id)) <==> id !in s.states
    ensures Enabled(s, Submit(id, dry)) <==> id in s.created && id !in s.pipes
    ensures Enabled(s, CancelByUser(id)) <==> id in s.states
    ensures Enabled(s, Start(id)) <==> id in s.pipes && s.pipes[id] == Queued && |Busy(s)| < 4
  {
  }

  // --- Where the completed counter is wrong -------------------------------------------------

  /** A restart: with nothing running and nothing failed, the completed counter is zero while the store
      holds a completed intent. */
  lemma RestartMiscounts(id: Id)
    ensures var s := Init(map[id := Completed]);
            s.active == 0 && s.completed == 0 && s.lateErrors == {} && InState(s, Completed) == {id}
  {
  }

  /** Whenever the append after a final transition raises, the intent is completed while only the failed
      counter moves. */
  lemma EveryLateErrorMiscounts(s: Sys, id: Id)
    requires id in s.pipes && id in s.states && id in s.dryRun
    requires s.pipes[id].ToCompleted? && s.states[id].Applied?
    ensures var s1 := Next(s, Step(id, Raises));
            && Enabled(s1, Step(id, Fine))
            && var s2 := Next(s1, Step(id, Fine));
            && Enabled(s2, Step(id, Fine))
            && var s3 := Next(s2, Step(id, Fine));
            s3.states[id].Completed? && s3.completed == s.completed && s3.failed == s.failed + 1
  {
    var s1 := Next(s, Step(id, Raises));
    assert s1.pipes[id] == HandleError && s1.states[id] == Completed;
    var s2 := Next(s1, Step(id, Fine));
    assert s2.pipes[id] == Count(ResultFailed, true) && s2.states[id] == Completed;
  }

  /** One dry-run intent with its pipeline, as yet counted as failed `failed` times and no other way. */
  function One(l: Local, failed: nat): Sys {
    Sys(map[0 := l.st], map[0 := l.pc], map[0 := true], 1, 0, failed, if l.late then {0} else {}, map[], {0})
  }

  lemma {:induction false} RunConcat(s: Sys, a: seq<Event>, b: seq<Event>)
    requires IsRun(s, a) && IsRun(Final(s, a), b)
    ensures IsRun(s, a + b) && Final(s, a + b) == Final(Final(s, a), b)
    decreases |a|
  {
    if a == [] {
      assert a + b == b;
    } else {
      assert (a + b)[1..] == a[1..] + b;
      RunConcat(Next(s, a[0]), a[1..], b);
    }
  }

  ghost predicate LeadsTo(s: Sys, t: Sys) {
    exists run :: IsRun(s, run) && Final(s, run) == t
  }

  lemma LeadsToNext(s: Sys, e: Event)
    requires Enabled(s, e)
    ensures LeadsTo(s, Next(s, e))
  {
    assert IsRun(Next(s, e), [e][1..]);
    assert IsRun(s, [e]) && Final(s, [e]) == Next(s, e);
  }

  lemma LeadsToTrans(s: Sys, t: Sys, u: Sys)
    requires LeadsTo(s, t) && LeadsTo(t, u)
    ensures LeadsTo(s, u)
  {
    var a :| IsRun(s, a) && Final(s, a) == t;
    var b :| IsRun(t, b) && Final(t, b) == u;
    RunConcat(s, a, b);
  }

  /** One step of that pipeline that counts no completion and leaves the gauge alone. */
  lemma Hop(l: Local, luck: Luck, l': Local, failed: nat)
    requires BusyPc(l.pc) && !l.pc.Decrement? && CountDelta(l.pc, ResultCompleted) == 0 && !luck.ManifestErrors?
    requires StepLocal(l, true, luck) == l' && (l.late ==> l'.late)
    ensures LeadsTo(One(l, failed), One(l', failed + CountDelta(l.pc, ResultFailed)))
  {
    LeadsToNext(One(l, failed), Step(0, luck));
    assert Next(One(l, failed), Step(0, luck)) == One(l', failed + CountDelta(l.pc, ResultFailed));
  }

  lemma HopHop(a: Local, b: Local, c: Local)
    requires BusyPc(a.pc) && BusyPc(b.pc) && !a.pc.Decrement? && !b.pc.Decrement? && !a.pc.Count? && !b.pc.Count?
    requires StepLocal(a, true, Fine) == b && StepLocal(b, true, Fine) == c && (a.late ==> b.late) && (b.late ==> c.late)
    ensures LeadsTo(One(a, 0), One(c, 0))
  {
    Hop(a, Fine, b, 0);
    Hop(b, Fine, c, 0);
    LeadsToTrans(One(a, 0), One(b, 0), One(c, 0));
  }

  lemma ReachesGenerating()
    ensures LeadsTo(One(Local(ToPlanning, Acknowledged, false), 0), One(Local(ToGenerating, Validating, false), 0))
  {
    var a, b, c := Local(ToPlanning, Acknowledged, false), Local(ToValidating, Planning, false), Local(ToGenerating, Validating, false);
    HopHop(a, Local(PlanningWork, Planning, false), b);
    HopHop(b, Local(ValidatingWork, Validating, false), c);
    LeadsToTrans(One(a, 0), One(b, 0), One(c, 0));
  }

  lemma ReachesProposed()
    ensures LeadsTo(One(Local(ToGenerating, Validating, false), 0), One(Local(ToProposed, Executing, false), 0))
  {
    var a, b, c := Local(ToGenerating, Validating, false), Local(ToExecuting, Generating, false), Local(ToProposed, Executing, false);
    HopHop(a, Local(GeneratingWork, Generating, false), b);
    Hop(b, Fine, c, 0);
    LeadsToTrans(One(a, 0), One(b, 0), One(c, 0));
  }

  lemma ReachesLateError()
    ensures LeadsTo(One(Local(ToProposed, Executing, false), 0), One(Local(HandleError, Completed, true), 0))
  {
    var a, b, c := Local(ToProposed, Executing, false), Local(ToCompleted, Applied, false), Local(HandleError, Completed, true);
    HopHop(a, Local(ToApplied, Proposed, false), b);
    Hop(b, Raises, c, 0);
    LeadsToTrans(One(a, 0), One(b, 0), One(c, 0));
  }

  const MISCOUNTED: Sys := One(Local(Decrement(ResultFailed, true), Completed, true), 1)

  lemma CountsFailure()
    ensures LeadsTo(One(Local(HandleError, Completed, true), 0), MISCOUNTED)
  {
    var a, b := Local(HandleError, Completed, true), Local(Count(ResultFailed, true), Completed, true);
    Hop(a, Fine, b, 0);
    Hop(b, Fine, Local(Decrement(ResultFailed, true), Completed, true), 0);
    LeadsToTrans(One(a, 0), One(b, 0), MISCOUNTED);
  }

  lemma Starts()
    ensures LeadsTo(Init(map[]), One(Local(ToPlanning, Acknowledged, false), 0))
  {
    var s0, t := Init(map[]), One(Local(ToPlanning, Acknowledged, false), 0);
    var s1 := s0.(states := map[0 := Acknowledged], created := {0});
    var s2 := s1.(pipes := map[0 := Queued], dryRun := map[0 := true]);
    assert Busy(s2) == {};
    LeadsToNext(s0, CreateRecord(0));
    assert Next(s0, CreateRecord(0)) == s1;
    LeadsToNext(s1, Submit(0, true));
    assert Next(s1, Submit(0, true)) == s2;
    LeadsToNext(s2, Start(0));
    assert Next(s2, Start(0)) == t;
    LeadsToTrans(s0, s1, s2);
    LeadsToTrans(s0, s2, t);
  }

  /** A whole run from an empty store: one intent is created, submitted and taken to completed, its last
      append raises, and in the end it is completed while only the failed counter has moved. */
  lemma LateErrorMiscounts()
    ensures exists run :: IsRun(Init(map[]), run) && Final(Init(map[]), run) == MISCOUNTED
    ensures MISCOUNTED.states[0] == Completed && MISCOUNTED.completed == 0 && MISCOUNTED.failed == 1
  {
    var s := Init(map[]);
    Starts();
    ReachesGenerating();
    ReachesProposed();
    ReachesLateError();
    CountsFailure();
    LeadsToTrans(s, One(Local(ToPlanning, Acknowledged, false), 0), One(Local(ToGenerating, Validating, false), 0));
    LeadsToTrans(s, One(Local(ToGenerating, Validating, false), 0), One(Local(ToProposed, Executing, false), 0));
    LeadsToTrans(s, One(Local(ToProposed, Executing, false), 0), One(Local(HandleError, Completed, true), 0));
    LeadsToTrans(s, One(Local(HandleError, Completed, true), 0), MISCOUNTED);
  }
}
