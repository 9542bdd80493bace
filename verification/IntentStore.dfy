/** The crash-recovery protocol of the intent store as a state machine over memory, snapshot file
    and log file, with a crash possible between any two durable writes
    (llm_nephio_oran/intentd/store.py, lines 95-121, 154-242 and 295-454). */
module IntentStore {
  import opened Wrappers
  import opened Lifecycle
  import opened IntentLog
  import opened IntentShadow
  import IntentIds

  const SNAPSHOT_INTERVAL: nat := 50

  datatype Snapshot = Snapshot(table: Table, seq_: nat, transitionCount: nat, walLineCount: nat)

  /** The two files; a missing log file reads like an empty one. */
  datatype Disk = Disk(snapshot: Option<Snapshot>, wal: seq<Line>)

  function SnapshotTable(d: Disk): Table {
    if d.snapshot.Some? then d.snapshot.value.table else EMPTY
  }

  /** Number of countable log lines that a reload skips. */
  function Offset(d: Disk): nat {
    if d.snapshot.Some? then d.snapshot.value.walLineCount else 0
  }

  /** `_load`: snapshot if there is one, then the log lines after its offset. */
  function Load(d: Disk): Table {
    Replay(SnapshotTable(d), d.wal, Offset(d))
  }

  /** Where the store is inside `_write_snapshot`; all of it happens under the store lock. */
  datatype Phase = Idle | SnapshotDue | SnapshotRenamed | WalTruncated

  /** `pending` holds identifiers handed out by `_next_intent_id` to creates that have not taken the
      store lock yet. The last three are history variables. `base` counts the log lines already there
      when memory was last loaded from disk, snapshotted or the log truncated; `failed` says whether an
      append has raised since memory was last loaded or snapshotted; `gaps` are the calls since then
      that a reload does not have, because their append raised or because their line lies below the
      offset that a reload skips. */
  datatype Sys = Sys(
    mem: Table,
    disk: Disk,
    walLineCount: nat,
    transitionCount: nat,
    phase: Phase,
    counter: nat,
    pending: set<string>,
    base: nat,
    failed: bool,
    gaps: Gaps)

  /** Whether a line appended now lies beyond the offset that a reload skips. */
  predicate Reaches(s: Sys) {
    s.walLineCount >= Offset(s.disk)
  }

  /** `FailCreate` and `FailTransition` are calls whose log append raises after memory has changed. */
  datatype Event =
    | AllocateId(date: string)
    | CreateIntent(id: string, expression: string, source: string, now: string)
    | TransitionIntent(id: string, to: State, data: Option<Data>, now: string)
    | FailCreate(id: string, expression: string, source: string, now: string)
    | FailTransition(id: string, to: State, data: Option<Data>, now: string)
    | RenameSnapshot(ok: bool)
    | TruncateWal(ok: bool)
    | RewriteOffset(ok: bool)
    | CrashAndReload(counter: nat)

  function Append(d: Disk, e: Entry): Disk {
    d.(wal := d.wal + [Valid(e)])
  }

  /** The sequence counter after a restart: at least the snapshot's, and covering every stored
      identifier, as `_load_snapshot` and `_init_seq_from_existing` leave it. */
  predicate RestartCounter(d: Disk, counter: nat) {
    && (d.snapshot.Some? ==> counter >= d.snapshot.value.seq_)
    && IntentIds.Covers(counter, Load(d).recs.Keys)
  }

  predicate MayMove(s: Sys, id: string, to: State) {
    id in s.mem.recs && to in ValidNext(s.mem.recs[id].state)
  }

  ghost predicate Enabled(s: Sys, e: Event) {
    match e
    case AllocateId(_) => true
    case CreateIntent(id, _, _, _) => s.phase.Idle? && id in s.pending
    case TransitionIntent(id, to, _, _) => s.phase.Idle? && MayMove(s, id, to)
    case FailCreate(id, _, _, _) => s.phase.Idle? && id in s.pending
    case FailTransition(id, to, _, _) => s.phase.Idle? && MayMove(s, id, to)
    case RenameSnapshot(_) => s.phase.SnapshotDue?
    case TruncateWal(_) => s.phase.SnapshotRenamed?
    case RewriteOffset(_) => s.phase.WalTruncated? && s.disk.snapshot.Some?
    case CrashAndReload(counter) => RestartCounter(s.disk, counter)
  }

  function Boot(d: Disk, counter: nat): Sys {
    Sys(Load(d), d, Countable(d.wal),
        if d.snapshot.Some? then d.snapshot.value.transitionCount else 0,
        Idle, counter, {}, Countable(d.wal), false, NO_GAPS)
  }

  ghost function Next(s: Sys, e: Event): Sys
    requires Enabled(s, e)
  {
    match e
    case AllocateId(date) =>
      s.(counter := s.counter + 1, pending := s.pending + {IntentIds.IntentId(date, s.counter + 1)})
    case CreateIntent(id, expression, source, now) =>
      var entry := Create(NewRecord(id, expression, source, now));
      s.(mem := Apply(s.mem, entry), disk := Append(s.disk, entry),
         walLineCount := s.walLineCount + 1, pending := s.pending - {id},
         gaps := AfterCreate(s.gaps, id, Reaches(s)))
    case TransitionIntent(id, to, data, now) =>
      var entry := Transition(id, s.mem.recs[id].state, to, data, now);
      s.(mem := Apply(s.mem, entry), disk := Append(s.disk, entry),
         walLineCount := s.walLineCount + 1, transitionCount := s.transitionCount + 1,
         gaps := AfterMove(s.gaps, id, Reaches(s)),
         phase := if (s.transitionCount + 1) % SNAPSHOT_INTERVAL == 0 then SnapshotDue else Idle)
    case FailCreate(id, expression, source, now) =>
      s.(mem := Apply(s.mem, Create(NewRecord(id, expression, source, now))),
         pending := s.pending - {id}, failed := true, gaps := AfterCreate(s.gaps, id, false))
    case FailTransition(id, to, data, now) =>
      s.(mem := Apply(s.mem, Transition(id, s.mem.recs[id].state, to, data, now)),
         failed := true, gaps := AfterMove(s.gaps, id, false))
    case RenameSnapshot(ok) =>
      if ok then
        s.(disk := s.disk.(snapshot := Some(Snapshot(s.mem, s.counter, s.transitionCount, s.walLineCount))),
           base := s.walLineCount, phase := SnapshotRenamed, failed := false, gaps := NO_GAPS)
      else s.(phase := Idle)
    case TruncateWal(ok) =>
      if ok then s.(disk := s.disk.(wal := []), walLineCount := 0, base := 0, phase := WalTruncated)
      else s.(phase := Idle)
    case RewriteOffset(ok) =>
      if ok then s.(disk := s.disk.(snapshot := Some(s.disk.snapshot.value.(walLineCount := 0))), phase := Idle)
      else s.(phase := Idle)
    case CrashAndReload(counter) => Boot(s.disk, counter)
  }

  ghost predicate IsRun(s: Sys, run: seq<Event>)
    decreases |run|
  {
    run == [] || (Enabled(s, run[0]) && IsRun(Next(s, run[0]), run[1..]))
  }

  ghost function Final(s: Sys, run: seq<Event>): Sys
    requires IsRun(s, run)
    decreases |run|
  {
    if run == [] then s else Final(Next(s, run[0]), run[1..])
  }

  // --- What every step of every run keeps ---------------------------------------------------

  ghost predicate WellFormedDisk(d: Disk) {
    WellFormed(SnapshotTable(d))
  }

  /** The caller's condition: no append has failed since memory was last loaded or snapshotted, and
      the snapshot's offset is not ahead of the lines the process started from or nothing was logged
      since. */
  predicate InStep(s: Sys) {
    !s.failed && (Offset(s.disk) <= s.base || s.walLineCount == s.base)
  }

  /** Inside `_write_snapshot`, from the rename on. */
  ghost predicate SnapshotInv(s: Sys) {
    && (s.phase.SnapshotRenamed? || s.phase.WalTruncated? ==>
          && s.disk.snapshot.Some? && s.disk.snapshot.value.table == s.mem && s.base == s.walLineCount
          && !s.failed && s.gaps == NO_GAPS)
    && (s.phase.SnapshotRenamed? ==> Offset(s.disk) == s.base)
    && (s.phase.WalTruncated? ==> s.walLineCount == 0 && s.disk.wal == [])
  }

  ghost predicate IdsInv(s: Sys) {
    && IntentIds.Covers(s.counter, s.mem.recs.Keys + s.pending)
    && s.pending !! s.mem.recs.Keys
  }

  ghost predicate Inv(s: Sys) {
    && WellFormed(s.mem) && WellFormedDisk(s.disk)
    && s.base <= s.walLineCount == Countable(s.disk.wal)
    && Shadows(s.mem, Load(s.disk), s.gaps)
    && (Missing(s.gaps) == {} <==> InStep(s))
    && SnapshotInv(s)
    && IdsInv(s)
  }

  /** A reload has an appended line exactly when the line lies beyond the offset. */
  lemma LoadAppend(d: Disk, entry: Entry)
    ensures Load(Append(d, entry)) == ApplyIf(Load(d), entry, Countable(d.wal) >= Offset(d))
    ensures Countable(Append(d, entry).wal) == Countable(d.wal) + 1
  {
    var line := [Valid(entry)];
    ReplayAppend(SnapshotTable(d), d.wal, line, Offset(d));
    CountableAppend(d.wal, line);
    assert line[1..] == [];
  }

  /** Appending keeps the condition and the gaps in agreement. */
  lemma AppendInStep(s: Sys, t: Sys)
    requires s.base <= s.walLineCount && (Missing(s.gaps) == {} <==> InStep(s))
    requires t.disk.snapshot == s.disk.snapshot && t.base == s.base && t.failed == s.failed
    requires t.walLineCount == s.walLineCount + 1
    requires Missing(t.gaps) == {} <==> Missing(s.gaps) == {} && Reaches(s)
    ensures Missing(t.gaps) == {} <==> InStep(t)
  {
  }

  lemma GapsAfter(g: Gaps, id: string, reaches: bool)
    ensures Missing(AfterCreate(g, id, reaches)) == {} <==> Missing(g) == {} && reaches
    ensures Missing(AfterMove(g, id, reaches)) == {} <==> Missing(g) == {} && reaches
  {
    assert !reaches ==> id in Missing(AfterCreate(g, id, reaches)) && id in Missing(AfterMove(g, id, reaches));
    assert reaches ==> Missing(AfterCreate(g, id, reaches)) == Missing(AfterMove(g, id, reaches)) == Missing(g);
  }

  lemma CreateIds(s: Sys, e: Event)
    requires IdsInv(s) && Enabled(s, e) && (e.CreateIntent? || e.FailCreate?)
    ensures IdsInv(Next(s, e))
  {
    assert Next(s, e).mem.recs.Keys + Next(s, e).pending == s.mem.recs.Keys + s.pending;
  }

  lemma CreateShadows(s: Sys, e: Event)
    requires Inv(s) && Enabled(s, e) && (e.CreateIntent? || e.FailCreate?)
    ensures var t := Next(s, e);
            && Shadows(t.mem, Load(t.disk), t.gaps)
            && t.walLineCount == Countable(t.disk.wal)
            && (Missing(t.gaps) == {} <==> InStep(t))
  {
    var t := Next(s, e);
    var rec := NewRecord(e.id, e.expression, e.source, e.now);
    var reaches := e.CreateIntent? && Reaches(s);
    LoadAppend(s.disk, Create(rec));
    ShadowsCreate(s.mem, Load(s.disk), s.gaps, rec, reaches);
    GapsAfter(s.gaps, e.id, reaches);
    if e.CreateIntent? {
      AppendInStep(s, t);
    }
  }

  lemma CreateKeepsInv(s: Sys, e: Event)
    requires Inv(s) && Enabled(s, e) && (e.CreateIntent? || e.FailCreate?)
    ensures Inv(Next(s, e))
  {
    CreateIds(s, e);
    CreateShadows(s, e);
  }

  lemma TransitionKeepsInv(s: Sys, e: Event)
    requires Inv(s) && Enabled(s, e) && (e.TransitionIntent? || e.FailTransition?)
    ensures Inv(Next(s, e))
  {
    var t := Next(s, e);
    var reaches := e.TransitionIntent? && Reaches(s);
    assert t.mem.recs.Keys == s.mem.recs.Keys;
    LoadAppend(s.disk, Transition(e.id, s.mem.recs[e.id].state, e.to, e.data, e.now));
    ShadowsMove(s.mem, Load(s.disk), s.gaps, e.id, e.to, e.data, e.now, reaches);
    GapsAfter(s.gaps, e.id, reaches);
    if e.TransitionIntent? {
      AppendInStep(s, t);
    }
  }

  lemma BootInv(d: Disk, counter: nat)
    requires WellFormedDisk(d) && RestartCounter(d, counter)
    ensures Inv(Boot(d, counter))
  {
    ShadowsItself(Load(d));
  }

  /** After a successful rename, truncation or offset rewrite a reload gives memory itself. */
  lemma SnapshotLoads(s: Sys, e: Event)
    requires Inv(s) && Enabled(s, e) && (e.RenameSnapshot? || e.TruncateWal? || e.RewriteOffset?) && e.ok
    ensures var t := Next(s, e); Load(t.disk) == t.mem == s.mem
  {
    if e.RenameSnapshot? {
      ReplayAllSkipped(s.mem, s.disk.wal, s.walLineCount);
    }
  }

  lemma SnapshotKeepsInv(s: Sys, e: Event)
    requires Inv(s) && Enabled(s, e) && (e.RenameSnapshot? || e.TruncateWal? || e.RewriteOffset?)
    ensures Inv(Next(s, e))
  {
    if e.ok {
      SnapshotLoads(s, e);
      ShadowsItself(s.mem);
    }
  }

  lemma AllocateIds(s: Sys, date: string)
    requires IdsInv(s)
    ensures IdsInv(Next(s, AllocateId(date)))
  {
    var id := IntentIds.IntentId(date, s.counter + 1);
    IntentIds.NextIdIsFresh(s.counter, s.mem.recs.Keys + s.pending, date);
    assert s.mem.recs.Keys + (s.pending + {id}) == s.mem.recs.Keys + s.pending + {id};
  }

  lemma AllocateKeepsInv(s: Sys, date: string)
    requires Inv(s)
    ensures Inv(Next(s, AllocateId(date)))
  {
    AllocateIds(s, date);
  }

  lemma StepKeepsInv(s: Sys, e: Event)
    requires Inv(s) && Enabled(s, e)
    ensures Inv(Next(s, e))
  {
    match e
    case AllocateId(date) => AllocateKeepsInv(s, date);
    case CreateIntent(_, _, _, _) => CreateKeepsInv(s, e);
    case FailCreate(_, _, _, _) => CreateKeepsInv(s, e);
    case TransitionIntent(_, _, _, _) => TransitionKeepsInv(s, e);
    case FailTransition(_, _, _, _) => TransitionKeepsInv(s, e);
    case CrashAndReload(counter) => BootInv(s.disk, counter);
    case _ => SnapshotKeepsInv(s, e);
  }

  lemma {:induction false} RunKeepsInv(s: Sys, run: seq<Event>)
    requires Inv(s) && IsRun(s, run)
    ensures Inv(Final(s, run))
    decreases |run|
  {
    if run != [] {
      StepKeepsInv(s, run[0]);
      RunKeepsInv(Next(s, run[0]), run[1..]);
    }
  }

  // --- What a reload has --------------------------------------------------------------------

  /** Crash recovery refines memory, over every run from every readable disk with any number of
      crashes and of failed append, snapshot, truncation or offset writes at any point: a reload
      rebuilds exactly the records, histories and insertion order in memory if and only if no append
      has failed since memory was last loaded or snapshotted, and the snapshot's offset is not ahead
      of the lines the running process started from or nothing was logged since then. */
  lemma ReloadExactIff(d: Disk, counter: nat, run: seq<Event>)
    requires WellFormedDisk(d) && RestartCounter(d, counter)
    requires IsRun(Boot(d, counter), run)
    ensures var s := Final(Boot(d, counter), run);
            Load(s.disk) == s.mem
            <==> !s.failed && (Offset(s.disk) <= s.base || s.walLineCount == s.base)
  {
    BootInv(d, counter);
    RunKeepsInv(Boot(d, counter), run);
    var s := Final(Boot(d, counter), run);
    TableKeptIff(s.mem, Load(s.disk), s.gaps);
  }

  /** What a reload gives, next to memory: whole records exactly of the intents without a gap, and of
      the others at most a shorter history; in insertion order, without the intents whose create does
      not reach it. */
  ghost predicate ReloadHas(s: Sys, l: Table) {
    && l.recs.Keys == s.mem.recs.Keys - s.gaps.lost
    && l.order == Without(s.mem.order, s.gaps.lost)
    && (forall id :: id in s.mem.recs ==> (id in l.recs && l.recs[id] == s.mem.recs[id] <==> id !in Missing(s.gaps)))
    && (forall id :: id in l.recs && id in s.gaps.behind ==> |l.recs[id].history| < |s.mem.recs[id].history|)
  }

  /** Intent by intent, over every run from every readable disk, with crashes and failed writes anywhere
      and the truncation window included. */
  lemma ReloadLosesExactlyTheGaps(d: Disk, counter: nat, run: seq<Event>)
    requires WellFormedDisk(d) && RestartCounter(d, counter) && IsRun(Boot(d, counter), run)
    ensures var s := Final(Boot(d, counter), run);
            ReloadHas(s, Load(s.disk)) && (Load(s.disk) == s.mem <==> Missing(s.gaps) == {})
  {
    BootInv(d, counter);
    RunKeepsInv(Boot(d, counter), run);
    var s := Final(Boot(d, counter), run);
    var l := Load(s.disk);
    TableKeptIff(s.mem, l, s.gaps);
    forall id | id in s.mem.recs ensures id in l.recs && l.recs[id] == s.mem.recs[id] <==> id !in Missing(s.gaps) {
      RecordKeptIff(s.mem, l, s.gaps, id);
    }
    forall id | id in l.recs && id in s.gaps.behind ensures |l.recs[id].history| < |s.mem.recs[id].history| {
      assert Follows(s.mem.recs[id], l.recs[id], true);
    }
  }

  /** What one step may do to a stored record. */
  ghost predicate Extends(a: Record, b: Record) {
    a.history <= b.history && (Terminal(a.state) ==> a == b)
  }

  lemma OrdinaryStepExtends(s: Sys, e: Event, id: string)
    requires Enabled(s, e) && !e.CrashAndReload? && id in s.mem.recs && s.pending !! s.mem.recs.Keys
    ensures id in Next(s, e).mem.recs && Extends(s.mem.recs[id], Next(s, e).mem.recs[id])
  {
    if e.TransitionIntent? || e.FailTransition? {
      assert !Terminal(s.mem.recs[e.id].state);
    }
  }

  /** A crash and reload, also inside the window, keeps an intent and its history if and only if every
      one of its calls since the last load or snapshot reaches the reload; and it keeps the insertion
      order of the intents it keeps. */
  lemma CrashKeepsIff(s: Sys, e: Event, id: string)
    requires Inv(s) && Enabled(s, e) && e.CrashAndReload? && id in s.mem.recs
    ensures id in Next(s, e).mem.recs && Extends(s.mem.recs[id], Next(s, e).mem.recs[id]) <==> id !in Missing(s.gaps)
    ensures Next(s, e).mem.order == Without(s.mem.order, s.gaps.lost)
  {
    RecordKeptIff(s.mem, Load(s.disk), s.gaps, id);
  }

  /** No crash of the run finds a gap of this intent. */
  ghost predicate CrashesSpare(s: Sys, run: seq<Event>, id: string)
    requires IsRun(s, run)
    decreases |run|
  {
    run == [] || ((run[0].CrashAndReload? ==> id !in Missing(s.gaps)) && CrashesSpare(Next(s, run[0]), run[1..], id))
  }

  /** No crash of the run finds an intent whose create does not reach the reload. */
  ghost predicate CrashesSpareCreates(s: Sys, run: seq<Event>)
    requires IsRun(s, run)
    decreases |run|
  {
    run == [] || ((run[0].CrashAndReload? ==> s.gaps.lost == {}) && CrashesSpareCreates(Next(s, run[0]), run[1..]))
  }

  lemma StepExtends(s: Sys, e: Event, id: string)
    requires Inv(s) && Enabled(s, e) && id in s.mem.recs
    requires e.CrashAndReload? ==> id !in Missing(s.gaps)
    ensures id in Next(s, e).mem.recs && Extends(s.mem.recs[id], Next(s, e).mem.recs[id])
  {
    if e.CrashAndReload? {
      CrashKeepsIff(s, e, id);
    } else {
      assert s.pending !! s.mem.recs.Keys;
      OrdinaryStepExtends(s, e, id);
    }
  }

  /** What is never undone: along any run at whose crashes the intent has no gap, whatever happens to
      other intents, it stays, its history only grows, and once in a terminal state it keeps its whole
      record. */
  lemma {:induction false} RunsKeepHistories(s: Sys, run: seq<Event>, id: string)
    requires Inv(s) && IsRun(s, run) && id in s.mem.recs && CrashesSpare(s, run, id)
    ensures var f := Final(s, run);
            id in f.mem.recs && Extends(s.mem.recs[id], f.mem.recs[id])
    decreases |run|
  {
    if run != [] {
      StepKeepsInv(s, run[0]);
      StepExtends(s, run[0], id);
      RunsKeepHistories(Next(s, run[0]), run[1..], id);
    }
  }

  lemma CallsKeepOrder(s: Sys, e: Event)
    requires Enabled(s, e) && !e.CrashAndReload?
    ensures s.mem.order <= Next(s, e).mem.order
  {
  }

  lemma CrashKeepsOrder(s: Sys, e: Event)
    requires Inv(s) && Enabled(s, e) && e.CrashAndReload? && s.gaps.lost == {}
    ensures s.mem.order == Next(s, e).mem.order
  {
    WithoutNone(s.mem.order);
  }

  /** Insertion order is never disturbed when no crash finds a create missing. */
  lemma {:induction false} RunsKeepOrder(s: Sys, run: seq<Event>)
    requires Inv(s) && IsRun(s, run) && CrashesSpareCreates(s, run)
    ensures s.mem.order <= Final(s, run).mem.order
    decreases |run|
  {
    if run != [] {
      StepKeepsInv(s, run[0]);
      if run[0].CrashAndReload? {
        CrashKeepsOrder(s, run[0]);
      } else {
        CallsKeepOrder(s, run[0]);
      }
      RunsKeepOrder(Next(s, run[0]), run[1..]);
    }
  }

  /** A create never overwrites a stored record: its identifier differs from every stored one, with
      any number of concurrent creates between allocation and insertion, after any restart, and
      whether or not its append succeeds. */
  lemma CreateNeverOverwrites(d: Disk, counter: nat, run: seq<Event>, e: Event)
    requires WellFormedDisk(d) && RestartCounter(d, counter) && IsRun(Boot(d, counter), run)
    requires (e.CreateIntent? || e.FailCreate?) && Enabled(Final(Boot(d, counter), run), e)
    ensures var s := Final(Boot(d, counter), run);
            && e.id !in s.mem.recs
            && Next(s, e).mem.order == s.mem.order + [e.id]
            && forall id :: id in s.mem.recs ==> Next(s, e).mem.recs[id] == s.mem.recs[id]
  {
    BootInv(d, counter);
    RunKeepsInv(Boot(d, counter), run);
  }

  // --- Lifecycle safety ---------------------------------------------------------------------

  ghost predicate ChainInv(s: Sys) {
    LifecycleOk(s.mem) && Chains(s.mem, Load(s.disk), s.gaps)
  }

  lemma LifecycleStep(t: Table, id: string, to: State, data: Option<Data>, now: string)
    requires LifecycleOk(t) && id in t.recs && to in ValidNext(t.recs[id].state)
    ensures LifecycleOk(Apply(t, Transition(id, t.recs[id].state, to, data, now)))
  {
    var rec := t.recs[id];
    assert WellChained(rec.history, rec.state);
    ChainedStep(rec.history, HistoryEntry(Some(rec.state), to, now, data));
  }

  lemma ChainCreate(s: Sys, e: Event)
    requires Inv(s) && ChainInv(s) && Enabled(s, e) && (e.CreateIntent? || e.FailCreate?)
    ensures ChainInv(Next(s, e))
  {
    var rec := NewRecord(e.id, e.expression, e.source, e.now);
    assert WellChained(rec.history, rec.state);
    assert Next(s, e).mem.recs == s.mem.recs[e.id := rec];
    LoadAppend(s.disk, Create(rec));
    ChainsCreate(s.mem, Load(s.disk), s.gaps, rec, e.CreateIntent? && Reaches(s));
  }

  lemma ChainMove(s: Sys, e: Event)
    requires Inv(s) && ChainInv(s) && Enabled(s, e) && (e.TransitionIntent? || e.FailTransition?)
    ensures ChainInv(Next(s, e))
  {
    LifecycleStep(s.mem, e.id, e.to, e.data, e.now);
    LoadAppend(s.disk, Transition(e.id, s.mem.recs[e.id].state, e.to, e.data, e.now));
    ChainsMove(s.mem, Load(s.disk), s.gaps, e.id, e.to, e.data, e.now, e.TransitionIntent? && Reaches(s));
  }

  lemma ChainSnapshot(s: Sys, e: Event)
    requires Inv(s) && ChainInv(s) && Enabled(s, e) && (e.RenameSnapshot? || e.TruncateWal? || e.RewriteOffset?)
    ensures ChainInv(Next(s, e))
  {
    if e.ok {
      SnapshotLoads(s, e);
      ChainsItself(s.mem);
    }
  }

  /** A crash that finds nothing torn, inside the window or not, leaves every history chained. */
  lemma ChainCrash(s: Sys, e: Event)
    requires Inv(s) && ChainInv(s) && Enabled(s, e) && e.CrashAndReload? && s.gaps.torn == {}
    ensures ChainInv(Next(s, e))
  {
    ChainsKeptIff(s.mem, Load(s.disk), s.gaps);
    ChainsItself(Load(s.disk));
  }

  lemma ChainStep(s: Sys, e: Event)
    requires Inv(s) && ChainInv(s) && Enabled(s, e) && (e.CrashAndReload? ==> s.gaps.torn == {})
    ensures ChainInv(Next(s, e))
  {
    match e
    case AllocateId(_) =>
    case CreateIntent(_, _, _, _) => ChainCreate(s, e);
    case FailCreate(_, _, _, _) => ChainCreate(s, e);
    case TransitionIntent(_, _, _, _) => ChainMove(s, e);
    case FailTransition(_, _, _, _) => ChainMove(s, e);
    case CrashAndReload(_) => ChainCrash(s, e);
    case _ => ChainSnapshot(s, e);
  }

  /** No crash of the run finds a torn intent. */
  ghost predicate CrashesFindNothingTorn(s: Sys, run: seq<Event>)
    requires IsRun(s, run)
    decreases |run|
  {
    run == [] || ((run[0].CrashAndReload? ==> s.gaps.torn == {}) && CrashesFindNothingTorn(Next(s, run[0]), run[1..]))
  }

  lemma {:induction false} ChainRun(s: Sys, run: seq<Event>)
    requires Inv(s) && ChainInv(s) && IsRun(s, run) && CrashesFindNothingTorn(s, run)
    ensures Inv(Final(s, run)) && ChainInv(Final(s, run))
    decreases |run|
  {
    if run != [] {
      StepKeepsInv(s, run[0]);
      ChainStep(s, run[0]);
      ChainRun(Next(s, run[0]), run[1..]);
    }
  }

  /** Lifecycle safety, over every run from a readable disk with chained histories, with failed writes
      anywhere and crashes anywhere, the truncation window included, as long as no crash finds an intent
      torn: every history in memory starts at acknowledged, follows allowed edges and has at most eight
      entries, although replay itself checks no edge; and a reload now would leave every history so if
      and only if nothing is torn. */
  lemma LifecycleSafety(d: Disk, counter: nat, run: seq<Event>)
    requires WellFormedDisk(d) && RestartCounter(d, counter) && LifecycleOk(Load(d))
    requires IsRun(Boot(d, counter), run) && CrashesFindNothingTorn(Boot(d, counter), run)
    ensures var s := Final(Boot(d, counter), run);
            && (forall id :: id in s.mem.recs ==>
                  WellChained(s.mem.recs[id].history, s.mem.recs[id].state) && |s.mem.recs[id].history| <= 8)
            && (LifecycleOk(Load(s.disk)) <==> s.gaps.torn == {})
  {
    BootInv(d, counter);
    ChainsItself(Load(d));
    ChainRun(Boot(d, counter), run);
    var s := Final(Boot(d, counter), run);
    ChainsKeptIff(s.mem, Load(s.disk), s.gaps);
    forall id | id in s.mem.recs ensures |s.mem.recs[id].history| <= 8 {
      HistoryBounded(s.mem.recs[id].history, s.mem.recs[id].state);
    }
  }

  /** So every reload that is exact keeps the lifecycle, in particular the one right after a crash in
      the window. */
  lemma ExactReloadIsChained(d: Disk, counter: nat, run: seq<Event>)
    requires WellFormedDisk(d) && RestartCounter(d, counter) && LifecycleOk(Load(d))
    requires IsRun(Boot(d, counter), run) && CrashesFindNothingTorn(Boot(d, counter), run)
    requires var s := Final(Boot(d, counter), run); InStep(s) || s.phase.WalTruncated?
    ensures var s := Final(Boot(d, counter), run); Load(s.disk) == s.mem && LifecycleOk(Load(s.disk))
  {
    LifecycleSafety(d, counter, run);
    BootInv(d, counter);
    RunKeepsInv(Boot(d, counter), run);
    ReloadExactIff(d, counter, run);
  }

  /** An empty state directory meets what these results ask of a disk. */
  lemma FreshDeploymentIsGood()
    ensures var d := Disk(None, []);
            WellFormedDisk(d) && RestartCounter(d, 0) && LifecycleOk(Load(d))
  {
  }

  // --- Failed appends -----------------------------------------------------------------------

  /** Nothing in the run mends a failed append: no crash, no successful snapshot rename. */
  ghost predicate NothingMends(run: seq<Event>) {
    forall i :: 0 <= i < |run| ==> !run[i].CrashAndReload? && !(run[i].RenameSnapshot? && run[i].ok)
  }

  lemma {:induction false} FailureStays(s: Sys, run: seq<Event>)
    requires IsRun(s, run) && NothingMends(run) && s.failed
    ensures Final(s, run).failed
    decreases |run|
  {
    if run != [] {
      FailureStays(Next(s, run[0]), run[1..]);
    }
  }

  /** Once an append has raised, after any run, every reload differs from memory until the next
      successful snapshot rename or crash; and that rename mends it. */
  lemma FailedAppendDiverges(d: Disk, counter: nat, run: seq<Event>, e: Event, rest: seq<Event>)
    requires WellFormedDisk(d) && RestartCounter(d, counter) && IsRun(Boot(d, counter), run)
    requires Enabled(Final(Boot(d, counter), run), e) && (e.FailCreate? || e.FailTransition?)
    requires IsRun(Next(Final(Boot(d, counter), run), e), rest) && NothingMends(rest)
    ensures var f := Final(Next(Final(Boot(d, counter), run), e), rest);
            && Load(f.disk) != f.mem
            && (f.phase.SnapshotDue? ==> Load(Next(f, RenameSnapshot(true)).disk) == f.mem)
  {
    BootInv(d, counter);
    RunKeepsInv(Boot(d, counter), run);
    var s := Final(Boot(d, counter), run);
    StepKeepsInv(s, e);
    RunKeepsInv(Next(s, e), rest);
    FailureStays(Next(s, e), rest);
    var f := Final(Next(s, e), rest);
    TableKeptIff(f.mem, Load(f.disk), f.gaps);
    if f.phase.SnapshotDue? {
      SnapshotLoads(f, RenameSnapshot(true));
    }
  }

  lemma {:induction false} Follow(s: Sys, run: seq<Event>, states: seq<Sys>)
    requires |states| == |run| + 1 && states[0] == s
    requires forall i :: 0 <= i < |run| ==> Enabled(states[i], run[i]) && states[i + 1] == Next(states[i], run[i])
    requires forall i :: 0 <= i < |run| && run[i].CrashAndReload? ==> states[i].gaps.torn == {}
    ensures IsRun(s, run) && CrashesFindNothingTorn(s, run) && Final(s, run) == states[|run|]
    decreases |run|
  {
    if run != [] {
      Follow(Next(s, run[0]), run[1..], states[1..]);
    }
  }

  /** The acknowledged intent whose move to planning could not be logged and whose failure then was. */
  function TearingRun(date: string, now: string): seq<Event> {
    var id := IntentIds.IntentId(date, 1);
    [AllocateId(date), CreateIntent(id, "", "", now), FailTransition(id, Planning, None, now),
     TransitionIntent(id, Failed, None, now)]
  }

  /** The two transitions, from any state in which the intent is acknowledged and has no gap. */
  lemma TwoTransitionsTear(s: Sys, id: string, now: string)
    requires s.phase.Idle? && Reaches(s) && s.gaps == NO_GAPS && id in s.mem.recs && s.mem.recs[id].state == Acknowledged
    ensures var e, e' := FailTransition(id, Planning, None, now), TransitionIntent(id, Failed, None, now);
            Enabled(s, e) && Enabled(Next(s, e), e') && id in Next(Next(s, e), e').gaps.torn
  {
    var t := Next(s, FailTransition(id, Planning, None, now));
    assert id in t.mem.recs && t.mem.recs[id].state == Planning && id in t.gaps.behind && id !in t.gaps.lost;
  }

  lemma FirstIntent(date: string, now: string)
    ensures var s, id := Boot(Disk(None, []), 0), IntentIds.IntentId(date, 1);
            var e := CreateIntent(id, "", "", now);
            && Enabled(Next(s, AllocateId(date)), e)
            && var t := Next(Next(s, AllocateId(date)), e);
            t.phase.Idle? && Reaches(t) && t.gaps == NO_GAPS && id in t.mem.recs && t.mem.recs[id].state == Acknowledged
  {
  }

  lemma TearingRunTears(date: string, now: string)
    ensures var s, run := Boot(Disk(None, []), 0), TearingRun(date, now);
            && IsRun(s, run) && CrashesFindNothingTorn(s, run)
            && IntentIds.IntentId(date, 1) in Final(s, run).gaps.torn
  {
    var s0, run := Boot(Disk(None, []), 0), TearingRun(date, now);
    FirstIntent(date, now);
    var s1 := Next(s0, run[0]);
    var s2 := Next(s1, run[1]);
    TwoTransitionsTear(s2, IntentIds.IntentId(date, 1), now);
    var s3 := Next(s2, run[2]);
    Follow(s0, run, [s0, s1, s2, s3, Next(s3, run[3])]);
  }

  /** From an empty directory, without any crash: memory is chained, but a reload after that run, and so
      memory after a crash then, has a history that does not chain, from acknowledged straight to an
      entry that left planning. */
  lemma FailedAppendTearsHistory(date: string, now: string)
    ensures var s, run := Boot(Disk(None, []), 0), TearingRun(date, now);
            && IsRun(s, run) && LifecycleOk(Final(s, run).mem) && !LifecycleOk(Load(Final(s, run).disk))
            && forall counter :: Enabled(Final(s, run), CrashAndReload(counter)) ==>
                 !LifecycleOk(Next(Final(s, run), CrashAndReload(counter)).mem)
  {
    TearingRunTears(date, now);
    FreshDeploymentIsGood();
    LifecycleSafety(Disk(None, []), 0, TearingRun(date, now));
  }

  // --- The window ---------------------------------------------------------------------------

  /** Every fiftieth transition whose snapshot and truncation succeed passes through the window, with
      an offset that has run ahead of the emptied log. */
  lemma SnapshotPassesThroughWindow(s: Sys, e: Event)
    requires e.TransitionIntent? && Enabled(s, e)
    requires (s.transitionCount + 1) % SNAPSHOT_INTERVAL == 0
    ensures var s1 := Next(s, e);
            && Enabled(s1, RenameSnapshot(true))
            && var s2 := Next(s1, RenameSnapshot(true));
            && Enabled(s2, TruncateWal(true))
            && var w := Next(s2, TruncateWal(true));
            w.phase.WalTruncated? && Offset(w.disk) == s.walLineCount + 1 && w.disk.wal == []
  {
    var s1 := Next(s, e);
    assert s1.phase.SnapshotDue? && s1.walLineCount == s.walLineCount + 1;
  }

  /** A crash or failed rewrite inside the window: the next reload is still exact, but from then on,
      until the next snapshot, the first logged entry makes the following reload lose data. */
  lemma WindowLosesLaterEntries(s: Sys, e: Event, append: Event)
    requires Inv(s) && s.phase.WalTruncated? && Offset(s.disk) > 0
    requires Enabled(s, e) && (e.CrashAndReload? || (e.RewriteOffset? && !e.ok))
    requires Enabled(Next(s, e), append) && (append.CreateIntent? || append.TransitionIntent?)
    ensures Load(s.disk) == s.mem && Next(s, e).mem == s.mem
    ensures var t := Next(Next(s, e), append);
            Load(t.disk) != t.mem && Load(t.disk) == s.mem
  {
    var s1 := Next(s, e);
    var t := Next(s1, append);
    TableKeptIff(s.mem, Load(s.disk), s.gaps);
    StepKeepsInv(s, e);
    StepKeepsInv(s1, append);
    TableKeptIff(t.mem, Load(t.disk), t.gaps);
    assert s1.disk == s.disk && !Reaches(s1);
    LoadAppend(s1.disk, t.disk.wal[|s1.disk.wal|].entry);
  }

  /** A directory with one acknowledged intent and a snapshot written after 49 transitions. */
  function Almost(id: string, now: string): Disk {
    Disk(Some(Snapshot(Only(NewRecord(id, "", "", now)), 1, 49, 0)), [])
  }

  function Only(rec: Record): Table {
    Table([rec.id], map[rec.id := rec])
  }

  /** Its fiftieth transition, a crash inside the window, and one more transition. */
  function WindowRun(id: string, now: string): seq<Event> {
    [TransitionIntent(id, Planning, None, now), RenameSnapshot(true), TruncateWal(true), CrashAndReload(1),
     TransitionIntent(id, Validating, None, now)]
  }

  lemma OnlyAdvances(rec: Record, to: State, now: string)
    ensures Apply(Only(rec), Transition(rec.id, rec.state, to, None, now)) == Only(Advance(rec, rec.state, to, None, now))
  {
  }

  /** The store with this one intent, in the window and after the crash there. */
  function InWindow(rec: Record, phase: Phase): Sys {
    Sys(Only(rec), Disk(Some(Snapshot(Only(rec), 1, 50, 1)), []), 0, 50, phase, 1, {}, 0, false, NO_GAPS)
  }

  lemma IntoWindow(id: string, now: string)
    requires IntentIds.SequenceOf(id) == Some(1)
    ensures var rec := NewRecord(id, "", "", now);
            var run, s := WindowRun(id, now), Boot(Almost(id, now), 1);
            && Enabled(s, run[0]) && Enabled(Next(s, run[0]), run[1]) && Enabled(Next(Next(s, run[0]), run[1]), run[2])
            && Next(Next(Next(s, run[0]), run[1]), run[2])
               == InWindow(Advance(rec, Acknowledged, Planning, None, now), WalTruncated)
            && Next(s, run[0]).gaps == Next(Next(s, run[0]), run[1]).gaps == NO_GAPS
  {
    var rec := NewRecord(id, "", "", now);
    OnlyAdvances(rec, Planning, now);
  }

  lemma OutOfWindow(rec: Record)
    requires IntentIds.SequenceOf(rec.id) == Some(1)
    ensures var w := InWindow(rec, WalTruncated);
            Enabled(w, CrashAndReload(1)) && Next(w, CrashAndReload(1)) == InWindow(rec, Idle)
  {
  }

  lemma AfterWindow(rec: Record, now: string)
    requires rec.state == Planning
    ensures var s, e := InWindow(rec, Idle), TransitionIntent(rec.id, Validating, None, now);
            && Enabled(s, e)
            && var f := Next(s, e);
            && !f.failed && rec.id in f.mem.recs && f.mem.recs[rec.id].state == Validating
            && Load(f.disk) == Only(rec)
  {
    var s, e := InWindow(rec, Idle), TransitionIntent(rec.id, Validating, None, now);
    OnlyAdvances(rec, Validating, now);
    LoadAppend(s.disk, Transition(rec.id, Planning, Validating, None, now));
  }

  lemma FollowWindowRun(id: string, now: string)
    requires IntentIds.SequenceOf(id) == Some(1)
    ensures var rec := Advance(NewRecord(id, "", "", now), Acknowledged, Planning, None, now);
            var run, s := WindowRun(id, now), Boot(Almost(id, now), 1);
            && Enabled(InWindow(rec, Idle), run[4])
            && IsRun(s, run) && Final(s, run) == Next(InWindow(rec, Idle), run[4])
  {
    var run, s0 := WindowRun(id, now), Boot(Almost(id, now), 1);
    var rec := Advance(NewRecord(id, "", "", now), Acknowledged, Planning, None, now);
    IntoWindow(id, now);
    OutOfWindow(rec);
    AfterWindow(rec, now);
    var s1 := Next(s0, run[0]);
    var s2 := Next(s1, run[1]);
    var w, s4 := InWindow(rec, WalTruncated), InWindow(rec, Idle);
    Follow(s0, run, [s0, s1, s2, w, s4, Next(s4, run[4])]);
  }

  /** In that run every write succeeds, and yet a reload afterwards has the intent back in planning. */
  lemma WindowRunLosesATransition(date: string, now: string)
    ensures var id := IntentIds.IntentId(date, 1);
            var d := Almost(id, now);
            && WellFormedDisk(d) && RestartCounter(d, 1) && IsRun(Boot(d, 1), WindowRun(id, now))
            && var f := Final(Boot(d, 1), WindowRun(id, now));
            && !f.failed && id in f.mem.recs && f.mem.recs[id].state == Validating
            && id in Load(f.disk).recs && Load(f.disk).recs[id].state == Planning
  {
    var id := IntentIds.IntentId(date, 1);
    IntentIds.SequenceOfIntentId(date, 1);
    FollowWindowRun(id, now);
    AfterWindow(Advance(NewRecord(id, "", "", now), Acknowledged, Planning, None, now), now);
  }
}
