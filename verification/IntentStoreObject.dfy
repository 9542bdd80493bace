/** The store object itself: the methods of `IntentStore` with their loops and field updates, each
    proved to take exactly the steps of the recovery protocol
    (llm_nephio_oran/intentd/store.py, lines 99-121, 139-247 and 295-454). */
module IntentStoreObject {
  import opened Wrappers
  import opened Lifecycle
  import opened IntentLog
  import opened IntentShadow
  import opened IntentStore
  import IntentIds
  import Decimal

  /** Which of the durable writes of one snapshot succeed. */
  datatype SnapshotIo = SnapshotIo(renameOk: bool, truncateOk: bool, offsetOk: bool)

  /** `AppendRaised`: memory has the change, the caller gets the file system's exception. */
  datatype Outcome = Done(rec: Record) | NotFound | InvalidTransition | AppendRaised

  /** `_write_snapshot` followed by `_compact_wal` and `_update_snapshot_wal_offset`. */
  ghost function AfterSnapshot(s: Sys, io: SnapshotIo): Sys
    requires s.phase.SnapshotDue?
  {
    var s1 := Next(s, RenameSnapshot(io.renameOk));
    if !io.renameOk then s1 else
      var s2 := Next(s1, TruncateWal(io.truncateOk));
      if !io.truncateOk then s2 else Next(s2, RewriteOffset(io.offsetOk))
  }

  lemma AfterSnapshotInv(s: Sys, io: SnapshotIo)
    requires Inv(s) && s.phase.SnapshotDue?
    ensures Inv(AfterSnapshot(s, io)) && AfterSnapshot(s, io).phase.Idle?
    ensures AfterSnapshot(s, io).mem == s.mem
  {
    SnapshotKeepsInv(s, RenameSnapshot(io.renameOk));
    if io.renameOk {
      var s1 := Next(s, RenameSnapshot(true));
      SnapshotKeepsInv(s1, TruncateWal(io.truncateOk));
      if io.truncateOk {
        SnapshotKeepsInv(Next(s1, TruncateWal(true)), RewriteOffset(io.offsetOk));
      }
    }
  }

  /** The transition step, logged or not, with the snapshot it may trigger. */
  ghost function AfterTransition(s: Sys, e: Event, io: SnapshotIo): Sys
    requires (e.TransitionIntent? || e.FailTransition?) && Enabled(s, e)
  {
    var t := Next(s, e);
    if t.phase.SnapshotDue? then AfterSnapshot(t, io) else t
  }

  /** A whole `transition` call keeps the store invariant, however its append and its snapshot writes
      turn out. */
  lemma AfterTransitionInv(s: Sys, e: Event, io: SnapshotIo)
    requires Inv(s) && (e.TransitionIntent? || e.FailTransition?) && Enabled(s, e)
    ensures Inv(AfterTransition(s, e, io)) && AfterTransition(s, e, io).phase.Idle?
  {
    StepKeepsInv(s, e);
    var t := Next(s, e);
    if t.phase.SnapshotDue? {
      AfterSnapshotInv(t, io);
    }
  }

  /** `_replay_wal`: one pass over the lines with a running line index. */
  method ReplayWal(table: Table, lines: seq<Line>, skipUntil: nat) returns (t: Table, lineIndex: nat)
    ensures t == Replay(table, lines, skipUntil)
    ensures lineIndex == Countable(lines)
  {
    t, lineIndex := table, 0;
    var i := 0;
    while i < |lines|
      invariant 0 <= i <= |lines|
      invariant lineIndex + Countable(lines[i..]) == Countable(lines)
      invariant Replay(t, lines[i..], if skipUntil > lineIndex then skipUntil - lineIndex else 0)
             == Replay(table, lines, skipUntil)
    {
      assert lines[i..][1..] == lines[i + 1..];
      match lines[i] {
        case Corrupt =>
        case Blank => lineIndex := lineIndex + 1;
        case Valid(e) =>
          lineIndex := lineIndex + 1;
          if lineIndex > skipUntil {
            t := Apply(t, e);
          }
      }
      i := i + 1;
    }
  }

  /** The fields that a transition's data may set (llm_nephio_oran/intentd/store.py, line 225). */
  predicate WellKnown(key: string) {
    key == "plan" || key == "report" || key == "porch" || key == "git" || key == "configsync" || key == "reposync"
    || key == "errors" || key == "package_dir"
  }

  /** A record moved from its state to `to`: the well-known keys of the data have their values, all other
      fields are as they were, and the history has exactly one more entry. */
  ghost predicate Moved(before: Record, after: Record, to: State, data: Option<Data>, now: string) {
    && after.id == before.id && after.expression == before.expression && after.source == before.source
    && after.createdAt == before.createdAt && after.updatedAt == now && after.state == to
    && after.history == before.history + [HistoryEntry(Some(before.state), to, now, data)]
    && (forall key :: data.Some? && key in data.value && WellKnown(key) ==>
          key in after.fields && after.fields[key] == data.value[key])
    && (forall key :: !(data.Some? && key in data.value && WellKnown(key)) ==>
          (key in after.fields <==> key in before.fields)
          && (key in before.fields ==> after.fields[key] == before.fields[key]))
  }

  lemma AdvanceMoves(rec: Record, to: State, data: Option<Data>, now: string)
    ensures Moved(rec, Advance(rec, rec.state, to, data, now), to, data, now)
  {
    assert forall key :: WellKnown(key) <==> key in MERGED_KEYS;
  }

  /** A record as `create` makes it. */
  ghost predicate Fresh(rec: Record, id: string, expression: string, source: string, now: string) {
    && rec.id == id && rec.expression == expression && rec.source == source
    && rec.createdAt == now && rec.updatedAt == now && rec.state == Acknowledged
    && rec.fields == map[] && rec.history == [HistoryEntry(None, Acknowledged, now, None)]
  }

  class Store {
    var mem: Table
    var snapshot: Option<Snapshot>
    var wal: seq<Line>
    var walLineCount: nat
    var transitionCount: nat
    var counter: nat
    ghost var phase: Phase
    ghost var pending: set<string>
    ghost var base: nat
    ghost var failed: bool
    ghost var gaps: Gaps

    ghost function View(): Sys
      reads this
    {
      Sys(mem, Disk(snapshot, wal), walLineCount, transitionCount, phase, counter, pending, base, failed, gaps)
    }

    /** `__init__` and `_load`: whatever the files hold, the object is what a reload makes of them. */
    constructor (d: Disk)
      requires WellFormedDisk(d)
      ensures RestartCounter(d, counter) && View() == Boot(d, counter)
    {
      var loaded := if d.snapshot.Some? then d.snapshot.value.table else EMPTY;
      var skip := if d.snapshot.Some? then d.snapshot.value.walLineCount else 0;
      var seqNo := if d.snapshot.Some? then d.snapshot.value.seq_ else 0;
      var t, n := ReplayWal(loaded, d.wal, skip);
      var raised := IntentIds.InitSeqFromExisting(t.recs.Keys, seqNo);
      mem, snapshot, wal, walLineCount := t, d.snapshot, d.wal, n;
      transitionCount := if d.snapshot.Some? then d.snapshot.value.transitionCount else 0;
      counter, phase, pending, base := raised, Idle, {}, n;
      failed, gaps := false, NO_GAPS;
    }

    /** `_next_intent_id`. */
    method NextIntentId(date: string) returns (id: string)
      modifies this`counter, this`pending
      ensures View() == Next(old(View()), AllocateId(date)) && id in pending
      ensures counter == old(counter) + 1 && id == "intent-" + date + "-" + Decimal.PrintPadded(counter, 4)
    {
      counter := counter + 1;
      id := IntentIds.IntentId(date, counter);
      pending := pending + {id};
    }

    /** `_append_log`, given whether the file system takes the line. */
    method AppendLog(e: Entry, ok: bool)
      modifies this`wal, this`walLineCount
      ensures wal == (if ok then old(wal) + [Line.Valid(e)] else old(wal))
      ensures walLineCount == old(walLineCount) + if ok then 1 else 0
    {
      if ok {
        wal := wal + [Line.Valid(e)];
        walLineCount := walLineCount + 1;
      }
    }

    /** The locked part of `create`, for an identifier obtained earlier. The record is in memory also
        when the append raises. */
    method Insert(id: string, expression: string, source: string, now: string, appendOk: bool) returns (outcome: Outcome)
      requires phase.Idle? && id in pending
      modifies this
      ensures View() == Next(old(View()), if appendOk then CreateIntent(id, expression, source, now)
                                          else FailCreate(id, expression, source, now))
      ensures id in mem.recs && Fresh(mem.recs[id], id, expression, source, now)
      ensures mem.recs == old(mem.recs)[id := mem.recs[id]]
      ensures mem.order == if id in old(mem.recs) then old(mem.order) else old(mem.order) + [id]
      ensures wal == if appendOk then old(wal) + [Line.Valid(Create(mem.recs[id]))] else old(wal)
      ensures snapshot == old(snapshot) && transitionCount == old(transitionCount) && counter == old(counter)
      ensures outcome == if appendOk then Done(mem.recs[id]) else AppendRaised
    {
      ghost var reaches := appendOk && Reaches(View());
      var rec := NewRecord(id, expression, source, now);
      mem := Put(mem, id, rec);
      pending := pending - {id};
      AppendLog(Create(rec), appendOk);
      gaps := AfterCreate(gaps, id, reaches);
      if !appendOk {
        failed := true;
        return AppendRaised;
      }
      outcome := Done(rec);
    }

    /** `transition`, with the outcome of the append and of the durable writes a snapshot would make. */
    method TransitionTo(id: string, to: State, data: Option<Data>, now: string, appendOk: bool, io: SnapshotIo)
      returns (outcome: Outcome)
      requires phase.Idle?
      modifies this
      ensures outcome.NotFound? <==> id !in old(mem.recs)
      ensures outcome.InvalidTransition? <==> id in old(mem.recs) && to !in ValidNext(old(mem.recs[id].state))
      ensures outcome.AppendRaised? <==> MayMove(old(View()), id, to) && !appendOk
      ensures !MayMove(old(View()), id, to) ==> View() == old(View())
      ensures MayMove(old(View()), id, to) ==>
                && View() == AfterTransition(old(View()), if appendOk then TransitionIntent(id, to, data, now)
                                                          else FailTransition(id, to, data, now), io)
                && id in mem.recs && Moved(old(mem.recs)[id], mem.recs[id], to, data, now)
                && mem.recs == old(mem.recs)[id := mem.recs[id]] && mem.order == old(mem.order)
                && transitionCount == old(transitionCount) + (if appendOk then 1 else 0)
      ensures outcome.Done? && (old(transitionCount) + 1) % 50 != 0 ==>
                && snapshot == old(snapshot)
                && wal == old(wal) + [Line.Valid(Transition(id, old(mem.recs)[id].state, to, data, now))]
      ensures outcome.AppendRaised? ==> snapshot == old(snapshot) && wal == old(wal)
      ensures outcome.Done? && (old(transitionCount) + 1) % 50 == 0 && io == SnapshotIo(true, true, true) ==>
                wal == [] && snapshot == Some(Snapshot(mem, counter, transitionCount, 0))
      ensures outcome.Done? ==> id in mem.recs && outcome.rec == mem.recs[id]
    {
      if id !in mem.recs {
        return NotFound;
      }
      var rec := mem.recs[id];
      if to !in ValidNext(rec.state) {
        return InvalidTransition;
      }
      ghost var before := View();
      var advanced := Move(id, to, data, now, appendOk);
      if !appendOk {
        return AppendRaised;
      }
      CountTransition(before, TransitionIntent(id, to, data, now), io);
      outcome := Done(advanced);
    }

    /** The middle of `transition`: the record changes, then the line is appended. */
    method Move(id: string, to: State, data: Option<Data>, now: string, appendOk: bool) returns (advanced: Record)
      requires phase.Idle? && MayMove(View(), id, to)
      modifies this
      ensures id in mem.recs && mem.recs[id] == advanced && phase.Idle?
      ensures Moved(old(mem.recs)[id], advanced, to, data, now)
      ensures mem.recs == old(mem.recs)[id := advanced] && mem.order == old(mem.order)
      ensures wal == if appendOk then old(wal) + [Line.Valid(Transition(id, old(mem.recs)[id].state, to, data, now))]
                     else old(wal)
      ensures snapshot == old(snapshot) && transitionCount == old(transitionCount) && counter == old(counter)
      ensures View() == if appendOk
                        then Next(old(View()), TransitionIntent(id, to, data, now))
                             .(phase := Idle, transitionCount := old(transitionCount))
                        else Next(old(View()), FailTransition(id, to, data, now))
    {
      ghost var reaches := appendOk && Reaches(View());
      var rec := mem.recs[id];
      advanced := Advance(rec, rec.state, to, data, now);
      AdvanceMoves(rec, to, data, now);
      mem := Put(mem, id, advanced);
      AppendLog(Transition(id, rec.state, to, data, now), appendOk);
      gaps := AfterMove(gaps, id, reaches);
      failed := failed || !appendOk;
    }

    /** The end of `transition`: every fiftieth one writes a snapshot. */
    method CountTransition(ghost before: Sys, ghost e: Event, io: SnapshotIo)
      requires e.TransitionIntent? && Enabled(before, e) && phase.Idle?
      requires View() == Next(before, e).(phase := Idle, transitionCount := before.transitionCount)
      modifies this
      ensures View() == AfterTransition(before, e, io) && mem == old(mem) && counter == old(counter)
      ensures transitionCount == old(transitionCount) + 1
      ensures transitionCount % 50 != 0 ==> snapshot == old(snapshot) && wal == old(wal)
      ensures transitionCount % 50 == 0 && io == SnapshotIo(true, true, true) ==>
                wal == [] && snapshot == Some(Snapshot(mem, counter, transitionCount, 0))
    {
      transitionCount := transitionCount + 1;
      if transitionCount % SNAPSHOT_INTERVAL == 0 {
        phase := SnapshotDue;
        assert View() == Next(before, e);
        WriteSnapshot(io);
      } else {
        assert View() == Next(before, e);
      }
    }

    /** `cancel`: only an acknowledged intent can be cancelled. */
    method Cancel(id: string, now: string, appendOk: bool, io: SnapshotIo) returns (outcome: Outcome)
      requires phase.Idle?
      modifies this
      ensures outcome.Done? || outcome.AppendRaised? <==> id in old(mem.recs) && old(mem.recs[id].state) == Acknowledged
      ensures outcome.Done? ==> appendOk && id in mem.recs && outcome.rec == mem.recs[id]
      ensures outcome.Done? || outcome.AppendRaised? ==>
                && id in mem.recs
                && Moved(old(mem.recs)[id], mem.recs[id], Cancelled, Some(map["reason" := "cancelled_by_user"]), now)
      ensures outcome.NotFound? || outcome.InvalidTransition? ==> View() == old(View())
    {
      outcome := TransitionTo(id, Cancelled, Some(map["reason" := "cancelled_by_user"]), now, appendOk, io);
    }

    /** `_write_snapshot` and what it calls, stopping at the first write that fails. */
    method WriteSnapshot(io: SnapshotIo)
      requires phase.SnapshotDue?
      modifies this
      ensures View() == AfterSnapshot(old(View()), io) && mem == old(mem)
      ensures counter == old(counter) && transitionCount == old(transitionCount)
      ensures !io.renameOk ==> snapshot == old(snapshot) && wal == old(wal) && walLineCount == old(walLineCount)
      ensures io.renameOk ==>
                && snapshot == Some(Snapshot(mem, counter, transitionCount,
                                             if io.truncateOk && io.offsetOk then 0 else old(walLineCount)))
                && wal == (if io.truncateOk then [] else old(wal))
                && walLineCount == (if io.truncateOk then 0 else old(walLineCount))
    {
      if io.renameOk {
        snapshot := Some(Snapshot(mem, counter, transitionCount, walLineCount));
        base, failed, gaps := walLineCount, false, NO_GAPS;
        if io.truncateOk {
          wal, walLineCount, base := [], 0, 0;
          if io.offsetOk {
            snapshot := Some(snapshot.value.(walLineCount := 0));
          }
        }
      }
      phase := Idle;
    }
  }
}
