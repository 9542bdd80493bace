/** Any number of control cycles over all cells, seen component by component
    (llm_nephio_oran/closedloop/e2_closed_loop.py, lines 108-198; llm_nephio_oran/closedloop/analyzer.py,
    lines 45-125). */
module ClosedLoopRuns {
  import opened Wrappers
  import opened Analyzer
  import opened ClosedLoop

  /** One call of `run_cycle`: what it observed, what the environment answered, what it did. */
  datatype Round = Round(snaps: seq<Snapshot>, w: World, results: seq<Act>)

  ghost function VerdictOf(cfg: Config, last: map<string, int>, r: Round): Key -> Action {
    k => Verdict(cfg, last, r.snaps, r.w, k)
  }

  /** Rounds that follow one another on one analyzer, with or without posts that raise. */
  ghost predicate Consecutive(cfg: Config, last: map<string, int>, rounds: seq<Round>)
    decreases |rounds|
  {
    rounds == [] ||
    (&& Sound(rounds[0].results, VerdictOf(cfg, last, rounds[0]), rounds[0].w.replicas)
     && Consecutive(cfg, LastActionsAfter(last, rounds[0].results, rounds[0].w.recordedAt), rounds[1..]))
  }

  /** The replicas of a component after a round. */
  ghost function ReplicasAfter(r: Round, k: Key): int {
    if ActedOn(r.results, k) then
      var i :| 0 <= i < |r.results| && r.results[i].key == k;
      r.results[i].replicas
    else r.w.replicas(k)
  }

  /** Each round finds the replicas the one before it left, `n` at first. */
  ghost predicate FedBack(rounds: seq<Round>, k: Key, n: int)
    decreases |rounds|
  {
    rounds == [] || (rounds[0].w.replicas(k) == n && FedBack(rounds[1..], k, ReplicasAfter(rounds[0], k)))
  }

  /** The clock goes forward from round to round. */
  ghost predicate Timely(rounds: seq<Round>, k: Key) {
    && (forall i :: 0 <= i < |rounds| ==> rounds[i].w.analyzedAt(k) <= rounds[i].w.recordedAt(k))
    && (forall i, j :: 0 <= i < j < |rounds| ==> rounds[i].w.recordedAt(k) <= rounds[j].w.analyzedAt(k))
  }

  /** The actions recorded for a component. */
  ghost function ActionsOf(rounds: seq<Round>, k: Key): seq<Recorded>
    decreases |rounds|
  {
    if rounds == [] then []
    else
      var r := rounds[0];
      (if ActedOn(r.results, k) then [Recorded(r.w.recordedAt(k), r.w.replicas(k), ReplicasAfter(r, k))] else [])
      + ActionsOf(rounds[1..], k)
  }

  // --- Peaks exist --------------------------------------------------------------------------

  ghost predicate PeakUpTo(snaps: seq<Snapshot>, k: Key, n: nat, p: int)
    requires n <= |snaps|
  {
    && (exists i :: 0 <= i < n && KeyOf(snaps, snaps[i].cell) == k && snaps[i].prb == p)
    && (forall i :: 0 <= i < n && KeyOf(snaps, snaps[i].cell) == k ==> snaps[i].prb <= p)
  }

  lemma {:induction false} PeakExists(snaps: seq<Snapshot>, k: Key, n: nat)
    requires n <= |snaps| && exists i :: 0 <= i < n && KeyOf(snaps, snaps[i].cell) == k
    ensures exists p :: PeakUpTo(snaps, k, n, p)
  {
    if exists i :: 0 <= i < n - 1 && KeyOf(snaps, snaps[i].cell) == k {
      PeakExists(snaps, k, n - 1);
      var p :| PeakUpTo(snaps, k, n - 1, p);
      if KeyOf(snaps, snaps[n - 1].cell) == k && snaps[n - 1].prb > p {
        assert PeakUpTo(snaps, k, n, snaps[n - 1].prb);
      } else {
        assert PeakUpTo(snaps, k, n, p);
      }
    } else {
      assert PeakUpTo(snaps, k, n, snaps[n - 1].prb);
    }
  }

  ghost function Peak(snaps: seq<Snapshot>, k: Key): (p: int)
    requires Observed(snaps, k)
    ensures IsComponentPeak(snaps, k, p)
  {
    PeakExists(snaps, k, |snaps|);
    var p :| PeakUpTo(snaps, k, |snaps|, p);
    p
  }

  // --- A component's own cycles -------------------------------------------------------------

  /** The rounds that observe a component, as cycles of its own loop. */
  ghost function CyclesOf(rounds: seq<Round>, k: Key): seq<Cycle>
    decreases |rounds|
  {
    if rounds == [] then []
    else
      var r := rounds[0];
      (if Observed(r.snaps, k) then [CycleOf(r.w, k, Peak(r.snaps, k), r.results)] else []) + CyclesOf(rounds[1..], k)
  }

  lemma {:induction false} CyclesNotBefore(rounds: seq<Round>, k: Key, t: int)
    requires forall i :: 0 <= i < |rounds| ==> rounds[i].w.analyzedAt(k) >= t
    ensures forall i :: 0 <= i < |CyclesOf(rounds, k)| ==> CyclesOf(rounds, k)[i].analyzedAt >= t
    decreases |rounds|
  {
    if rounds != [] {
      CyclesNotBefore(rounds[1..], k, t);
    }
  }

  lemma {:induction false} CyclesInOrder(rounds: seq<Round>, k: Key)
    requires Timely(rounds, k)
    ensures InOrder(CyclesOf(rounds, k))
    decreases |rounds|
  {
    if rounds != [] {
      CyclesInOrder(rounds[1..], k);
      CyclesNotBefore(rounds[1..], k, rounds[0].w.recordedAt(k));
      var rest := CyclesOf(rounds[1..], k);
      if Observed(rounds[0].snaps, k) {
        InOrderCons(CycleOf(rounds[0].w, k, Peak(rounds[0].snaps, k), rounds[0].results), rest);
      } else {
        assert CyclesOf(rounds, k) == rest;
      }
    }
  }

  lemma InOrderCons(c: Cycle, rest: seq<Cycle>)
    requires InOrder(rest) && c.analyzedAt <= c.recordedAt
    requires forall i :: 0 <= i < |rest| ==> rest[i].analyzedAt >= c.recordedAt
    ensures InOrder([c] + rest)
  {
  }

  /** A round that observes the component is one step of its loop. */
  lemma ObservedRound(cfg: Config, last: map<string, int>, r: Round, k: Key, l: Loop)
    requires Sound(r.results, VerdictOf(cfg, last, r), r.w.replicas) && Observed(r.snaps, k)
    requires l == Loop(r.w.replicas(k), LastOf(last, k.component))
    ensures var c := CycleOf(r.w, k, Peak(r.snaps, k), r.results);
            && (Acts(cfg, l, c) <==> ActedOn(r.results, k))
            && Step(cfg, l, c) == Loop(ReplicasAfter(r, k), LastOf(LastActionsAfter(last, r.results, r.w.recordedAt), k.component))
            && (Acts(cfg, l, c) ==> Decide(cfg, l, c).replicas == ReplicasAfter(r, k))
  {
    var verdict, peak := VerdictOf(cfg, last, r), Peak(r.snaps, k);
    ObservedIsKnown(r.snaps, k);
    SoundComponents(cfg, last, r.snaps, r.w, verdict, r.results, k);
    RecordedFor(last, r.results, r.w.recordedAt, k, ActedOn(r.results, k));
    StepOfVerdict(cfg, last, r.snaps, r.w, k, peak, ActedOn(r.results, k));
    DecisionMatchesVerdict(cfg, last, r.snaps, r.w, k, peak);
    if ActedOn(r.results, k) {
      var i :| 0 <= i < |r.results| && r.results[i].key == k && r.results[i].replicas == ReplicasAfter(r, k);
      assert ActFor(Some(r.results[i]), k, verdict(k), r.w.replicas(k));
    }
  }

  /** A round that does not observe the component leaves it alone. */
  lemma UnobservedRound(cfg: Config, last: map<string, int>, r: Round, k: Key)
    requires Sound(r.results, VerdictOf(cfg, last, r), r.w.replicas) && Known(k) && !Observed(r.snaps, k)
    ensures !ActedOn(r.results, k)
    ensures LastOf(LastActionsAfter(last, r.results, r.w.recordedAt), k.component) == LastOf(last, k.component)
  {
    SoundComponents(cfg, last, r.snaps, r.w, VerdictOf(cfg, last, r), r.results, k);
    RecordedFor(last, r.results, r.w.recordedAt, k, false);
  }

  /** What a sequence of cycles records for a component is what its own loop records. */
  lemma {:induction false} ActionsAreLoopActions(cfg: Config, last: map<string, int>, rounds: seq<Round>, k: Key, n: int)
    requires Known(k) && Consecutive(cfg, last, rounds) && FedBack(rounds, k, n)
    ensures ActionsOf(rounds, k) == Actions(cfg, Loop(n, LastOf(last, k.component)), CyclesOf(rounds, k))
    decreases |rounds|
  {
    if rounds != [] {
      var r, l := rounds[0], Loop(n, LastOf(last, k.component));
      var last' := LastActionsAfter(last, r.results, r.w.recordedAt);
      ActionsAreLoopActions(cfg, last', rounds[1..], k, ReplicasAfter(r, k));
      if Observed(r.snaps, k) {
        ObservedRound(cfg, last, r, k, l);
        var c, rest := CycleOf(r.w, k, Peak(r.snaps, k), r.results), CyclesOf(rounds[1..], k);
        ActionsCons(cfg, l, c, rest);
        assert CyclesOf(rounds, k) == [c] + rest;
      } else {
        UnobservedRound(cfg, last, r, k);
        assert CyclesOf(rounds, k) == CyclesOf(rounds[1..], k);
      }
    }
  }

  lemma ActionsCons(cfg: Config, l: Loop, c: Cycle, rest: seq<Cycle>)
    ensures Actions(cfg, l, [c] + rest)
         == (if Acts(cfg, l, c) then [Recorded(c.recordedAt, l.replicas, Decide(cfg, l, c).replicas)] else [])
            + Actions(cfg, Step(cfg, l, c), rest)
  {
    assert ([c] + rest)[1..] == rest;
  }

  /** Run safety of the whole controller: over any number of cycles on any cells, including cycles that
      do not see a component and cycles cut short by a post that raises, and with the replicas fed back,
      the actions recorded for each component stay in 1..max replicas, move by one from where the last
      left them, and are a cooldown apart. */
  lemma ControllerRunsAreDisciplined(cfg: Config, last: map<string, int>, rounds: seq<Round>, k: Key, n: int)
    requires Known(k) && Consecutive(cfg, last, rounds) && FedBack(rounds, k, n) && Timely(rounds, k)
    requires 1 <= n <= cfg.maxReplicas
    ensures Disciplined(cfg, ActionsOf(rounds, k))
  {
    ActionsAreLoopActions(cfg, last, rounds, k, n);
    CyclesInOrder(rounds, k);
    RunIsDisciplined(cfg, Loop(n, LastOf(last, k.component)), CyclesOf(rounds, k));
  }

  /** So any window of `length` holds at most floor(length / cooldown) + 1 of them: `i` to `j` are that
      many. */
  lemma ControllerActionsInWindow(cfg: Config, last: map<string, int>, rounds: seq<Round>, k: Key, n: int,
                                  i: nat, j: nat, length: nat)
    requires Known(k) && Consecutive(cfg, last, rounds) && FedBack(rounds, k, n) && Timely(rounds, k)
    requires cfg.cooldown > 0 && 1 <= n <= cfg.maxReplicas && i <= j < |ActionsOf(rounds, k)|
    requires ActionsOf(rounds, k)[j].at - ActionsOf(rounds, k)[i].at <= length
    ensures j - i + 1 <= length / cfg.cooldown + 1
  {
    ActionsAreLoopActions(cfg, last, rounds, k, n);
    CyclesInOrder(rounds, k);
    ActionsInWindow(cfg, Loop(n, LastOf(last, k.component)), CyclesOf(rounds, k), i, j, length);
  }

  method OneRound(c: Controller, snaps: seq<Snapshot>, w: World) returns (r: Round)
    modifies c.analyzer
    ensures r.snaps == snaps && r.w == w
    ensures Sound(r.results, VerdictOf(c.analyzer.cfg, old(c.analyzer.lastAction), r), w.replicas)
    ensures c.analyzer.lastAction == LastActionsAfter(old(c.analyzer.lastAction), r.results, w.recordedAt)
  {
    ghost var last := c.analyzer.lastAction;
    var results, _ := c.RunCycle(snaps, w);
    r := Round(snaps, w, results);
    SoundAgain(c.analyzer.cfg, last, r);
  }

  /** The controller called once per observation produces rounds of that kind. */
  method RunCycles(c: Controller, inputs: seq<(seq<Snapshot>, World)>) returns (rounds: seq<Round>)
    modifies c.analyzer
    ensures |rounds| == |inputs|
    ensures forall i :: 0 <= i < |inputs| ==> rounds[i].snaps == inputs[i].0 && rounds[i].w == inputs[i].1
    ensures Consecutive(c.analyzer.cfg, old(c.analyzer.lastAction), rounds)
  {
    ghost var cfg, last0 := c.analyzer.cfg, c.analyzer.lastAction;
    rounds := [];
    while |rounds| < |inputs|
      invariant |rounds| <= |inputs|
      invariant forall i :: 0 <= i < |rounds| ==> rounds[i].snaps == inputs[i].0 && rounds[i].w == inputs[i].1
      invariant Consecutive(cfg, last0, rounds) && c.analyzer.lastAction == LastAfterRounds(last0, rounds)
    {
      var r := OneRound(c, inputs[|rounds|].0, inputs[|rounds|].1);
      ConsecutiveAppend(cfg, last0, rounds, r);
      rounds := rounds + [r];
    }
  }

  ghost function LastAfterRounds(last: map<string, int>, rounds: seq<Round>): map<string, int>
    decreases |rounds|
  {
    if rounds == [] then last
    else LastAfterRounds(LastActionsAfter(last, rounds[0].results, rounds[0].w.recordedAt), rounds[1..])
  }

  lemma SoundAgain(cfg: Config, last: map<string, int>, r: Round)
    requires Sound(r.results, k => Verdict(cfg, last, r.snaps, r.w, k), r.w.replicas)
    ensures Sound(r.results, VerdictOf(cfg, last, r), r.w.replicas)
  {
  }

  lemma {:induction false} ConsecutiveAppend(cfg: Config, last: map<string, int>, rounds: seq<Round>, r: Round)
    requires Consecutive(cfg, last, rounds)
    requires Sound(r.results, VerdictOf(cfg, LastAfterRounds(last, rounds), r), r.w.replicas)
    ensures Consecutive(cfg, last, rounds + [r])
    ensures LastAfterRounds(last, rounds + [r])
         == LastActionsAfter(LastAfterRounds(last, rounds), r.results, r.w.recordedAt)
    decreases |rounds|
  {
    if rounds == [] {
      assert rounds + [r] == [r] && [r][1..] == [];
    } else {
      assert (rounds + [r])[1..] == rounds[1..] + [r];
      ConsecutiveAppend(cfg, LastActionsAfter(last, rounds[0].results, rounds[0].w.recordedAt), rounds[1..], r);
    }
  }
}
