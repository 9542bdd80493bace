/** Scaling recommendations with cooldown and replica limits, and their behaviour over unbounded runs
    (llm_nephio_oran/closedloop/analyzer.py, lines 30-162; llm_nephio_oran/closedloop/e2_closed_loop.py,
    lines 108-141). Utilisations are tenths of a percent, times are ticks of a monotone clock. */
module Analyzer {
  import opened Wrappers

  const HUMAN_APPROVAL_REPLICA_THRESHOLD: int := 3

  datatype Config = Config(maxReplicas: int, cooldown: int, scaleOut: int, scaleIn: int)

  datatype Action = ScaleOut | ScaleIn | NoAction

  datatype Recommendation = Recommendation(action: Action, replicas: int, requiresApproval: bool)

  predicate CoolingDown(cfg: Config, last: map<string, int>, component: string, now: int) {
    component in last && now - last[component] < cfg.cooldown
  }

  /** `analyze`. */
  function Analyze(cfg: Config, cooling: bool, cpu: int, mem: int, current: int): Recommendation {
    if cooling then Recommendation(NoAction, current, false)
    else if cpu > cfg.scaleOut || mem > cfg.scaleOut then
      if current >= cfg.maxReplicas then Recommendation(NoAction, current, false)
      else
        var n := if current + 1 < cfg.maxReplicas then current + 1 else cfg.maxReplicas;
        Recommendation(ScaleOut, n, n > HUMAN_APPROVAL_REPLICA_THRESHOLD)
    else if cpu < cfg.scaleIn && mem < cfg.scaleIn && current > 1 then
      Recommendation(ScaleIn, if current - 1 > 1 then current - 1 else 1, false)
    else Recommendation(NoAction, current, false)
  }

  /** `analyze_cqi`: the steering threshold for an average CQI, both in tenths. */
  function SteerThreshold(limit: int, avgCqi: int): (t: int)
    requires avgCqi < limit
    ensures 0 <= t <= 100 && t == if limit - avgCqi <= 100 then limit - avgCqi else 100
  {
    var raw := limit - avgCqi;
    if raw < 0 then 0 else if raw > 100 then 100 else raw
  }

  class MetricsAnalyzer {
    const cfg: Config
    var lastAction: map<string, int>

    constructor (cfg: Config)
      ensures this.cfg == cfg && lastAction == map[]
    {
      this.cfg, lastAction := cfg, map[];
    }

    method RecordAction(component: string, now: int)
      modifies this
      ensures lastAction == old(lastAction)[component := now]
    {
      lastAction := lastAction[component := now];
    }

    /** The recommendation the object gives at time `now`. */
    function Recommend(component: string, cpu: int, mem: int, current: int, now: int): (r: Recommendation)
      reads this
      ensures r.action.ScaleOut? <==>
                && !(component in lastAction && now - lastAction[component] < cfg.cooldown) && current < cfg.maxReplicas
                && (cpu > cfg.scaleOut || mem > cfg.scaleOut)
      ensures r.action.ScaleIn? <==>
                && !(component in lastAction && now - lastAction[component] < cfg.cooldown) && current > 1
                && cpu <= cfg.scaleOut && mem <= cfg.scaleOut && cpu < cfg.scaleIn && mem < cfg.scaleIn
      ensures r.replicas == current + (if r.action.ScaleOut? then 1 else if r.action.ScaleIn? then -1 else 0)
      ensures r.requiresApproval <==> r.action.ScaleOut? && current >= 3
    {
      Analyze(cfg, CoolingDown(cfg, lastAction, component, now), cpu, mem, current)
    }
  }

  // --- Runs of one component ----------------------------------------------------------------

  /** One control cycle of a component: when it is analysed, when its action is recorded, what was
      measured, and whether posting the intent succeeded. */
  datatype Cycle = Cycle(analyzedAt: int, recordedAt: int, cpu: int, mem: int, posted: bool)

  /** A recorded scaling action. */
  datatype Recorded = Recorded(at: int, from: int, to: int)

  datatype Loop = Loop(replicas: int, last: Option<int>)

  predicate Cooling(cfg: Config, l: Loop, now: int) {
    l.last.Some? && now - l.last.value < cfg.cooldown
  }

  function Decide(cfg: Config, l: Loop, c: Cycle): Recommendation {
    Analyze(cfg, Cooling(cfg, l, c.analyzedAt), c.cpu, c.mem, l.replicas)
  }

  predicate Acts(cfg: Config, l: Loop, c: Cycle) {
    !Decide(cfg, l, c).action.NoAction? && c.posted
  }

  function Step(cfg: Config, l: Loop, c: Cycle): Loop {
    if Acts(cfg, l, c) then Loop(Decide(cfg, l, c).replicas, Some(c.recordedAt)) else l
  }

  /** All actions a sequence of cycles records. */
  function Actions(cfg: Config, l: Loop, cycles: seq<Cycle>): seq<Recorded>
    decreases |cycles|
  {
    if cycles == [] then []
    else
      (if Acts(cfg, l, cycles[0])
       then [Recorded(cycles[0].recordedAt, l.replicas, Decide(cfg, l, cycles[0]).replicas)] else [])
      + Actions(cfg, Step(cfg, l, cycles[0]), cycles[1..])
  }

  function After(cfg: Config, l: Loop, cycles: seq<Cycle>): Loop
    decreases |cycles|
  {
    if cycles == [] then l else After(cfg, Step(cfg, l, cycles[0]), cycles[1..])
  }

  /** Cycles follow one another in time, and an action is recorded after its analysis. */
  predicate InOrder(cycles: seq<Cycle>) {
    && (forall i :: 0 <= i < |cycles| ==> cycles[i].analyzedAt <= cycles[i].recordedAt)
    && (forall i, j :: 0 <= i < j < |cycles| ==> cycles[i].recordedAt <= cycles[j].analyzedAt)
  }

  /** Every action moves by one replica and stays in range; consecutive ones are a cooldown apart. */
  ghost predicate Disciplined(cfg: Config, actions: seq<Recorded>) {
    && (forall i :: 0 <= i < |actions| ==>
          && (actions[i].to == actions[i].from + 1 || actions[i].to == actions[i].from - 1)
          && 1 <= actions[i].to <= cfg.maxReplicas && 1 <= actions[i].from <= cfg.maxReplicas)
    && (forall i :: 0 < i < |actions| ==>
          && actions[i].at - actions[i - 1].at >= cfg.cooldown && actions[i].from == actions[i - 1].to)
  }

  lemma DisciplinedCons(cfg: Config, r: Recorded, rest: seq<Recorded>)
    requires Disciplined(cfg, rest)
    requires r.to == r.from + 1 || r.to == r.from - 1
    requires 1 <= r.to <= cfg.maxReplicas && 1 <= r.from <= cfg.maxReplicas
    requires rest != [] ==> rest[0].at - r.at >= cfg.cooldown && rest[0].from == r.to
    ensures Disciplined(cfg, [r] + rest)
  {
    var a := [r] + rest;
    forall i | 0 < i < |a| ensures a[i].at - a[i - 1].at >= cfg.cooldown && a[i].from == a[i - 1].to {
      assert a[i] == rest[i - 1];
      if i > 1 {
        assert a[i - 1] == rest[i - 2];
      }
    }
  }

  /** Run safety: over any sequence of cycles, starting with 1..max replicas. */
  lemma {:induction false} RunIsDisciplined(cfg: Config, l: Loop, cycles: seq<Cycle>)
    requires 1 <= l.replicas <= cfg.maxReplicas && InOrder(cycles)
    ensures Disciplined(cfg, Actions(cfg, l, cycles))
    ensures 1 <= After(cfg, l, cycles).replicas <= cfg.maxReplicas
    ensures var a := Actions(cfg, l, cycles);
            a != [] ==> a[0].from == l.replicas && (l.last.Some? ==> a[0].at - l.last.value >= cfg.cooldown)
    decreases |cycles|
  {
    if cycles != [] {
      RunIsDisciplined(cfg, Step(cfg, l, cycles[0]), cycles[1..]);
      var rest := Actions(cfg, Step(cfg, l, cycles[0]), cycles[1..]);
      var a := Actions(cfg, l, cycles);
      if Acts(cfg, l, cycles[0]) {
        DisciplinedCons(cfg, a[0], rest);
        assert a == [a[0]] + rest;
      } else {
        assert a == rest;
      }
    }
  }

  lemma {:induction false} SpanAtLeast(cfg: Config, actions: seq<Recorded>, i: nat, j: nat)
    requires Disciplined(cfg, actions) && i <= j < |actions|
    ensures actions[j].at - actions[i].at >= (j - i) * cfg.cooldown
    decreases j
  {
    if i < j {
      SpanAtLeast(cfg, actions, i, j - 1);
      assert (j - i) * cfg.cooldown == (j - 1 - i) * cfg.cooldown + cfg.cooldown;
    }
  }

  /** Any window of `length` time units holds at most floor(length / cooldown) + 1 recorded actions of
      one component: actions `i` to `j` are that many. */
  lemma ActionsInWindow(cfg: Config, l: Loop, cycles: seq<Cycle>, i: nat, j: nat, length: nat)
    requires cfg.cooldown > 0 && 1 <= l.replicas <= cfg.maxReplicas && InOrder(cycles)
    requires i <= j < |Actions(cfg, l, cycles)|
    requires Actions(cfg, l, cycles)[j].at - Actions(cfg, l, cycles)[i].at <= length
    ensures j - i + 1 <= length / cfg.cooldown + 1
  {
    RunIsDisciplined(cfg, l, cycles);
    SpanAtLeast(cfg, Actions(cfg, l, cycles), i, j);
    Quotient(j - i, cfg.cooldown, length);
  }

  lemma Quotient(k: nat, c: nat, length: nat)
    requires c > 0 && k * c <= length
    ensures k <= length / c
  {
    var q := length / c;
    assert length < (q + 1) * c;
    assert k > q ==> k * c >= (q + 1) * c;
  }
}
