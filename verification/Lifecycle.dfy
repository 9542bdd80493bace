/** The ten-state intent lifecycle (llm_nephio_oran/intentd/store.py, lines 27-56). */
module Lifecycle {
  import opened Wrappers

  datatype State =
    | Acknowledged | Planning | Validating | Generating | Executing
    | Proposed | Applied | Completed | Failed | Cancelled

  function ValidNext(s: State): set<State> {
    match s
    case Acknowledged => {Planning, Cancelled, Failed}
    case Planning => {Validating, Failed}
    case Validating => {Generating, Failed}
    case Generating => {Executing, Failed}
    case Executing => {Proposed, Failed}
    case Proposed => {Applied, Failed}
    case Applied => {Completed, Failed}
    case Completed => {}
    case Failed => {}
    case Cancelled => {}
  }

  predicate Terminal(s: State) {
    s.Completed? || s.Failed? || s.Cancelled?
  }

  type Data = map<string, string>

  datatype HistoryEntry = HistoryEntry(from: Option<State>, to: State, at: string, data: Option<Data>)

  /** A history that starts at acknowledged and chains along allowed edges. */
  ghost predicate Chained(h: seq<HistoryEntry>) {
    && |h| > 0
    && h[0].from == None && h[0].to == Acknowledged
    && (forall i :: 1 <= i < |h| ==> h[i].from == Some(h[i - 1].to) && h[i].to in ValidNext(h[i - 1].to))
  }

  /** A chained history that ends at `current`. */
  ghost predicate WellChained(h: seq<HistoryEntry>, current: State) {
    Chained(h) && h[|h| - 1].to == current
  }

  /** One more entry keeps a history chained exactly when it continues from the last one. */
  lemma ChainedStep(h: seq<HistoryEntry>, e: HistoryEntry)
    requires |h| > 0
    ensures var last := h[|h| - 1].to;
            Chained(h + [e]) <==> Chained(h) && e.from == Some(last) && e.to in ValidNext(last)
  {
    var g := h + [e];
    assert g[|h|] == e && g[|h| - 1] == h[|h| - 1];
    if Chained(g) {
      forall i | 1 <= i < |h| ensures h[i].from == Some(h[i - 1].to) && h[i].to in ValidNext(h[i - 1].to) {
        assert g[i] == h[i] && g[i - 1] == h[i - 1];
      }
    }
  }

  /** Progress along the pipeline; every allowed edge increases it. */
  function Rank(s: State): nat {
    match s
    case Acknowledged => 0
    case Planning => 1
    case Validating => 2
    case Generating => 3
    case Executing => 4
    case Proposed => 5
    case Applied => 6
    case _ => 7
  }

  /** The allowed edges, as a rule: one stage on, failed from wherever it is not over, and cancelled from
      acknowledged only. */
  lemma EdgesAre(from: State, to: State)
    ensures to in ValidNext(from) <==>
              || (!Terminal(from) && !Terminal(to) && Rank(to) == Rank(from) + 1)
              || (from == Applied && to == Completed)
              || (!Terminal(from) && to == Failed)
              || (from == Acknowledged && to == Cancelled)
  {
  }

  lemma {:induction false} RankBoundsPosition(h: seq<HistoryEntry>, current: State, i: nat)
    requires WellChained(h, current) && i < |h|
    ensures Rank(h[i].to) >= i
  {
    if i > 0 {
      RankBoundsPosition(h, current, i - 1);
      assert h[i].to in ValidNext(h[i - 1].to);
    }
  }

  /** No well-chained history has more than eight entries, and only its last entry is terminal. */
  lemma HistoryBounded(h: seq<HistoryEntry>, current: State)
    requires WellChained(h, current)
    ensures |h| <= 8
    ensures forall i :: 0 <= i < |h| - 1 ==> !Terminal(h[i].to)
    ensures |h| == 8 ==> Terminal(current)
  {
    RankBoundsPosition(h, current, |h| - 1);
    forall i | 0 <= i < |h| - 1 ensures !Terminal(h[i].to) {
      assert h[i + 1].to in ValidNext(h[i].to);
    }
  }
}
