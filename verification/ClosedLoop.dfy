/** Radio metrics aggregated per cell and grouped into component decisions
    (llm_nephio_oran/kpimon/bridge.py, lines 44-73 and 167-170;
    llm_nephio_oran/closedloop/e2_closed_loop.py, lines 74-198 and 291-297). */
module ClosedLoop {
  import opened Wrappers
  import opened Analyzer

  /** One slice of one cell: UEs, and PRB usage in tenths of a percent. */
  datatype Snapshot = Snapshot(cell: string, gnb: string, slice: string, ues: nat, prb: int)

  datatype Key = Key(namespace: string, component: string)

  datatype CellSummary = CellSummary(gnb: string, totalUes: nat)

  /** What `run_cycle` files under a component for one cell. */
  datatype CellEntry = CellEntry(cell: string, gnb: string, peak: int, ues: nat)

  datatype Act = Act(key: Key, action: Action, replicas: int, cell: string)

  predicate StartsWith(s: string, prefix: string) {
    prefix <= s
  }

  /** `_resolve_component`. */
  function Resolve(gnb: string): Key {
    if StartsWith(gnb, "gnb-edge") then Key("oran", "oai-odu")
    else if StartsWith(gnb, "gnb-central") then Key("core", "free5gc-amf")
    else if StartsWith(gnb, "gnb-lab") then Key("oran", "oai-odu")
    else Key("oran", "oai-odu")
  }

  /** Which gNB goes to which component: the central ones to the core's AMF, all others to the RAN's DU. */
  lemma ResolveIs(gnb: string)
    ensures "gnb-central" <= gnb ==> Resolve(gnb) == Key("core", "free5gc-amf")
    ensures !("gnb-central" <= gnb) ==> Resolve(gnb) == Key("oran", "oai-odu")
  {
    if "gnb-central" <= gnb {
      assert gnb[4] == "gnb-central"[4] == 'c';
      assert "gnb-edge"[4] == 'e';
    }
  }

  // --- summary_by_cell ----------------------------------------------------------------------

  ghost predicate HasCell(snaps: seq<Snapshot>, cell: string) {
    exists i :: 0 <= i < |snaps| && snaps[i].cell == cell
  }

  /** The gNB of the first snapshot of a cell. */
  function GnbOf(snaps: seq<Snapshot>, cell: string): string {
    if snaps == [] then "" else if snaps[0].cell == cell then snaps[0].gnb else GnbOf(snaps[1..], cell)
  }

  function UesOf(snaps: seq<Snapshot>, cell: string): nat {
    if snaps == [] then 0
    else UesOf(snaps[..|snaps| - 1], cell) + if snaps[|snaps| - 1].cell == cell then snaps[|snaps| - 1].ues else 0
  }

  /** `total_active_ues`. */
  function TotalUes(snaps: seq<Snapshot>): nat {
    if snaps == [] then 0 else TotalUes(snaps[..|snaps| - 1]) + snaps[|snaps| - 1].ues
  }

  function SumUes(order: seq<string>, cells: map<string, CellSummary>): nat
    requires forall c :: c in order ==> c in cells
  {
    if order == [] then 0 else SumUes(order[..|order| - 1], cells) + cells[order[|order| - 1]].totalUes
  }

  /** The cells in order of first appearance. */
  function FirstAppearances(snaps: seq<Snapshot>): seq<string> {
    if snaps == [] then []
    else
      var k := |snaps| - 1;
      var before := FirstAppearances(snaps[..k]);
      before + if snaps[k].cell in before then [] else [snaps[k].cell]
  }

  lemma {:induction false} GnbOfPrefix(snaps: seq<Snapshot>, n: nat, cell: string)
    requires n <= |snaps| && HasCell(snaps[..n], cell)
    ensures GnbOf(snaps, cell) == GnbOf(snaps[..n], cell)
    decreases n
  {
    if snaps[0].cell != cell {
      assert snaps[1..][..n - 1] == snaps[..n][1..];
      var i :| 0 <= i < n && snaps[..n][i].cell == cell;
      assert snaps[1..][..n - 1][i - 1].cell == cell;
      GnbOfPrefix(snaps[1..], n - 1, cell);
    }
  }

  lemma {:induction false} GnbOfNew(snaps: seq<Snapshot>, n: nat)
    requires n < |snaps| && !HasCell(snaps[..n], snaps[n].cell)
    ensures GnbOf(snaps[..n + 1], snaps[n].cell) == snaps[n].gnb
    decreases n
  {
    if n > 0 {
      assert snaps[..n][0].cell != snaps[n].cell;
      assert snaps[1..][..n - 1] == snaps[..n][1..];
      assert snaps[1..][..n] == snaps[..n + 1][1..];
      var rest := snaps[1..][..n - 1];
      forall i | 0 <= i < |rest| ensures rest[i].cell != snaps[n].cell {
        assert snaps[..n][i + 1].cell != snaps[n].cell;
      }
      GnbOfNew(snaps[1..], n - 1);
    }
  }

  lemma {:induction false} SumUesUpdate(order: seq<string>, cells: map<string, CellSummary>, cell: string, s: CellSummary)
    requires forall i, j :: 0 <= i < j < |order| ==> order[i] != order[j]
    requires forall c :: c in order ==> c in cells
    ensures SumUes(order, cells[cell := s])
         == SumUes(order, cells) + (if cell in order then s.totalUes - cells[cell].totalUes else 0)
    decreases |order|
  {
    if order != [] {
      var k := |order| - 1;
      SumUesUpdate(order[..k], cells, cell, s);
      assert forall c :: c in order <==> c == order[k] || c in order[..k];
      assert order[k] !in order[..k];
    }
  }

  ghost predicate KeysOk(snaps: seq<Snapshot>, order: seq<string>, cells: map<string, CellSummary>) {
    && (forall i, j :: 0 <= i < j < |order| ==> order[i] != order[j])
    && (forall c :: c in order <==> c in cells)
    && (forall c :: c in cells <==> HasCell(snaps, c))
  }

  ghost predicate ValuesOk(snaps: seq<Snapshot>, cells: map<string, CellSummary>) {
    forall c :: c in cells ==> cells[c].gnb == GnbOf(snaps, c) && cells[c].totalUes == UesOf(snaps, c)
  }

  /** A correct per-cell summary of these snapshots. */
  ghost predicate Summarised(snaps: seq<Snapshot>, order: seq<string>, cells: map<string, CellSummary>) {
    && KeysOk(snaps, order, cells)
    && ValuesOk(snaps, cells)
    && order == FirstAppearances(snaps)
    && SumUes(order, cells) == TotalUes(snaps)
  }

  /** `summary_by_cell`: one entry per cell in order of first appearance, with the gNB of its first
      snapshot and the UEs of all its slices; the per-cell totals sum to `total_active_ues`. */
  method SummaryByCell(snaps: seq<Snapshot>) returns (order: seq<string>, cells: map<string, CellSummary>)
    ensures Summarised(snaps, order, cells)
  {
    order, cells := [], map[];
    var n := 0;
    while n < |snaps|
      invariant 0 <= n <= |snaps|
      invariant Summarised(snaps[..n], order, cells)
    {
      var order', cells' := CountSnapshot(snaps[n], order, cells);
      SummaryStep(snaps, n, order, cells, order', cells');
      order, cells := order', cells';
      n := n + 1;
    }
    assert snaps[..n] == snaps;
  }

  /** The body of that loop. */
  method CountSnapshot(snap: Snapshot, order0: seq<string>, cells0: map<string, CellSummary>)
    returns (order: seq<string>, cells: map<string, CellSummary>)
    ensures Counted(snap, order0, cells0, order, cells)
  {
    order, cells := order0, cells0;
    if snap.cell !in cells {
      order := order + [snap.cell];
      cells := cells[snap.cell := CellSummary(snap.gnb, 0)];
    }
    var cell := cells[snap.cell];
    cells := cells[snap.cell := cell.(totalUes := cell.totalUes + snap.ues)];
  }

  lemma HasCellStep(snaps: seq<Snapshot>, n: nat, c: string)
    requires n < |snaps|
    ensures HasCell(snaps[..n + 1], c) <==> HasCell(snaps[..n], c) || c == snaps[n].cell
  {
    if HasCell(snaps[..n], c) {
      var i :| 0 <= i < n && snaps[..n][i].cell == c;
      assert snaps[..n + 1][i].cell == c;
    }
    assert snaps[..n + 1][n] == snaps[n];
  }

  /** How one loop iteration changes the dictionary. */
  ghost predicate Counted(snap: Snapshot, order0: seq<string>, cells0: map<string, CellSummary>,
                          order: seq<string>, cells: map<string, CellSummary>) {
    && order == (if snap.cell in cells0 then order0 else order0 + [snap.cell])
    && snap.cell in cells
    && cells == cells0[snap.cell := cells[snap.cell]]
    && cells[snap.cell].gnb == (if snap.cell in cells0 then cells0[snap.cell].gnb else snap.gnb)
    && cells[snap.cell].totalUes == (if snap.cell in cells0 then cells0[snap.cell].totalUes else 0) + snap.ues
  }

  lemma KeysStep(snaps: seq<Snapshot>, n: nat, order0: seq<string>, cells0: map<string, CellSummary>,
                 order: seq<string>, cells: map<string, CellSummary>)
    requires n < |snaps| && KeysOk(snaps[..n], order0, cells0) && Counted(snaps[n], order0, cells0, order, cells)
    ensures KeysOk(snaps[..n + 1], order, cells)
  {
    forall c ensures c in cells <==> HasCell(snaps[..n + 1], c) {
      HasCellStep(snaps, n, c);
    }
  }

  lemma ValuesStep(snaps: seq<Snapshot>, n: nat, order0: seq<string>, cells0: map<string, CellSummary>,
                   order: seq<string>, cells: map<string, CellSummary>)
    requires n < |snaps| && KeysOk(snaps[..n], order0, cells0) && ValuesOk(snaps[..n], cells0)
    requires Counted(snaps[n], order0, cells0, order, cells)
    ensures ValuesOk(snaps[..n + 1], cells)
  {
    assert snaps[..n + 1][..n] == snaps[..n];
    forall c | c in cells ensures cells[c].gnb == GnbOf(snaps[..n + 1], c) && cells[c].totalUes == UesOf(snaps[..n + 1], c) {
      if c in cells0 {
        GnbOfPrefix(snaps[..n + 1], n, c);
      } else {
        GnbOfNew(snaps, n);
        NoUes(snaps[..n], c);
      }
    }
  }

  lemma SumStep(snaps: seq<Snapshot>, n: nat, order0: seq<string>, cells0: map<string, CellSummary>,
                order: seq<string>, cells: map<string, CellSummary>)
    requires n < |snaps| && KeysOk(snaps[..n], order0, cells0) && SumUes(order0, cells0) == TotalUes(snaps[..n])
    requires Counted(snaps[n], order0, cells0, order, cells)
    ensures forall c :: c in order <==> c in cells
    ensures SumUes(order, cells) == TotalUes(snaps[..n + 1])
  {
    var snap := snaps[n];
    assert snaps[..n + 1][..n] == snaps[..n];
    SumUesUpdate(order0, cells0, snap.cell, cells[snap.cell]);
    if snap.cell !in cells0 {
      assert order[..|order| - 1] == order0;
    }
  }

  lemma SummaryStep(snaps: seq<Snapshot>, n: nat, order0: seq<string>, cells0: map<string, CellSummary>,
                    order: seq<string>, cells: map<string, CellSummary>)
    requires n < |snaps| && Summarised(snaps[..n], order0, cells0) && Counted(snaps[n], order0, cells0, order, cells)
    ensures Summarised(snaps[..n + 1], order, cells)
  {
    assert snaps[..n + 1][..n] == snaps[..n];
    KeysStep(snaps, n, order0, cells0, order, cells);
    ValuesStep(snaps, n, order0, cells0, order, cells);
    SumStep(snaps, n, order0, cells0, order, cells);
  }

  lemma {:induction false} NoUes(snaps: seq<Snapshot>, c: string)
    requires !HasCell(snaps, c)
    ensures UesOf(snaps, c) == 0
    decreases |snaps|
  {
    if snaps != [] {
      var k := |snaps| - 1;
      assert snaps[k].cell != c;
      assert forall i :: 0 <= i < k ==> snaps[..k][i] == snaps[i];
      NoUes(snaps[..k], c);
    }
  }

  // --- Grouping by component ----------------------------------------------------------------

  /** The component a cell counts towards. */
  function KeyOf(snaps: seq<Snapshot>, cell: string): Key {
    Resolve(GnbOf(snaps, cell))
  }

  /** `p` is the highest PRB usage over the slices of a cell. */
  ghost predicate IsCellPeak(snaps: seq<Snapshot>, cell: string, p: int) {
    && (exists i :: 0 <= i < |snaps| && snaps[i].cell == cell && snaps[i].prb == p)
    && (forall i :: 0 <= i < |snaps| && snaps[i].cell == cell ==> snaps[i].prb <= p)
  }

  /** `p` is the highest PRB usage over all slices of all cells that count towards a component. */
  ghost predicate IsComponentPeak(snaps: seq<Snapshot>, k: Key, p: int) {
    && (exists i :: 0 <= i < |snaps| && KeyOf(snaps, snaps[i].cell) == k && snaps[i].prb == p)
    && (forall i :: 0 <= i < |snaps| && KeyOf(snaps, snaps[i].cell) == k ==> snaps[i].prb <= p)
  }

  method CellPeak(snaps: seq<Snapshot>, cell: string) returns (p: int)
    requires HasCell(snaps, cell)
    ensures IsCellPeak(snaps, cell, p)
  {
    p := 0;
    var found := false;
    var i := 0;
    while i < |snaps|
      invariant 0 <= i <= |snaps|
      invariant found <==> exists j :: 0 <= j < i && snaps[j].cell == cell
      invariant found ==> exists j :: 0 <= j < i && snaps[j].cell == cell && snaps[j].prb == p
      invariant forall j :: 0 <= j < i && snaps[j].cell == cell ==> snaps[j].prb <= p
    {
      if snaps[i].cell == cell && (!found || snaps[i].prb > p) {
        p := snaps[i].prb;
        found := true;
      }
      i := i + 1;
    }
  }

  ghost predicate EntryOk(snaps: seq<Snapshot>, e: CellEntry, k: Key) {
    && HasCell(snaps, e.cell) && KeyOf(snaps, e.cell) == k && IsCellPeak(snaps, e.cell, e.peak)
    && e.gnb == GnbOf(snaps, e.cell) && e.ues == UesOf(snaps, e.cell)
  }

  ghost predicate GroupsOk(snaps: seq<Snapshot>, keys: seq<Key>, groups: map<Key, seq<CellEntry>>) {
    && (forall i, j :: 0 <= i < j < |keys| ==> keys[i] != keys[j])
    && (forall k :: k in keys <==> k in groups)
    && (forall k :: k in groups ==> groups[k] != [])
    && (forall k, e :: k in groups && e in groups[k] ==> EntryOk(snaps, e, k))
  }

  ghost predicate Filed(groups: map<Key, seq<CellEntry>>, k: Key, cell: string) {
    k in groups && exists e :: e in groups[k] && e.cell == cell
  }

  lemma FileEntry(snaps: seq<Snapshot>, keys: seq<Key>, groups: map<Key, seq<CellEntry>>, k: Key, e: CellEntry,
                  keys': seq<Key>, groups': map<Key, seq<CellEntry>>)
    requires GroupsOk(snaps, keys, groups) && EntryOk(snaps, e, k)
    requires keys' == if k in groups then keys else keys + [k]
    requires groups' == groups[k := (if k in groups then groups[k] else []) + [e]]
    ensures GroupsOk(snaps, keys', groups')
    ensures Filed(groups', k, e.cell)
    ensures forall k0, cell :: Filed(groups, k0, cell) ==> Filed(groups', k0, cell)
  {
    assert e in groups'[k];
    forall k0, cell | Filed(groups, k0, cell) ensures Filed(groups', k0, cell) {
      var x :| x in groups[k0] && x.cell == cell;
      assert x in groups'[k0];
    }
  }

  lemma EntryIsOk(snaps: seq<Snapshot>, order: seq<string>, cells: map<string, CellSummary>, n: nat, peak: int)
    requires KeysOk(snaps, order, cells) && ValuesOk(snaps, cells) && n < |order|
    requires IsCellPeak(snaps, order[n], peak)
    ensures order[n] in cells
    ensures var c := cells[order[n]];
            EntryOk(snaps, CellEntry(order[n], c.gnb, peak, c.totalUes), Resolve(c.gnb))
  {
    assert order[n] in cells;
  }

  ghost predicate FiledUpTo(snaps: seq<Snapshot>, order: seq<string>, n: nat, groups: map<Key, seq<CellEntry>>)
    requires n <= |order|
  {
    forall i :: 0 <= i < n ==> Filed(groups, KeyOf(snaps, order[i]), order[i])
  }

  /** Every cell is filed under the component it resolves to. */
  ghost predicate AllFiled(snaps: seq<Snapshot>, groups: map<Key, seq<CellEntry>>) {
    forall c :: HasCell(snaps, c) ==> Filed(groups, KeyOf(snaps, c), c)
  }

  lemma FiledUpToEnd(snaps: seq<Snapshot>, order: seq<string>, cells: map<string, CellSummary>,
                     groups: map<Key, seq<CellEntry>>)
    requires KeysOk(snaps, order, cells) && FiledUpTo(snaps, order, |order|, groups)
    ensures AllFiled(snaps, groups)
  {
    forall c | HasCell(snaps, c) ensures Filed(groups, KeyOf(snaps, c), c) {
      assert c in cells;
      assert c in order;
    }
  }

  lemma FiledUpToStep(snaps: seq<Snapshot>, order: seq<string>, n: nat, groups: map<Key, seq<CellEntry>>,
                      groups': map<Key, seq<CellEntry>>)
    requires n < |order| && FiledUpTo(snaps, order, n, groups)
    requires forall k, cell :: Filed(groups, k, cell) ==> Filed(groups', k, cell)
    requires Filed(groups', KeyOf(snaps, order[n]), order[n])
    ensures FiledUpTo(snaps, order, n + 1, groups')
  {
  }

  /** `component_cells.setdefault(key, []).append(...)` for the cell at position `n`. */
  method FileCell(snaps: seq<Snapshot>, ghost order: seq<string>, ghost n: nat, keys0: seq<Key>,
                  groups0: map<Key, seq<CellEntry>>, key: Key, entry: CellEntry)
    returns (keys: seq<Key>, groups: map<Key, seq<CellEntry>>)
    requires GroupsOk(snaps, keys0, groups0) && n < |order| && FiledUpTo(snaps, order, n, groups0)
    requires EntryOk(snaps, entry, key) && entry.cell == order[n]
    ensures GroupsOk(snaps, keys, groups) && FiledUpTo(snaps, order, n + 1, groups)
  {
    keys := if key in groups0 then keys0 else keys0 + [key];
    groups := groups0[key := (if key in groups0 then groups0[key] else []) + [entry]];
    FileEntry(snaps, keys0, groups0, key, entry, keys, groups);
    FiledUpToStep(snaps, order, n, groups0, groups);
  }

  /** The first loop of `run_cycle`: every cell is filed under exactly the component it resolves to. */
  method GroupByComponent(snaps: seq<Snapshot>, order: seq<string>, cells: map<string, CellSummary>)
    returns (keys: seq<Key>, groups: map<Key, seq<CellEntry>>)
    requires KeysOk(snaps, order, cells) && ValuesOk(snaps, cells)
    ensures GroupsOk(snaps, keys, groups) && AllFiled(snaps, groups)
  {
    keys, groups := [], map[];
    var n := 0;
    while n < |order|
      invariant 0 <= n <= |order|
      invariant GroupsOk(snaps, keys, groups) && FiledUpTo(snaps, order, n, groups)
    {
      assert order[n] in cells;
      var peak := CellPeak(snaps, order[n]);
      EntryIsOk(snaps, order, cells, n, peak);
      var c := cells[order[n]];
      keys, groups := FileCell(snaps, order, n, keys, groups, Resolve(c.gnb), CellEntry(order[n], c.gnb, peak, c.totalUes));
      n := n + 1;
    }
    FiledUpToEnd(snaps, order, cells, groups);
  }

  /** Largest peak among the cells of a component. */
  method GroupPeak(entries: seq<CellEntry>) returns (p: int)
    requires entries != []
    ensures exists i :: 0 <= i < |entries| && entries[i].peak == p
    ensures forall i :: 0 <= i < |entries| ==> entries[i].peak <= p
  {
    p := entries[0].peak;
    var n := 1;
    while n < |entries|
      invariant 1 <= n <= |entries|
      invariant exists i :: 0 <= i < n && entries[i].peak == p
      invariant forall i :: 0 <= i < n ==> entries[i].peak <= p
    {
      if entries[n].peak > p {
        p := entries[n].peak;
      }
      n := n + 1;
    }
  }

  /** The peak of the peaks is the peak over all slices: nothing is lost by grouping. */
  lemma PeakOfPeaks(snaps: seq<Snapshot>, keys: seq<Key>, groups: map<Key, seq<CellEntry>>, k: Key, p: int)
    requires GroupsOk(snaps, keys, groups) && AllFiled(snaps, groups) && k in groups
    requires exists i :: 0 <= i < |groups[k]| && groups[k][i].peak == p
    requires forall i :: 0 <= i < |groups[k]| ==> groups[k][i].peak <= p
    ensures IsComponentPeak(snaps, k, p)
  {
    var i :| 0 <= i < |groups[k]| && groups[k][i].peak == p;
    assert EntryOk(snaps, groups[k][i], k);
    forall j | 0 <= j < |snaps| && KeyOf(snaps, snaps[j].cell) == k ensures snaps[j].prb <= p {
      assert HasCell(snaps, snaps[j].cell);
      var e :| e in groups[k] && e.cell == snaps[j].cell;
      assert EntryOk(snaps, e, k);
    }
  }

  // --- run_cycle ----------------------------------------------------------------------------

  /** Some cell counts towards the component. */
  ghost predicate Observed(snaps: seq<Snapshot>, k: Key) {
    exists i :: 0 <= i < |snaps| && KeyOf(snaps, snaps[i].cell) == k
  }

  /** Some slice snapshot on some cell of the component exceeds the threshold (a negative threshold is
      exceeded by the zero that stands in for memory). */
  ghost predicate Overloaded(cfg: Config, snaps: seq<Snapshot>, k: Key) {
    cfg.scaleOut < 0 || exists i :: 0 <= i < |snaps| && KeyOf(snaps, snaps[i].cell) == k && snaps[i].prb > cfg.scaleOut
  }

  /** Every slice snapshot of the component is below the scale-in threshold. */
  ghost predicate Underused(cfg: Config, snaps: seq<Snapshot>, k: Key) {
    cfg.scaleIn > 0 && forall i :: 0 <= i < |snaps| && KeyOf(snaps, snaps[i].cell) == k ==> snaps[i].prb < cfg.scaleIn
  }

  /** What the environment answers during a cycle, per component. */
  datatype World = World(replicas: Key -> int, analyzedAt: Key -> int, recordedAt: Key -> int, posted: Key -> bool)

  /** The flat specification of one component's decision. */
  ghost function Verdict(cfg: Config, last: map<string, int>, snaps: seq<Snapshot>, w: World, k: Key): Action {
    if !Observed(snaps, k) || (k.component in last && w.analyzedAt(k) - last[k.component] < cfg.cooldown) then NoAction
    else if Overloaded(cfg, snaps, k) then (if w.replicas(k) < cfg.maxReplicas then ScaleOut else NoAction)
    else if Underused(cfg, snaps, k) && w.replicas(k) > 1 then ScaleIn
    else NoAction
  }

  lemma ComponentDeterminesKey(g1: string, g2: string)
    ensures Resolve(g1).component == Resolve(g2).component ==> Resolve(g1) == Resolve(g2)
  {
    assert "free5gc-amf"[0] != "oai-odu"[0];
  }

  lemma DecisionMatchesVerdict(cfg: Config, last: map<string, int>, snaps: seq<Snapshot>, w: World, k: Key, p: int)
    requires IsComponentPeak(snaps, k, p)
    ensures var cooling := CoolingDown(cfg, last, k.component, w.analyzedAt(k));
            Analyze(cfg, cooling, p, 0, w.replicas(k)).action == Verdict(cfg, last, snaps, w, k)
  {
  }

  /** Components still to come in the cycle are cooling down exactly when they were at its start. */
  ghost predicate SameCooldowns(cfg: Config, last0: map<string, int>, last: map<string, int>, keys: seq<Key>, n: nat, w: World)
    requires n <= |keys|
  {
    forall j :: n <= j < |keys| ==>
      CoolingDown(cfg, last, keys[j].component, w.analyzedAt(keys[j]))
      == CoolingDown(cfg, last0, keys[j].component, w.analyzedAt(keys[j]))
  }

  /** No component still to come shares the name of the current one. */
  ghost predicate ApartFrom(keys: seq<Key>, n: nat)
    requires n < |keys|
  {
    forall j :: n < j < |keys| ==> keys[j].component != keys[n].component
  }

  /** Acting on one component starts no cooldown for the ones still to come. */
  lemma OtherComponents(snaps: seq<Snapshot>, keys: seq<Key>, groups: map<Key, seq<CellEntry>>, n: nat)
    requires GroupsOk(snaps, keys, groups) && n < |keys|
    ensures ApartFrom(keys, n)
  {
    forall j | n < j < |keys| ensures keys[j].component != keys[n].component {
      var a, b := groups[keys[n]][0], groups[keys[j]][0];
      assert EntryOk(snaps, a, keys[n]) && EntryOk(snaps, b, keys[j]);
      ComponentDeterminesKey(GnbOf(snaps, a.cell), GnbOf(snaps, b.cell));
    }
  }

  /** The act, if any, that a verdict asks for. */
  ghost predicate ActFor(act: Option<Act>, k: Key, verdict: Action, replicas: int) {
    && (act.None? <==> verdict.NoAction?)
    && (act.Some? ==> act.value.key == k && act.value.action == verdict
                      && act.value.replicas == replicas + (if verdict.ScaleOut? then 1 else -1))
  }

  /** The results are sound: no component twice, every action the one its verdict asks for. */
  ghost predicate Sound(results: seq<Act>, verdict: Key -> Action, replicas: Key -> int) {
    && (forall i, j :: 0 <= i < j < |results| ==> results[i].key != results[j].key)
    && (forall i :: 0 <= i < |results| ==>
          ActFor(Some(results[i]), results[i].key, verdict(results[i].key), replicas(results[i].key)))
  }

  /** The results so far are sound and answer the first `n` components. */
  ghost predicate ResultsOk(results: seq<Act>, keys: seq<Key>, n: nat, verdict: Key -> Action, replicas: Key -> int)
    requires n <= |keys|
  {
    && Sound(results, verdict, replicas)
    && (forall i :: 0 <= i < |results| ==> results[i].key in keys[..n])
    && (forall i :: 0 <= i < n && !verdict(keys[i]).NoAction? ==> exists r :: r in results && r.key == keys[i])
  }

  lemma ResultsStep(results: seq<Act>, keys: seq<Key>, n: nat, verdict: Key -> Action, replicas: Key -> int,
                    act: Option<Act>, results': seq<Act>)
    requires n < |keys| && ResultsOk(results, keys, n, verdict, replicas)
    requires forall i, j :: 0 <= i < j < |keys| ==> keys[i] != keys[j]
    requires ActFor(act, keys[n], verdict(keys[n]), replicas(keys[n]))
    requires results' == Extend(results, act)
    ensures ResultsOk(results', keys, n + 1, verdict, replicas)
  {
    assert keys[..n + 1] == keys[..n] + [keys[n]];
    forall i | 0 <= i < n + 1 && !verdict(keys[i]).NoAction? ensures exists r :: r in results' && r.key == keys[i] {
      if i < n {
        var r :| r in results && r.key == keys[i];
        assert r in results';
      } else {
        assert act.value in results';
      }
    }
  }

  /** The results cover every component whose verdict asks for an action. */
  ghost predicate Covering(results: seq<Act>, verdict: Key -> Action) {
    forall k :: !verdict(k).NoAction? ==> exists r :: r in results && r.key == k
  }

  lemma ResultsCover(cfg: Config, last: map<string, int>, snaps: seq<Snapshot>, w: World, keys: seq<Key>,
                     groups: map<Key, seq<CellEntry>>, results: seq<Act>, verdict: Key -> Action)
    requires forall k :: verdict(k) == Verdict(cfg, last, snaps, w, k)
    requires GroupsOk(snaps, keys, groups) && AllFiled(snaps, groups)
    requires ResultsOk(results, keys, |keys|, verdict, w.replicas)
    ensures Covering(results, verdict)
  {
    forall k | !verdict(k).NoAction? ensures exists r :: r in results && r.key == k {
      assert Observed(snaps, k);
      var i :| 0 <= i < |snaps| && KeyOf(snaps, snaps[i].cell) == k;
      assert HasCell(snaps, snaps[i].cell);
      assert k in keys;
      var j :| 0 <= j < |keys| && keys[j] == k;
      assert !verdict(keys[j]).NoAction?;
    }
  }

  method ComponentPeak(snaps: seq<Snapshot>, keys: seq<Key>, groups: map<Key, seq<CellEntry>>, n: nat)
    returns (peak: int, cell: string)
    requires GroupsOk(snaps, keys, groups) && AllFiled(snaps, groups) && n < |keys|
    ensures IsComponentPeak(snaps, keys[n], peak) && ApartFrom(keys, n)
    ensures KeyOf(snaps, cell) == keys[n]
  {
    var entries := groups[keys[n]];
    peak := GroupPeak(entries);
    PeakOfPeaks(snaps, keys, groups, keys[n], peak);
    OtherComponents(snaps, keys, groups, n);
    assert EntryOk(snaps, entries[0], keys[n]);
    cell := entries[0].cell;
  }

  method Group(snaps: seq<Snapshot>) returns (keys: seq<Key>, groups: map<Key, seq<CellEntry>>)
    ensures GroupsOk(snaps, keys, groups) && AllFiled(snaps, groups)
  {
    var order, cells := SummaryByCell(snaps);
    keys, groups := GroupByComponent(snaps, order, cells);
  }

  /** Every act names a cell of its own component. */
  ghost predicate CellsOk(snaps: seq<Snapshot>, results: seq<Act>) {
    forall r :: r in results ==> KeyOf(snaps, r.cell) == r.key
  }

  /** The last-action times after acting on one component, if that. */
  ghost function AfterAct(last: map<string, int>, act: Option<Act>, at: Key -> int): map<string, int> {
    if act.Some? then last[act.value.key.component := at(act.value.key)] else last
  }

  function Extend(results: seq<Act>, act: Option<Act>): seq<Act> {
    if act.Some? then results + [act.value] else results
  }

  lemma LastActionsStep(last: map<string, int>, results: seq<Act>, act: Option<Act>, at: Key -> int)
    ensures LastActionsAfter(last, Extend(results, act), at) == AfterAct(LastActionsAfter(last, results, at), act, at)
  {
    if act.Some? {
      assert Extend(results, act)[..|results|] == results;
    }
  }

  /** The last-action times after acting on these components in turn. */
  ghost function LastActionsAfter(last: map<string, int>, acts: seq<Act>, at: Key -> int): map<string, int> {
    if acts == [] then last
    else
      var a := acts[|acts| - 1];
      LastActionsAfter(last, acts[..|acts| - 1], at)[a.key.component := at(a.key)]
  }

  // --- A cycle as a step of each component's run --------------------------------------------

  function LastOf(last: map<string, int>, component: string): Option<int> {
    if component in last then Some(last[component]) else None
  }

  ghost predicate DistinctComponents(acts: seq<Act>) {
    forall i, j :: 0 <= i < j < |acts| ==> acts[i].key.component != acts[j].key.component
  }

  /** What a cycle records for one component, when it acts on no component twice. */
  lemma {:induction false} RecordedFor(last: map<string, int>, acts: seq<Act>, at: Key -> int, k: Key, acted: bool)
    requires DistinctComponents(acts)
    requires acted ==> exists i :: 0 <= i < |acts| && acts[i].key == k
    requires !acted ==> forall i :: 0 <= i < |acts| ==> acts[i].key.component != k.component
    ensures LastOf(LastActionsAfter(last, acts, at), k.component) == if acted then Some(at(k)) else LastOf(last, k.component)
    decreases |acts|
  {
    if acts != [] {
      var n := |acts| - 1;
      var rest := acts[..n];
      assert forall i :: 0 <= i < n ==> rest[i] == acts[i];
      if acts[n].key != k || !acted {
        RecordedFor(last, rest, at, k, acted);
        if acted {
          var i :| 0 <= i < |acts| && acts[i].key == k;
          assert acts[n].key.component != acts[i].key.component;
        }
      }
    }
  }

  /** The keys a gNB can resolve to. */
  predicate Known(k: Key) {
    k == Key("oran", "oai-odu") || k == Key("core", "free5gc-amf")
  }

  lemma ObservedIsKnown(snaps: seq<Snapshot>, k: Key)
    requires Observed(snaps, k)
    ensures Known(k)
  {
    var i :| 0 <= i < |snaps| && KeyOf(snaps, snaps[i].cell) == k;
  }

  lemma KnownByName(a: Key, b: Key)
    requires Known(a) && Known(b) && a.component == b.component
    ensures a == b
  {
    assert "free5gc-amf"[0] != "oai-odu"[0];
  }

  /** Two acted-on components with the same name are the same. */
  lemma SoundComponents(cfg: Config, last: map<string, int>, snaps: seq<Snapshot>, w: World, verdict: Key -> Action,
                        results: seq<Act>, k: Key)
    requires forall x :: verdict(x) == Verdict(cfg, last, snaps, w, x)
    requires Sound(results, verdict, w.replicas) && Known(k)
    ensures DistinctComponents(results)
    ensures forall i :: 0 <= i < |results| && results[i].key.component == k.component ==> results[i].key == k
    ensures ActedOn(results, k) ==> Observed(snaps, k) && !verdict(k).NoAction?
  {
    forall i | 0 <= i < |results| ensures Known(results[i].key) && Observed(snaps, results[i].key) {
      assert ActFor(Some(results[i]), results[i].key, verdict(results[i].key), w.replicas(results[i].key));
      ObservedIsKnown(snaps, results[i].key);
    }
    forall i, x | 0 <= i < |results| && Known(x) && results[i].key.component == x.component ensures results[i].key == x {
      KnownByName(results[i].key, x);
    }
  }

  /** Whether a cycle acted on a component. */
  ghost predicate ActedOn(results: seq<Act>, k: Key) {
    exists i :: 0 <= i < |results| && results[i].key == k
  }

  /** What a cycle means for one component: its peak, and whether it was acted on. */
  ghost function CycleOf(w: World, k: Key, peak: int, results: seq<Act>): Cycle {
    Cycle(w.analyzedAt(k), w.recordedAt(k), peak, 0, ActedOn(results, k))
  }

  lemma StepOfVerdict(cfg: Config, last: map<string, int>, snaps: seq<Snapshot>, w: World, k: Key, peak: int, acted: bool)
    requires IsComponentPeak(snaps, k, peak) && (acted ==> !Verdict(cfg, last, snaps, w, k).NoAction?)
    ensures var l := Loop(w.replicas(k), LastOf(last, k.component));
            var delta := if Verdict(cfg, last, snaps, w, k).ScaleOut? then 1 else -1;
            Step(cfg, l, Cycle(w.analyzedAt(k), w.recordedAt(k), peak, 0, acted))
            == if acted then Loop(l.replicas + delta, Some(w.recordedAt(k))) else l
  {
    DecisionMatchesVerdict(cfg, last, snaps, w, k, peak);
  }

  /** A whole cycle over all cells takes, for every component, exactly one step of the single-component
      loop whose runs are disciplined: same last-action time, same replicas. */
  lemma CycleIsStep(cfg: Config, last: map<string, int>, snaps: seq<Snapshot>, w: World, verdict: Key -> Action,
                    results: seq<Act>, k: Key, peak: int)
    requires forall x :: verdict(x) == Verdict(cfg, last, snaps, w, x)
    requires Sound(results, verdict, w.replicas) && IsComponentPeak(snaps, k, peak)
    ensures var before := Loop(w.replicas(k), LastOf(last, k.component));
            var after := Step(cfg, before, CycleOf(w, k, peak, results));
            && LastOf(LastActionsAfter(last, results, w.recordedAt), k.component) == after.last
            && (ActedOn(results, k) ==> exists r :: r in results && r.key == k && r.replicas == after.replicas)
            && (!ActedOn(results, k) ==> after.replicas == w.replicas(k))
  {
    ObservedIsKnown(snaps, k);
    SoundComponents(cfg, last, snaps, w, verdict, results, k);
    RecordedFor(last, results, w.recordedAt, k, ActedOn(results, k));
    if ActedOn(results, k) {
      var i :| 0 <= i < |results| && results[i].key == k;
      assert ActFor(Some(results[i]), k, verdict(k), w.replicas(k));
      assert results[i] in results;
    }
    StepOfVerdict(cfg, last, snaps, w, k, peak, ActedOn(results, k));
  }

  class Controller {
    const analyzer: MetricsAnalyzer

    constructor (cfg: Config)
      ensures fresh(analyzer) && analyzer.cfg == cfg && analyzer.lastAction == map[]
    {
      analyzer := new MetricsAnalyzer(cfg);
    }

    /** The body of the second loop of `run_cycle`: analyze one component and act on it. */
    method Decide(snaps: seq<Snapshot>, keys: seq<Key>, n: nat, cell: string, peak: int, w: World, ghost last0: map<string, int>)
      returns (act: Option<Act>, raised: bool)
      requires n < |keys| && IsComponentPeak(snaps, keys[n], peak) && ApartFrom(keys, n)
      requires SameCooldowns(analyzer.cfg, last0, analyzer.lastAction, keys, n, w)
      modifies analyzer
      ensures !raised ==> ActFor(act, keys[n], Verdict(analyzer.cfg, last0, snaps, w, keys[n]), w.replicas(keys[n]))
      ensures !raised ==> SameCooldowns(analyzer.cfg, last0, analyzer.lastAction, keys, n + 1, w)
      ensures raised <==> !Verdict(analyzer.cfg, last0, snaps, w, keys[n]).NoAction? && !w.posted(keys[n])
      ensures raised ==> act.None?
      ensures act.Some? ==> act.value.cell == cell && act.value.key == keys[n]
      ensures analyzer.lastAction == AfterAct(old(analyzer.lastAction), act, w.recordedAt)
    {
      var key := keys[n];
      DecisionMatchesVerdict(analyzer.cfg, last0, snaps, w, key, peak);
      var rec := analyzer.Recommend(key.component, peak, 0, w.replicas(key), w.analyzedAt(key));
      act, raised := None, false;
      if !rec.action.NoAction? {
        if w.posted(key) {
          act := Some(Act(key, rec.action, rec.replicas, cell));
          analyzer.RecordAction(key.component, w.recordedAt(key));
        } else {
          raised := true;
        }
      }
    }

    /** One iteration of the second loop of `run_cycle`. */
    method Advance(snaps: seq<Snapshot>, keys: seq<Key>, groups: map<Key, seq<CellEntry>>, n: nat, w: World,
                   results: seq<Act>, ghost verdict: Key -> Action, ghost last0: map<string, int>)
      returns (results': seq<Act>, raised: bool)
      requires GroupsOk(snaps, keys, groups) && AllFiled(snaps, groups) && n < |keys|
      requires verdict(keys[n]) == Verdict(analyzer.cfg, last0, snaps, w, keys[n])
      requires ResultsOk(results, keys, n, verdict, w.replicas)
      requires SameCooldowns(analyzer.cfg, last0, analyzer.lastAction, keys, n, w) && CellsOk(snaps, results)
      requires analyzer.lastAction == LastActionsAfter(last0, results, w.recordedAt)
      modifies analyzer
      ensures raised ==> results' == results
      ensures CellsOk(snaps, results')
      ensures !raised ==> ResultsOk(results', keys, n + 1, verdict, w.replicas)
      ensures !raised ==> SameCooldowns(analyzer.cfg, last0, analyzer.lastAction, keys, n + 1, w)
      ensures analyzer.lastAction == LastActionsAfter(last0, results', w.recordedAt)
    {
      var peak, cell := ComponentPeak(snaps, keys, groups, n);
      var act;
      act, raised := Decide(snaps, keys, n, cell, peak, w, last0);
      results' := Extend(results, act);
      LastActionsStep(last0, results, act, w.recordedAt);
      if !raised {
        ResultsStep(results, keys, n, verdict, w.replicas, act, results');
      }
    }

    /** The second loop of `run_cycle`. */
    method DecideAll(snaps: seq<Snapshot>, keys: seq<Key>, groups: map<Key, seq<CellEntry>>, w: World,
                     ghost verdict: Key -> Action)
      returns (results: seq<Act>, raised: bool)
      requires GroupsOk(snaps, keys, groups) && AllFiled(snaps, groups)
      requires forall i :: 0 <= i < |keys| ==>
                 verdict(keys[i]) == Verdict(analyzer.cfg, analyzer.lastAction, snaps, w, keys[i])
      modifies analyzer
      ensures Sound(results, verdict, w.replicas) && CellsOk(snaps, results)
      ensures !raised ==> ResultsOk(results, keys, |keys|, verdict, w.replicas)
      ensures analyzer.lastAction == LastActionsAfter(old(analyzer.lastAction), results, w.recordedAt)
    {
      ghost var last0 := analyzer.lastAction;
      results, raised := [], false;
      var n := 0;
      while n < |keys|
        invariant 0 <= n <= |keys|
        invariant ResultsOk(results, keys, n, verdict, w.replicas)
        invariant SameCooldowns(analyzer.cfg, last0, analyzer.lastAction, keys, n, w) && CellsOk(snaps, results)
        invariant analyzer.lastAction == LastActionsAfter(last0, results, w.recordedAt)
      {
        results, raised := Advance(snaps, keys, groups, n, w, results, verdict, last0);
        if raised {
          return;
        }
        n := n + 1;
      }
    }

    /** The scaling path of `run_cycle`. When no post raises, the components acted on are exactly those
        the flat specification names, each once, moved by one replica and reported with one of their
        own cells; a failed post stops the cycle. Either way the cooldowns recorded are those of the components acted on. */
    method RunCycle(snaps: seq<Snapshot>, w: World) returns (results: seq<Act>, raised: bool)
      modifies analyzer
      ensures Sound(results, k => Verdict(analyzer.cfg, old(analyzer.lastAction), snaps, w, k), w.replicas)
      ensures CellsOk(snaps, results)
      ensures !raised ==> Covering(results, k => Verdict(analyzer.cfg, old(analyzer.lastAction), snaps, w, k))
      ensures analyzer.lastAction == LastActionsAfter(old(analyzer.lastAction), results, w.recordedAt)
    {
      ghost var last0 := analyzer.lastAction;
      ghost var verdict := k => Verdict(analyzer.cfg, last0, snaps, w, k);
      var keys, groups := Group(snaps);
      results, raised := DecideAll(snaps, keys, groups, w, verdict);
      if !raised {
        ResultsCover(analyzer.cfg, last0, snaps, w, keys, groups, results, verdict);
      }
    }
  }
}
