/** Memory next to what a reload would rebuild, intent by intent, when some appends to the log fail
    (llm_nephio_oran/intentd/store.py, lines 154-242 and 392-454). */
module IntentShadow {
  import opened Wrappers
  import opened Lifecycle
  import opened IntentLog

  ghost predicate LifecycleOk(t: Table) {
    forall id :: id in t.recs ==> WellChained(t.recs[id].history, t.recs[id].state)
  }

  /** The keys in insertion order, some left out. */
  function Without(order: seq<string>, gone: set<string>): seq<string> {
    if order == [] then []
    else
      var k := |order| - 1;
      Without(order[..k], gone) + if order[k] in gone then [] else [order[k]]
  }

  lemma WithoutAppend(order: seq<string>, id: string, gone: set<string>)
    ensures Without(order + [id], gone) == Without(order, gone) + if id in gone then [] else [id]
  {
    assert (order + [id])[..|order|] == order;
  }

  lemma {:induction false} WithoutNone(order: seq<string>)
    ensures Without(order, {}) == order
  {
    if order != [] {
      WithoutNone(order[..|order| - 1]);
    }
  }

  lemma {:induction false} WithoutStranger(order: seq<string>, gone: set<string>, id: string)
    requires id !in order
    ensures Without(order, gone + {id}) == Without(order, gone)
  {
    if order != [] {
      WithoutStranger(order[..|order| - 1], gone, id);
    }
  }

  /** What a reload would not have, since memory was last loaded or snapshotted: `lost`, the intents
      whose create does not reach it; `behind`, those with a transition that does not; and `torn`, those
      of them whose create does and that had a later transition that does. */
  datatype Gaps = Gaps(lost: set<string>, behind: set<string>, torn: set<string>)

  const NO_GAPS: Gaps := Gaps({}, {}, {})

  /** Intents that a reload does not have whole. */
  function Missing(g: Gaps): set<string> {
    g.lost + g.behind
  }

  function AfterCreate(g: Gaps, id: string, reaches: bool): Gaps {
    if reaches then g else g.(lost := g.lost + {id})
  }

  function AfterMove(g: Gaps, id: string, reaches: bool): Gaps {
    if !reaches then g.(behind := g.behind + {id})
    else if id in g.behind && id !in g.lost then g.(torn := g.torn + {id})
    else g
  }

  /** An entry goes to memory, and to what a reload gives only if it reaches that. */
  function ApplyIf(l: Table, e: Entry, reaches: bool): Table {
    if reaches then Apply(l, e) else l
  }

  // --- Which records a reload has -----------------------------------------------------------

  /** A record in memory and the one a reload gives: equal, or behind and with a shorter history. */
  predicate Follows(m: Record, l: Record, behind: bool) {
    if behind then |l.history| < |m.history| else l == m
  }

  /** `l` is what a reload rebuilds while memory is `m`. */
  ghost predicate Shadows(m: Table, l: Table, g: Gaps) {
    && g.lost <= m.recs.Keys && g.behind <= m.recs.Keys
    && l.recs.Keys == m.recs.Keys - g.lost
    && l.order == Without(m.order, g.lost)
    && (forall id :: id in l.recs ==> Follows(m.recs[id], l.recs[id], id in g.behind))
  }

  lemma ShadowsItself(t: Table)
    ensures Shadows(t, t, NO_GAPS)
  {
    WithoutNone(t.order);
  }

  /** Keys and order when a new intent reaches memory, and the reload too or not. */
  lemma CreateKeys(m: Table, l: Table, lost: set<string>, rec: Record)
    requires WellFormed(m) && rec.id !in m.recs
    requires lost <= m.recs.Keys && l.recs.Keys == m.recs.Keys - lost && l.order == Without(m.order, lost)
    ensures var m', l' := Apply(m, Create(rec)), Apply(l, Create(rec));
            && l'.recs.Keys == m'.recs.Keys - lost && l'.order == Without(m'.order, lost)
            && l.recs.Keys == m'.recs.Keys - (lost + {rec.id}) && l.order == Without(m'.order, lost + {rec.id})
  {
    assert rec.id !in m.order && rec.id !in l.recs;
    PutNew(m, rec);
    PutNew(l, rec);
    OrderAfter(m.order, lost, rec.id);
    KeysAfter(m.recs.Keys, lost, rec.id);
  }

  lemma OrderAfter(order: seq<string>, lost: set<string>, id: string)
    requires id !in order && id !in lost
    ensures Without(order + [id], lost) == Without(order, lost) + [id]
    ensures Without(order + [id], lost + {id}) == Without(order, lost)
  {
    WithoutAppend(order, id, lost);
    WithoutAppend(order, id, lost + {id});
    WithoutStranger(order, lost, id);
  }

  lemma KeysAfter(keys: set<string>, lost: set<string>, id: string)
    requires id !in keys && lost <= keys
    ensures keys - lost + {id} == keys + {id} - lost
    ensures keys - lost == keys + {id} - (lost + {id})
  {
  }

  lemma ShadowsCreate(m: Table, l: Table, g: Gaps, rec: Record, reaches: bool)
    requires WellFormed(m) && Shadows(m, l, g) && rec.id !in m.recs
    ensures Shadows(Apply(m, Create(rec)), ApplyIf(l, Create(rec), reaches), AfterCreate(g, rec.id, reaches))
  {
    CreateKeys(m, l, g.lost, rec);
  }

  lemma ShadowsMove(m: Table, l: Table, g: Gaps, id: string, to: State, data: Option<Data>, at: string, reaches: bool)
    requires Shadows(m, l, g) && id in m.recs
    ensures var e := Transition(id, m.recs[id].state, to, data, at);
            Shadows(Apply(m, e), ApplyIf(l, e, reaches), AfterMove(g, id, reaches))
  {
    var e := Transition(id, m.recs[id].state, to, data, at);
    var m', l', g' := Apply(m, e), ApplyIf(l, e, reaches), AfterMove(g, id, reaches);
    assert m'.recs.Keys == m.recs.Keys && l'.recs.Keys == l.recs.Keys;
    forall x | x in l'.recs ensures Follows(m'.recs[x], l'.recs[x], x in g'.behind) {
      assert Follows(m.recs[x], l.recs[x], x in g.behind);
    }
  }

  /** A reload has the whole record, or even the whole history, exactly of the intents without a gap. */
  lemma RecordKeptIff(m: Table, l: Table, g: Gaps, id: string)
    requires Shadows(m, l, g) && id in m.recs
    ensures id in l.recs && l.recs[id] == m.recs[id] <==> id !in Missing(g)
    ensures id in l.recs && m.recs[id].history <= l.recs[id].history <==> id !in Missing(g)
  {
    if id in l.recs {
      assert Follows(m.recs[id], l.recs[id], id in g.behind);
    }
  }

  lemma TableKeptIff(m: Table, l: Table, g: Gaps)
    requires Shadows(m, l, g)
    ensures l == m <==> Missing(g) == {}
  {
    if l == m {
      forall id | id in Missing(g) ensures false {
        RecordKeptIff(m, l, g, id);
      }
    }
    if Missing(g) == {} {
      assert g.lost == {} && g.behind == {};
      WithoutNone(m.order);
      forall id | id in m.recs ensures l.recs[id] == m.recs[id] {
        RecordKeptIff(m, l, g, id);
      }
      assert l.recs == m.recs;
    }
  }

  // --- Which histories a reload keeps chained -----------------------------------------------

  /** What a reload gives of a record that is behind: a part of the same history that stops earlier, or
      one torn by a later transition. */
  ghost predicate Links(m: Record, l: Record, behind: bool, torn: bool) {
    && (torn ==> |l.history| > 0 && !Chained(l.history))
    && (!torn ==> WellChained(l.history, l.state) && l.history <= m.history)
    && (behind && !torn ==> Rank(l.state) < Rank(m.state))
  }

  ghost predicate Chains(m: Table, l: Table, g: Gaps) {
    && g.torn <= g.behind && g.torn !! g.lost
    && (forall id :: id in l.recs && id in m.recs ==> Links(m.recs[id], l.recs[id], id in g.behind, id in g.torn))
  }

  lemma ChainsItself(t: Table)
    requires LifecycleOk(t)
    ensures Chains(t, t, NO_GAPS)
  {
  }

  /** A transition that reaches the reload tears a record that is behind. */
  lemma LinksReached(m: Record, l: Record, behind: bool, torn: bool, to: State, data: Option<Data>, at: string)
    requires Follows(m, l, behind) && Links(m, l, behind, torn) && (torn ==> behind)
    requires WellChained(m.history, m.state) && to in ValidNext(m.state)
    ensures Links(Advance(m, m.state, to, data, at), Advance(l, m.state, to, data, at), behind, behind)
  {
    var e := HistoryEntry(Some(m.state), to, at, data);
    ChainedStep(l.history, e);
    ChainedStep(m.history, e);
  }

  lemma LinksMissed(m: Record, l: Record, behind: bool, torn: bool, to: State, data: Option<Data>, at: string)
    requires Follows(m, l, behind) && Links(m, l, behind, torn)
    requires WellChained(m.history, m.state) && to in ValidNext(m.state)
    ensures Links(Advance(m, m.state, to, data, at), l, true, torn)
  {
  }

  lemma ChainsCreate(m: Table, l: Table, g: Gaps, rec: Record, reaches: bool)
    requires Shadows(m, l, g) && Chains(m, l, g) && rec.id !in m.recs && WellChained(rec.history, rec.state)
    ensures Chains(Apply(m, Create(rec)), ApplyIf(l, Create(rec), reaches), AfterCreate(g, rec.id, reaches))
  {
    var m', l', g' := Apply(m, Create(rec)), ApplyIf(l, Create(rec), reaches), AfterCreate(g, rec.id, reaches);
    forall x | x in l'.recs && x in m'.recs ensures Links(m'.recs[x], l'.recs[x], x in g'.behind, x in g'.torn) {
      assert x != rec.id ==> Links(m.recs[x], l.recs[x], x in g.behind, x in g.torn);
    }
  }

  lemma ChainsMove(m: Table, l: Table, g: Gaps, id: string, to: State, data: Option<Data>, at: string, reaches: bool)
    requires Shadows(m, l, g) && Chains(m, l, g) && LifecycleOk(m) && id in m.recs && to in ValidNext(m.recs[id].state)
    ensures var e := Transition(id, m.recs[id].state, to, data, at);
            Chains(Apply(m, e), ApplyIf(l, e, reaches), AfterMove(g, id, reaches))
  {
    var e := Transition(id, m.recs[id].state, to, data, at);
    var m', l', g' := Apply(m, e), ApplyIf(l, e, reaches), AfterMove(g, id, reaches);
    forall x | x in l'.recs && x in m'.recs ensures Links(m'.recs[x], l'.recs[x], x in g'.behind, x in g'.torn) {
      assert Links(m.recs[x], l.recs[x], x in g.behind, x in g.torn);
      assert Follows(m.recs[x], l.recs[x], x in g.behind);
      if x == id {
        if reaches {
          LinksReached(m.recs[id], l.recs[id], id in g.behind, id in g.torn, to, data, at);
        } else {
          LinksMissed(m.recs[id], l.recs[id], id in g.behind, id in g.torn, to, data, at);
        }
      }
    }
  }

  /** A reload breaks no history exactly when nothing is torn. */
  lemma ChainsKeptIff(m: Table, l: Table, g: Gaps)
    requires Shadows(m, l, g) && Chains(m, l, g)
    ensures LifecycleOk(l) <==> g.torn == {}
  {
    forall id | id in l.recs ensures WellChained(l.recs[id].history, l.recs[id].state) <==> id !in g.torn {
      assert Links(m.recs[id], l.recs[id], id in g.behind, id in g.torn);
    }
    assert forall id :: id in g.torn ==> id in l.recs;
  }
}
