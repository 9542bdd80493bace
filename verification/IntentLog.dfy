/** Intent records, the write-ahead log and its replay, on values
    (llm_nephio_oran/intentd/store.py, lines 154-247 and 358-454). */
module IntentLog {
  import opened Wrappers
  import opened Lifecycle

  datatype Record = Record(
    id: string,
    state: State,
    expression: string,
    source: string,
    fields: map<string, string>,
    createdAt: string,
    updatedAt: string,
    history: seq<HistoryEntry>)

  datatype Entry =
    | Create(rec: Record)
    | Transition(id: string, from: State, to: State, data: Option<Data>, at: string)
    | Other

  /** One line of the log file: a decodable entry, an empty line, or undecodable text. */
  datatype Line = Valid(entry: Entry) | Blank | Corrupt

  /** A Python dict of records: the records by key, and the keys in insertion order. */
  datatype Table = Table(order: seq<string>, recs: map<string, Record>)

  const EMPTY: Table := Table([], map[])

  const MERGED_KEYS: set<string> :=
    {"plan", "report", "porch", "git", "configsync", "reposync", "errors", "package_dir"}

  ghost predicate WellFormed(t: Table) {
    && (forall i, j :: 0 <= i < j < |t.order| ==> t.order[i] != t.order[j])
    && (forall id :: id in t.order <==> id in t.recs)
  }

  /** Dict assignment: a new key goes to the end, an existing key keeps its place. */
  function Put(t: Table, id: string, rec: Record): (r: Table)
    ensures WellFormed(t) ==> WellFormed(r)
  {
    Table(if id in t.recs then t.order else t.order + [id], t.recs[id := rec])
  }

  lemma PutNew(t: Table, rec: Record)
    requires rec.id !in t.recs
    ensures Put(t, rec.id, rec).recs.Keys == t.recs.Keys + {rec.id}
    ensures Put(t, rec.id, rec).order == t.order + [rec.id]
  {
  }

  function NewRecord(id: string, expression: string, source: string, now: string): Record {
    Record(id, Acknowledged, expression, source, map[], now, now,
           [HistoryEntry(None, Acknowledged, now, None)])
  }

  function Merge(fields: map<string, string>, data: Option<Data>): map<string, string> {
    match data
    case None => fields
    case Some(d) => fields + (map k | k in d && k in MERGED_KEYS :: d[k])
  }

  /** What both `transition` and its replay do to a record. */
  function Advance(rec: Record, from: State, to: State, data: Option<Data>, at: string): Record {
    rec.(state := to, updatedAt := at,
         history := rec.history + [HistoryEntry(Some(from), to, at, data)],
         fields := Merge(rec.fields, data))
  }

  /** Effect of one logged entry; a transition of an unknown intent is skipped. */
  function Apply(t: Table, e: Entry): (r: Table)
    ensures WellFormed(t) ==> WellFormed(r)
    ensures e.Other? || (e.Transition? && e.id !in t.recs) ==> r == t
  {
    match e
    case Create(rec) => Put(t, rec.id, rec)
    case Transition(id, from, to, data, at) =>
      if id in t.recs then Put(t, id, Advance(t.recs[id], from, to, data, at)) else t
    case Other => t
  }

  /** Lines that the line counters count: decodable and empty ones, not corrupt ones. */
  function Countable(lines: seq<Line>): nat {
    if lines == [] then 0 else (if lines[0].Corrupt? then 0 else 1) + Countable(lines[1..])
  }

  /** Replay with a skip counter: the first `skip` countable lines have no effect. */
  function Replay(t: Table, lines: seq<Line>, skip: nat): (r: Table)
    ensures WellFormed(t) ==> WellFormed(r)
    decreases |lines|
  {
    if lines == [] then t
    else match lines[0]
      case Corrupt => Replay(t, lines[1..], skip)
      case Blank => Replay(t, lines[1..], if skip > 0 then skip - 1 else 0)
      case Valid(e) =>
        if skip > 0 then Replay(t, lines[1..], skip - 1) else Replay(Apply(t, e), lines[1..], 0)
  }

  lemma {:induction false} CountableAppend(a: seq<Line>, b: seq<Line>)
    ensures Countable(a + b) == Countable(a) + Countable(b)
  {
    if a == [] {
      assert a + b == b;
    } else {
      assert (a + b)[1..] == a[1..] + b;
      CountableAppend(a[1..], b);
    }
  }

  /** Replay of a concatenation: the second part starts with what is left of the skip counter. */
  lemma {:induction false} ReplayAppend(t: Table, a: seq<Line>, b: seq<Line>, skip: nat)
    ensures Replay(t, a + b, skip)
         == Replay(Replay(t, a, skip), b, if skip > Countable(a) then skip - Countable(a) else 0)
    decreases |a|
  {
    if a == [] {
      assert a + b == b;
    } else {
      assert (a + b)[1..] == a[1..] + b;
      match a[0]
      case Corrupt => ReplayAppend(t, a[1..], b, skip);
      case Blank => ReplayAppend(t, a[1..], b, if skip > 0 then skip - 1 else 0);
      case Valid(e) =>
        if skip > 0 {
          ReplayAppend(t, a[1..], b, skip - 1);
        } else {
          ReplayAppend(Apply(t, e), a[1..], b, 0);
        }
    }
  }

  lemma {:induction false} ReplayAllSkipped(t: Table, lines: seq<Line>, skip: nat)
    requires skip >= Countable(lines)
    ensures Replay(t, lines, skip) == t
  {
    if lines != [] {
      ReplayAllSkipped(t, lines[1..], if lines[0].Corrupt? then skip else skip - 1);
    }
  }

  /** Snapshot plus suffix equals full replay: a snapshot of the state after `before`, loaded with
      the offset counted over `before`, gives the same table as replaying the whole log from empty,
      with blank and corrupt lines anywhere in either part. */
  lemma SnapshotPlusSuffixIsFullReplay(before: seq<Line>, after: seq<Line>)
    ensures Replay(Replay(EMPTY, before, 0), before + after, Countable(before))
         == Replay(EMPTY, before + after, 0)
  {
    var snap := Replay(EMPTY, before, 0);
    ReplayAppend(snap, before, after, Countable(before));
    ReplayAllSkipped(snap, before, Countable(before));
    ReplayAppend(EMPTY, before, after, 0);
  }
}
