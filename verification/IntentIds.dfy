/** Intent identifiers `intent-YYYYMMDD-NNNN` and the sequence counter behind them
    (llm_nephio_oran/intentd/store.py, lines 95-121). */
module IntentIds {
  import opened Wrappers
  import Decimal

  function IntentId(date: string, n: nat): (id: string)
  {
    "intent-" + date + "-" + Decimal.PrintPadded(n, 4)
  }

  /** Text after the last '-' (`rsplit("-", 1)` with two parts), if there is a '-'. */
  function AfterLastDash(s: string): (r: Option<string>)
    ensures r.None? <==> '-' !in s
  {
    if s == "" then None
    else if s[|s| - 1] == '-' then Some("")
    else
      var r := AfterLastDash(s[..|s| - 1]);
      assert s == s[..|s| - 1] + [s[|s| - 1]];
      if r.Some? then Some(r.value + [s[|s| - 1]]) else None
  }

  /** The sequence number `_init_seq_from_existing` reads out of an identifier, if any. */
  function SequenceOf(id: string): (r: Option<nat>)
  {
    var suffix := AfterLastDash(id);
    if suffix.Some? then Decimal.ParseNat(suffix.value) else None
  }

  lemma {:induction false} AfterLastDashOfSuffix(prefix: string, suffix: string)
    requires '-' !in suffix
    ensures AfterLastDash(prefix + "-" + suffix) == Some(suffix)
    decreases |suffix|
  {
    var s := prefix + "-" + suffix;
    if suffix != "" {
      var shorter := suffix[..|suffix| - 1];
      AfterLastDashOfSuffix(prefix, shorter);
      assert s[..|s| - 1] == prefix + "-" + shorter;
      assert suffix == shorter + [suffix[|suffix| - 1]];
      assert s[|s| - 1] == suffix[|suffix| - 1];
    }
  }

  /** Reading the sequence back out of an identifier inverts printing it, for every number
      (also those with more than four digits) and every date text. */
  lemma SequenceOfIntentId(date: string, n: nat)
    ensures SequenceOf(IntentId(date, n)) == Some(n)
  {
    var digits := Decimal.PrintPadded(n, 4);
    forall i | 0 <= i < |digits| ensures digits[i] != '-' {
      assert Decimal.IsDigit(digits[i]);
    }
    AfterLastDashOfSuffix("intent-" + date, digits);
    Decimal.ValueOfPrintPadded(n, 4);
  }

  /** No stored identifier has a sequence number above the counter. */
  predicate Covers(counter: nat, ids: set<string>) {
    forall id :: id in ids ==> SequenceOf(id).Some? ==> SequenceOf(id).value <= counter
  }

  /** `_init_seq_from_existing`: raise the counter to the largest stored sequence number. */
  method InitSeqFromExisting(ids: set<string>, counter: nat) returns (raised: nat)
    ensures raised >= counter && Covers(raised, ids)
    ensures raised == counter || exists id :: id in ids && SequenceOf(id) == Some(raised)
  {
    var maxSeq: nat := 0;
    ghost var best := "";
    var todo := ids;
    while todo != {}
      invariant todo <= ids
      invariant Covers(maxSeq, ids - todo)
      invariant maxSeq == 0 || (best in ids && SequenceOf(best) == Some(maxSeq))
    {
      var id :| id in todo;
      var s := SequenceOf(id);
      if s.Some? && s.value > maxSeq {
        maxSeq := s.value;
        best := id;
      }
      todo := todo - {id};
    }
    assert ids - todo == ids;
    raised := if maxSeq > counter then maxSeq else counter;
  }

  /** A counter that covers the stored identifiers hands out one that is not among them. */
  lemma NextIdIsFresh(counter: nat, ids: set<string>, date: string)
    requires Covers(counter, ids)
    ensures IntentId(date, counter + 1) !in ids
    ensures Covers(counter + 1, ids + {IntentId(date, counter + 1)})
  {
    SequenceOfIntentId(date, counter + 1);
  }
}
