/** The deterministic planner reads back the sentences the closed loop writes
    (llm_nephio_oran/planner/stub_planner.py, lines 9-13 and 30-94;
    llm_nephio_oran/closedloop/e2_closed_loop.py, lines 120-123 and 241-243;
    llm_nephio_oran/closedloop/analyzer.py, lines 145-157). */
module Planner {
  import opened Wrappers
  import opened Decimal

  // --- Strings ------------------------------------------------------------------------------

  function LowerChar(c: char): char {
    if 'A' <= c <= 'Z' then c + 32 as char else c
  }

  /** `str.lower()` on ASCII letters. */
  function Lower(s: string): (r: string)
    ensures |r| == |s|
  {
    seq(|s|, i requires 0 <= i < |s| => LowerChar(s[i]))
  }

  predicate WordAt(s: string, i: int, w: string) {
    0 <= i && i + |w| <= |s| && s[i..i + |w|] == w
  }

  /** `w in s`. */
  predicate Contains(s: string, w: string) {
    exists i :: 0 <= i <= |s| && WordAt(s, i, w)
  }

  predicate IsSpace(c: char) {
    c == ' ' || '\t' <= c <= '\r' || '\U{1c}' <= c <= '\U{1f}'
  }

  predicate AllSpaces(s: string) {
    forall i :: 0 <= i < |s| ==> IsSpace(s[i])
  }

  /** The blanks of a regular expression, and what lower-casing does to a letter. */
  lemma BlanksAre(c: char)
    ensures IsSpace(c) <==> c in [' ', '\t', '\n', '\U{0b}', '\U{0c}', '\r', '\U{1c}', '\U{1d}', '\U{1e}', '\U{1f}']
  {
  }

  lemma LetterLowered(n: nat)
    requires n < 26
    ensures LowerChar("ABCDEFGHIJKLMNOPQRSTUVWXYZ"[n]) == "abcdefghijklmnopqrstuvwxyz"[n]
  {
  }

  lemma LowerConcat(a: string, b: string)
    ensures Lower(a + b) == Lower(a) + Lower(b)
  {
  }

  lemma {:induction false} LowerKeeps(s: string)
    requires forall i :: 0 <= i < |s| ==> !('A' <= s[i] <= 'Z')
    ensures Lower(s) == s
  {
    assert forall i :: 0 <= i < |s| ==> Lower(s)[i] == s[i];
  }

  /** The characters of a word that occurs all occur. */
  lemma CharsOccur(s: string, w: string, k: nat)
    requires k < |w|
    ensures Contains(s, w) ==> w[k] in s
  {
    if Contains(s, w) {
      var i :| 0 <= i <= |s| && WordAt(s, i, w);
      WordChars(s, i, w, k);
    }
  }

  lemma WordChars(s: string, i: nat, w: string, t: nat)
    requires t < |w|
    ensures WordAt(s, i, w) ==> i + t < |s| && s[i + t] == w[t]
  {
    if WordAt(s, i, w) {
      assert s[i..i + |w|][t] == w[t];
    }
  }

  /** A word without blanks that starts before a blank ends before it. */
  lemma WordBeforeBlank(a: string, b: string, i: int, w: string)
    requires w != "" && ' ' !in w && i <= |a| && WordAt(a + " " + b, i, w)
    ensures WordAt(a, i, w)
  {
    var s := a + " " + b;
    assert s[|a|] == ' ';
    assert s[i..i + |w|] == a[i..i + |w|];
  }

  lemma WordAtRight(a: string, b: string, i: int, w: string)
    requires i >= |a|
    ensures WordAt(a + b, i, w) <==> WordAt(b, i - |a|, w)
  {
    if i + |w| <= |a + b| {
      assert (a + b)[i..i + |w|] == b[i - |a|..i - |a| + |w|];
    }
  }

  lemma WordAtLeft(a: string, b: string, i: int, w: string)
    requires WordAt(a, i, w)
    ensures WordAt(a + b, i, w)
  {
    assert (a + b)[i..i + |w|] == a[i..i + |w|];
  }

  /** A word without blanks occurs on one side of each blank. */
  lemma SplitAtBlank(a: string, b: string, w: string)
    requires w != "" && ' ' !in w
    ensures Contains(a + " " + b, w) <==> Contains(a, w) || Contains(b, w)
  {
    if Contains(a + " " + b, w) {
      var i :| 0 <= i <= |a + " " + b| && WordAt(a + " " + b, i, w);
      if i <= |a| {
        WordBeforeBlank(a, b, i, w);
      } else {
        WordAtRight(a + " ", b, i, w);
      }
    }
    if Contains(a, w) {
      var i :| 0 <= i <= |a| && WordAt(a, i, w);
      WordAtLeft(a, " ", i, w);
      WordAtLeft(a + " ", b, i, w);
    }
    if Contains(b, w) {
      var i :| 0 <= i <= |b| && WordAt(b, i, w);
      WordAtRight(a + " ", b, i + |a + " "|, w);
    }
  }

  // --- Regular expressions ------------------------------------------------------------------

  /** `(?:to\s+)?(\d+)\s*replica` and `threshold\s+(\d+)\s*%?`, on lower-cased text. */
  datatype Pattern = Replicas | Threshold

  /** What the capturing group covers. */
  datatype Span = Span(lo: nat, hi: nat)

  /** A blank run, possibly empty, followed by a word. */
  ghost predicate BlanksThen(s: string, i: nat, w: string) {
    exists e :: i <= e <= |s| && AllSpaces(s[i..e]) && WordAt(s, e, w)
  }

  /** The declarative meaning: pattern `p` matches at `i` with the group at `g`. */
  ghost predicate Matches(p: Pattern, s: string, i: nat, g: Span) {
    && i <= g.lo < g.hi <= |s| && AllDigits(s[g.lo..g.hi])
    && match p
       case Replicas =>
         && (g.lo == i || (WordAt(s, i, "to") && i + 2 < g.lo && AllSpaces(s[i + 2..g.lo])))
         && BlanksThen(s, g.hi, "replica")
       case Threshold =>
         && WordAt(s, i, "threshold") && i + 9 < g.lo && AllSpaces(s[i + 9..g.lo])
         && (g.hi < |s| ==> !IsDigit(s[g.hi]))
  }

  function DigitsEnd(s: string, i: nat): (e: nat)
    requires i <= |s|
    ensures i <= e <= |s| && AllDigits(s[i..e]) && (e < |s| ==> !IsDigit(s[e]))
    decreases |s| - i
  {
    if i < |s| && IsDigit(s[i]) then DigitsEnd(s, i + 1) else i
  }

  function SpacesEnd(s: string, i: nat): (e: nat)
    requires i <= |s|
    ensures i <= e <= |s| && AllSpaces(s[i..e]) && (e < |s| ==> !IsSpace(s[e]))
    decreases |s| - i
  {
    if i < |s| && IsSpace(s[i]) then SpacesEnd(s, i + 1) else i
  }

  /** The greedy matcher at one position. */
  function MatchAt(p: Pattern, s: string, i: nat): Option<Span>
    requires i <= |s|
  {
    match p
    case Replicas =>
      var lo := if WordAt(s, i, "to") && SpacesEnd(s, i + 2) > i + 2 then SpacesEnd(s, i + 2) else i;
      var hi := DigitsEnd(s, lo);
      if lo < hi && WordAt(s, SpacesEnd(s, hi), "replica") then Some(Span(lo, hi)) else None
    case Threshold =>
      if !WordAt(s, i, "threshold") then None
      else
        var lo := SpacesEnd(s, i + 9);
        var hi := DigitsEnd(s, lo);
        if i + 9 < lo < hi then Some(Span(lo, hi)) else None
  }

  /** `re.search`: the leftmost position at or after `i` that matches. */
  function Search(p: Pattern, s: string, i: nat): Option<Span>
    requires i <= |s|
    decreases |s| - i
  {
    if MatchAt(p, s, i).Some? then MatchAt(p, s, i)
    else if i < |s| then Search(p, s, i + 1) else None
  }

  /** A blank run stops at the first character that is not blank. */
  lemma BlankRunStops(s: string, i: nat, e: nat, t: nat)
    requires i <= e <= |s| && AllSpaces(s[i..e]) && i <= t < |s| && !IsSpace(s[t])
    ensures e <= t
  {
    var r := s[i..e];
    assert forall k :: 0 <= k < |r| ==> IsSpace(r[k]) && r[k] == s[i + k];
  }

  lemma DigitRunStops(s: string, i: nat, e: nat, t: nat)
    requires i <= e <= |s| && AllDigits(s[i..e]) && i <= t < |s| && !IsDigit(s[t])
    ensures e <= t
  {
    var r := s[i..e];
    assert forall k :: 0 <= k < |r| ==> IsDigit(r[k]) && r[k] == s[i + k];
  }

  /** Only one end of a blank run is followed by something that is not a blank. */
  lemma SpacesEndIs(s: string, i: nat, e: nat)
    requires i <= e < |s| && AllSpaces(s[i..e]) && !IsSpace(s[e])
    ensures SpacesEnd(s, i) == e
  {
    var f := SpacesEnd(s, i);
    BlankRunStops(s, i, f, e);
    if f < |s| {
      BlankRunStops(s, i, e, f);
    }
  }

  lemma DigitsEndIs(s: string, i: nat, e: nat)
    requires i <= e <= |s| && AllDigits(s[i..e]) && (e < |s| ==> !IsDigit(s[e]))
    ensures DigitsEnd(s, i) == e
  {
    var f := DigitsEnd(s, i);
    if e < |s| {
      DigitRunStops(s, i, f, e);
    }
    if f < |s| {
      DigitRunStops(s, i, e, f);
    }
  }

  lemma BlanksEndAt(s: string, i: nat, e: nat)
    requires i <= e <= |s| && AllSpaces(s[i..e]) && WordAt(s, e, "replica")
    ensures SpacesEnd(s, i) == e && i < |s| && !IsDigit(s[i])
  {
    WordChars(s, e, "replica", 0);
    SpacesEndIs(s, i, e);
    if i < e {
      assert s[i] == s[i..e][0];
    }
  }

  lemma BlanksThenReplica(s: string, i: nat)
    requires i <= |s|
    ensures BlanksThen(s, i, "replica") <==> WordAt(s, SpacesEnd(s, i), "replica")
    ensures BlanksThen(s, i, "replica") ==> i < |s| && !IsDigit(s[i])
  {
    if BlanksThen(s, i, "replica") {
      var e :| i <= e <= |s| && AllSpaces(s[i..e]) && WordAt(s, e, "replica");
      BlanksEndAt(s, i, e);
    }
  }

  /** Backtracking never helps: the greedy matcher finds the group exactly when there is one. */
  lemma MatchAtIsMatches(p: Pattern, s: string, i: nat, g: Span)
    requires i <= |s|
    ensures MatchAt(p, s, i) == Some(g) <==> Matches(p, s, i, g)
  {
    match p {
      case Replicas =>
        MatchReplicas(s, i, g);
      case Threshold =>
        if Matches(p, s, i, g) {
          assert IsDigit(s[g.lo..g.hi][0]);
          SpacesEndIs(s, i + 9, g.lo);
          DigitsEndIs(s, g.lo, g.hi);
        }
    }
  }

  lemma MatchReplicas(s: string, i: nat, g: Span)
    requires i <= |s|
    ensures MatchAt(Replicas, s, i) == Some(g) <==> Matches(Replicas, s, i, g)
  {
    if Matches(Replicas, s, i, g) {
      assert IsDigit(s[g.lo..g.hi][0]);
      BlanksThenReplica(s, g.hi);
      DigitsEndIs(s, g.lo, g.hi);
      if WordAt(s, i, "to") {
        WordChars(s, i, "to", 0);
        SpacesEndIs(s, i + 2, g.lo);
      }
    }
    if MatchAt(Replicas, s, i) == Some(g) {
      BlanksThenReplica(s, g.hi);
    }
  }

  ghost predicate NoMatchAt(p: Pattern, s: string, k: nat) {
    forall g :: !Matches(p, s, k, g)
  }

  lemma NoMatchAtIsNone(p: Pattern, s: string, k: nat)
    requires k <= |s|
    ensures NoMatchAt(p, s, k) <==> MatchAt(p, s, k).None?
  {
    forall g ensures MatchAt(p, s, k) == Some(g) <==> Matches(p, s, k, g) {
      MatchAtIsMatches(p, s, k, g);
    }
    if MatchAt(p, s, k).Some? {
      assert Matches(p, s, k, MatchAt(p, s, k).value);
    }
  }

  /** Position `k` is the leftmost match from `i` on, with the group at `g`. */
  ghost predicate LeftmostAt(p: Pattern, s: string, i: nat, k: nat, g: Span) {
    i <= k <= |s| && Matches(p, s, k, g) && forall j :: i <= j < k ==> NoMatchAt(p, s, j)
  }

  ghost predicate HasLeftmost(p: Pattern, s: string, i: nat, g: Span) {
    exists k :: LeftmostAt(p, s, i, k, g)
  }

  /** `Search` fails exactly when nothing matches anywhere. */
  lemma {:induction false} SearchFails(p: Pattern, s: string, i: nat)
    requires i <= |s|
    ensures Search(p, s, i).None? <==> forall k :: i <= k <= |s| ==> NoMatchAt(p, s, k)
    decreases |s| - i
  {
    NoMatchAtIsNone(p, s, i);
    if i < |s| {
      SearchFails(p, s, i + 1);
    }
  }

  /** `Search` returns a group exactly when it is that of the leftmost match. */
  lemma {:induction false} SearchIsLeftmost(p: Pattern, s: string, i: nat, g: Span)
    requires i <= |s|
    ensures Search(p, s, i) == Some(g) <==> HasLeftmost(p, s, i, g)
    decreases |s| - i
  {
    NoMatchAtIsNone(p, s, i);
    MatchAtIsMatches(p, s, i, g);
    if MatchAt(p, s, i).Some? {
      if Search(p, s, i) == Some(g) {
        assert LeftmostAt(p, s, i, i, g);
      }
    } else {
      if i < |s| {
        SearchIsLeftmost(p, s, i + 1, g);
        LeftmostLater(p, s, i, g);
      }
    }
  }

  lemma LeftmostShift(p: Pattern, s: string, i: nat, k: nat, g: Span)
    requires NoMatchAt(p, s, i)
    ensures LeftmostAt(p, s, i, k, g) <==> LeftmostAt(p, s, i + 1, k, g)
  {
    if k == i {
      assert !Matches(p, s, i, g);
    }
  }

  lemma LeftmostLater(p: Pattern, s: string, i: nat, g: Span)
    requires NoMatchAt(p, s, i)
    ensures HasLeftmost(p, s, i, g) <==> HasLeftmost(p, s, i + 1, g)
  {
    if HasLeftmost(p, s, i, g) {
      var k :| LeftmostAt(p, s, i, k, g);
      LeftmostShift(p, s, i, k, g);
    }
    if HasLeftmost(p, s, i + 1, g) {
      var k :| LeftmostAt(p, s, i + 1, k, g);
      LeftmostShift(p, s, i, k, g);
    }
  }

  /** The number in the group, clamped; the default when nothing matches. */
  function Extract(p: Pattern, text: string, low: nat, high: nat, default: nat): (n: nat)
    requires low <= high
    ensures n == default || low <= n <= high
  {
    var s := Lower(text);
    match Search(p, s, 0)
    case None => default
    case Some(g) =>
      SearchIsLeftmost(p, s, 0, g);
      Clamp(Value(s[g.lo..g.hi]), low, high)
  }

  /** What is extracted is the clamped number in the group of the leftmost match. */
  lemma ExtractIs(p: Pattern, text: string, g: Span, low: nat, high: nat, default: nat)
    requires low <= high && HasLeftmost(p, Lower(text), 0, g)
    ensures g.lo <= g.hi <= |text| && AllDigits(Lower(text)[g.lo..g.hi])
    ensures Extract(p, text, low, high, default) == Clamp(Value(Lower(text)[g.lo..g.hi]), low, high)
  {
    SearchIsLeftmost(p, Lower(text), 0, g);
  }

  function Clamp(n: nat, low: nat, high: nat): (r: nat)
    ensures low <= high ==> low <= r <= high
    ensures low <= n <= high ==> r == n
    ensures n > high ==> r == high
    ensures n < low <= high ==> r == low
  {
    if n > high then high else if n < low then low else n
  }

  // --- Planning -----------------------------------------------------------------------------

  const COMPONENTS: seq<string> := [
    "oai-odu", "oai-ocu", "oai-cu-cp", "oai-cu-up", "free5gc-upf", "free5gc-smf", "free5gc-amf",
    "ric-kpimon", "ric-ts", "sim-e2", "trafficgen"]

  const DOMAINS: seq<string> := ["ran", "ran", "ran", "ran", "core", "core", "core", "ric", "ric", "sim", "sim"]

  const DEFAULT: nat := 10

  /** The first listed component from `j` on that occurs in the lower-cased text, else the default. */
  function FirstIn(s: string, j: nat): (k: nat)
    requires j <= |COMPONENTS|
    ensures k < |COMPONENTS|
    decreases |COMPONENTS| - j
  {
    if j == |COMPONENTS| then DEFAULT
    else if Contains(s, COMPONENTS[j]) then j
    else FirstIn(s, j + 1)
  }

  /** `_extract_component`, as a position in the list. */
  function ExtractComponent(text: string): (k: nat)
    ensures k < |COMPONENTS|
  {
    FirstIn(Lower(text), 0)
  }

  datatype Plan =
    | Scale(component: string, domain: string, replicas: nat)
    | Configure(component: string, threshold: nat)
    | Deploy(component: string, domain: string, replicas: nat)

  /** `plan_from_text`. */
  function PlanFromText(text: string): Plan {
    var s := Lower(text);
    var k := ExtractComponent(text);
    if Contains(s, "scale") then Scale(COMPONENTS[k], DOMAINS[k], Extract(Replicas, text, 1, 200, 2))
    else if Contains(s, "configure") || Contains(s, "traffic steer") || Contains(s, "threshold") then
      Configure("ric-ts", Extract(Threshold, text, 0, 100, 5))
    else Deploy(COMPONENTS[k], DOMAINS[k], 1)
  }

  /** `{x:.1f}` of a number given in tenths. */
  function PrintTenths(t: int): (s: string)
    ensures forall i :: 0 <= i < |s| ==> IsDigit(s[i]) || s[i] == '.' || s[i] == '-'
  {
    if t < 0 then "-" + Print(-t / 10) + "." + Print(-t % 10) else Print(t / 10) + "." + Print(t % 10)
  }

  /** The scaling sentence of `act`. */
  function ScaleSentence(component: string, replicas: nat, cell: string, prb: int, ues: nat): string {
    "Scale " + component + " to " + Print(replicas) + " replicas \U{2014} cell " + cell
    + " PRB usage " + PrintTenths(prb) + "%, " + Print(ues) + " active UEs"
  }

  /** The reason `analyze_cqi` gives. */
  function SteerReason(cell: string, avgCqi: int, limit: int, t: nat): string {
    "Cell " + cell + " CQI " + PrintTenths(avgCqi) + " < " + PrintTenths(limit) + " \U{2014} set TS threshold="
    + Print(t) + "% to steer UEs to better cells"
  }

  /** The configuration sentence of `_act_traffic_steer`. */
  function SteerSentence(t: nat, cell: string, reason: string): string {
    "Configure ric-ts with threshold " + Print(t) + "% for cell " + cell + " \U{2014} " + reason
  }
}
