/** Closed-loop decisions survive the trip through English: what the planner reads from the sentences
    of the controller (llm_nephio_oran/closedloop/e2_closed_loop.py, lines 120-123 and 241-243). */
module Sentences {
  import opened Wrappers
  import opened Decimal
  import opened Planner
  import Analyzer
  import ClosedLoop

  // --- Component names ----------------------------------------------------------------------

  /** Where a component name has its telling character, a dash or the f of trafficgen. */
  function MarkAt(j: nat): nat {
    if 4 <= j <= 6 then 7 else 3
  }

  predicate IsName(w: string) {
    w != "" && ' ' !in w && 'a' <= w[0] <= 'z' && forall i :: 0 <= i < |w| ==> !('A' <= w[i] <= 'Z')
  }

  lemma ComponentShape(j: nat)
    requires j < |COMPONENTS|
    ensures IsName(COMPONENTS[j])
    ensures |COMPONENTS[j]| > MarkAt(j) && (COMPONENTS[j][MarkAt(j)] == '-' || COMPONENTS[j][MarkAt(j)] == 'f')
  {
  }

  /** Text in which no component name can hide: no dash and no f. */
  predicate Plain(s: string) {
    '-' !in s && 'f' !in s
  }

  lemma PlainHasNone(s: string, j: nat)
    requires j < |COMPONENTS| && Plain(s)
    ensures !Contains(s, COMPONENTS[j])
  {
    ComponentShape(j);
    CharsOccur(s, COMPONENTS[j], MarkAt(j));
  }

  lemma NoLettersHasNone(s: string, j: nat)
    requires j < |COMPONENTS| && forall i :: 0 <= i < |s| ==> !('a' <= s[i] <= 'z')
    ensures !Contains(s, COMPONENTS[j])
  {
    ComponentShape(j);
    CharsOccur(s, COMPONENTS[j], 0);
  }

  /** A position in name `j` whose character later name `k` lacks. */
  function Telltale(j: nat, k: nat): nat {
    if j == 0 then 5                                  // d
    else if j <= 3 then (if k == 7 then 1 else 0)     // a, o
    else if j == 4 then (if k <= 6 then 8 else 4)     // u, 5
    else if j == 5 then (if k <= 6 then 8 else 4)     // s, 5
    else if j == 6 then 4                             // 5
    else if j == 7 then 4                             // k
    else if j == 8 then (if k == 9 then 0 else 3)     // r, -
    else 3                                            // -
  }

  lemma TelltaleMissing(j: nat, k: nat)
    requires j < k < |COMPONENTS| && !(1 <= j <= 2 && 2 <= k <= 3)
    ensures Telltale(j, k) < |COMPONENTS[j]| && COMPONENTS[j][Telltale(j, k)] !in COMPONENTS[k]
  {
  }

  lemma LongNames(j: nat, k: nat, i: nat)
    requires 1 <= j < k <= 3
    ensures !WordAt(COMPONENTS[k], i, COMPONENTS[j])
  {
    WordChars(COMPONENTS[k], i, COMPONENTS[j], 0);
    WordChars(COMPONENTS[k], i, COMPONENTS[j], 4);
    if j == 2 {
      WordChars(COMPONENTS[k], i, COMPONENTS[j], 7);
    }
  }

  /** No listed name occurs in a later one, so the order of the list cannot hide a component. */
  lemma NamesIndependent(j: nat, k: nat)
    requires j < k < |COMPONENTS|
    ensures !Contains(COMPONENTS[k], COMPONENTS[j])
  {
    if 1 <= j <= 2 && 2 <= k <= 3 {
      forall i: nat ensures !WordAt(COMPONENTS[k], i, COMPONENTS[j]) {
        LongNames(j, k, i);
      }
    } else {
      TelltaleMissing(j, k);
      CharsOccur(COMPONENTS[k], COMPONENTS[j], Telltale(j, k));
    }
  }

  // --- The scaling sentence -----------------------------------------------------------------

  function Middle(n: nat): string {
    "to " + Print(n) + " replicas \U{2014} cell"
  }

  function Tail(prb: int, ues: nat): string {
    "prb usage" + " " + (PrintTenths(prb) + "%," + " " + (Print(ues) + " active ues"))
  }

  lemma LowerOf(s: string, lowered: string)
    requires |s| == |lowered| && forall i :: 0 <= i < |s| ==> LowerChar(s[i]) == lowered[i]
    ensures Lower(s) == lowered
  {
  }

  lemma Assoc(a: string, b: string, c: string)
    ensures a + b + c == a + (b + c)
  {
  }

  /** Lower-casing a sentence of six parts, bracketed from the right. */
  lemma LowerParts(a: string, b: string, c: string, d: string, e: string, f: string)
    ensures Lower(a + b + c + d + e + f)
         == Lower(a) + (Lower(b) + (Lower(c) + (Lower(d) + (Lower(e) + Lower(f)))))
  {
    LowerConcat(a, b);
    LowerConcat(a + b, c);
    LowerConcat(a + b + c, d);
    LowerConcat(a + b + c + d, e);
    LowerConcat(a + b + c + d + e, f);
    var a', b', c', d', e', f' := Lower(a), Lower(b), Lower(c), Lower(d), Lower(e), Lower(f);
    Assoc(a' + b' + c' + d', e', f');
    Assoc(a' + b' + c', d', e' + f');
    Assoc(a' + b', c', d' + (e' + f'));
    Assoc(a', b', c' + (d' + (e' + f')));
  }

  lemma CutHead(c: string, n: nat, x: string)
    ensures "scale " + (c + (" to " + (Print(n) + (" replicas \U{2014} cell " + x))))
         == "scale" + " " + (c + " " + (Middle(n) + " " + x))
  {
    var d := Print(n);
    assert " replicas \U{2014} cell " + x == " replicas \U{2014} cell" + (" " + x);
    assert Middle(n) + " " + x == "to " + (d + (" replicas \U{2014} cell" + (" " + x)));
    assert " to " + (d + (" replicas \U{2014} cell " + x)) == " " + (Middle(n) + " " + x);
  }

  lemma CutTail(prb: int, ues: nat)
    ensures " prb usage " + (PrintTenths(prb) + ("%, " + (Print(ues) + " active ues"))) == " " + Tail(prb, ues)
  {
    var p, u := PrintTenths(prb), Print(ues) + " active ues";
    assert p + ("%, " + u) == p + "%," + " " + u;
  }

  /** The lower-cased sentence, cut at blanks. */
  lemma ScaleLowered(k: nat, n: nat, cell: string, prb: int, ues: nat)
    requires k < |COMPONENTS|
    ensures Lower(ScaleSentence(COMPONENTS[k], n, cell, prb, ues))
         == "scale" + " " + (COMPONENTS[k] + " " + (Middle(n) + " " + (Lower(cell) + " " + Tail(prb, ues))))
  {
    ComponentShape(k);
    ScaleLoweredName(COMPONENTS[k], n, cell, prb, ues);
  }

  lemma ScaleLoweredName(c: string, n: nat, cell: string, prb: int, ues: nat)
    requires IsName(c)
    ensures Lower(ScaleSentence(c, n, cell, prb, ues))
         == "scale" + " " + (c + " " + (Middle(n) + " " + (Lower(cell) + " " + Tail(prb, ues))))
  {
    var rest := cell + " PRB usage " + PrintTenths(prb) + "%, " + Print(ues) + " active UEs";
    SentenceParts(c, n, cell, prb, ues);
    LowerParts("Scale ", c, " to ", Print(n), " replicas \U{2014} cell ", rest);
    LowerParts(cell, " PRB usage ", PrintTenths(prb), "%, ", Print(ues), " active UEs");
    LowerHead(c, n);
    LowerTail(prb, ues);
    CutTail(prb, ues);
    Assoc(Lower(cell), " ", Tail(prb, ues));
    CutHead(c, n, Lower(rest));
  }

  lemma SentenceParts(c: string, n: nat, cell: string, prb: int, ues: nat)
    ensures ScaleSentence(c, n, cell, prb, ues)
         == "Scale " + c + " to " + Print(n) + " replicas \U{2014} cell "
            + (cell + " PRB usage " + PrintTenths(prb) + "%, " + Print(ues) + " active UEs")
  {
    var h := "Scale " + c + " to " + Print(n) + " replicas \U{2014} cell ";
    var p, u := PrintTenths(prb), Print(ues);
    Assoc(h, cell, " PRB usage ");
    Assoc(h, cell + " PRB usage ", p);
    Assoc(h, cell + " PRB usage " + p, "%, ");
    Assoc(h, cell + " PRB usage " + p + "%, ", u);
    Assoc(h, cell + " PRB usage " + p + "%, " + u, " active UEs");
  }

  lemma LowerHead(c: string, n: nat)
    requires IsName(c)
    ensures Lower("Scale ") == "scale " && Lower(c) == c && Lower(" to ") == " to " && Lower(Print(n)) == Print(n)
    ensures Lower(" replicas \U{2014} cell ") == " replicas \U{2014} cell "
  {
    LowerOf("Scale ", "scale ");
    LowerKeeps(c);
    LowerKeeps(" to ");
    LowerKeeps(Print(n));
    LowerKeeps(" replicas \U{2014} cell ");
  }

  lemma LowerTail(prb: int, ues: nat)
    ensures Lower(" PRB usage ") == " prb usage " && Lower(PrintTenths(prb)) == PrintTenths(prb)
    ensures Lower("%, ") == "%, " && Lower(Print(ues)) == Print(ues) && Lower(" active UEs") == " active ues"
  {
    LowerOf(" PRB usage ", " prb usage ");
    LowerKeeps(PrintTenths(prb));
    LowerKeeps("%, ");
    LowerKeeps(Print(ues));
    LowerOf(" active UEs", " active ues");
  }

  lemma TailHasNone(prb: int, ues: nat, j: nat)
    requires j < |COMPONENTS|
    ensures !Contains(Tail(prb, ues), COMPONENTS[j])
  {
    ComponentShape(j);
    var figures, rest := PrintTenths(prb) + "%,", Print(ues) + " active ues";
    SplitAtBlank("prb usage", figures + " " + rest, COMPONENTS[j]);
    SplitAtBlank(figures, rest, COMPONENTS[j]);
    PlainHasNone("prb usage", j);
    NoLettersHasNone(figures, j);
    PlainHasNone(rest, j);
  }

  /** A listed component occurs in the sentence only as the scaled one or inside the cell id. */
  lemma ComponentsInSentence(k: nat, n: nat, cell: string, prb: int, ues: nat, j: nat)
    requires k < |COMPONENTS| && j < |COMPONENTS|
    ensures Contains(Lower(ScaleSentence(COMPONENTS[k], n, cell, prb, ues)), COMPONENTS[j])
       <==> Contains(COMPONENTS[k], COMPONENTS[j]) || Contains(Lower(cell), COMPONENTS[j])
  {
    var w, c, l, t := COMPONENTS[j], COMPONENTS[k], Lower(cell), Tail(prb, ues);
    ScaleLowered(k, n, cell, prb, ues);
    ComponentShape(j);
    SplitAtBlank("scale", c + " " + (Middle(n) + " " + (l + " " + t)), w);
    SplitAtBlank(c, Middle(n) + " " + (l + " " + t), w);
    SplitAtBlank(Middle(n), l + " " + t, w);
    SplitAtBlank(l, t, w);
    PlainHasNone("scale", j);
    PlainHasNone(Middle(n), j);
    TailHasNone(prb, ues, j);
  }

  /** `FirstIn` is the first listed component that occurs. */
  lemma {:induction false} FirstInIs(s: string, j: nat, k: nat)
    requires j <= k < |COMPONENTS| && Contains(s, COMPONENTS[k])
    ensures FirstIn(s, j) == k <==> forall i :: j <= i < k ==> !Contains(s, COMPONENTS[i])
    decreases k - j
  {
    if j < k && !Contains(s, COMPONENTS[j]) {
      FirstInIs(s, j + 1, k);
    }
  }

  /** The component read back is the one written, exactly when the cell id holds no earlier-listed name. */
  lemma ComponentReadBack(k: nat, n: nat, cell: string, prb: int, ues: nat)
    requires k < |COMPONENTS|
    ensures ExtractComponent(ScaleSentence(COMPONENTS[k], n, cell, prb, ues)) == k
       <==> forall j :: 0 <= j < k ==> !Contains(Lower(cell), COMPONENTS[j])
  {
    var text := ScaleSentence(COMPONENTS[k], n, cell, prb, ues);
    assert WordAt(COMPONENTS[k], 0, COMPONENTS[k]);
    ComponentsInSentence(k, n, cell, prb, ues, k);
    FirstInIs(Lower(text), 0, k);
    forall j | 0 <= j < k ensures Contains(Lower(text), COMPONENTS[j]) <==> Contains(Lower(cell), COMPONENTS[j]) {
      ComponentsInSentence(k, n, cell, prb, ues, j);
      NamesIndependent(j, k);
    }
  }

  /** A match that starts in `a` has its number there: no "to" occurs in `a`, and digits stop at blanks. */
  lemma NumberInside(a: string, b: string, i: nat, g: Span)
    requires i <= |a| && !Contains(a, "to") && Matches(Replicas, a + " " + b, i, g)
    ensures g.lo == i && g.hi <= |a|
  {
    var s := a + " " + b;
    assert s[|a|] == ' ';
    if WordAt(s, i, "to") {
      WordBeforeBlank(a, b, i, "to");
      assert false;
    }
    DigitRunStops(s, g.lo, g.hi, |a|);
  }

  /** Blanks then "replica", starting in `a`: the word is in `a`, or right after the blank. */
  lemma ReplicaInside(a: string, b: string, i: nat)
    requires i <= |a| && b != "" && !IsSpace(b[0]) && BlanksThen(a + " " + b, i, "replica")
    ensures Contains(a, "replica") || b[0] == 'r'
  {
    var s := a + " " + b;
    var e :| i <= e <= |s| && AllSpaces(s[i..e]) && WordAt(s, e, "replica");
    assert s[|a| + 1] == b[0];
    WordChars(s, e, "replica", 0);
    if e <= |a| {
      WordBeforeBlank(a, b, e, "replica");
    } else {
      BlankRunStops(s, i, e, |a| + 1);
    }
  }

  lemma NoEarlierNumber(a: string, b: string, i: nat)
    requires i <= |a| && !Contains(a, "to") && !Contains(a, "replica")
    requires b != "" && !IsSpace(b[0]) && b[0] != 'r'
    ensures NoMatchAt(Replicas, a + " " + b, i)
  {
    forall g ensures !Matches(Replicas, a + " " + b, i, g) {
      if Matches(Replicas, a + " " + b, i, g) {
        NumberInside(a, b, i, g);
        ReplicaInside(a, b, g.hi);
      }
    }
  }

  /** The number after "to" is the one found. */
  lemma NumberFound(a: string, d: string, x: string)
    requires !Contains(a, "to") && !Contains(a, "replica") && d != "" && AllDigits(d)
    ensures var s := a + " " + ("to " + d + " " + ("replica" + x));
            Search(Replicas, s, 0) == Some(Span(|a| + 4, |a| + 4 + |d|)) && s[|a| + 4..|a| + 4 + |d|] == d
  {
    var b := "to " + d + " " + ("replica" + x);
    var s := a + " " + b;
    var g := Span(|a| + 4, |a| + 4 + |d|);
    forall i: nat | 0 <= i < |a| + 1 ensures NoMatchAt(Replicas, s, i) {
      NoEarlierNumber(a, b, i);
    }
    assert s[g.lo..g.hi] == d;
    assert s[|a| + 1..|a| + 3] == "to";
    assert s[|a| + 3..g.lo] == " ";
    assert s[g.hi..g.hi + 1] == " ";
    assert s[g.hi + 1..g.hi + 8] == "replica";
    assert WordAt(s, g.hi + 1, "replica");
    assert BlanksThen(s, g.hi, "replica");
    assert LeftmostAt(Replicas, s, 0, |a| + 1, g);
    SearchIsLeftmost(Replicas, s, 0, g);
  }

  lemma NameHasNoKeyword(k: nat)
    requires k < |COMPONENTS|
    ensures ('t' !in COMPONENTS[k] || 'o' !in COMPONENTS[k]) && 'l' !in COMPONENTS[k]
  {
  }

  lemma HeadHasNoKeyword(k: nat)
    requires k < |COMPONENTS|
    ensures !Contains("scale" + " " + COMPONENTS[k], "to") && !Contains("scale" + " " + COMPONENTS[k], "replica")
  {
    var c := COMPONENTS[k];
    NameHasNoKeyword(k);
    SplitAtBlank("scale", c, "to");
    SplitAtBlank("scale", c, "replica");
    CharsOccur("scale", "to", 0);
    CharsOccur("scale", "replica", 0);
    CharsOccur(c, "to", 0);
    CharsOccur(c, "to", 1);
    CharsOccur(c, "replica", 3);
  }

  /** The count read back is the count written, clamped to 1..200. */
  lemma CountReadBack(k: nat, n: nat, cell: string, prb: int, ues: nat)
    requires k < |COMPONENTS|
    ensures Extract(Replicas, ScaleSentence(COMPONENTS[k], n, cell, prb, ues), 1, 200, 2) == Clamp(n, 1, 200)
  {
    ScaleLowered(k, n, cell, prb, ues);
    HeadHasNoKeyword(k);
    CountFound(COMPONENTS[k], n, Lower(cell) + " " + Tail(prb, ues), ScaleSentence(COMPONENTS[k], n, cell, prb, ues));
  }

  lemma CountFound(c: string, n: nat, rest: string, text: string)
    requires !Contains("scale" + " " + c, "to") && !Contains("scale" + " " + c, "replica")
    requires Lower(text) == "scale" + " " + (c + " " + (Middle(n) + " " + rest))
    ensures Extract(Replicas, text, 1, 200, 2) == Clamp(n, 1, 200)
  {
    Regroup(c, n, rest);
    CountAfter("scale" + " " + c, n, "s \U{2014} cell" + (" " + rest), text);
  }

  lemma CountAfter(a: string, n: nat, x: string, text: string)
    requires !Contains(a, "to") && !Contains(a, "replica")
    requires Lower(text) == a + " " + ("to " + Print(n) + " " + ("replica" + x))
    ensures Extract(Replicas, text, 1, 200, 2) == Clamp(n, 1, 200)
  {
    NumberFound(a, Print(n), x);
    ExtractFinds(Replicas, text, Span(|a| + 4, |a| + 4 + |Print(n)|), n, 1, 200, 2);
  }

  lemma ExtractFinds(p: Pattern, text: string, g: Span, n: nat, low: nat, high: nat, default: nat)
    requires low <= high && g.lo <= g.hi <= |text|
    requires Search(p, Lower(text), 0) == Some(g) && Lower(text)[g.lo..g.hi] == Print(n)
    ensures Extract(p, text, low, high, default) == Clamp(n, low, high)
  {
    ValueOfPrint(n);
  }

  lemma Regroup(c: string, n: nat, rest: string)
    ensures "scale" + " " + (c + " " + (Middle(n) + " " + rest))
         == "scale" + " " + c + " " + ("to " + Print(n) + " " + ("replica" + ("s \U{2014} cell" + (" " + rest))))
  {
    var x := "s \U{2014} cell" + (" " + rest);
    var d := "to " + Print(n);
    assert Middle(n) + " " + rest == d + (" replicas \U{2014} cell" + (" " + rest));
    assert " replicas \U{2014} cell" + (" " + rest) == " " + ("replica" + x);
    var m := Middle(n) + " " + rest;
    assert m == d + " " + ("replica" + x);
    Assoc("scale" + " ", c + " ", m);
  }

  /** Whatever the cell id, the sentence is planned as a scaling with the written count; the component
      is the written one if and only if no earlier-listed component occurs in the lower-cased cell id. */
  lemma ScaleRoundTrip(k: nat, n: nat, cell: string, prb: int, ues: nat)
    requires k < |COMPONENTS|
    ensures var plan := PlanFromText(ScaleSentence(COMPONENTS[k], n, cell, prb, ues));
            && plan.Scale? && plan.replicas == Clamp(n, 1, 200)
            && (plan == Scale(COMPONENTS[k], DOMAINS[k], Clamp(n, 1, 200))
                <==> forall j :: 0 <= j < k ==> !Contains(Lower(cell), COMPONENTS[j]))
  {
    CountReadBack(k, n, cell, prb, ues);
    ComponentReadBack(k, n, cell, prb, ues);
    ScaleLowered(k, n, cell, prb, ues);
    var text := ScaleSentence(COMPONENTS[k], n, cell, prb, ues);
    assert Lower(text)[..5] == "scale";
    assert WordAt(Lower(text), 0, "scale");
    var e := ExtractComponent(text);
    if COMPONENTS[e] == COMPONENTS[k] {
      NamesDiffer(e, k);
    }
  }

  lemma NamesDiffer(j: nat, k: nat)
    requires j < |COMPONENTS| && k < |COMPONENTS| && COMPONENTS[j] == COMPONENTS[k]
    ensures j == k
  {
    assert WordAt(COMPONENTS[j], 0, COMPONENTS[j]);
    if j < k {
      NamesIndependent(j, k);
    } else if k < j {
      NamesIndependent(k, j);
    }
  }

  /** The two components the controller scales: `oai-odu` always survives, `free5gc-amf` unless the cell
      id holds one of the six names listed before it. */
  lemma ControllerScaling(gnb: string, n: nat, cell: string, prb: int, ues: nat)
    requires 1 <= n <= 200
    ensures var c := ClosedLoop.Resolve(gnb).component;
            var plan := PlanFromText(ScaleSentence(c, n, cell, prb, ues));
            && plan.Scale? && plan.replicas == n
            && (plan.component == c <==>
                c == "oai-odu" || forall j :: 0 <= j < 6 ==> !Contains(Lower(cell), COMPONENTS[j]))
  {
    var c := ClosedLoop.Resolve(gnb).component;
    if c == COMPONENTS[0] {
      ScaleRoundTrip(0, n, cell, prb, ues);
    } else {
      assert c == COMPONENTS[6];
      ScaleRoundTrip(6, n, cell, prb, ues);
      var k := ExtractComponent(ScaleSentence(c, n, cell, prb, ues));
      if COMPONENTS[k] == c {
        NamesDiffer(k, 6);
      }
    }
  }

  // --- The steering sentence ----------------------------------------------------------------

  function SteerHead(t: nat): string {
    "configure ric-ts with threshold " + Print(t) + "% for cell"
  }

  function SteerTail(avgCqi: int, limit: int, t: nat): string {
    "cqi " + (PrintTenths(avgCqi) + (" < " + (PrintTenths(limit)
    + (" \U{2014} set ts threshold=" + (Print(t) + "% to steer ues to better cells")))))
  }

  lemma LowerReason(cell: string, avgCqi: int, limit: int, t: nat)
    ensures Lower(SteerReason(cell, avgCqi, limit, t))
         == "cell " + (Lower(cell) + (" " + SteerTail(avgCqi, limit, t)))
  {
    var x, y, d := PrintTenths(avgCqi), PrintTenths(limit), Print(t);
    var link, end := " \U{2014} set TS threshold=", "% to steer UEs to better cells";
    var rest := y + link + d + end;
    ReasonParts(cell, avgCqi, limit, t);
    LowerParts("Cell ", cell, " CQI ", x, " < ", rest);
    LowerConcat(y, link);
    LowerConcat(y + link, d);
    LowerConcat(y + link + d, end);
    LowerOf("Cell ", "cell ");
    LowerOf(" CQI ", " cqi ");
    LowerKeeps(x);
    LowerKeeps(" < ");
    LowerKeeps(y);
    LowerKeeps(d);
    LowerSet();
    Assoc(y + Lower(link), d, Lower(end));
    Assoc(y, Lower(link), d + Lower(end));
    CutCqi(x + (" < " + Lower(rest)));
  }

  lemma LowerSet()
    ensures Lower(" \U{2014} set TS threshold=") == " \U{2014} set ts threshold="
    ensures Lower("% to steer UEs to better cells") == "% to steer ues to better cells"
  {
    LowerOf(" \U{2014} set TS threshold=", " \U{2014} set ts threshold=");
    LowerOf("% to steer UEs to better cells", "% to steer ues to better cells");
  }

  lemma CutCqi(x: string)
    ensures " cqi " + x == " " + ("cqi " + x)
  {
  }

  lemma ReasonParts(cell: string, avgCqi: int, limit: int, t: nat)
    ensures SteerReason(cell, avgCqi, limit, t)
         == "Cell " + cell + " CQI " + PrintTenths(avgCqi) + " < "
            + (PrintTenths(limit) + " \U{2014} set TS threshold=" + Print(t) + "% to steer UEs to better cells")
  {
    var h := "Cell " + cell + " CQI " + PrintTenths(avgCqi) + " < ";
    var y, d := PrintTenths(limit), Print(t);
    var link, end := " \U{2014} set TS threshold=", "% to steer UEs to better cells";
    Assoc(h, y, link);
    Assoc(h, y + link, d);
    Assoc(h, y + link + d, end);
  }

  /** The lower-cased sentence, cut at the blanks around the two occurrences of the cell id. */
  lemma SteerLowered(t: nat, cell: string, avgCqi: int, limit: int)
    ensures Lower(SteerSentence(t, cell, SteerReason(cell, avgCqi, limit, t)))
         == SteerHead(t) + " " + (Lower(cell) + " "
            + ("\U{2014} cell" + " " + (Lower(cell) + " " + SteerTail(avgCqi, limit, t))))
  {
    var l, z, d, reason := Lower(cell), SteerTail(avgCqi, limit, t), Print(t), SteerReason(cell, avgCqi, limit, t);
    LowerReason(cell, avgCqi, limit, t);
    LowerParts("Configure ric-ts with threshold ", d, "% for cell ", cell, " \U{2014} ", reason);
    LowerConfigure(d);
    Assoc(l, " ", z);
    CutSteer(d, l, l + " " + z);
  }

  lemma LowerConfigure(d: string)
    requires AllDigits(d)
    ensures Lower("Configure ric-ts with threshold ") == "configure ric-ts with threshold " && Lower(d) == d
    ensures Lower("% for cell ") == "% for cell " && Lower(" \U{2014} ") == " \U{2014} "
  {
    LowerOf("Configure ric-ts with threshold ", "configure ric-ts with threshold ");
    LowerKeeps(d);
    LowerKeeps("% for cell ");
    LowerKeeps(" \U{2014} ");
  }

  lemma CutSteer(d: string, l: string, x: string)
    ensures "configure ric-ts with threshold " + (d + ("% for cell " + (l + (" \U{2014} " + ("cell " + x)))))
         == "configure ric-ts with threshold " + d + "% for cell" + " " + (l + " " + ("\U{2014} cell" + " " + x))
  {
    var h := "configure ric-ts with threshold ";
    var y := l + " " + ("\U{2014} cell" + " " + x);
    assert l + (" \U{2014} " + ("cell " + x)) == y;
    Assoc("% for cell", " ", y);
    assert "% for cell" + " " == "% for cell ";
    Assoc(h, d, "% for cell " + y);
    Assoc(h + d, "% for cell", " " + y);
    Assoc(h + d + "% for cell", " ", y);
  }

  /** The steering sentence mentions scaling exactly when the cell id does. */
  lemma ScaleInSteering(t: nat, cell: string, avgCqi: int, limit: int)
    ensures Contains(Lower(SteerSentence(t, cell, SteerReason(cell, avgCqi, limit, t))), "scale")
       <==> Contains(Lower(cell), "scale")
  {
    var f, l, g, h := SteerHead(t), Lower(cell), "\U{2014} cell", SteerTail(avgCqi, limit, t);
    SteerLowered(t, cell, avgCqi, limit);
    SplitAtBlank(f, l + " " + (g + " " + (l + " " + h)), "scale");
    SplitAtBlank(l, g + " " + (l + " " + h), "scale");
    SplitAtBlank(g, l + " " + h, "scale");
    SplitAtBlank(l, h, "scale");
    SteerHeadHasNoA(t);
    SteerTailHasNoA(avgCqi, limit, t);
    CharsOccur(f, "scale", 2);
    CharsOccur(g, "scale", 2);
    CharsOccur(h, "scale", 2);
  }

  lemma SteerHeadHasNoA(t: nat)
    ensures 'a' !in SteerHead(t)
  {
    NoAInBoth("configure ric-ts with threshold ", Print(t));
    NoAInBoth("configure ric-ts with threshold " + Print(t), "% for cell");
  }

  lemma SetHasNoA(t: nat)
    ensures 'a' !in " \U{2014} set ts threshold=" + (Print(t) + "% to steer ues to better cells")
  {
    NoAInBoth(Print(t), "% to steer ues to better cells");
    NoAInBoth(" \U{2014} set ts threshold=", Print(t) + "% to steer ues to better cells");
  }

  lemma SteerTailHasNoA(avgCqi: int, limit: int, t: nat)
    ensures 'a' !in SteerTail(avgCqi, limit, t)
  {
    var x, y := PrintTenths(avgCqi), PrintTenths(limit);
    var end := " \U{2014} set ts threshold=" + (Print(t) + "% to steer ues to better cells");
    SetHasNoA(t);
    NoAInBoth(y, end);
    NoAInBoth(" < ", y + end);
    NoAInBoth(x, " < " + (y + end));
    NoAInBoth("cqi ", x + (" < " + (y + end)));
  }

  lemma NoAInBoth(a: string, b: string)
    requires 'a' !in a && 'a' !in b
    ensures 'a' !in a + b
  {
  }

  /** The number after the first "threshold" that a blank follows is the one found. */
  lemma ThresholdFound(a: string, d: string, y: string)
    requires !Contains(a, "threshold") && d != "" && AllDigits(d) && (y != "" ==> !IsDigit(y[0]))
    ensures var s := a + " " + ("threshold " + d + y);
            Search(Threshold, s, 0) == Some(Span(|a| + 11, |a| + 11 + |d|)) && s[|a| + 11..|a| + 11 + |d|] == d
  {
    var b := "threshold " + d + y;
    var s := a + " " + b;
    var g := Span(|a| + 11, |a| + 11 + |d|);
    forall i: nat | 0 <= i < |a| + 1 ensures NoMatchAt(Threshold, s, i) {
      if WordAt(s, i, "threshold") {
        WordBeforeBlank(a, b, i, "threshold");
      }
    }
    assert s[g.lo..g.hi] == d;
    assert s[|a| + 1..|a| + 10] == "threshold";
    assert s[|a| + 10..g.lo] == " ";
    assert g.hi < |s| ==> s[g.hi] == y[0];
    assert LeftmostAt(Threshold, s, 0, |a| + 1, g);
    SearchIsLeftmost(Threshold, s, 0, g);
  }

  lemma SteerRegroup(t: nat, x: string)
    ensures SteerHead(t) + " " + x == "configure ric-ts with" + " " + ("threshold " + Print(t) + ("% for cell" + (" " + x)))
  {
    var d := Print(t);
    assert "configure ric-ts with threshold " == "configure ric-ts with " + "threshold ";
    Assoc("configure ric-ts with ", "threshold ", d);
    Assoc("configure ric-ts with ", "threshold " + d, "% for cell");
    Assoc("configure ric-ts with ", "threshold " + d + "% for cell", " " + x);
    Assoc("threshold " + d, "% for cell", " " + x);
    Assoc(SteerHead(t), " ", x);
  }

  lemma ThresholdReadBack(t: nat, cell: string, avgCqi: int, limit: int)
    ensures var text := SteerSentence(t, cell, SteerReason(cell, avgCqi, limit, t));
            Extract(Threshold, text, 0, 100, 5) == Clamp(t, 0, 100) && Contains(Lower(text), "configure")
  {
    var text := SteerSentence(t, cell, SteerReason(cell, avgCqi, limit, t));
    var x := Lower(cell) + " " + ("\U{2014} cell" + " " + (Lower(cell) + " " + SteerTail(avgCqi, limit, t)));
    SteerLowered(t, cell, avgCqi, limit);
    SteerRegroup(t, x);
    CharsOccur("configure ric-ts with", "threshold", 7);
    assert WordAt("configure ric-ts with", 0, "configure");
    ThresholdAfter("configure ric-ts with", t, "% for cell" + (" " + x), text);
  }

  lemma ThresholdAfter(a: string, t: nat, y: string, text: string)
    requires !Contains(a, "threshold") && Contains(a, "configure") && (y != "" ==> !IsDigit(y[0]))
    requires Lower(text) == a + " " + ("threshold " + Print(t) + y)
    ensures Extract(Threshold, text, 0, 100, 5) == Clamp(t, 0, 100) && Contains(Lower(text), "configure")
  {
    ThresholdFound(a, Print(t), y);
    ExtractFinds(Threshold, text, Span(|a| + 11, |a| + 11 + |Print(t)|), t, 0, 100, 5);
    SplitAtBlank(a, "threshold " + Print(t) + y, "configure");
  }

  /** The steering sentence is planned as a threshold configuration of `ric-ts` with the written
      threshold if and only if "scale" does not occur in the lower-cased cell id. */
  lemma SteerRoundTrip(t: nat, cell: string, avgCqi: int, limit: int)
    ensures PlanFromText(SteerSentence(t, cell, SteerReason(cell, avgCqi, limit, t)))
         == Configure("ric-ts", Clamp(t, 0, 100))
       <==> !Contains(Lower(cell), "scale")
  {
    ScaleInSteering(t, cell, avgCqi, limit);
    ThresholdReadBack(t, cell, avgCqi, limit);
  }

  /** The threshold `analyze_cqi` chose is the threshold configured. */
  lemma ControllerSteering(cell: string, avgCqi: int, limit: int)
    requires avgCqi < limit && !Contains(Lower(cell), "scale")
    ensures var t := Analyzer.SteerThreshold(limit, avgCqi);
            PlanFromText(SteerSentence(t, cell, SteerReason(cell, avgCqi, limit, t))) == Configure("ric-ts", t)
  {
    SteerRoundTrip(Analyzer.SteerThreshold(limit, avgCqi), cell, avgCqi, limit);
  }

  /** A cell id that makes the planner scale the wrong component. */
  lemma CellIdMisleadsScaling(n: nat, prb: int, ues: nat)
    ensures PlanFromText(ScaleSentence("free5gc-amf", n, "oai-odu", prb, ues)) != Scale("free5gc-amf", "core", Clamp(n, 1, 200))
  {
    LowerKeeps("oai-odu");
    assert WordAt("oai-odu", 0, COMPONENTS[0]);
    ScaleRoundTrip(6, n, "oai-odu", prb, ues);
  }

  /** A cell id that turns steering into scaling. */
  lemma CellIdMisleadsSteering(t: nat, avgCqi: int, limit: int)
    ensures PlanFromText(SteerSentence(t, "scale", SteerReason("scale", avgCqi, limit, t))).Scale?
  {
    LowerKeeps("scale");
    assert WordAt("scale", 0, "scale");
    ScaleInSteering(t, "scale", avgCqi, limit);
  }

  // --- Texts that say nothing ---------------------------------------------------------------

  lemma {:induction false} FirstInDefault(s: string, j: nat)
    requires j <= |COMPONENTS| && forall i :: j <= i < |COMPONENTS| ==> !Contains(s, COMPONENTS[i])
    ensures FirstIn(s, j) == DEFAULT
    decreases |COMPONENTS| - j
  {
    if j < |COMPONENTS| {
      FirstInDefault(s, j + 1);
    }
  }

  ghost predicate SaysNothing(s: string) {
    && (forall i :: 0 <= i < |COMPONENTS| ==> !Contains(s, COMPONENTS[i]))
    && (forall k: nat :: k <= |s| ==> NoMatchAt(Replicas, s, k))
    && (forall k: nat :: k <= |s| ==> NoMatchAt(Threshold, s, k))
  }

  /** With no known component and no number anywhere, only the keywords decide, and every value is its
      default: trafficgen, two replicas, threshold five, one replica to deploy. */
  lemma PlanDefaults(text: string)
    requires SaysNothing(Lower(text))
    ensures PlanFromText(text)
         == if Contains(Lower(text), "scale") then Scale("trafficgen", "sim", 2)
            else if Contains(Lower(text), "configure") || Contains(Lower(text), "traffic steer")
                    || Contains(Lower(text), "threshold") then Configure("ric-ts", 5)
            else Deploy("trafficgen", "sim", 1)
  {
    FirstInDefault(Lower(text), 0);
    SearchFails(Replicas, Lower(text), 0);
    SearchFails(Threshold, Lower(text), 0);
  }

  // --- Any text -----------------------------------------------------------------------------

  /** The allowlisted components in their order (llm_nephio_oran/planner/stub_planner.py, lines 9-13). */
  function Names(): seq<string> {
    ["oai-odu", "oai-ocu", "oai-cu-cp", "oai-cu-up", "free5gc-upf", "free5gc-smf", "free5gc-amf",
     "ric-kpimon", "ric-ts", "sim-e2", "trafficgen"]
  }

  /** The first listed name that occurs in the text, and trafficgen when none does. */
  ghost predicate NamedFirst(s: string, c: string) {
    || (exists k :: 0 <= k < 11 && c == Names()[k] && Contains(s, c) && forall j :: 0 <= j < k ==> !Contains(s, Names()[j]))
    || (c == "trafficgen" && forall j :: 0 <= j < 11 ==> !Contains(s, Names()[j]))
  }

  /** The domain of each component, name by name. */
  predicate InDomain(c: string, domain: string) {
    || (domain == "ran" && (c == "oai-odu" || c == "oai-ocu" || c == "oai-cu-cp" || c == "oai-cu-up"))
    || (domain == "core" && (c == "free5gc-upf" || c == "free5gc-smf" || c == "free5gc-amf"))
    || (domain == "ric" && (c == "ric-kpimon" || c == "ric-ts"))
    || (domain == "sim" && (c == "sim-e2" || c == "trafficgen"))
  }

  lemma NamesAre(k: nat)
    requires k < 11
    ensures |COMPONENTS| == 11 && |Names()| == 11 && COMPONENTS[k] == Names()[k] && InDomain(COMPONENTS[k], DOMAINS[k])
  {
  }

  lemma {:induction false} FirstInIsNamed(s: string, j: nat)
    requires j <= 11 && forall i :: 0 <= i < j ==> !Contains(s, COMPONENTS[i])
    ensures FirstIn(s, j) == DEFAULT || (Contains(s, COMPONENTS[FirstIn(s, j)])
              && forall i :: 0 <= i < FirstIn(s, j) ==> !Contains(s, COMPONENTS[i]))
    ensures FirstIn(s, j) == DEFAULT ==> forall i :: 0 <= i < 10 ==> !Contains(s, COMPONENTS[i])
    decreases 11 - j
  {
    if j < 11 && !Contains(s, COMPONENTS[j]) {
      FirstInIsNamed(s, j + 1);
    }
  }

  lemma ChosenIsNamedFirst(text: string)
    ensures NamedFirst(Lower(text), COMPONENTS[ExtractComponent(text)])
  {
    var s, k := Lower(text), ExtractComponent(text);
    FirstInIsNamed(s, 0);
    forall i | 0 <= i < 11 ensures COMPONENTS[i] == Names()[i] {
      NamesAre(i);
    }
    if k == DEFAULT && !Contains(s, Names()[10]) {
      forall i | 0 <= i < 11 ensures !Contains(s, Names()[i]) {
        assert i < 10 ==> !Contains(s, COMPONENTS[i]);
      }
    } else {
      assert forall i :: 0 <= i < k ==> !Contains(s, Names()[i]);
      assert Contains(s, Names()[k]);
    }
  }

  /** Every text: the keywords decide the kind, in this order; scaling and deployment are of the first
      listed component named in the text, in that component's domain, and steering is of ric-ts; the
      numbers are those of the two patterns, clamped, and a deployment has one replica. */
  lemma PlanIs(text: string)
    ensures var s, plan := Lower(text), PlanFromText(text);
            if Contains(s, "scale") then
              && plan.Scale? && NamedFirst(s, plan.component) && InDomain(plan.component, plan.domain)
              && plan.replicas == Extract(Replicas, text, 1, 200, 2)
            else if Contains(s, "configure") || Contains(s, "traffic steer") || Contains(s, "threshold") then
              plan == Configure("ric-ts", Extract(Threshold, text, 0, 100, 5))
            else
              && plan.Deploy? && plan.replicas == 1
              && NamedFirst(s, plan.component) && InDomain(plan.component, plan.domain)
  {
    ChosenIsNamedFirst(text);
    NamesAre(ExtractComponent(text));
  }

  /** `{x:.1f}` of a non-negative number in tenths: the whole part, a point and one digit. */
  lemma TenthsReadBack(t: nat)
    ensures var s := PrintTenths(t);
            && |s| >= 3 && s[|s| - 2] == '.'
            && AllDigits(s[..|s| - 2]) && AllDigits(s[|s| - 1..])
            && Value(s[..|s| - 2]) * 10 + Value(s[|s| - 1..]) == t
  {
    var whole, digit, s := Print(t / 10), Print(t % 10), PrintTenths(t);
    assert |digit| == 1;
    assert s[..|s| - 2] == whole && s[|s| - 1..] == digit;
    ValueOfPrint(t / 10);
    ValueOfPrint(t % 10);
  }

  // --- The two patterns in any text ---------------------------------------------------------

  /** The first number of a text, directly or after any blanks before "replica", is the one found. */
  lemma FirstNumberFound(a: string, d: string, blanks: string, x: string)
    requires (forall i :: 0 <= i < |a| ==> !IsDigit(a[i])) && d != "" && AllDigits(d) && AllSpaces(blanks)
    ensures var s := a + d + blanks + ("replica" + x);
            Search(Replicas, s, 0) == Some(Span(|a|, |a| + |d|)) && s[|a|..|a| + |d|] == d
  {
    var s := a + d + blanks + ("replica" + x);
    var g := Span(|a|, |a| + |d|);
    assert s[g.lo..g.hi] == d;
    assert s[g.hi..g.hi + |blanks|] == blanks;
    assert s[g.hi + |blanks|..g.hi + |blanks| + 7] == "replica";
    assert WordAt(s, g.hi + |blanks|, "replica");
    assert BlanksThen(s, g.hi, "replica");
    assert Matches(Replicas, s, |a|, g);
    OnlyThatNumber(a, d, blanks, x);
    var k := LeastMatch(s, |a|, g);
    SearchIsLeftmost(Replicas, s, 0, g);
  }

  /** The digits end where the text goes on with something else. */
  lemma DigitsEndBetween(a: string, d: string, rest: string)
    requires AllDigits(d) && (rest != "" ==> !IsDigit(rest[0]))
    ensures DigitsEnd(a + d + rest, |a|) == |a| + |d|
  {
    var s := a + d + rest;
    assert s[|a|..|a| + |d|] == d;
    assert rest != "" ==> s[|a| + |d|] == rest[0];
    DigitsEndIs(s, |a|, |a| + |d|);
  }

  lemma OnlyThatMatch(a: string, d: string, blanks: string, x: string, k: nat, g: Span)
    requires (forall i :: 0 <= i < |a| ==> !IsDigit(a[i])) && d != "" && AllDigits(d) && AllSpaces(blanks)
    requires k <= |a| && Matches(Replicas, a + d + blanks + ("replica" + x), k, g)
    ensures g == Span(|a|, |a| + |d|)
  {
    var s, rest := a + d + blanks + ("replica" + x), blanks + ("replica" + x);
    NumberStartsAt(a, d, blanks, x, k, g);
    BlanksThenReplica(s, g.hi);
    DigitsEndIs(s, |a|, g.hi);
    assert !IsDigit(rest[0]) by {
      assert rest[0] == if blanks == "" then 'r' else blanks[0];
    }
    Assoc(a + d, blanks, "replica" + x);
    DigitsEndBetween(a, d, rest);
  }

  /** Every match that starts no later than the number has its group there. */
  lemma OnlyThatNumber(a: string, d: string, blanks: string, x: string)
    requires (forall i :: 0 <= i < |a| ==> !IsDigit(a[i])) && d != "" && AllDigits(d) && AllSpaces(blanks)
    ensures var s := a + d + blanks + ("replica" + x);
            forall k: nat, g :: k <= |a| && Matches(Replicas, s, k, g) ==> g == Span(|a|, |a| + |d|)
  {
    forall k: nat, g | k <= |a| && Matches(Replicas, a + d + blanks + ("replica" + x), k, g)
      ensures g == Span(|a|, |a| + |d|)
    {
      OnlyThatMatch(a, d, blanks, x, k, g);
    }
  }

  lemma NumberStartsAt(a: string, d: string, blanks: string, x: string, k: nat, g: Span)
    requires (forall i :: 0 <= i < |a| ==> !IsDigit(a[i])) && d != "" && AllDigits(d)
    requires k <= |a| && Matches(Replicas, a + d + blanks + ("replica" + x), k, g)
    ensures g.lo == |a|
  {
    var s := a + d + blanks + ("replica" + x);
    assert IsDigit(s[g.lo..g.hi][0]) && s[g.lo..g.hi][0] == s[g.lo];
    assert forall i :: 0 <= i < |a| ==> s[i] == a[i];
    assert s[|a|] == d[0];
    if g.lo > |a| {
      WordChars(s, k, "to", 0);
      WordChars(s, k, "to", 1);
      assert IsDigit(s[|a|]);
      BlankRunStops(s, k + 2, g.lo, |a|);
    }
  }

  /** The least position that matches, given one that does. */
  lemma {:induction false} LeastMatch(s: string, m: nat, g: Span) returns (k: nat)
    requires m <= |s| && Matches(Replicas, s, m, g)
    requires forall j: nat, h :: j <= m && Matches(Replicas, s, j, h) ==> h == g
    ensures LeftmostAt(Replicas, s, 0, k, g)
    decreases m
  {
    if j: nat :| j < m && !NoMatchAt(Replicas, s, j) {
      var h :| Matches(Replicas, s, j, h);
      k := LeastMatch(s, j, g);
    } else {
      k := m;
    }
  }

  /** The number after the first "threshold", with any blanks between, is the one found. */
  lemma FirstThresholdFound(a: string, blanks: string, d: string, y: string)
    requires !Contains(a, "threshold") && blanks != "" && AllSpaces(blanks)
    requires d != "" && AllDigits(d) && (y != "" ==> !IsDigit(y[0]))
    ensures var s := a + " " + ("threshold" + blanks + d + y);
            var lo := |a| + 10 + |blanks|;
            Search(Threshold, s, 0) == Some(Span(lo, lo + |d|)) && s[lo..lo + |d|] == d
  {
    var b := "threshold" + blanks + d + y;
    var s := a + " " + b;
    var lo := |a| + 10 + |blanks|;
    var g := Span(lo, lo + |d|);
    forall i: nat | 0 <= i < |a| + 1 ensures NoMatchAt(Threshold, s, i) {
      if WordAt(s, i, "threshold") {
        WordBeforeBlank(a, b, i, "threshold");
      }
    }
    assert s[lo..lo + |d|] == d;
    assert s[|a| + 1..|a| + 10] == "threshold";
    assert s[|a| + 10..lo] == blanks;
    assert g.hi < |s| ==> s[g.hi] == y[0];
    assert LeftmostAt(Threshold, s, 0, |a| + 1, g);
    SearchIsLeftmost(Threshold, s, 0, g);
  }
}
