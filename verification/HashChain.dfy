/** The audit integrity chain (pkg/audit/integrity.go, lines 242-348, 450-557, 874-897, 1033-1076 and
    1115-1137). Hashes and signatures are arbitrary functions of what they cover. */
module HashChain {

  const MAX_CHAIN_LENGTH: nat := 10000

  /** The fields of an audit event that the event hash covers. */
  datatype Content = Content(id: string, timestamp: int, payload: string)

  datatype Link = Link(seqNo: nat, eventId: string, eventHash: string, previousHash: string, chainHash: string, signature: string)

  /** Hash of an event, chain hash of a link, signature of a link and its check, and the genesis hash. */
  datatype Crypto = Crypto(
    event: Content -> string,
    chain: (nat, string, string, string) -> string,
    sign: (nat, string, string, string) -> string,
    verify: (Link) -> bool,
    genesis: string)

  ghost predicate NonEmptyHashes(k: Crypto) {
    k.genesis != "" && forall c :: k.event(c) != ""
  }

  /** History variables: `lastFailure`, the last sequence number used up by a failed signature, and
      `dropped`, how many links truncation has removed. */
  datatype Chain = Chain(links: seq<Link>, lastHash: string, seqNo: nat, lastFailure: nat, dropped: nat)

  const EMPTY: Chain := Chain([], "", 0, 0, 0)

  datatype Outcome = Success | HashFails | SignFails

  function PreviousHash(k: Crypto, c: Chain): string {
    if c.lastHash == "" then k.genesis else c.lastHash
  }

  function NewLink(k: Crypto, c: Chain, e: Content): Link {
    var n, h, p := c.seqNo + 1, k.event(e), PreviousHash(k, c);
    var ch := k.chain(n, e.id, h, p);
    Link(n, e.id, h, p, ch, k.sign(n, e.id, h, ch))
  }

  /** Keep the newest `MAX_CHAIN_LENGTH` links. */
  function Truncate(links: seq<Link>): (r: seq<Link>)
    ensures |r| <= MAX_CHAIN_LENGTH && |r| <= |links|
    ensures r == links[|links| - |r|..]
  {
    if |links| > MAX_CHAIN_LENGTH then links[|links| - MAX_CHAIN_LENGTH..] else links
  }

  /** `ProcessEvent` on the chain. The sequence number is used up before signing can fail. */
  function Process(k: Crypto, c: Chain, e: Content, o: Outcome): Chain {
    match o
    case HashFails => c
    case SignFails => c.(seqNo := c.seqNo + 1, lastFailure := c.seqNo + 1)
    case Success =>
      var grown := c.links + [NewLink(k, c, e)];
      Chain(Truncate(grown), k.event(e), c.seqNo + 1, c.lastFailure, c.dropped + |grown| - |Truncate(grown)|)
  }

  function Run(k: Crypto, c: Chain, events: seq<(Content, Outcome)>): Chain
    decreases |events|
  {
    if events == [] then c else Run(k, Process(k, c, events[0].0, events[0].1), events[1..])
  }

  /** The sequence number link `i` has when no number after it was skipped. */
  function ExpectedSeq(c: Chain, i: int): int {
    c.seqNo - |c.links| + 1 + i
  }

  /** Each link points at its predecessor. */
  ghost predicate Pointers(links: seq<Link>) {
    && (forall i :: 1 <= i < |links| ==> links[i].previousHash == links[i - 1].eventHash)
    && (forall i :: 0 <= i < |links| ==> links[i].previousHash != "")
  }

  /** Pointers hold up to the current hash; the first link ever points at the genesis hash. */
  ghost predicate Linked(k: Crypto, c: Chain) {
    && |c.links| <= MAX_CHAIN_LENGTH
    && (c.links == [] <==> c.lastHash == "")
    && (c.links != [] ==> c.links[|c.links| - 1].eventHash == c.lastHash)
    && Pointers(c.links)
    && (c.links == [] ==> c.dropped == 0)
    && (c.links != [] && c.dropped == 0 ==> c.links[0].previousHash == k.genesis)
  }

  ghost predicate Ascending(links: seq<Link>) {
    forall i :: 1 <= i < |links| ==> links[i - 1].seqNo < links[i].seqNo
  }

  /** A link's number matches its place exactly when no signature failed after it. */
  ghost predicate Placed(links: seq<Link>, seqNo: nat, lastFailure: nat) {
    forall i :: 0 <= i < |links| ==>
      && links[i].seqNo <= seqNo - |links| + 1 + i
      && (links[i].seqNo == seqNo - |links| + 1 + i <==> lastFailure < links[i].seqNo)
  }

  ghost predicate Numbered(c: Chain) {
    c.lastFailure <= c.seqNo && Ascending(c.links) && Placed(c.links, c.seqNo, c.lastFailure)
  }

  lemma PointersGrow(links: seq<Link>, l: Link)
    requires Pointers(links) && l.previousHash != ""
    requires links != [] ==> l.previousHash == links[|links| - 1].eventHash
    ensures Pointers(links + [l])
  {
  }

  lemma PointersSuffix(links: seq<Link>, d: nat)
    requires Pointers(links) && d <= |links|
    ensures Pointers(links[d..])
  {
    var r := links[d..];
    forall i | 1 <= i < |r| ensures r[i].previousHash == r[i - 1].eventHash {
      assert r[i] == links[d + i] && r[i - 1] == links[d + i - 1];
    }
  }

  lemma NumbersGrow(links: seq<Link>, seqNo: nat, lastFailure: nat, l: Link)
    requires Ascending(links) && Placed(links, seqNo, lastFailure) && lastFailure <= seqNo && l.seqNo == seqNo + 1
    ensures Ascending(links + [l]) && Placed(links + [l], seqNo + 1, lastFailure)
  {
    var r := links + [l];
    forall i | 1 <= i < |r| ensures r[i - 1].seqNo < r[i].seqNo {
      assert r[i - 1] == links[i - 1];
    }
  }

  lemma NumbersSuffix(links: seq<Link>, seqNo: nat, lastFailure: nat, d: nat)
    requires Ascending(links) && Placed(links, seqNo, lastFailure) && d <= |links|
    ensures Ascending(links[d..]) && Placed(links[d..], seqNo, lastFailure)
  {
    var r := links[d..];
    forall i | 0 <= i < |r| ensures r[i] == links[d + i] {
    }
    forall i | 1 <= i < |r| ensures r[i - 1].seqNo < r[i].seqNo {
      assert r[i] == links[d + i] && r[i - 1] == links[d + i - 1];
    }
  }

  lemma LinkedStep(k: Crypto, c: Chain, e: Content, o: Outcome)
    requires NonEmptyHashes(k) && Linked(k, c)
    ensures Linked(k, Process(k, c, e, o))
  {
    if o.Success? {
      var l := NewLink(k, c, e);
      PointersGrow(c.links, l);
      LinkedTruncate(k, Chain(c.links + [l], k.event(e), c.seqNo + 1, c.lastFailure, c.dropped));
    }
  }

  lemma LinkedTruncate(k: Crypto, c: Chain)
    requires c.links != [] && c.links[|c.links| - 1].eventHash == c.lastHash != "" && Pointers(c.links)
    requires c.dropped == 0 ==> c.links[0].previousHash == k.genesis
    ensures Linked(k, c.(links := Truncate(c.links), dropped := c.dropped + |c.links| - |Truncate(c.links)|))
  {
    var r := Truncate(c.links);
    var d := |c.links| - |r|;
    PointersSuffix(c.links, d);
    assert r[|r| - 1] == c.links[|c.links| - 1];
  }

  lemma NumberedStep(k: Crypto, c: Chain, e: Content, o: Outcome)
    requires Numbered(c)
    ensures Numbered(Process(k, c, e, o))
  {
    if o.Success? {
      var grown := c.links + [NewLink(k, c, e)];
      NumbersGrow(c.links, c.seqNo, c.lastFailure, NewLink(k, c, e));
      NumbersSuffix(grown, c.seqNo + 1, c.lastFailure, |grown| - |Truncate(grown)|);
    }
  }

  lemma {:induction false} RunKeepsLinkage(k: Crypto, c: Chain, events: seq<(Content, Outcome)>)
    requires NonEmptyHashes(k) && Linked(k, c) && Numbered(c)
    ensures Linked(k, Run(k, c, events)) && Numbered(Run(k, c, events))
    decreases |events|
  {
    if events != [] {
      LinkedStep(k, c, events[0].0, events[0].1);
      NumberedStep(k, c, events[0].0, events[0].1);
      RunKeepsLinkage(k, Process(k, c, events[0].0, events[0].1), events[1..]);
    }
  }

  /** After any sequence of events with any failures and through any number of truncations: linkage
      holds, and the retained sequence numbers are consecutive up to the current one if and only if no
      signature failed after the oldest retained link was made. */
  lemma LinkageAndNumbering(k: Crypto, events: seq<(Content, Outcome)>)
    requires NonEmptyHashes(k)
    ensures var c := Run(k, EMPTY, events);
            && Linked(k, c)
            && (c.links != [] ==>
                  ((forall i :: 0 <= i < |c.links| ==> c.links[i].seqNo == ExpectedSeq(c, i))
                   <==> c.lastFailure < c.links[0].seqNo))
  {
    RunKeepsLinkage(k, EMPTY, events);
    var c := Run(k, EMPTY, events);
    if c.links != [] && c.lastFailure < c.links[0].seqNo {
      forall i | 0 <= i < |c.links| ensures c.links[i].seqNo == ExpectedSeq(c, i) {
        Consecutive(c, i);
      }
    }
  }

  lemma {:induction false} Consecutive(c: Chain, i: nat)
    requires Numbered(c) && c.links != [] && c.lastFailure < c.links[0].seqNo && i < |c.links|
    ensures c.links[i].seqNo == ExpectedSeq(c, i)
  {
    if i > 0 {
      Consecutive(c, i - 1);
    }
  }

  lemma ProcessedLinks(k: Crypto, c: Chain, e: Content)
    requires |c.links| < MAX_CHAIN_LENGTH
    ensures Process(k, c, e, Success).links == c.links + [NewLink(k, c, e)]
    ensures Process(k, c, e, Success).seqNo == c.seqNo + 1
  {
  }

  lemma RunThree(k: Crypto, c: Chain, x: (Content, Outcome), y: (Content, Outcome), z: (Content, Outcome))
    ensures Run(k, c, [x, y, z]) == Process(k, Process(k, Process(k, c, x.0, x.1), y.0, y.1), z.0, z.1)
  {
    assert [x, y, z][1..] == [y, z] && [y, z][1..] == [z] && [z][1..] == [];
    var c1 := Process(k, c, x.0, x.1);
    var c2 := Process(k, c1, y.0, y.1);
    assert Run(k, c2, [z]) == Run(k, Process(k, c2, z.0, z.1), []);
    assert Run(k, c1, [y, z]) == Run(k, c2, [z]);
  }

  /** The two newest of these links, from place `at` on, are numbered `n + 1` and `n + 3`. */
  ghost predicate TwoApart(links: seq<Link>, at: nat, n: nat) {
    |links| == at + 2 && links[at].seqNo == n + 1 && links[at + 1].seqNo == n + 3
  }

  /** A failed signature uses up a number: after a success, a signature that fails and another success,
      the two new links are two numbers apart. */
  lemma FailedSignatureSkipsANumber(k: Crypto, c: Chain, x: Content, y: Content, z: Content)
    requires |c.links| < MAX_CHAIN_LENGTH - 1
    ensures TwoApart(Run(k, c, [(x, Success), (y, SignFails), (z, Success)]).links, |c.links|, c.seqNo)
  {
    RunThree(k, c, (x, Success), (y, SignFails), (z, Success));
    var c1 := Process(k, c, x, Success);
    var c2 := Process(k, c1, y, SignFails);
    ProcessedLinks(k, c, x);
    ProcessedLinks(k, c2, z);
  }

  /** From the empty chain: the links are numbered 1 and 3. */
  lemma FailedSignatureLeavesGap(k: Crypto, x: Content, y: Content, z: Content)
    ensures TwoApart(Run(k, EMPTY, [(x, Success), (y, SignFails), (z, Success)]).links, 0, 0)
  {
    var c := EMPTY;
    FailedSignatureSkipsANumber(k, c, x, y, z);
  }

  // --- VerifyChain --------------------------------------------------------------------------

  /** The checks `VerifyChain` makes of link `i`: position, previous chain hash, signature, chain hash. */
  predicate LinkPasses(k: Crypto, links: seq<Link>, i: nat)
    requires i < |links|
  {
    var l := links[i];
    && l.seqNo == i + 1
    && l.previousHash == (if i == 0 then "" else links[i - 1].chainHash)
    && k.verify(l)
    && l.chainHash == k.chain(l.seqNo, l.eventId, l.eventHash, l.previousHash)
  }

  /** The same, part by part: numbered from one, an empty first previous hash and chain hashes after it, a
      good signature, and the chain hash of its own fields. */
  ghost predicate Passes(k: Crypto, links: seq<Link>, i: int)
    requires 0 <= i < |links|
  {
    && links[i].seqNo == i + 1
    && (i == 0 ==> links[i].previousHash == "")
    && (i > 0 ==> links[i].previousHash == links[i - 1].chainHash)
    && k.verify(links[i])
    && links[i].chainHash == k.chain(links[i].seqNo, links[i].eventId, links[i].eventHash, links[i].previousHash)
  }

  /** `VerifyChain`: the report's verdict and its failure count. */
  method VerifyChain(k: Crypto, c: Chain) returns (valid: bool, failed: nat)
    ensures valid <==> forall i :: 0 <= i < |c.links| ==> Passes(k, c.links, i)
    ensures valid <==> failed == 0
    ensures Linked(k, c) ==> (valid <==> c.links == [])
  {
    valid, failed := true, 0;
    var previousHash := "";
    var i := 0;
    while i < |c.links|
      invariant 0 <= i <= |c.links|
      invariant previousHash == if i == 0 then "" else c.links[i - 1].chainHash
      invariant valid <==> forall j :: 0 <= j < i ==> LinkPasses(k, c.links, j)
      invariant valid <==> failed == 0
      invariant Linked(k, c) && i > 0 ==> !valid
    {
      var l := c.links[i];
      ghost var soFar := valid;
      if l.seqNo != i + 1 {
        valid, failed := false, failed + 1;
      }
      if l.previousHash != previousHash {
        valid, failed := false, failed + 1;
      }
      if !k.verify(l) {
        valid, failed := false, failed + 1;
      }
      if l.chainHash != k.chain(l.seqNo, l.eventId, l.eventHash, l.previousHash) {
        valid, failed := false, failed + 1;
      }
      assert valid <==> soFar && LinkPasses(k, c.links, i);
      assert (forall j :: 0 <= j < i + 1 ==> LinkPasses(k, c.links, j))
        <==> (forall j :: 0 <= j < i ==> LinkPasses(k, c.links, j)) && LinkPasses(k, c.links, i);
      previousHash := l.chainHash;
      i := i + 1;
    }
    if valid {
      forall j | 0 <= j < |c.links| ensures Passes(k, c.links, j) {
        assert LinkPasses(k, c.links, j);
      }
    } else {
      var j :| 0 <= j < |c.links| && !LinkPasses(k, c.links, j);
      assert !Passes(k, c.links, j);
    }
  }

  /** `VerifyChain` rejects every non-empty chain that `ProcessEvent` ever builds: it expects an empty
      first previous hash where the chain starts at the genesis hash or at an event hash. */
  lemma VerifyChainRejectsHonestChains(k: Crypto, events: seq<(Content, Outcome)>)
    requires NonEmptyHashes(k)
    ensures var links := Run(k, EMPTY, events).links;
            (forall i :: 0 <= i < |links| ==> LinkPasses(k, links, i)) <==> links == []
  {
    RunKeepsLinkage(k, EMPTY, events);
    var links := Run(k, EMPTY, events).links;
    if links != [] {
      assert !LinkPasses(k, links, 0);
    }
  }

  // --- Event objects ------------------------------------------------------------------------

  class AuditEvent {
    const content: Content
    var hash: string
    var previousHash: string
    var signature: string

    constructor (content: Content)
      ensures this.content == content && hash == "" && previousHash == "" && signature == ""
    {
      this.content, hash, previousHash, signature := content, "", "", "";
    }
  }

  class IntegrityChain {
    const crypto: Crypto
    var links: seq<Link>
    var lastHash: string
    var seqNo: nat
    ghost var lastFailure: nat
    ghost var dropped: nat

    ghost function View(): Chain
      reads this
    {
      Chain(links, lastHash, seqNo, lastFailure, dropped)
    }

    constructor (crypto: Crypto)
      ensures this.crypto == crypto && View() == EMPTY
    {
      this.crypto := crypto;
      links, lastHash, seqNo, lastFailure, dropped := [], "", 0, 0, 0;
    }

    /** `ProcessEvent`: extends the chain and stamps the event, or leaves the event alone. */
    method ProcessEvent(event: AuditEvent, outcome: Outcome)
      modifies this, event
      ensures View() == Process(crypto, old(View()), event.content, outcome)
      ensures outcome.Success? ==>
                && event.hash == crypto.event(event.content)
                && event.previousHash == (if old(lastHash) == "" then crypto.genesis else old(lastHash))
                && seqNo == old(seqNo) + 1 && lastHash == event.hash
                && var chainHash := crypto.chain(seqNo, event.content.id, event.hash, event.previousHash);
                && event.signature == crypto.sign(seqNo, event.content.id, event.hash, chainHash)
                && var grown := old(links) + [Link(seqNo, event.content.id, event.hash, event.previousHash, chainHash, event.signature)];
                links == if |grown| > 10000 then grown[|grown| - 10000..] else grown
      ensures !outcome.Success? ==> unchanged(event) && links == old(links) && lastHash == old(lastHash)
      ensures !outcome.Success? ==> seqNo == old(seqNo) + if outcome.SignFails? then 1 else 0
    {
      if outcome.HashFails? {
        return;
      }
      if outcome.SignFails? {
        seqNo := seqNo + 1;
        lastFailure := seqNo;
        return;
      }
      var link := Seal(event.content);
      event.hash, event.previousHash, event.signature := link.eventHash, link.previousHash, link.signature;
    }

    /** The successful part: number, hash and sign a link, and append it. */
    method Seal(content: Content) returns (link: Link)
      modifies this
      ensures View() == Process(crypto, old(View()), content, Success)
      ensures seqNo == old(seqNo) + 1 == link.seqNo && lastHash == link.eventHash == crypto.event(content)
      ensures link.eventId == content.id
      ensures link.previousHash == if old(lastHash) == "" then crypto.genesis else old(lastHash)
      ensures link.chainHash == crypto.chain(link.seqNo, content.id, link.eventHash, link.previousHash)
      ensures link.signature == crypto.sign(link.seqNo, content.id, link.eventHash, link.chainHash)
      ensures links == Truncate(old(links) + [link])
    {
      ghost var before := View();
      var eventHash := crypto.event(content);
      var previous := if lastHash == "" then crypto.genesis else lastHash;
      seqNo := seqNo + 1;
      var chainHash := crypto.chain(seqNo, content.id, eventHash, previous);
      var signature := crypto.sign(seqNo, content.id, eventHash, chainHash);
      link := Link(seqNo, content.id, eventHash, previous, chainHash, signature);
      assert link == NewLink(crypto, before, content);
      Extend(link);
    }

    /** Append a link and keep the newest ones. */
    method Extend(link: Link)
      modifies this
      ensures lastHash == link.eventHash && seqNo == old(seqNo) && lastFailure == old(lastFailure)
      ensures links == Truncate(old(links) + [link])
      ensures dropped == old(dropped) + |old(links)| + 1 - |links|
    {
      dropped := dropped + |links| + 1;
      links := links + [link];
      lastHash := link.eventHash;
      if |links| > MAX_CHAIN_LENGTH {
        links := links[|links| - MAX_CHAIN_LENGTH..];
      }
      dropped := dropped - |links|;
    }

    /** `VerifyEventChain`: every event still carries the hash of its own content. */
    method VerifyEventChain(events: seq<AuditEvent>) returns (ok: bool)
      ensures ok <==> forall i :: 0 <= i < |events| ==>
                        events[i].hash != "" && events[i].hash == crypto.event(events[i].content)
    {
      var i := 0;
      while i < |events|
        invariant 0 <= i <= |events|
        invariant forall j :: 0 <= j < i ==> events[j].hash != "" && events[j].hash == crypto.event(events[j].content)
      {
        if events[i].hash == "" || crypto.event(events[i].content) != events[i].hash {
          return false;
        }
        i := i + 1;
      }
      ok := true;
    }

    /** What one `ProcessEvent` does to the event and to the current hash. */
    method StampOne(event: AuditEvent, outcome: Outcome)
      requires NonEmptyHashes(crypto)
      modifies this, event
      ensures outcome.Success? ==> Stamped(crypto, event) && lastHash == event.hash
      ensures outcome.Success? && old(lastHash) != "" ==> event.previousHash == old(lastHash)
      ensures !outcome.Success? ==> unchanged(event) && lastHash == old(lastHash)
    {
      ProcessEvent(event, outcome);
    }

    /** Events processed in order, whatever the chain held before: each success carries its own hash and
        points at the event before it if that succeeded too; each failure is left alone. */
    method ProcessInOrder(events: seq<AuditEvent>, outcomes: seq<Outcome>)
      requires NonEmptyHashes(crypto) && |outcomes| == |events|
      requires forall i, j :: 0 <= i < j < |events| ==> events[i] != events[j]
      modifies this, events
      ensures forall i :: 0 <= i < |events| && outcomes[i].Success? ==> Stamped(crypto, events[i])
      ensures forall i :: 0 <= i < |events| && !outcomes[i].Success? ==> unchanged(events[i])
      ensures forall i :: 1 <= i < |events| && outcomes[i - 1].Success? && outcomes[i].Success? ==>
                events[i].previousHash == events[i - 1].hash
    {
      var n := 0;
      while n < |events|
        invariant 0 <= n <= |events|
        invariant forall i :: 0 <= i < n && outcomes[i].Success? ==> Stamped(crypto, events[i])
        invariant forall i :: 0 <= i < |events| && (i >= n || !outcomes[i].Success?) ==> unchanged(events[i])
        invariant forall i :: 1 <= i < n && outcomes[i - 1].Success? && outcomes[i].Success? ==>
                    events[i].previousHash == events[i - 1].hash
        invariant n > 0 && outcomes[n - 1].Success? ==> lastHash == events[n - 1].hash
      {
        StampOne(events[n], outcomes[n]);
        n := n + 1;
      }
    }

    /** New, distinct events through `ProcessEvent` in order and then through both verifiers:
        `VerifyEventChain` accepts them if and only if every one was processed successfully, and
        `ValidateEventChain` finds no broken link if and only if all were or none was. */
    method ProcessAndVerify(events: seq<AuditEvent>, outcomes: seq<Outcome>, readings: seq<int>)
      returns (ok: bool, valid: bool, breaks: nat)
      requires NonEmptyHashes(crypto) && |outcomes| == |readings| == |events|
      requires forall i, j :: 0 <= i < j < |events| ==> events[i] != events[j]
      requires forall i :: 0 <= i < |events| ==> events[i].hash == "" && events[i].previousHash == ""
      modifies this, events
      ensures ok <==> forall i :: 0 <= i < |events| ==> outcomes[i].Success?
      ensures breaks == 0 <==> AllAlike(outcomes)
      ensures valid <==> ok && forall i :: 0 <= i < |events| ==> Recent(events[i], readings[i])
    {
      ProcessInOrder(events, outcomes);
      ok := VerifyEventChain(events);
      var gaps;
      valid, breaks, gaps := ValidateEventChain(events, readings);
      forall i | 0 <= i < |events|
        ensures outcomes[i].Success? <==> events[i].hash != "" && events[i].hash == crypto.event(events[i].content)
      {
        assert outcomes[i].Success? ==> Stamped(crypto, events[i]);
        assert !outcomes[i].Success? ==> events[i].hash == "";
      }
      forall i | 1 <= i < |events|
        ensures events[i].previousHash == events[i - 1].hash <==> (outcomes[i].Success? <==> outcomes[i - 1].Success?)
      {
      }
      AlikeIffNeighbours(outcomes);
    }
  }

  /** The event carries the hash of its own content and a previous hash. */
  ghost predicate Stamped(k: Crypto, e: AuditEvent)
    reads e
  {
    e.hash != "" && e.hash == k.event(e.content) && e.previousHash != ""
  }

  /** All outcomes are successes, or none is. */
  ghost predicate AllAlike(outcomes: seq<Outcome>) {
    forall i, j :: 0 <= i < |outcomes| && 0 <= j < |outcomes| ==> (outcomes[i].Success? <==> outcomes[j].Success?)
  }

  ghost predicate NeighboursAlike(outcomes: seq<Outcome>) {
    forall i :: 1 <= i < |outcomes| ==> (outcomes[i].Success? <==> outcomes[i - 1].Success?)
  }

  lemma {:induction false} AlikeFromFirst(outcomes: seq<Outcome>, i: nat)
    requires NeighboursAlike(outcomes) && i < |outcomes|
    ensures outcomes[i].Success? <==> outcomes[0].Success?
  {
    if i > 0 {
      AlikeFromFirst(outcomes, i - 1);
    }
  }

  lemma AlikeIffNeighbours(outcomes: seq<Outcome>)
    ensures AllAlike(outcomes) <==> NeighboursAlike(outcomes)
  {
    if NeighboursAlike(outcomes) {
      forall i | 0 <= i < |outcomes| ensures outcomes[i].Success? <==> outcomes[0].Success? {
        AlikeFromFirst(outcomes, i);
      }
    }
  }

  const FIVE_MINUTES: int := 300

  /** The timestamp check of `ValidateEvent`, with its own clock reading. */
  predicate Recent(e: AuditEvent, now: int) {
    now - e.content.timestamp <= FIVE_MINUTES
  }

  /** `ValidateEvent`: integrity fields present and timestamp recent; a missing signature does not make
      an event invalid. */
  predicate EventValid(e: AuditEvent, now: int)
    reads e
  {
    e.hash != "" && e.previousHash != "" && Recent(e, now)
  }

  /** `ValidateEventChain`: the verdict, and how many linkage violations its two passes report. */
  method ValidateEventChain(events: seq<AuditEvent>, readings: seq<int>) returns (valid: bool, breaks: nat, gaps: nat)
    requires |readings| == |events|
    ensures breaks == 0 <==> forall i :: 1 <= i < |events| ==> events[i].previousHash == events[i - 1].hash
    ensures breaks == gaps
    ensures valid <==> breaks == 0 && forall i :: 0 <= i < |events| ==>
                         events[i].hash != "" && events[i].previousHash != "" && readings[i] - events[i].content.timestamp <= 300
  {
    valid, breaks, gaps := true, 0, 0;
    var previousHash := "";
    var i := 0;
    while i < |events|
      invariant 0 <= i <= |events|
      invariant i > 0 ==> previousHash == events[i - 1].hash
      invariant breaks == Breaks(events, i)
      invariant valid <==> breaks == 0 && forall j :: 0 <= j < i ==> EventValid(events[j], readings[j])
    {
      var eventValid := EventValid(events[i], readings[i]);
      if i > 0 && events[i].previousHash != previousHash {
        eventValid, valid, breaks := false, false, breaks + 1;
      }
      if !eventValid {
        valid := false;
      }
      previousHash := events[i].hash;
      i := i + 1;
    }
    if |events| > 1 {
      i := 1;
      while i < |events|
        invariant 1 <= i <= |events|
        invariant gaps == Breaks(events, i)
        invariant gaps > 0 ==> breaks > 0
        invariant breaks == Breaks(events, |events|)
        invariant valid <==> breaks == 0 && forall j :: 0 <= j < |events| ==> EventValid(events[j], readings[j])
      {
        if events[i].previousHash != events[i - 1].hash {
          BreaksGrow(events, i + 1, |events|);
          valid, gaps := false, gaps + 1;
        }
        i := i + 1;
      }
    }
    NoBreaks(events, |events|);
  }

  lemma {:induction false} BreaksGrow(events: seq<AuditEvent>, n: nat, m: nat)
    requires n <= m <= |events|
    ensures Breaks(events, n) <= Breaks(events, m)
    decreases m - n
  {
    if n < m {
      BreaksGrow(events, n, m - 1);
    }
  }

  /** Broken links among the first `n` events. */
  ghost function Breaks(events: seq<AuditEvent>, n: nat): nat
    requires n <= |events|
    reads events
  {
    if n <= 1 then 0
    else Breaks(events, n - 1) + if events[n - 1].previousHash != events[n - 2].hash then 1 else 0
  }

  lemma {:induction false} NoBreaks(events: seq<AuditEvent>, n: nat)
    requires n <= |events|
    ensures Breaks(events, n) == 0 <==> forall i :: 1 <= i < n ==> events[i].previousHash == events[i - 1].hash
  {
    if n > 1 {
      NoBreaks(events, n - 1);
    }
  }

  // --- ReconstructTimeline ------------------------------------------------------------------

  datatype TimelineEvent = TimelineEvent(timestamp: int, eventId: string, action: string)

  /** The exchange sort of `ReconstructTimeline`, in place: ordered by time, and nothing lost, added or
      changed. */
  method SortTimeline(timeline: array<TimelineEvent>)
    modifies timeline
    ensures forall i, j :: 0 <= i < j < timeline.Length ==> timeline[i].timestamp <= timeline[j].timestamp
    ensures multiset(timeline[..]) == old(multiset(timeline[..]))
  {
    var i := 0;
    while i < timeline.Length
      invariant 0 <= i <= timeline.Length
      invariant SettledUpTo(timeline[..], i)
      invariant multiset(timeline[..]) == old(multiset(timeline[..]))
    {
      SettleNext(timeline, i);
      i := i + 1;
    }
    assert SettledUpTo(timeline[..], timeline.Length);
  }

  /** The first `i` events are in place: no later one is earlier. */
  ghost predicate SettledUpTo(s: seq<TimelineEvent>, i: int) {
    forall a, b :: 0 <= a < b < |s| && a < i ==> s[a].timestamp <= s[b].timestamp
  }

  lemma SwapKeepsSettled(s: seq<TimelineEvent>, i: nat, j: nat)
    requires i < j < |s| && SettledUpTo(s, i)
    ensures SettledUpTo(s[i := s[j]][j := s[i]], i)
    ensures multiset(s[i := s[j]][j := s[i]]) == multiset(s)
  {
  }

  /** One pass of the inner loop. */
  method SettleNext(timeline: array<TimelineEvent>, i: nat)
    requires i < timeline.Length && SettledUpTo(timeline[..], i)
    modifies timeline
    ensures SettledUpTo(timeline[..], i + 1)
    ensures multiset(timeline[..]) == old(multiset(timeline[..]))
  {
    var j := i + 1;
    while j < timeline.Length
      invariant i < j <= timeline.Length
      invariant SettledUpTo(timeline[..], i)
      invariant forall b :: i < b < j ==> timeline[i].timestamp <= timeline[b].timestamp
      invariant multiset(timeline[..]) == old(multiset(timeline[..]))
    {
      if timeline[j].timestamp < timeline[i].timestamp {
        ghost var s := timeline[..];
        timeline[i], timeline[j] := timeline[j], timeline[i];
        assert timeline[..] == s[i := s[j]][j := s[i]];
        SwapKeepsSettled(s, i, j);
      }
      j := j + 1;
    }
  }
}
