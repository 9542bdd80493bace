/** The audit queue: many producers, one batching loop, one timer loop and a shutdown, as interleaved
    atomic steps over an explicit heap of slice backing arrays
    (pkg/audit/audit_system.go, lines 336-377, 418-447, 475-527 and 531-577). */
module AuditQueue {

  /** The number of an accepted `LogEvent` call: the k-th successful channel send. */
  type Ticket = nat

  /** A Go slice into backing array `arr`. */
  datatype Slice = Slice(arr: nat, len: nat)

  /** A batch being delivered: the copied slice, what it held when copied, and how many backends have
      been handed it. */
  datatype Flight = Flight(slice: Slice, copied: seq<Ticket>, handed: nat)

  datatype Worker =
    | Idle
    | Holding(ticket: Ticket)   // received from the channel, not yet appended
    | FlushDue                  // about to enter the critical section of flushBatch
    | Flushing(flight: Flight)
    | Exited

  /** `Stop`: not called, cancelled and waiting for the loops, then its own final flush. */
  datatype Stopper = NotCalled | Waiting | Final(worker: Worker) | Returned

  datatype Config = Config(batchSize: int, queueSize: nat, backends: nat)

  datatype Sys = Sys(
    accepted: nat,
    dropped: nat,
    queue: seq<Ticket>,
    heap: seq<seq<Ticket>>,
    buffer: Slice,
    loop: Worker,
    timer: Worker,
    stop: Stopper,
    received: seq<seq<Ticket>>,   // per backend, in order of arrival
    flushed: seq<Ticket>)         // batches that every backend has been handed

  datatype Who = Loop | Timer | Stop

  datatype Event =
    | LogEvent
    | Receive
    | AppendToBuffer(newCapacity: nat)
    | TimerFires
    | BeginFlush(who: Who)
    | HandToBackend(who: Who)
    | EndFlush(who: Who)
    | CancelContext
    | ExitLoop
    | ExitTimer
    | WaitDone

  predicate WellFormedSlice(heap: seq<seq<Ticket>>, s: Slice) {
    s.arr < |heap| && s.len <= |heap[s.arr]|
  }

  function Contents(heap: seq<seq<Ticket>>, s: Slice): seq<Ticket>
    requires WellFormedSlice(heap, s)
  {
    heap[s.arr][..s.len]
  }

  function Init(c: Config, capacity: nat): Sys {
    Sys(0, 0, [], [seq(capacity, _ => 0)], Slice(0, 0), Idle, Idle, NotCalled, seq(c.backends, _ => []), [])
  }

  function WorkerOf(s: Sys, who: Who): Worker {
    match who
    case Loop => s.loop
    case Timer => s.timer
    case Stop => if s.stop.Final? then s.stop.worker else Idle
  }

  function SetWorker(s: Sys, who: Who, w: Worker): Sys {
    match who
    case Loop => s.(loop := w)
    case Timer => s.(timer := w)
    case Stop => s.(stop := if w.Idle? then Returned else Final(w))
  }

  predicate Cancelled(s: Sys) {
    !s.stop.NotCalled?
  }

  predicate Enabled(c: Config, s: Sys, e: Event) {
    match e
    case LogEvent => true
    case Receive => s.loop.Idle? && s.queue != []
    case AppendToBuffer(newCapacity) => s.loop.Holding? && newCapacity > s.buffer.len && WellFormedSlice(s.heap, s.buffer)
    case TimerFires => s.timer.Idle?
    case BeginFlush(who) => WorkerOf(s, who).FlushDue? && WellFormedSlice(s.heap, s.buffer)
    case HandToBackend(who) =>
      && WorkerOf(s, who).Flushing? && WorkerOf(s, who).flight.handed < |s.received|
      && WellFormedSlice(s.heap, WorkerOf(s, who).flight.slice)
    case EndFlush(who) =>
      && WorkerOf(s, who).Flushing? && WorkerOf(s, who).flight.handed == |s.received|
      && WellFormedSlice(s.heap, WorkerOf(s, who).flight.slice)
    case CancelContext => s.stop.NotCalled?
    case ExitLoop => s.loop.Idle? && Cancelled(s)
    case ExitTimer => s.timer.Idle? && Cancelled(s)
    case WaitDone => s.stop.Waiting? && s.loop.Exited? && s.timer.Exited?
  }

  /** Go's `append` of one element: in place while the backing array has room, otherwise into a fresh
      array of some larger capacity. */
  function AppendSlice(heap: seq<seq<Ticket>>, s: Slice, t: Ticket, newCapacity: nat): (r: (seq<seq<Ticket>>, Slice))
    requires WellFormedSlice(heap, s) && newCapacity > s.len
    ensures WellFormedSlice(r.0, r.1) && Contents(r.0, r.1) == Contents(heap, s) + [t]
    ensures |heap| <= |r.0| && (r.1.arr == s.arr || r.1.arr == |heap|)
    ensures forall a :: 0 <= a < |heap| && a != s.arr ==> r.0[a] == heap[a]
  {
    if s.len < |heap[s.arr]| then
      var written: seq<Ticket> := heap[s.arr][s.len := t];
      (heap[s.arr := written], Slice(s.arr, s.len + 1))
    else
      var grown: seq<Ticket> := Contents(heap, s) + [t] + seq(newCapacity - s.len - 1, _ => 0);
      (heap + [grown], Slice(|heap|, s.len + 1))
  }

  function Next(c: Config, s: Sys, e: Event): Sys
    requires Enabled(c, s, e)
  {
    match e
    case LogEvent =>
      if |s.queue| < c.queueSize then s.(queue := s.queue + [s.accepted], accepted := s.accepted + 1)
      else s.(dropped := s.dropped + 1)
    case Receive => s.(loop := Holding(s.queue[0]), queue := s.queue[1..])
    case AppendToBuffer(newCapacity) =>
      var (heap, buffer) := AppendSlice(s.heap, s.buffer, s.loop.ticket, newCapacity);
      s.(heap := heap, buffer := buffer, loop := if buffer.len >= c.batchSize then FlushDue else Idle)
    case TimerFires => s.(timer := FlushDue)
    case BeginFlush(who) =>
      if s.buffer.len == 0 then SetWorker(s, who, Idle)
      else
        var batch := Contents(s.heap, s.buffer);
        SetWorker(s.(heap := s.heap + [batch], buffer := s.buffer.(len := 0)), who,
                  Flushing(Flight(Slice(|s.heap|, |batch|), batch, 0)))
    case HandToBackend(who) =>
      var f := WorkerOf(s, who).flight;
      SetWorker(s.(received := s.received[f.handed := s.received[f.handed] + Contents(s.heap, f.slice)]), who,
                Flushing(f.(handed := f.handed + 1)))
    case EndFlush(who) =>
      var f := WorkerOf(s, who).flight;
      SetWorker(s.(flushed := s.flushed + Contents(s.heap, f.slice)), who, Idle)
    case CancelContext => s.(stop := Waiting)
    case ExitLoop => s.(loop := Exited)
    case ExitTimer => s.(timer := Exited)
    case WaitDone => s.(stop := Final(FlushDue))
  }

  // --- What every interleaving keeps --------------------------------------------------------

  /** How often a ticket occurs in a sequence. */
  function Occ(q: seq<Ticket>, t: Ticket): nat {
    if q == [] then 0 else (if q[0] == t then 1 else 0) + Occ(q[1..], t)
  }

  lemma {:induction false} OccAppend(a: seq<Ticket>, b: seq<Ticket>, t: Ticket)
    ensures Occ(a + b, t) == Occ(a, t) + Occ(b, t)
  {
    if a == [] {
      assert a + b == b;
    } else {
      assert (a + b)[1..] == a[1..] + b;
      OccAppend(a[1..], b, t);
    }
  }

  /** How often a worker is responsible for a ticket. */
  function InHand(w: Worker, t: Ticket): nat {
    match w
    case Holding(u) => if u == t then 1 else 0
    case Flushing(f) => Occ(f.copied, t)
    case _ => 0
  }

  /** Of these, how often backend `b` has already been handed it. */
  function HandedTo(w: Worker, b: nat, t: Ticket): nat {
    if w.Flushing? && b < w.flight.handed then Occ(w.flight.copied, t) else 0
  }

  ghost predicate FlightIntact(s: Sys, w: Worker) {
    w.Flushing? ==>
      && WellFormedSlice(s.heap, w.flight.slice)
      && Contents(s.heap, w.flight.slice) == w.flight.copied
      && w.flight.slice.arr != s.buffer.arr
      && w.flight.handed <= |s.received|
  }

  ghost predicate HeapInv(c: Config, s: Sys) {
    && WellFormedSlice(s.heap, s.buffer)
    && |s.received| == c.backends
    && (forall who :: FlightIntact(s, WorkerOf(s, who)))
    && (forall who :: who != Loop ==> !WorkerOf(s, who).Holding?)
  }

  function Limit(c: Config): nat {
    if c.batchSize > 1 then c.batchSize else 1
  }

  ghost predicate ControlInv(c: Config, s: Sys) {
    && s.buffer.len <= Limit(c)
    && (s.loop.Idle? || s.loop.Holding? || s.loop.Flushing? ==> s.buffer.len < Limit(c))
    && (s.loop.Exited? || s.timer.Exited? ==> Cancelled(s))
    && (s.stop.Final? || s.stop.Returned? ==> s.loop.Exited? && s.timer.Exited?)
    && (s.stop.Final? ==> s.stop.worker.FlushDue? || s.stop.worker.Flushing?)
    && (s.stop.Returned? || (s.stop.Final? && s.stop.worker.Flushing?) ==> s.buffer.len == 0)
  }

  function AllHands(s: Sys, t: Ticket): nat {
    InHand(WorkerOf(s, Loop), t) + InHand(WorkerOf(s, Timer), t) + InHand(WorkerOf(s, Stop), t)
  }

  function AllHandedTo(s: Sys, b: nat, t: Ticket): nat {
    HandedTo(WorkerOf(s, Loop), b, t) + HandedTo(WorkerOf(s, Timer), b, t) + HandedTo(WorkerOf(s, Stop), b, t)
  }

  /** Occurrences of a ticket over all places an event can be. */
  function Places(s: Sys, t: Ticket): nat
    requires WellFormedSlice(s.heap, s.buffer)
  {
    Occ(s.queue, t) + Occ(Contents(s.heap, s.buffer), t) + AllHands(s, t) + Occ(s.flushed, t)
  }

  /** Every accepted event is in exactly one place, once: the channel, the batch buffer, in the hands
      of a worker (received or in flight), or flushed. */
  ghost predicate Conserved(s: Sys)
    requires WellFormedSlice(s.heap, s.buffer)
  {
    forall t: Ticket :: Places(s, t) == if t < s.accepted then 1 else 0
  }

  ghost predicate BackendsInv(s: Sys) {
    forall b: nat, t: Ticket :: b < |s.received| ==> Occ(s.received[b], t) == Occ(s.flushed, t) + AllHandedTo(s, b, t)
  }

  ghost predicate Inv(c: Config, s: Sys) {
    HeapInv(c, s) && ControlInv(c, s) && Conserved(s) && BackendsInv(s)
  }

  lemma FlightStep(c: Config, s: Sys, e: Event, who: Who)
    requires HeapInv(c, s) && Enabled(c, s, e)
    ensures FlightIntact(Next(c, s, e), WorkerOf(Next(c, s, e), who))
  {
    assert FlightIntact(s, WorkerOf(s, who));
  }

  lemma HoldingStep(c: Config, s: Sys, e: Event, who: Who)
    requires HeapInv(c, s) && Enabled(c, s, e) && who != Loop
    ensures !WorkerOf(Next(c, s, e), who).Holding?
  {
    assert !WorkerOf(s, who).Holding?;
  }

  lemma SliceStep(c: Config, s: Sys, e: Event)
    requires HeapInv(c, s) && Enabled(c, s, e)
    ensures WellFormedSlice(Next(c, s, e).heap, Next(c, s, e).buffer)
    ensures |Next(c, s, e).received| == |s.received|
  {
  }

  lemma HeapStep(c: Config, s: Sys, e: Event)
    requires HeapInv(c, s) && Enabled(c, s, e)
    ensures HeapInv(c, Next(c, s, e))
  {
    SliceStep(c, s, e);
    forall who ensures FlightIntact(Next(c, s, e), WorkerOf(Next(c, s, e), who)) {
      FlightStep(c, s, e, who);
    }
    forall who | who != Loop ensures !WorkerOf(Next(c, s, e), who).Holding? {
      HoldingStep(c, s, e, who);
    }
  }

  lemma ControlStep(c: Config, s: Sys, e: Event)
    requires HeapInv(c, s) && ControlInv(c, s) && Enabled(c, s, e)
    ensures ControlInv(c, Next(c, s, e))
  {
  }

  lemma ReplaceHand(s: Sys, who: Who, w: Worker, t: Ticket)
    ensures AllHands(SetWorker(s, who, w), t) == AllHands(s, t) - InHand(WorkerOf(s, who), t) + InHand(w, t)
    ensures forall b: nat :: AllHandedTo(SetWorker(s, who, w), b, t)
                     == AllHandedTo(s, b, t) - HandedTo(WorkerOf(s, who), b, t) + HandedTo(w, b, t)
  {
  }

  lemma PlacesBegin(c: Config, s: Sys, who: Who, t: Ticket)
    requires HeapInv(c, s) && Enabled(c, s, BeginFlush(who))
    ensures var n := Next(c, s, BeginFlush(who));
            WellFormedSlice(n.heap, n.buffer) && Places(n, t) == Places(s, t)
  {
    var batch := Contents(s.heap, s.buffer);
    if s.buffer.len == 0 {
      ReplaceHand(s, who, Idle, t);
    } else {
      var cleared := s.(heap := s.heap + [batch], buffer := s.buffer.(len := 0));
      ReplaceHand(cleared, who, Flushing(Flight(Slice(|s.heap|, |batch|), batch, 0)), t);
    }
  }

  lemma PlacesHand(c: Config, s: Sys, who: Who, t: Ticket)
    requires HeapInv(c, s) && Enabled(c, s, HandToBackend(who))
    ensures var n := Next(c, s, HandToBackend(who));
            WellFormedSlice(n.heap, n.buffer) && Places(n, t) == Places(s, t)
  {
    var f := WorkerOf(s, who).flight;
    var s1 := s.(received := s.received[f.handed := s.received[f.handed] + Contents(s.heap, f.slice)]);
    ReplaceHand(s1, who, Flushing(f.(handed := f.handed + 1)), t);
  }

  lemma PlacesEnd(c: Config, s: Sys, who: Who, t: Ticket)
    requires HeapInv(c, s) && Enabled(c, s, EndFlush(who))
    ensures var n := Next(c, s, EndFlush(who));
            WellFormedSlice(n.heap, n.buffer) && Places(n, t) == Places(s, t)
  {
    var f := WorkerOf(s, who).flight;
    assert FlightIntact(s, WorkerOf(s, who));
    OccAppend(s.flushed, f.copied, t);
    ReplaceHand(s.(flushed := s.flushed + f.copied), who, Idle, t);
  }

  lemma PlacesAppend(c: Config, s: Sys, newCapacity: nat, t: Ticket)
    requires HeapInv(c, s) && Enabled(c, s, AppendToBuffer(newCapacity))
    ensures var n := Next(c, s, AppendToBuffer(newCapacity));
            WellFormedSlice(n.heap, n.buffer) && Places(n, t) == Places(s, t)
  {
    OccAppend(Contents(s.heap, s.buffer), [s.loop.ticket], t);
  }

  lemma PlacesReceive(c: Config, s: Sys, t: Ticket)
    requires HeapInv(c, s) && Enabled(c, s, Receive)
    ensures Places(Next(c, s, Receive), t) == Places(s, t)
  {
    assert s.queue == [s.queue[0]] + s.queue[1..];
  }

  lemma PlacesStep(c: Config, s: Sys, e: Event, t: Ticket)
    requires HeapInv(c, s) && ControlInv(c, s) && Enabled(c, s, e) && HeapInv(c, Next(c, s, e))
    ensures var n := Next(c, s, e);
            Places(n, t) == Places(s, t) + (if n.accepted > s.accepted && t == s.accepted then 1 else 0)
  {
    match e
    case LogEvent => OccAppend(s.queue, [s.accepted], t);
    case Receive => PlacesReceive(c, s, t);
    case AppendToBuffer(newCapacity) => PlacesAppend(c, s, newCapacity, t);
    case BeginFlush(who) => PlacesBegin(c, s, who, t);
    case HandToBackend(who) => PlacesHand(c, s, who, t);
    case EndFlush(who) => PlacesEnd(c, s, who, t);
    case _ =>
  }

  lemma ConservedStep(c: Config, s: Sys, e: Event)
    requires HeapInv(c, s) && ControlInv(c, s) && Conserved(s) && Enabled(c, s, e) && HeapInv(c, Next(c, s, e))
    ensures Conserved(Next(c, s, e))
  {
    var n := Next(c, s, e);
    forall t: Ticket ensures Places(n, t) == if t < n.accepted then 1 else 0 {
      PlacesStep(c, s, e, t);
    }
  }

  lemma BackendsHand(c: Config, s: Sys, who: Who, b: nat, t: Ticket)
    requires FlightIntact(s, WorkerOf(s, who)) && Enabled(c, s, HandToBackend(who)) && b < |s.received|
    requires Occ(s.received[b], t) == Occ(s.flushed, t) + AllHandedTo(s, b, t)
    ensures var n := Next(c, s, HandToBackend(who));
            |n.received| == |s.received| && Occ(n.received[b], t) == Occ(n.flushed, t) + AllHandedTo(n, b, t)
  {
    var f := WorkerOf(s, who).flight;
    var s1 := s.(received := s.received[f.handed := s.received[f.handed] + f.copied]);
    OccAppend(s.received[f.handed], f.copied, t);
    ReplaceHand(s1, who, Flushing(f.(handed := f.handed + 1)), t);
  }

  lemma BackendsEnd(c: Config, s: Sys, who: Who, b: nat, t: Ticket)
    requires FlightIntact(s, WorkerOf(s, who)) && Enabled(c, s, EndFlush(who)) && b < |s.received|
    requires Occ(s.received[b], t) == Occ(s.flushed, t) + AllHandedTo(s, b, t)
    ensures var n := Next(c, s, EndFlush(who));
            |n.received| == |s.received| && Occ(n.received[b], t) == Occ(n.flushed, t) + AllHandedTo(n, b, t)
  {
    var f := WorkerOf(s, who).flight;
    OccAppend(s.flushed, f.copied, t);
    ReplaceHand(s.(flushed := s.flushed + f.copied), who, Idle, t);
  }

  lemma BackendsBegin(c: Config, s: Sys, who: Who, b: nat, t: Ticket)
    requires HeapInv(c, s) && Enabled(c, s, BeginFlush(who))
    ensures AllHandedTo(Next(c, s, BeginFlush(who)), b, t) == AllHandedTo(s, b, t)
  {
  }

  lemma BackendsQuiet(c: Config, s: Sys, e: Event, b: nat, t: Ticket)
    requires HeapInv(c, s) && Enabled(c, s, e) && !e.BeginFlush? && !e.HandToBackend? && !e.EndFlush?
    ensures var n := Next(c, s, e);
            n.received == s.received && n.flushed == s.flushed && AllHandedTo(n, b, t) == AllHandedTo(s, b, t)
  {
  }

  lemma BackendsAt(c: Config, s: Sys, e: Event, b: nat, t: Ticket)
    requires HeapInv(c, s) && BackendsInv(s) && Enabled(c, s, e) && b < |Next(c, s, e).received|
    ensures var n := Next(c, s, e);
            Occ(n.received[b], t) == Occ(n.flushed, t) + AllHandedTo(n, b, t)
  {
    match e
    case HandToBackend(who) =>
      assert FlightIntact(s, WorkerOf(s, who));
      BackendsHand(c, s, who, b, t);
    case EndFlush(who) =>
      assert FlightIntact(s, WorkerOf(s, who));
      BackendsEnd(c, s, who, b, t);
    case BeginFlush(who) => BackendsBegin(c, s, who, b, t);
    case _ => BackendsQuiet(c, s, e, b, t);
  }

  lemma BackendsStep(c: Config, s: Sys, e: Event)
    requires HeapInv(c, s) && BackendsInv(s) && Enabled(c, s, e)
    ensures BackendsInv(Next(c, s, e))
  {
    var n := Next(c, s, e);
    forall b: nat, t: Ticket | b < |n.received| ensures Occ(n.received[b], t) == Occ(n.flushed, t) + AllHandedTo(n, b, t) {
      BackendsAt(c, s, e, b, t);
    }
  }

  lemma StepKeepsInv(c: Config, s: Sys, e: Event)
    requires Inv(c, s) && Enabled(c, s, e)
    ensures Inv(c, Next(c, s, e))
  {
    HeapStep(c, s, e);
    ControlStep(c, s, e);
    ConservedStep(c, s, e);
    BackendsStep(c, s, e);
  }

  ghost predicate IsRun(c: Config, s: Sys, run: seq<Event>)
    decreases |run|
  {
    run == [] || (Enabled(c, s, run[0]) && IsRun(c, Next(c, s, run[0]), run[1..]))
  }

  ghost function Last(c: Config, s: Sys, run: seq<Event>): Sys
    requires IsRun(c, s, run)
    decreases |run|
  {
    if run == [] then s else Last(c, Next(c, s, run[0]), run[1..])
  }

  lemma InitInv(c: Config, capacity: nat)
    ensures Inv(c, Init(c, capacity))
  {
    var s := Init(c, capacity);
    assert Contents(s.heap, s.buffer) == [];
  }

  lemma {:induction false} RunKeepsInv(c: Config, s: Sys, run: seq<Event>)
    requires Inv(c, s) && IsRun(c, s, run)
    ensures Inv(c, Last(c, s, run))
    decreases |run|
  {
    if run != [] {
      StepKeepsInv(c, s, run[0]);
      RunKeepsInv(c, Next(c, s, run[0]), run[1..]);
    }
  }

  // --- Which events are accepted ------------------------------------------------------------

  /** `LogEvent` in any state: the event goes to the end of the channel if and only if there is room, and
      otherwise is only counted as dropped. Nothing else changes. */
  lemma AcceptedIffRoom(c: Config, s: Sys)
    ensures var t := Next(c, s, LogEvent);
            && (|s.queue| < c.queueSize <==> t.queue == s.queue + [s.accepted])
            && (|s.queue| < c.queueSize ==> t == s.(queue := s.queue + [s.accepted], accepted := s.accepted + 1))
            && (|s.queue| >= c.queueSize ==> t == s.(dropped := s.dropped + 1))
  {
    assert s.queue + [s.accepted] != s.queue;
  }

  /** The `LogEvent` calls of a run, and those of them that find the channel full. */
  function Calls(c: Config, s: Sys, run: seq<Event>, fullOnly: bool): nat
    requires IsRun(c, s, run)
    decreases |run|
  {
    if run == [] then 0
    else
      (if run[0].LogEvent? && (fullOnly ==> |s.queue| >= c.queueSize) then 1 else 0)
      + Calls(c, Next(c, s, run[0]), run[1..], fullOnly)
  }

  lemma {:induction false} CallsBetween(c: Config, s: Sys, run: seq<Event>)
    requires IsRun(c, s, run)
    ensures var f := Last(c, s, run);
            && f.accepted + f.dropped == s.accepted + s.dropped + Calls(c, s, run, false)
            && f.dropped == s.dropped + Calls(c, s, run, true)
    decreases |run|
  {
    if run != [] {
      CallsBetween(c, Next(c, s, run[0]), run[1..]);
    }
  }

  /** Over every run each call is accepted or dropped, and dropped exactly when it finds the channel
      full. */
  lemma EveryCallIsAccountedFor(c: Config, capacity: nat, run: seq<Event>)
    requires IsRun(c, Init(c, capacity), run)
    ensures var f := Last(c, Init(c, capacity), run);
            && f.accepted + f.dropped == Calls(c, Init(c, capacity), run, false)
            && f.dropped == Calls(c, Init(c, capacity), run, true)
  {
    CallsBetween(c, Init(c, capacity), run);
  }

  // --- In which order -----------------------------------------------------------------------

  /** Consecutive tickets, the first of them `from`. */
  ghost predicate Stretch(q: seq<Ticket>, from: int) {
    forall i :: 0 <= i < |q| ==> q[i] == from + i
  }

  /** The first ticket the batching loop has not taken from the channel. */
  function Untaken(s: Sys): int {
    s.accepted - |s.queue|
  }

  /** The first ticket that is not in the buffer yet. */
  function Unbuffered(s: Sys): int {
    Untaken(s) - if s.loop.Holding? then 1 else 0
  }

  /** The channel, what the loop holds and the buffer are one stretch of accepted events in order, and so
      is every batch in flight. */
  ghost predicate OrderInv(s: Sys)
    requires WellFormedSlice(s.heap, s.buffer)
  {
    && Stretch(s.queue, Untaken(s))
    && (s.loop.Holding? ==> s.loop.ticket == Untaken(s) - 1)
    && Stretch(Contents(s.heap, s.buffer), Unbuffered(s) - s.buffer.len)
    && (forall who :: OrderedFlight(WorkerOf(s, who)))
  }

  ghost predicate OrderedFlight(w: Worker) {
    w.Flushing? ==> exists from :: Stretch(w.flight.copied, from)
  }

  lemma StretchAppend(q: seq<Ticket>, from: int, t: Ticket)
    requires Stretch(q, from) && t == from + |q|
    ensures Stretch(q + [t], from)
  {
  }

  lemma StretchTail(q: seq<Ticket>, from: int)
    requires Stretch(q, from) && q != []
    ensures Stretch(q[1..], from + 1)
  {
  }

  lemma OrderFlights(c: Config, s: Sys, e: Event, who: Who)
    requires HeapInv(c, s) && OrderInv(s) && Enabled(c, s, e)
    ensures OrderedFlight(WorkerOf(Next(c, s, e), who))
  {
    assert OrderedFlight(WorkerOf(s, who));
    if e.BeginFlush? {
      assert Stretch(Contents(s.heap, s.buffer), Unbuffered(s) - s.buffer.len);
    }
  }

  lemma OrderChannel(c: Config, s: Sys, e: Event)
    requires HeapInv(c, s) && OrderInv(s) && Enabled(c, s, e)
    ensures Stretch(Next(c, s, e).queue, Untaken(Next(c, s, e)))
    ensures Next(c, s, e).loop.Holding? ==> Next(c, s, e).loop.ticket == Untaken(Next(c, s, e)) - 1
  {
    if e.LogEvent? && |s.queue| < c.queueSize {
      StretchAppend(s.queue, Untaken(s), s.accepted);
    } else if e.Receive? {
      StretchTail(s.queue, Untaken(s));
    }
  }

  lemma OrderBuffer(c: Config, s: Sys, e: Event)
    requires HeapInv(c, s) && OrderInv(s) && Enabled(c, s, e) && HeapInv(c, Next(c, s, e))
    ensures var t := Next(c, s, e);
            Stretch(Contents(t.heap, t.buffer), Unbuffered(t) - t.buffer.len)
  {
    var t := Next(c, s, e);
    if e.AppendToBuffer? {
      assert Contents(t.heap, t.buffer) == Contents(s.heap, s.buffer) + [s.loop.ticket];
    } else if e.BeginFlush? && s.buffer.len > 0 {
      assert Contents(t.heap, t.buffer) == [];
    } else {
      assert t.heap == s.heap && t.buffer == s.buffer && Unbuffered(t) == Unbuffered(s);
    }
  }

  lemma OrderStep(c: Config, s: Sys, e: Event)
    requires HeapInv(c, s) && OrderInv(s) && Enabled(c, s, e) && HeapInv(c, Next(c, s, e))
    ensures OrderInv(Next(c, s, e))
  {
    OrderChannel(c, s, e);
    OrderBuffer(c, s, e);
    forall who ensures OrderedFlight(WorkerOf(Next(c, s, e), who)) {
      OrderFlights(c, s, e, who);
    }
  }

  lemma {:induction false} OrderRun(c: Config, s: Sys, run: seq<Event>)
    requires Inv(c, s) && OrderInv(s) && IsRun(c, s, run)
    ensures Inv(c, Last(c, s, run)) && OrderInv(Last(c, s, run))
    decreases |run|
  {
    if run != [] {
      StepKeepsInv(c, s, run[0]);
      OrderStep(c, s, run[0]);
      OrderRun(c, Next(c, s, run[0]), run[1..]);
    }
  }

  /** First in, first out: over every run the channel, the event the loop holds and the buffer are the
      latest accepted events in the order of their acceptance, and every batch handed to the backends is
      a stretch of consecutive events in that order. */
  lemma BatchesKeepOrder(c: Config, capacity: nat, run: seq<Event>)
    requires IsRun(c, Init(c, capacity), run)
    ensures var s := Last(c, Init(c, capacity), run);
            WellFormedSlice(s.heap, s.buffer) && OrderInv(s)
  {
    InitInv(c, capacity);
    var s := Init(c, capacity);
    assert Contents(s.heap, s.buffer) == [];
    OrderRun(c, s, run);
  }

  // --- When and what is flushed -------------------------------------------------------------

  /** Appending the held event starts a flush exactly when the buffer then has BatchSize events; a flush
      takes the whole buffer and leaves it empty, or does nothing when it is empty; and each backend in
      turn is handed the whole batch. */
  lemma FlushTakesEverything(c: Config, s: Sys, e: Event)
    requires HeapInv(c, s) && Enabled(c, s, e)
    ensures e.AppendToBuffer? ==>
              && Next(c, s, e).buffer.len == s.buffer.len + 1
              && Next(c, s, e).loop == if s.buffer.len + 1 >= c.batchSize then FlushDue else Idle
    ensures e.TimerFires? ==> Next(c, s, e) == s.(timer := FlushDue)
    ensures e.BeginFlush? && s.buffer.len > 0 ==>
              && Next(c, s, e).buffer.len == 0
              && WorkerOf(Next(c, s, e), e.who).Flushing?
              && WorkerOf(Next(c, s, e), e.who).flight.copied == Contents(s.heap, s.buffer)
              && WorkerOf(Next(c, s, e), e.who).flight.handed == 0
    ensures e.BeginFlush? && s.buffer.len == 0 ==>
              && Next(c, s, e).heap == s.heap && Next(c, s, e).buffer == s.buffer
              && !WorkerOf(Next(c, s, e), e.who).Flushing?
    ensures e.HandToBackend? ==>
              && var f := WorkerOf(s, e.who).flight;
              && |Next(c, s, e).received| == |s.received|
              && Next(c, s, e).received[f.handed] == s.received[f.handed] + f.copied
              && forall b :: 0 <= b < |s.received| && b != f.handed ==> Next(c, s, e).received[b] == s.received[b]
  {
    if e.HandToBackend? {
      assert FlightIntact(s, WorkerOf(s, e.who));
    }
  }

  /** Conservation in every interleaving: each accepted event is in exactly one place; the buffer stays
      within max(1, BatchSize); a batch in flight still holds what was copied into it although the
      buffer's array is being reused; and no backend is handed an event twice. */
  lemma AuditConservation(c: Config, capacity: nat, run: seq<Event>)
    requires IsRun(c, Init(c, capacity), run)
    ensures var s := Last(c, Init(c, capacity), run);
            && WellFormedSlice(s.heap, s.buffer)
            && (forall t: Ticket :: Places(s, t) == if t < s.accepted then 1 else 0)
            && s.buffer.len <= Limit(c)
            && (forall who :: FlightIntact(s, WorkerOf(s, who)))
            && |s.received| == c.backends
            && (forall b: nat, t: Ticket :: b < c.backends ==> Occ(s.received[b], t) <= 1)
            && (forall b: nat, t: Ticket :: b < c.backends ==> Occ(s.flushed, t) <= Occ(s.received[b], t))
  {
    InitInv(c, capacity);
    RunKeepsInv(c, Init(c, capacity), run);
    var s := Last(c, Init(c, capacity), run);
    forall b: nat, t: Ticket | b < c.backends ensures Occ(s.received[b], t) <= 1 {
      HandedOnce(c, s, b, t);
    }
    forall b: nat, t: Ticket | b < c.backends ensures Occ(s.flushed, t) <= Occ(s.received[b], t) {
      HandedOnce(c, s, b, t);
    }
  }

  lemma HandedOnce(c: Config, s: Sys, b: nat, t: Ticket)
    requires Inv(c, s) && b < c.backends
    ensures Occ(s.flushed, t) <= Occ(s.received[b], t) <= 1
  {
    assert Places(s, t) <= 1;
    assert Occ(s.received[b], t) == Occ(s.flushed, t) + AllHandedTo(s, b, t);
  }

  /** When `Stop` has returned, the accepted events are exactly those handed once to every backend plus
      those left in the channel, also with producers that were still inside `LogEvent`. */
  lemma StopFlushesAllButTheChannel(c: Config, capacity: nat, run: seq<Event>)
    requires IsRun(c, Init(c, capacity), run)
    requires Last(c, Init(c, capacity), run).stop.Returned?
    ensures var s := Last(c, Init(c, capacity), run);
            && |s.received| == c.backends
            && (forall t: Ticket :: Occ(s.queue, t) + Occ(s.flushed, t) == if t < s.accepted then 1 else 0)
            && (forall b: nat, t: Ticket :: b < c.backends ==> Occ(s.received[b], t) == Occ(s.flushed, t))
  {
    InitInv(c, capacity);
    RunKeepsInv(c, Init(c, capacity), run);
    var s := Last(c, Init(c, capacity), run);
    assert Contents(s.heap, s.buffer) == [];
    forall t: Ticket ensures Occ(s.queue, t) + Occ(s.flushed, t) == if t < s.accepted then 1 else 0 {
      assert Places(s, t) == if t < s.accepted then 1 else 0;
    }
    forall b: nat, t: Ticket | b < c.backends ensures Occ(s.received[b], t) == Occ(s.flushed, t) {
      assert Occ(s.received[b], t) == Occ(s.flushed, t) + AllHandedTo(s, b, t);
    }
  }

  ghost predicate NoProducer(run: seq<Event>) {
    forall i :: 0 <= i < |run| ==> !run[i].LogEvent?
  }

  lemma {:induction false} ChannelStaysEmpty(c: Config, s: Sys, run: seq<Event>)
    requires IsRun(c, s, run) && s.queue == [] && NoProducer(run)
    ensures Last(c, s, run).queue == []
    decreases |run|
  {
    if run != [] {
      ChannelStaysEmpty(c, Next(c, s, run[0]), run[1..]);
    }
  }

  lemma {:induction false} RunConcat(c: Config, s: Sys, a: seq<Event>, b: seq<Event>)
    requires IsRun(c, s, a) && IsRun(c, Last(c, s, a), b)
    ensures IsRun(c, s, a + b) && Last(c, s, a + b) == Last(c, Last(c, s, a), b)
    decreases |a|
  {
    if a == [] {
      assert a + b == b;
    } else {
      assert (a + b)[1..] == a[1..] + b;
      RunConcat(c, Next(c, s, a[0]), a[1..], b);
    }
  }

  /** What a caller can rely on: if the channel is empty when `Stop` cancels the context and nothing is
      logged afterwards, then every event ever accepted has been handed exactly once to every backend
      when `Stop` returns, whatever was received, buffered or in flight at that moment. */
  lemma StopFlushesEverythingIfDrained(c: Config, capacity: nat, before: seq<Event>, after: seq<Event>)
    requires IsRun(c, Init(c, capacity), before)
    requires var s := Last(c, Init(c, capacity), before);
             s.queue == [] && IsRun(c, s, after) && NoProducer(after) && Last(c, s, after).stop.Returned?
    ensures var f := Last(c, Last(c, Init(c, capacity), before), after);
            && |f.received| == c.backends
            && (forall t: Ticket :: Occ(f.flushed, t) == if t < f.accepted then 1 else 0)
            && (forall b: nat, t: Ticket :: b < c.backends ==> Occ(f.received[b], t) == if t < f.accepted then 1 else 0)
  {
    var s := Last(c, Init(c, capacity), before);
    RunConcat(c, Init(c, capacity), before, after);
    StopFlushesAllButTheChannel(c, capacity, before + after);
    ChannelStaysEmpty(c, s, after);
    var f := Last(c, s, after);
    forall b: nat, t: Ticket | b < c.backends ensures Occ(f.received[b], t) == if t < f.accepted then 1 else 0 {
      assert Occ(f.received[b], t) == Occ(f.flushed, t);
      assert Occ(f.queue, t) == 0;
    }
  }

  lemma {:induction false} Follow(c: Config, s: Sys, run: seq<Event>, states: seq<Sys>)
    requires |states| == |run| + 1 && states[0] == s
    requires forall i :: 0 <= i < |run| ==> Enabled(c, states[i], run[i]) && states[i + 1] == Next(c, states[i], run[i])
    ensures IsRun(c, s, run) && Last(c, s, run) == states[|run|]
    decreases |run|
  {
    if run != [] {
      Follow(c, Next(c, s, run[0]), run[1..], states[1..]);
    }
  }

  /** The channel part cannot be dropped: one event is accepted, the batching loop sees the cancellation
      before the channel, and when `Stop` has returned the event is still in the channel and no backend
      has seen it. */
  lemma StopCanLeaveEvents(c: Config, capacity: nat)
    requires c.queueSize > 0
    ensures var run := [LogEvent, CancelContext, ExitLoop, ExitTimer, WaitDone, BeginFlush(Stop)];
            && IsRun(c, Init(c, capacity), run)
            && var f := Last(c, Init(c, capacity), run);
            f.stop.Returned? && f.accepted == 1 && f.queue == [0] && f.flushed == []
            && forall b :: 0 <= b < |f.received| ==> f.received[b] == []
  {
    var s := Init(c, capacity);
    var s1 := s.(queue := [0], accepted := 1);
    var s2 := s1.(stop := Waiting);
    var s3 := s2.(loop := Exited);
    var s4 := s3.(timer := Exited);
    var s5 := s4.(stop := Final(FlushDue));
    var s6 := s5.(stop := Returned);
    assert Next(c, s, LogEvent) == s1;
    Follow(c, s, [LogEvent, CancelContext, ExitLoop, ExitTimer, WaitDone, BeginFlush(Stop)], [s, s1, s2, s3, s4, s5, s6]);
  }

  // --- Stop returns -------------------------------------------------------------------------

  /** Steps a worker has left before it can exit, when the context is cancelled. */
  function WorkLeft(w: Worker, backends: nat): nat {
    match w
    case Exited => 0
    case Idle => 1
    case Flushing(f) => if f.handed <= backends then 2 + backends - f.handed else 2
    case FlushDue => 3 + backends
    case Holding(_) => 4 + backends
  }

  function StopLeft(st: Stopper, backends: nat): nat {
    match st
    case Returned => 0
    case Final(w) => WorkLeft(w, backends)
    case Waiting => 4 + backends
    case NotCalled => 5 + backends
  }

  function Left(s: Sys): nat {
    WorkLeft(s.loop, |s.received|) + WorkLeft(s.timer, |s.received|) + StopLeft(s.stop, |s.received|)
  }

  /** The next step of a worker that has one. */
  function WorkerStep(s: Sys, who: Who): Event {
    match WorkerOf(s, who)
    case Holding(_) => AppendToBuffer(s.buffer.len + 1)
    case FlushDue => BeginFlush(who)
    case Flushing(f) => if f.handed < |s.received| then HandToBackend(who) else EndFlush(who)
    case _ => if who == Loop then ExitLoop else ExitTimer
  }

  /** What can happen next on the way to the end of `Stop`, without any producer. */
  function StoppingStep(s: Sys): Event {
    if s.stop.NotCalled? then CancelContext
    else if !s.loop.Exited? then WorkerStep(s, Loop)
    else if !s.timer.Exited? then WorkerStep(s, Timer)
    else if s.stop.Waiting? then WaitDone
    else WorkerStep(s, Stop)
  }

  lemma LoopGoesOn(c: Config, s: Sys)
    requires HeapInv(c, s) && !s.loop.Exited? && Cancelled(s)
    ensures var e := WorkerStep(s, Loop);
            Enabled(c, s, e) && !e.LogEvent? && Left(Next(c, s, e)) < Left(s)
  {
    assert FlightIntact(s, WorkerOf(s, Loop));
  }

  lemma TimerGoesOn(c: Config, s: Sys)
    requires HeapInv(c, s) && !s.timer.Exited? && Cancelled(s)
    ensures var e := WorkerStep(s, Timer);
            Enabled(c, s, e) && !e.LogEvent? && Left(Next(c, s, e)) < Left(s)
  {
    assert FlightIntact(s, WorkerOf(s, Timer));
    assert !WorkerOf(s, Timer).Holding?;
  }

  lemma StopperGoesOn(c: Config, s: Sys)
    requires HeapInv(c, s) && ControlInv(c, s) && s.stop.Final?
    ensures var e := WorkerStep(s, Stop);
            Enabled(c, s, e) && !e.LogEvent? && Left(Next(c, s, e)) < Left(s)
  {
    assert FlightIntact(s, WorkerOf(s, Stop));
  }

  /** In every reachable state there is such a step until `Stop` has returned, and it brings the end
      closer. */
  lemma StoppingGoesOn(c: Config, s: Sys)
    requires Inv(c, s) && !s.stop.Returned?
    ensures var e := StoppingStep(s);
            Enabled(c, s, e) && !e.LogEvent? && Left(Next(c, s, e)) < Left(s)
  {
    if !s.stop.NotCalled? {
      if !s.loop.Exited? {
        LoopGoesOn(c, s);
      } else if !s.timer.Exited? {
        TimerGoesOn(c, s);
      } else if s.stop.Final? {
        StopperGoesOn(c, s);
      }
    }
  }

  ghost predicate CanStop(c: Config, s: Sys) {
    exists run :: IsRun(c, s, run) && NoProducer(run) && Last(c, s, run).stop.Returned?
  }

  lemma CanStopLater(c: Config, s: Sys, e: Event)
    requires Enabled(c, s, e) && !e.LogEvent? && CanStop(c, Next(c, s, e))
    ensures CanStop(c, s)
  {
    var rest :| IsRun(c, Next(c, s, e), rest) && NoProducer(rest) && Last(c, Next(c, s, e), rest).stop.Returned?;
    var run := [e] + rest;
    assert run[1..] == rest;
    assert IsRun(c, s, run) && NoProducer(run);
  }

  /** No deadlock: from every reachable state the system can run, without any producer, to a state in
      which `Stop` has returned. */
  lemma {:induction false} StopCanAlwaysReturn(c: Config, s: Sys)
    requires Inv(c, s)
    ensures CanStop(c, s)
    decreases Left(s)
  {
    if s.stop.Returned? {
      assert IsRun(c, s, []) && NoProducer([]) && Last(c, s, []) == s;
    } else {
      StoppingGoesOn(c, s);
      StepKeepsInv(c, s, StoppingStep(s));
      StopCanAlwaysReturn(c, Next(c, s, StoppingStep(s)));
      CanStopLater(c, s, StoppingStep(s));
    }
  }

  // --- Everything can be flushed ------------------------------------------------------------

  function DrainLeft(s: Sys): nat {
    var b := |s.received|;
    |s.queue| * (20 + 4 * b)
    + WorkLeft(s.loop, b) + (if s.loop.Holding? then 4 + b else 0)
    + WorkLeft(s.timer, b)
    + (if s.buffer.len > 0 && !s.timer.FlushDue? then 3 + b else 0)
  }

  /** Nothing accepted is under way. */
  predicate Drained(s: Sys) {
    s.loop.Idle? && s.timer.Idle? && s.queue == [] && s.buffer.len == 0
  }

  function DrainStep(s: Sys): Event {
    if !s.loop.Idle? then WorkerStep(s, Loop)
    else if s.queue != [] then Receive
    else if !s.timer.Idle? then WorkerStep(s, Timer)
    else TimerFires
  }

  lemma ReceiveDrains(c: Config, s: Sys)
    requires s.loop.Idle? && s.queue != []
    ensures Enabled(c, s, Receive) && DrainLeft(Next(c, s, Receive)) < DrainLeft(s)
  {
    var k, b := |s.queue| - 1, |s.received|;
    assert (k + 1) * (20 + 4 * b) == k * (20 + 4 * b) + (20 + 4 * b);
  }

  lemma LoopDrains(c: Config, s: Sys)
    requires HeapInv(c, s) && !s.loop.Idle? && !s.loop.Exited?
    ensures var e := WorkerStep(s, Loop);
            Enabled(c, s, e) && !e.LogEvent? && DrainLeft(Next(c, s, e)) < DrainLeft(s)
  {
    assert FlightIntact(s, WorkerOf(s, Loop));
  }

  lemma TimerDrains(c: Config, s: Sys)
    requires HeapInv(c, s) && !s.timer.Idle? && !s.timer.Exited?
    ensures var e := WorkerStep(s, Timer);
            Enabled(c, s, e) && !e.LogEvent? && DrainLeft(Next(c, s, e)) < DrainLeft(s)
  {
    assert FlightIntact(s, WorkerOf(s, Timer));
    assert !WorkerOf(s, Timer).Holding?;
  }

  lemma DrainGoesOn(c: Config, s: Sys)
    requires HeapInv(c, s) && !s.loop.Exited? && !s.timer.Exited? && !Drained(s)
    ensures var e := DrainStep(s);
            && Enabled(c, s, e) && !e.LogEvent? && DrainLeft(Next(c, s, e)) < DrainLeft(s)
            && !Next(c, s, e).loop.Exited? && !Next(c, s, e).timer.Exited? && Next(c, s, e).accepted == s.accepted
  {
    if !s.loop.Idle? {
      LoopDrains(c, s);
    } else if s.queue != [] {
      ReceiveDrains(c, s);
    } else if !s.timer.Idle? {
      TimerDrains(c, s);
    }
  }

  ghost predicate CanDrain(c: Config, s: Sys) {
    exists run :: IsRun(c, s, run) && NoProducer(run) && Drained(Last(c, s, run)) && Last(c, s, run).accepted == s.accepted
  }

  lemma CanDrainLater(c: Config, s: Sys, e: Event)
    requires Enabled(c, s, e) && !e.LogEvent? && CanDrain(c, Next(c, s, e)) && Next(c, s, e).accepted == s.accepted
    ensures CanDrain(c, s)
  {
    var rest :| IsRun(c, Next(c, s, e), rest) && NoProducer(rest) && Drained(Last(c, Next(c, s, e), rest))
                && Last(c, Next(c, s, e), rest).accepted == s.accepted;
    var run := [e] + rest;
    assert run[1..] == rest;
    assert IsRun(c, s, run) && NoProducer(run);
  }

  /** While both loops run, every accepted event can be flushed without waiting for more: from every
      reachable state there is a run without producers after which nothing is in the channel, in the
      buffer or in flight, the timer flushing what does not fill a batch. */
  lemma {:induction false} CanAlwaysDrain(c: Config, s: Sys)
    requires Inv(c, s) && !s.loop.Exited? && !s.timer.Exited?
    ensures CanDrain(c, s)
    decreases DrainLeft(s)
  {
    if Drained(s) {
      assert IsRun(c, s, []) && NoProducer([]) && Last(c, s, []) == s;
    } else {
      DrainGoesOn(c, s);
      StepKeepsInv(c, s, DrainStep(s));
      CanAlwaysDrain(c, Next(c, s, DrainStep(s)));
      CanDrainLater(c, s, DrainStep(s));
    }
  }

  /** And then each accepted event has been handed to every backend exactly once. */
  lemma DrainedIsFlushed(c: Config, s: Sys)
    requires Inv(c, s) && Drained(s) && !s.stop.Final?
    ensures forall t: Ticket :: Occ(s.flushed, t) == if t < s.accepted then 1 else 0
    ensures forall b: nat, t: Ticket :: b < |s.received| ==> Occ(s.received[b], t) == Occ(s.flushed, t)
  {
    assert Contents(s.heap, s.buffer) == [];
    forall t: Ticket ensures Occ(s.flushed, t) == if t < s.accepted then 1 else 0 {
      assert Places(s, t) == if t < s.accepted then 1 else 0;
    }
    forall b: nat, t: Ticket | b < |s.received| ensures Occ(s.received[b], t) == Occ(s.flushed, t) {
      assert Occ(s.received[b], t) == Occ(s.flushed, t) + AllHandedTo(s, b, t);
    }
  }
}
