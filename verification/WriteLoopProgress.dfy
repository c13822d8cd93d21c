/**
 Progress of the write loop: with no further enqueues and no failure, every run of producer and writer
 steps is finite, and it can only end at rest with everything delivered. A writer may loop once more on a
 stale reading of the queue length and find nothing to write, so the measure weighs a thread differently
 while the queue is empty and while it is not.
 */
module WriteLoopProgress {
  import opened Common
  import opened Totals
  import opened WriteLoop
  import opened WriteLoopInvariant
  import opened WriteLoopSteps
  import opened WriteLoopSafety
  import opened WriteLoopTheorems

  /** Steps of producers inside a call and of writers, except new enqueues and failures. */
  ghost predicate Draining(e: Event)
  {
    match e
    case Produce(_, pe) => !pe.Begin? && !pe.Send?
    case Write(_, we) => !we.WritevFail? && !we.FlushFail?
    case Close(_, _) => false
    case Outside(_) => false
  }

  /** How many steps a writer can still take before it polls a packet or ends. */
  function WriterWork(w: Writer, waiting: bool, cap: nat): nat
  {
    if waiting then
      match w
      case Polling(n) => if n < cap then 1 else cap + 5
      case Writing(n) => cap + 4
      case Recycling(n, i) => if i <= n <= cap then 2 + n - i else 0
      case ReadLen => 2
      case Flushing => 5
      case Storing => 4
      case ReadAgain => 3
      case Retaking => 2
      case _ => 0
    else
      match w
      case Polling(n) => cap + 6
      case Writing(n) => cap + 5
      case Recycling(n, i) => if i <= n <= cap then 4 + n - i else 0
      case ReadLen => 4
      case Flushing => 3
      case Storing => 2
      case ReadAgain => 1
      case Retaking => cap + 7
      case _ => 0
  }

  function ProducerWork(p: Producer, cap: nat): nat
  {
    match p
    case Ready => 0
    case NeedBuf(_, _) => 3
    case Holding(_, _, _) => 2
    case Filled(_, _, _) => 1
    case Sent(_, _) => cap + 8
    case Won(_, _) => cap + 7
  }

  function WriterWeight(waiting: bool, cap: nat): Writer -> nat { (w: Writer) => WriterWork(w, waiting, cap) }
  function ProducerWeight(cap: nat): Producer -> nat { (p: Producer) => ProducerWork(p, cap) }
  function WriterAlive(w: Writer): nat { if w.Finished? then 0 else 1 }
  function ProducerAlive(p: Producer): nat { if p.Ready? then 0 else 1 }

  ghost function Alive(s: State): nat { Total(s.producers, ProducerAlive) + Total(s.writers, WriterAlive) }

  ghost function Work(s: State): nat
  {
    var cap := |s.arrays.send|;
    Total(s.producers, ProducerWeight(cap)) + Total(s.writers, WriterWeight(s.queue != [], cap))
  }

  /** A bound on the work of all threads, whatever the queue does. */
  ghost function Bound(s: State): nat { (|s.arrays.send| + 8) * Alive(s) + 1 }

  /** The measure: each queued packet pays for one more round of every thread. */
  ghost function Rank(s: State): nat { |s.queue| * Bound(s) + Work(s) }

  lemma WorkIsBounded(s: State)
    ensures Work(s) < Bound(s)
  {
    var cap := |s.arrays.send|;
    forall p: Producer ensures ProducerWork(p, cap) <= (cap + 8) * ProducerAlive(p) {
      assert p.Ready? || ProducerAlive(p) == 1;
    }
    forall w: Writer ensures WriterWork(w, s.queue != [], cap) <= (cap + 8) * WriterAlive(w) {
      assert w.Finished? || WriterAlive(w) == 1;
    }
    TotalBound(s.producers, ProducerWeight(cap), ProducerAlive, cap + 8);
    TotalBound(s.writers, WriterWeight(s.queue != [], cap), WriterAlive, cap + 8);
    MulDist(cap + 8, Total(s.producers, ProducerAlive), Total(s.writers, WriterAlive));
  }

  lemma MulDist(k: nat, a: nat, b: nat)
    ensures k * (a + b) == k * a + k * b
  {
  }

  /** Replacing one writer changes work and liveness by that writer's share (for a fixed reading of the queue). */
  lemma WriterShare(ws: seq<Writer>, w: nat, x: Writer, waiting: bool, cap: nat)
    requires w < |ws|
    ensures Total(ws[w := x], WriterWeight(waiting, cap)) + WriterWork(ws[w], waiting, cap)
         == Total(ws, WriterWeight(waiting, cap)) + WriterWork(x, waiting, cap)
    ensures Total(ws[w := x], WriterAlive) + WriterAlive(ws[w]) == Total(ws, WriterAlive) + WriterAlive(x)
  {
    TotalUpdate(ws, w, x, WriterWeight(waiting, cap));
    TotalUpdate(ws, w, x, WriterAlive);
  }

  lemma ProducerShare(ps: seq<Producer>, p: nat, x: Producer, cap: nat)
    requires p < |ps|
    ensures Total(ps[p := x], ProducerWeight(cap)) + ProducerWork(ps[p], cap)
         == Total(ps, ProducerWeight(cap)) + ProducerWork(x, cap)
    ensures Total(ps[p := x], ProducerAlive) + ProducerAlive(ps[p]) == Total(ps, ProducerAlive) + ProducerAlive(x)
  {
    TotalUpdate(ps, p, x, ProducerWeight(cap));
    TotalUpdate(ps, p, x, ProducerAlive);
  }

  /** The writer itself comes one step further. */
  lemma OwnWork(s: State, w: nat, e: WriterEvent)
    requires Positions(s) && Flush(s) && !s.net.failed && WriterEnabled(s, w, e)
    requires !e.WritevFail? && !e.FlushFail? && !e.Poll?
    ensures var t := WriterStep(s, w, e); var cap := |s.arrays.send|;
      && t.queue == s.queue && |t.arrays.send| == cap && t.producers == s.producers
      && t.writers == s.writers[w := t.writers[w]] && !s.writers[w].Finished?
      && WriterWork(t.writers[w], s.queue != [], cap) < WriterWork(s.writers[w], s.queue != [], cap)
  {
    assert Fits(s.writers[w], |s.arrays.recycle|);
  }

  /** A failure-free writer step that leaves the queue alone takes one step's work away. */
  lemma WriterWorks(s: State, w: nat, e: WriterEvent)
    requires Positions(s) && Flush(s) && !s.net.failed && WriterEnabled(s, w, e)
    requires !e.WritevFail? && !e.FlushFail? && !e.Poll?
    ensures var t := WriterStep(s, w, e); Work(t) < Work(s) && Alive(t) <= Alive(s) && Bound(t) <= Bound(s)
    ensures WriterStep(s, w, e).queue == s.queue
  {
    var t := WriterStep(s, w, e);
    OwnWork(s, w, e);
    WriterShare(s.writers, w, t.writers[w], s.queue != [], |s.arrays.send|);
    MulMono(|s.arrays.send| + 8, Alive(t), Alive(s));
  }

  lemma MulMono(k: nat, a: nat, b: nat)
    requires a <= b
    ensures k * a <= k * b
  {
  }

  lemma PollWorks(s: State, w: nat)
    requires Positions(s) && WriterEnabled(s, w, Poll)
    ensures var t := WriterStep(s, w, Poll); Alive(t) == Alive(s) && Bound(t) == Bound(s) && |t.queue| + 1 == |s.queue|
  {
    var t := WriterStep(s, w, Poll);
    WriterShare(s.writers, w, t.writers[w], true, 0);
  }

  /** The producer itself comes one step further; the writer it spawns has less to do than it had. */
  lemma OwnProducerWork(s: State, p: nat, e: ProducerEvent)
    requires Positions(s) && ProducerEnabled(s, p, e) && !e.Begin? && !e.Send?
    ensures var t := ProducerStep(s, p, e); var cap := |s.arrays.send|; var was, now := s.producers[p], t.producers[p];
      && p < |s.producers| && t.queue == s.queue && |t.arrays.send| == cap
      && t.producers == s.producers[p := now] && t.writers == (if e.Spawn? then s.writers + [Polling(0)] else s.writers)
      && ProducerWork(now, cap) + (if e.Spawn? then WriterWork(Polling(0), s.queue != [], cap) else 0) < ProducerWork(was, cap)
      && ProducerAlive(now) + (if e.Spawn? then 1 else 0) <= ProducerAlive(was)
  {
  }

  lemma ProducerWorks(s: State, p: nat, e: ProducerEvent)
    requires Positions(s) && ProducerEnabled(s, p, e) && !e.Begin? && !e.Send?
    ensures var t := ProducerStep(s, p, e); Work(t) < Work(s) && Alive(t) <= Alive(s) && Bound(t) <= Bound(s)
    ensures ProducerStep(s, p, e).queue == s.queue
  {
    hide ProducerStep, ProducerEnabled, ProducerWork, Positions;
    var t := ProducerStep(s, p, e);
    var cap := |s.arrays.send|;
    OwnProducerWork(s, p, e);
    ProducerShare(s.producers, p, t.producers[p], cap);
    if e.Spawn? {
      TotalSnoc(s.writers, Polling(0), WriterWeight(s.queue != [], cap));
      TotalSnoc(s.writers, Polling(0), WriterAlive);
    }
    MulMono(cap + 8, Alive(t), Alive(s));
  }

  /** One packet fewer pays for anything the threads may have to do again. */
  lemma PollPays(q: nat, bound: nat, before: nat, after: nat)
    requires after < bound
    ensures q * bound + after < (q + 1) * bound + before
  {
  }

  /** Less work for threads on the same queue is a smaller measure. */
  lemma WorkedOff(s: State, t: State)
    requires t.queue == s.queue && Work(t) < Work(s) && Bound(t) <= Bound(s)
    ensures Rank(t) < Rank(s)
  {
    hide Work, Bound;
    MulMono(|s.queue|, Bound(t), Bound(s));
  }

  /** So is one packet fewer in the queue, whatever the threads have to do. */
  lemma PolledOff(s: State, t: State)
    requires |t.queue| + 1 == |s.queue| && Work(t) < Bound(t) == Bound(s)
    ensures Rank(t) < Rank(s)
  {
    hide Work, Bound;
    PollPays(|t.queue|, Bound(s), Work(s), Work(t));
  }

  lemma InvParts(s: State)
    requires Inv(s)
    ensures Positions(s) && Flush(s)
  {
  }

  /** A failure can only come from the events left out. */
  lemma StaysWhole(s: State, w: nat, e: WriterEvent)
    requires WriterEnabled(s, w, e) && !s.net.failed && !e.WritevFail? && !e.FlushFail?
    ensures !WriterStep(s, w, e).net.failed
  {
  }

  lemma WriterDecreases(s: State, w: nat, e: WriterEvent)
    requires Inv(s) && !s.net.failed && WriterEnabled(s, w, e) && !e.WritevFail? && !e.FlushFail?
    ensures var t := WriterStep(s, w, e); Rank(t) < Rank(s) && !t.net.failed
  {
    hide WriterEnabled, WriterStep, Rank, Work, Bound, Alive, Positions, Flush;
    var t := WriterStep(s, w, e);
    StaysWhole(s, w, e);
    InvParts(s);
    if e.Poll? {
      PollWorks(s, w);
      WorkIsBounded(t);
      PolledOff(s, t);
    } else {
      WriterWorks(s, w, e);
      WorkedOff(s, t);
    }
  }

  /** Every draining step decreases the measure. */
  lemma DrainingDecreases(s: State, e: Event)
    requires Inv(s) && !s.net.failed && Enabled(s, e) && Draining(e)
    ensures Rank(Step(s, e)) < Rank(s) && !Step(s, e).net.failed
  {
    match e
    case Produce(p, pe) =>
      ProducerWorks(s, p, pe);
      WorkedOff(s, Step(s, e));
    case Write(w, we) => WriterDecreases(s, w, we);
  }

  ghost predicate IsDrain(s: State, es: seq<Event>)
  {
    IsRun(s, es) && forall i :: 0 <= i < |es| ==> Draining(es[i])
  }

  /** A run without new enqueues and failures takes at most `Rank` steps. */
  lemma {:induction false} DrainsAreFinite(s: State, es: seq<Event>)
    requires Inv(s) && !s.net.failed && IsDrain(s, es)
    ensures |es| + Rank(After(s, es)) <= Rank(s)
    ensures Inv(After(s, es)) && !After(s, es).net.failed
    decreases |es|
  {
    hide Inv, Rank;
    if es != [] {
      assert Draining(es[0]);
      DrainingDecreases(s, es[0]);
      StepKeepsInv(s, es[0]);
      DrainsAreFinite(Step(s, es[0]), es[1..]);
    }
  }

  /** What the threads on their way to, or inside, the write loop do: the compare-and-swap, the spawn, a writer's steps. */
  ghost predicate Waking(e: Event)
  {
    match e
    case Produce(_, pe) => pe.CasIdle? || pe.Spawn?
    case Write(_, we) => !we.WritevFail? && !we.FlushFail?
    case Close(_, _) => false
    case Outside(_) => false
  }

  /** A writer that has not finished can always take a step. */
  lemma WriterCanMove(s: State, w: nat) returns (e: WriterEvent)
    requires Inv(s) && !s.net.failed && w < |s.writers| && !s.writers[w].Finished?
    ensures WriterEnabled(s, w, e) && !e.WritevFail? && !e.FlushFail?
  {
    match s.writers[w]
    case Polling(n) => e := if n < |s.arrays.send| && s.queue != [] then Poll else EndBatch;
    case Writing(n) =>
      BatchIsUnwritten(s, w);
      e := WritevOk({}, |s.net.out + Concat(EntryBytes(BatchEntries(s, n)))|);
    case Recycling(n, i) =>
      SoleWriter(s, w);
      e := Recycle;
    case ReadLen => e := LoadLen;
    case Flushing => e := FlushOk;
    case Storing => e := StoreIdle;
    case ReadAgain => e := LoadLenAgain;
    case Retaking => e := CasAgain;
    case _ => e := PanicStore;
  }

  /** Where nothing can move, everything is at rest. */
  lemma NotQuiescentMoves(s: State) returns (e: Event)
    requires Inv(s) && !s.net.failed && !Quiescent(s)
    ensures Enabled(s, e) && Waking(e)
  {
    if p :| 0 <= p < |s.producers| && (s.producers[p].Sent? || s.producers[p].Won?) {
      e := Produce(p, if s.producers[p].Sent? then CasIdle else Spawn);
    } else {
      var w :| 0 <= w < |s.writers| && !s.writers[w].Finished?;
      var we := WriterCanMove(s, w);
      e := Write(w, we);
    }
  }

  /**
   A drain after which no thread of the write loop can move has delivered everything: all accepted bytes are
   written and flushed. (Callers may still be blocked in their sends.)
   */
  lemma StuckIsDelivered(s: State, es: seq<Event>)
    requires Reachable(s) && !s.net.failed && IsDrain(s, es)
    requires forall e :: Waking(e) ==> !Enabled(After(s, es), e)
    ensures var t := After(s, es);
      && Quiescent(t) && t.queue == [] && !t.running
      && t.net.out == Concat(Data(t.book.accepted)) && t.net.flushed == |t.net.out|
  {
    ReachableHasInv(s);
    DrainsAreFinite(s, es);
    var t := After(s, es);
    if !Quiescent(t) {
      var e := NotQuiescentMoves(t);
      assert false;
    }
    QuiescentDelivered(t);
  }

  lemma DrainOneMore(s: State, e: Event, rest: seq<Event>)
    requires Enabled(s, e) && Draining(e) && IsDrain(Step(s, e), rest)
    ensures IsDrain(s, [e] + rest) && After(s, [e] + rest) == After(Step(s, e), rest)
  {
  }

  /** From every failure-free state the threads by themselves come to rest. */
  lemma {:induction false} DrainExists(s: State) returns (es: seq<Event>)
    requires Inv(s) && !s.net.failed
    ensures IsDrain(s, es) && |es| <= Rank(s) && Quiescent(After(s, es))
    decreases Rank(s)
  {
    if Quiescent(s) {
      es := [];
    } else {
      var e := NotQuiescentMoves(s);
      DrainingDecreases(s, e);
      StepKeepsInv(s, e);
      var rest := DrainExists(Step(s, e));
      DrainOneMore(s, e, rest);
      es := [e] + rest;
    }
  }
}
