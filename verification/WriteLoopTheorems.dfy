/** What the write loop guarantees in every reachable state. */
module WriteLoopTheorems {
  import opened Common
  import opened Totals
  import opened WriteLoop
  import opened WriteLoopInvariant
  import opened WriteLoopSteps
  import opened WriteLoopSafety

  ghost predicate Reachable(s: State)
  {
    exists start: State, es: seq<Event> :: Init(start) && IsRun(start, es) && After(start, es) == s
  }

  lemma ReachableHasInv(s: State)
    requires Reachable(s)
    ensures Inv(s)
  {
    var start: State, es: seq<Event> :| Init(start) && IsRun(start, es) && After(start, es) == s;
    InitInv(start);
    ReachableInv(start, es);
  }

  // ---------------------------------------------------------------- nothing lost, duplicated or reordered

  ghost function Data(accepted: seq<Accepted>): seq<seq<byte>>
  {
    seq(|accepted|, i requires 0 <= i < |accepted| => accepted[i].data)
  }

  ghost function Payloads(heap: map<Buf, seq<byte>>, ps: seq<Packet>): (r: seq<seq<byte>>)
    ensures |r| == |ps|
  {
    seq(|ps|, i requires 0 <= i < |ps| => Payload(heap, ps[i]))
  }

  /** Without a failure, written and unwritten packets together are the accepted ones, in order. */
  lemma PacketsInOrder(u: seq<Packet>, accepted: seq<Accepted>, log: seq<Entry>, heap: map<Buf, seq<byte>>)
    requires OrderOf(u, accepted, log, false) && AllIntact(u, accepted, heap)
    ensures EntryBytes(log) + Payloads(heap, u) == Data(accepted)
  {
  }

  lemma PayloadBytesAppend(heap: map<Buf, seq<byte>>, a: seq<Packet>, b: seq<Packet>)
    ensures Concat(Payloads(heap, a + b)) == Concat(Payloads(heap, a)) + Concat(Payloads(heap, b))
  {
    assert Payloads(heap, a + b) == Payloads(heap, a) + Payloads(heap, b);
    ConcatAppend(Payloads(heap, a), Payloads(heap, b));
  }

  /**
   Without a failure, the bytes given to the transport, then the unwritten part of the batch, then
   the queue, are exactly the supplied bytes of the accepted packets in the order of acceptance.
   */
  lemma NothingLost(s: State)
    requires Reachable(s) && !s.net.failed
    ensures Unsent(s) <= |s.arrays.recycle|
    ensures var batch := Live(s.arrays.recycle[0..Unsent(s)]);
      s.net.out + Concat(Payloads(s.mem.heap, batch)) + Concat(Payloads(s.mem.heap, s.queue))
        == Concat(Data(s.book.accepted))
  {
    ReachableHasInv(s);
    var batch := Live(s.arrays.recycle[0..Unsent(s)]);
    PacketsInOrder(batch + s.queue, s.book.accepted, s.net.log, s.mem.heap);
    ConcatAppend(EntryBytes(s.net.log), Payloads(s.mem.heap, batch + s.queue));
    PayloadBytesAppend(s.mem.heap, batch, s.queue);
    ConcatAssoc(s.net.out, Concat(Payloads(s.mem.heap, batch)), Concat(Payloads(s.mem.heap, s.queue)));
  }

  /**
   Whatever failed: the transport got a duplicate-free, in-order selection of the accepted packets, each with
   its caller's bytes; only of the last packet of a `Writev` that failed may it have got no more than the start.
   */
  lemma OrderSurvivesFailure(s: State)
    requires Reachable(s)
    ensures s.net.out == Concat(EntryBytes(s.net.log))
    ensures forall i, j :: 0 <= i < j < |s.net.log| ==> s.net.log[i].no < s.net.log[j].no
    ensures forall j :: 0 <= j < |s.net.log| ==>
      s.net.log[j].no < |s.book.accepted| && s.net.log[j].bytes <= s.book.accepted[s.net.log[j].no].data
    ensures forall j :: 0 <= j < |s.net.log| && j + 1 !in s.net.cuts ==>
      s.net.log[j].no < |s.book.accepted| && s.net.log[j].bytes == s.book.accepted[s.net.log[j].no].data
  {
    ReachableHasInv(s);
  }

  /** A finished call that supplied bytes was told `(len, nil)` exactly when its packet was accepted, and then once. */
  lemma CallersAreTold(s: State, c: nat)
    requires Reachable(s) && c in s.book.results && c < |s.book.calls| && s.book.calls[c] != []
    ensures s.book.results[c] == Return(|s.book.calls[c]|, Nil) <==>
      exists i :: 0 <= i < |s.book.accepted| && s.book.accepted[i] == Accepted(c, s.book.calls[c])
    ensures forall i, j :: 0 <= i < j < |s.book.accepted| ==> s.book.accepted[i].call != s.book.accepted[j].call
  {
    ReachableHasInv(s);
    assert ResultOk(s, c);
    if WasAccepted(s.book.accepted, c) {
      var i :| 0 <= i < |s.book.accepted| && s.book.accepted[i].call == c;
      assert s.book.accepted[i] == Accepted(c, s.book.calls[c]);
    }
  }

  /** A packet refused for want of space is in no queue, batch or write. */
  lemma RefusedNeverAppears(s: State, c: nat)
    requires Reachable(s) && c in s.book.results && s.book.results[c].err == NoSpace
    ensures forall j :: 0 <= j < |s.net.log| ==>
      s.net.log[j].no < |s.book.accepted| && s.book.accepted[s.net.log[j].no].call != c
    ensures forall j :: 0 <= j < |InFlight(s)| ==>
      InFlight(s)[j].no < |s.book.accepted| && s.book.accepted[InFlight(s)[j].no].call != c
  {
    ReachableHasInv(s);
    assert ResultOk(s, c);
    assert !WasAccepted(s.book.accepted, c);
    forall i | 0 <= i < |s.book.accepted| ensures s.book.accepted[i].call != c {}
  }

  // ---------------------------------------------------------------- single ownership, flush before idle

  datatype Thread = ByProducer(p: nat) | ByWriter(w: nat)

  ghost predicate IsHolder(s: State, h: Thread)
  {
    match h
    case ByProducer(p) => p < |s.producers| && s.producers[p].Won?
    case ByWriter(w) => w < |s.writers| && WriterHolds(s.writers[w]) == 1
  }

  /** `running` is set exactly when some thread holds it, and never two do, on the panic path included. */
  lemma SingleHolder(s: State)
    requires Reachable(s)
    ensures s.running <==> exists h: Thread :: IsHolder(s, h)
    ensures forall g: Thread, h: Thread :: IsHolder(s, g) && IsHolder(s, h) ==> g == h
  {
    ReachableHasInv(s);
    if s.running {
      if Total(s.producers, ProducerHolds) > 0 {
        var p := TotalPositive(s.producers, ProducerHolds);
        assert IsHolder(s, ByProducer(p));
      } else {
        var w := TotalPositive(s.writers, WriterHolds);
        assert IsHolder(s, ByWriter(w));
      }
    }
    forall g: Thread, h: Thread | IsHolder(s, g) && IsHolder(s, h) ensures g == h && s.running {
      HolderCounts(s, g);
      HolderCounts(s, h);
      if g.ByProducer? && h.ByProducer? {
        if g.p < h.p { TotalTwo(s.producers, g.p, h.p, ProducerHolds); }
        if h.p < g.p { TotalTwo(s.producers, h.p, g.p, ProducerHolds); }
      } else if g.ByWriter? && h.ByWriter? {
        if g.w < h.w { TotalTwo(s.writers, g.w, h.w, WriterHolds); }
        if h.w < g.w { TotalTwo(s.writers, h.w, g.w, WriterHolds); }
      }
    }
  }

  lemma HolderCounts(s: State, h: Thread)
    requires IsHolder(s, h)
    ensures Holders(s) >= 1
    ensures h.ByProducer? ==> Total(s.producers, ProducerHolds) >= 1
    ensures h.ByWriter? ==> Total(s.writers, WriterHolds) >= 1
  {
    match h
    case ByProducer(p) => TotalUpdate(s.producers, p, s.producers[p], ProducerHolds);
    case ByWriter(w) => TotalUpdate(s.writers, w, s.writers[w], WriterHolds);
  }

  /** Two writers never both have a batch: the shared arrays are used by one writer at a time. */
  lemma ArraysNotShared(s: State, v: nat, w: nat)
    requires Reachable(s) && v < |s.writers| && w < |s.writers| && v != w
    ensures WriterHi(s.writers[v]) == 0 || WriterHi(s.writers[w]) == 0
  {
    SingleHolder(s);
    if WriterHi(s.writers[v]) > 0 && WriterHi(s.writers[w]) > 0 {
      assert IsHolder(s, ByWriter(v)) && IsHolder(s, ByWriter(w));
      assert false;
    }
  }

  lemma IdleDelivers(s: State)
    requires Inv(s) && !s.running && !s.net.failed
    ensures s.net.flushed == |s.net.out|
    ensures |s.queue| <= |s.book.accepted|
    ensures s.net.out == Concat(Data(s.book.accepted[..|s.book.accepted| - |s.queue|]))
  {
    NoWriter(s);
    assert Unwritten(s) == s.queue;
    assert EntryBytes(s.net.log) == Data(s.book.accepted[..|s.book.accepted| - |s.queue|]);
  }

  /**
   When `running` is read idle and nothing failed (as `Close` does before closing the transport),
   every written byte is flushed, and exactly the packets still queued are undelivered.
   */
  lemma IdleMeansFlushed(s: State)
    requires Reachable(s) && !s.running && !s.net.failed
    ensures s.net.flushed == |s.net.out|
    ensures |s.queue| <= |s.book.accepted|
    ensures s.net.out == Concat(Data(s.book.accepted[..|s.book.accepted| - |s.queue|]))
  {
    ReachableHasInv(s);
    IdleDelivers(s);
  }

  /** A call of `Close` that stops waiting has seen `running` idle, or gave up after ten rounds. */
  lemma CloseStopsWaiting(s: State, c: nat)
    requires Reachable(s) && CloserEnabled(s, c, StopWaiting)
    ensures s.running ==> !s.cfg.untilWrite && s.closing.closers[c].rounds >= 10
    ensures !s.running && !s.net.failed ==> s.net.flushed == |s.net.out|
    ensures !s.running && !s.net.failed && s.queue != [] ==> Attended(s)
  {
    ReachableHasInv(s);
  }

  /** Only one call of `Close` gets past the compare-and-swap on `closed`. */
  lemma OneCloser(s: State, c: nat, d: nat)
    requires Reachable(s) && c < d < |s.closing.closers|
    ensures CloserPassed(s.closing.closers[c]) + CloserPassed(s.closing.closers[d]) <= 1
  {
    ReachableHasInv(s);
    TotalTwo(s.closing.closers, c, d, CloserPassed);
  }

  // ---------------------------------------------------------------- no lost wakeup

  /**
   A queue that is not empty while `running` is idle is still looked after: by a producer between its
   send and its compare-and-swap, or by a writer between its store of idle and its own compare-and-swap.
   */
  lemma NoLostWakeup(s: State)
    requires Reachable(s) && s.queue != [] && !s.running && !s.net.failed
    ensures || (exists p :: 0 <= p < |s.producers| && s.producers[p].Sent?)
            || (exists w :: 0 <= w < |s.writers| && (s.writers[w].ReadAgain? || s.writers[w].Retaking?))
  {
    ReachableHasInv(s);
  }

  /** No thread is on its way to, or inside, the write loop. */
  ghost predicate Quiescent(s: State)
  {
    && (forall p :: 0 <= p < |s.producers| ==> !s.producers[p].Sent? && !s.producers[p].Won?)
    && (forall w :: 0 <= w < |s.writers| ==> s.writers[w].Finished?)
  }

  lemma QuiescentIdle(s: State)
    requires Inv(s) && Quiescent(s)
    ensures !s.running && (!s.net.failed ==> s.queue == [])
  {
    if s.running {
      if Total(s.producers, ProducerHolds) > 0 {
        var p := TotalPositive(s.producers, ProducerHolds);
        assert false;
      } else {
        var w := TotalPositive(s.writers, WriterHolds);
        assert false;
      }
    }
    assert Wakeup(s);
  }

  /** At rest and without a failure, every accepted byte has been written and flushed. */
  lemma QuiescentDelivered(s: State)
    requires Inv(s) && Quiescent(s) && !s.net.failed
    ensures !s.running && s.queue == []
    ensures s.net.out == Concat(Data(s.book.accepted)) && s.net.flushed == |s.net.out|
  {
    QuiescentIdle(s);
    IdleDelivers(s);
    assert s.book.accepted[..|s.book.accepted| - 0] == s.book.accepted;
  }

  // ---------------------------------------------------------------- buffers

  /** A buffer has at most one owner: it is in the pool, with another user, with one producer, or in one packet. */
  lemma OneOwner(s: State, b: Buf)
    requires Reachable(s)
    ensures s.mem.pool[b] + s.mem.outside[b] + ProducersOf(s.producers, b) + PacketsIn(InFlight(s), b) <= 1
  {
    ReachableHasInv(s);
    assert OwnedOnce(s, b);
  }

  /** Recycling returns a buffer nobody else owns, whose packet was written whole by a `Writev` that returned. */
  lemma RecycledAfterWrite(s: State, w: nat)
    requires Reachable(s) && WriterEnabled(s, w, Recycle)
    ensures var p := s.arrays.recycle[s.writers[w].i].value;
      && p.no < |s.book.accepted| && Entry(p.no, s.book.accepted[p.no].data) in s.net.log
      && p.buf !in s.mem.pool && p.buf !in s.mem.outside && ProducersOf(s.producers, p.buf) == 0
      && PacketsIn(InFlight(WriterStep(s, w, Recycle)), p.buf) == 0
    ensures var i, t := s.writers[w].i, WriterStep(s, w, Recycle);
      i < |t.arrays.send| && i < |t.arrays.recycle| && t.arrays.send[i] == t.arrays.recycle[i] == None
  {
    ReachableHasInv(s);
    var p := s.arrays.recycle[s.writers[w].i].value;
    var t := WriterStep(s, w, Recycle);
    RecycleMoves(s, w);
    PacketsInAppend([p], InFlight(t), p.buf);
    PacketsInOne(p, p.buf);
    assert OwnedOnce(s, p.buf);
    assert |InFlight(t)| >= |s.queue|;
    assert InFlight(s)[0] == p;
    assert IsWritten(s.book.accepted, s.net.log, InFlight(s)[0]);
  }

  /**
   No buffer is lost: every event of a caller or a writer keeps the number of its owners, but for a new buffer, a
   caller that gives up its call, and a batch whose write failed.
   */
  lemma NothingLeaks(s: State, e: Event, b: Buf)
    requires Reachable(s) && Enabled(s, e) && (e.Produce? || e.Write?)
    requires e.Produce? ==> !GivesUp(e.pe)
    requires e.Write? ==> !e.we.WritevFail?
    ensures Owners(Step(s, e), b) == Owners(s, b) + (if e.Produce? && e.pe.GetFresh? && e.pe.b == b then 1 else 0)
  {
    ReachableHasInv(s);
    match e
    case Produce(p, pe) => ProducerOwners(s, p, pe, b);
    case Write(w, we) => WriterOwners(s, w, we, b);
  }

  /** A batch is written when it has half of the queue's capacity and one more packets, or when the queue is empty. */
  lemma BatchIsBounded(s: State, w: nat)
    requires Reachable(s) && w < |s.writers|
    ensures s.writers[w].Writing? ==> 1 <= s.writers[w].n <= s.cfg.queueCap / 2 + 1
    ensures WriterEnabled(s, w, EndBatch) ==> s.queue == [] || s.writers[w].n == s.cfg.queueCap / 2 + 1
  {
    hide Reachable;
    InControl(s);
  }

  lemma InControl(s: State)
    requires Reachable(s)
    ensures Control(s)
  {
    ReachableHasInv(s);
  }

  /** A writer flushes only after it found the queue empty. */
  lemma FlushWhenEmpty(s: State, w: nat, e: WriterEvent)
    requires Reachable(s) && WriterEnabled(s, w, e) && !s.writers[w].Flushing? && WriterStep(s, w, e).writers[w].Flushing?
    ensures s.queue == []
  {
    hide Reachable;
    InControl(s);
  }

  /** A caller ready to send is blocked exactly when the queue is full, it may wait, and the context is not done. */
  lemma BlockedIff(s: State, p: nat)
    requires Reachable(s) && p < |s.producers| && s.producers[p].Filled?
    ensures ProducerEnabled(s, p, Send) || ProducerEnabled(s, p, Refuse) || ProducerEnabled(s, p, CancelChannel) <==>
      !(|s.queue| == s.cfg.queueCap && s.cfg.untilWrite && !s.closing.ctxDone)
    ensures ProducerEnabled(s, p, Send) <==> |s.queue| < s.cfg.queueCap
  {
    hide Reachable;
    InControl(s);
  }

  /** How often a run recycles the packet with number `no`. */
  ghost function Recycles(s: State, es: seq<Event>, no: nat): nat
    requires IsRun(s, es)
    decreases |es|
  {
    if es == [] then 0
    else (if es[0].Write? && es[0].we.Recycle? && s.arrays.recycle[s.writers[es[0].w].i].value.no == no then 1 else 0)
         + Recycles(Step(s, es[0]), es[1..], no)
  }

  /** The number of the oldest packet in flight; it only grows. */
  ghost function Oldest(s: State): int { |s.book.accepted| - |InFlight(s)| }

  lemma WriterMovesOn(s: State, w: nat, e: WriterEvent)
    requires Positions(s) && Recyclable(s) && WriterEnabled(s, w, e)
    ensures var t := WriterStep(s, w, e);
      && Oldest(s) <= Oldest(t)
      && (e.Recycle? ==> s.arrays.recycle[s.writers[w].i].value.no == Oldest(s) < Oldest(t))
  {
    WriterMoves(s, w, e);
    if e.WritevFail? {
      BatchIsUnwritten(s, w);
    }
    if e.Recycle? {
      assert InFlight(s)[0].no == Oldest(s);
    }
  }

  /** A packet that has left the batch does not come back. */
  lemma InFlightMovesOn(s: State, e: Event)
    requires Inv(s) && Enabled(s, e)
    ensures Oldest(s) <= Oldest(Step(s, e))
    ensures e.Write? && e.we.Recycle? ==> s.arrays.recycle[s.writers[e.w].i].value.no == Oldest(s) < Oldest(Step(s, e))
  {
    match e
    case Produce(p, pe) => ProducerMoves(s, p, pe);
    case Write(w, we) => WriterMovesOn(s, w, we);
    case Close(c, ce) => CloserFrame(s, c, ce);
    case Outside(oe) => OtherMoves(s, OutsideStep(s, oe));
  }

  /** Over any run, a packet is recycled at most once, and never after it has left the batch. */
  lemma {:induction false} RecycledAtMostOnce(s: State, es: seq<Event>, no: nat)
    requires Inv(s) && IsRun(s, es)
    ensures Recycles(s, es, no) <= 1
    ensures no < Oldest(s) ==> Recycles(s, es, no) == 0
    decreases |es|
  {
    hide Inv, Oldest;
    if es != [] {
      InFlightMovesOn(s, es[0]);
      StepKeepsInv(s, es[0]);
      RecycledAtMostOnce(Step(s, es[0]), es[1..], no);
    }
  }
}
