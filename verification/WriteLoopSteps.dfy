/** What each event does to the batch positions and to the packets in flight. */
module WriteLoopSteps {
  import opened Common
  import opened Totals
  import opened WriteLoop
  import opened WriteLoopInvariant

  /** A writer that holds `running` is the only holder, and the batch positions are its own. */
  lemma SoleWriter(s: State, w: nat)
    requires Control(s) && w < |s.writers| && WriterHolds(s.writers[w]) == 1
    ensures s.running && Holders(s) == 1
    ensures Total(s.writers, WriterHolds) == 1
    ensures Lo(s) == WriterLo(s.writers[w]) && Hi(s) == WriterHi(s.writers[w]) && Unsent(s) == WriterUnsent(s.writers[w])
    ensures forall v :: 0 <= v < |s.writers| && v != w ==> WriterHolds(s.writers[v]) == 0
  {
    TotalUpdate(s.writers, w, s.writers[w], WriterHolds);
    TotalSole(s.writers, w, WriterHolds, WriterLo);
    TotalSole(s.writers, w, WriterHolds, WriterHi);
    TotalSole(s.writers, w, WriterHolds, WriterUnsent);
    forall v | 0 <= v < |s.writers| && v != w ensures WriterHolds(s.writers[v]) == 0 {
      if v < w { TotalTwo(s.writers, v, w, WriterHolds); } else { TotalTwo(s.writers, w, v, WriterHolds); }
    }
  }

  /** Without a writer that holds `running` the batch is empty. */
  lemma NoWriter(s: State)
    requires Total(s.writers, WriterHolds) == 0
    ensures Lo(s) == Hi(s) == Unsent(s) == 0
  {
    TotalZero(s.writers, WriterHolds, WriterLo);
    TotalZero(s.writers, WriterHolds, WriterHi);
    TotalZero(s.writers, WriterHolds, WriterUnsent);
  }

  /** Moving one writer changes each sum by the difference at that writer. */
  lemma MoveWriter(s: State, w: nat, pc: Writer)
    requires w < |s.writers|
    ensures var t := At(s, w, pc); var was := s.writers[w];
      && Total(t.writers, WriterHolds) + WriterHolds(was) == Total(s.writers, WriterHolds) + WriterHolds(pc)
      && Lo(t) + WriterLo(was) == Lo(s) + WriterLo(pc)
      && Hi(t) + WriterHi(was) == Hi(s) + WriterHi(pc)
      && Unsent(t) + WriterUnsent(was) == Unsent(s) + WriterUnsent(pc)
  {
    TotalUpdate(s.writers, w, pc, WriterHolds);
    TotalUpdate(s.writers, w, pc, WriterLo);
    TotalUpdate(s.writers, w, pc, WriterHi);
    TotalUpdate(s.writers, w, pc, WriterUnsent);
  }

  /** The part of the invariant that talks about positions only. */
  ghost predicate Positions(s: State) { Control(s) && SlotsInUse(s) }

  lemma PollPositions(s: State, w: nat)
    requires Positions(s) && WriterEnabled(s, w, Poll)
    ensures var t := WriterStep(s, w, Poll); var n := s.writers[w].n;
      && Positions(t)
      && Lo(s) == Lo(t) == 0 && Hi(s) == Unsent(s) == n && Hi(t) == Unsent(t) == n + 1
  {
    SoleWriter(s, w);
    MoveWriter(s, w, Polling(s.writers[w].n + 1));
  }

  /** The packet that leaves the queue takes the next slot of the batch. */
  lemma PolledSlots(slots: seq<Option<Packet>>, n: nat, queue: seq<Packet>)
    requires n < |slots| && queue != []
    ensures Slots(slots[n := Some(queue[0])], 0, n + 1) + queue[1..] == Slots(slots, 0, n) + queue
  {
    var head := Some(queue[0]);
    assert slots[n := head][0..n + 1] == slots[0..n] + [head];
    LiveAppend(slots[0..n], [head]);
    LiveOne(head);
    assert queue == [queue[0]] + queue[1..];
  }

  lemma PollMoves(s: State, w: nat)
    requires Positions(s) && WriterEnabled(s, w, Poll)
    ensures var t := WriterStep(s, w, Poll);
      Positions(t) && InFlight(t) == InFlight(s) && Unwritten(t) == Unwritten(s)
  {
    PollPositions(s, w);
    PolledSlots(s.arrays.recycle, s.writers[w].n, s.queue);
  }

  lemma EndBatchMoves(s: State, w: nat)
    requires Positions(s) && WriterEnabled(s, w, EndBatch)
    ensures var t := WriterStep(s, w, EndBatch);
      Positions(t) && InFlight(t) == InFlight(s) && Unwritten(t) == Unwritten(s)
  {
    SoleWriter(s, w);
    MoveWriter(s, w, WriterStep(s, w, EndBatch).writers[w]);
  }

  /** `Writev` is given exactly the unwritten packets of the batch, in order. */
  lemma BatchIsUnwritten(s: State, w: nat)
    requires Positions(s) && w < |s.writers| && s.writers[w].Writing?
    ensures s.writers[w].n <= |s.arrays.send|
    ensures Unwritten(s) == Live(s.arrays.send[..s.writers[w].n]) + s.queue == InFlight(s)
    ensures |Unwritten(s)| == s.writers[w].n + |s.queue|
  {
    SoleWriter(s, w);
    var n := s.writers[w].n;
    assert s.arrays.send[..n] == s.arrays.recycle[0..n];
    LiveFull(s.arrays.recycle[0..n]);
  }

  lemma WritevOkMoves(s: State, w: nat, nils: set<nat>, to: nat)
    requires Positions(s) && WriterEnabled(s, w, WritevOk(nils, to))
    ensures var t := WriterStep(s, w, WritevOk(nils, to));
      Positions(t) && InFlight(t) == InFlight(s) && Unwritten(t) == s.queue
  {
    SoleWriter(s, w);
    MoveWriter(s, w, Recycling(s.writers[w].n, 0));
  }

  lemma WritevFailMoves(s: State, w: nat, k: nat, nils: set<nat>, to: nat)
    requires Positions(s) && WriterEnabled(s, w, WritevFail(k, nils, to))
    ensures var t := WriterStep(s, w, WritevFail(k, nils, to));
      Positions(t) && InFlight(t) == s.queue && Unwritten(t) == s.queue
  {
    SoleWriter(s, w);
    MoveWriter(s, w, Panicked);
  }

  /** Dropping the first slot of a batch drops its first packet. */
  lemma DropSlot(slots: seq<Option<Packet>>, i: nat, n: nat)
    requires i < n <= |slots| && slots[i].Some?
    ensures Slots(slots, i, n) == [slots[i].value] + Slots(slots[i := None], i + 1, n)
  {
  }

  lemma RecyclePositions(s: State, w: nat)
    requires Positions(s) && WriterEnabled(s, w, Recycle)
    ensures var t := WriterStep(s, w, Recycle); var i, n := s.writers[w].i, s.writers[w].n;
      && Positions(t) && s.running
      && Lo(s) == i && Hi(s) == n && Unsent(s) == 0 && Unsent(t) == 0
      && Lo(t) == (if i + 1 == n then 0 else i + 1) && Hi(t) == (if i + 1 == n then 0 else n)
  {
    SoleWriter(s, w);
    var t := WriterStep(s, w, Recycle);
    MoveWriter(s, w, t.writers[w]);
  }

  /** Recycling one slot takes the first packet off the batch, whose bounds go back to 0 with the last one. */
  lemma RecycledSlots(slots: seq<Option<Packet>>, i: nat, n: nat, lo: nat, hi: nat, queue: seq<Packet>)
    requires i < n <= |slots| && slots[i].Some?
    requires lo == (if i + 1 == n then 0 else i + 1) && hi == (if i + 1 == n then 0 else n)
    ensures Slots(slots, i, n) + queue == [slots[i].value] + (Slots(slots[i := None], lo, hi) + queue)
    ensures Slots(slots, 0, 0) == Slots(slots[i := None], 0, 0)
  {
    DropSlot(slots, i, n);
    assert slots[i := None][0..0] == slots[0..0] == slots[i := None][i + 1..i + 1];
    if i + 1 == n {
      assert Slots(slots[i := None], i + 1, n) == Slots(slots[i := None], 0, 0);
    }
    assert ([slots[i].value] + Slots(slots[i := None], lo, hi)) + queue
        == [slots[i].value] + (Slots(slots[i := None], lo, hi) + queue);
  }

  lemma RecycleMoves(s: State, w: nat)
    requires Positions(s) && WriterEnabled(s, w, Recycle)
    ensures var t := WriterStep(s, w, Recycle);
      && Positions(t) && Unwritten(t) == Unwritten(s) == s.queue
      && InFlight(s) == [s.arrays.recycle[s.writers[w].i].value] + InFlight(t)
  {
    var t := WriterStep(s, w, Recycle);
    RecyclePositions(s, w);
    RecycledSlots(s.arrays.recycle, s.writers[w].i, s.writers[w].n, Lo(t), Hi(t), s.queue);
    assert Slots(s.arrays.recycle, 0, 0) == [];
    assert Unwritten(s) == [] + s.queue == s.queue;
    assert Unwritten(t) == Slots(t.arrays.recycle, 0, 0) + s.queue;
  }

  ghost predicate Plain(e: WriterEvent)
  {
    e.LoadLen? || e.FlushOk? || e.FlushFail? || e.StoreIdle? || e.LoadLenAgain? || e.CasAgain? || e.PanicStore? || e.CallClose?
  }

  /** With the same arrays and the same batch positions nothing moves. */
  lemma SamePositions(s: State, t: State)
    requires Positions(s)
    requires t.cfg == s.cfg && t.queue == s.queue && t.arrays.send == s.arrays.send && t.arrays.recycle == s.arrays.recycle
    requires Lo(t) == Lo(s) && Hi(t) == Hi(s) && Unsent(t) == Unsent(s)
    requires forall w :: 0 <= w < |t.writers| ==> Fits(t.writers[w], |t.arrays.recycle|)
    requires Holders(t) == if t.running then 1 else 0
    ensures Positions(t) && InFlight(t) == InFlight(s) && Unwritten(t) == Unwritten(s)
  {
  }

  function Flag(running: bool): nat { if running then 1 else 0 }

  /** Outside the batch a writer only passes `running` on. */
  lemma PlainStep(s: State, w: nat, e: WriterEvent)
    requires WriterEnabled(s, w, e) && Plain(e)
    requires w < |s.writers| && (WriterHolds(s.writers[w]) == 1 ==> s.running)
    ensures var t := WriterStep(s, w, e);
      && t.cfg == s.cfg && t.queue == s.queue && t.arrays == s.arrays && t.producers == s.producers
      && t.writers == s.writers[w := t.writers[w]] && Fits(t.writers[w], |s.arrays.recycle|)
      && WriterLo(t.writers[w]) == WriterLo(s.writers[w]) && WriterHi(t.writers[w]) == WriterHi(s.writers[w])
      && WriterUnsent(t.writers[w]) == WriterUnsent(s.writers[w])
      && Flag(t.running) + WriterHolds(s.writers[w]) == Flag(s.running) + WriterHolds(t.writers[w])
  {
  }

  /** The remaining writer events work outside the batch: nothing moves. */
  lemma PlainMoves(s: State, w: nat, e: WriterEvent)
    requires Positions(s) && WriterEnabled(s, w, e) && Plain(e)
    ensures var t := WriterStep(s, w, e);
      Positions(t) && InFlight(t) == InFlight(s) && Unwritten(t) == Unwritten(s)
  {
    hide WriterStep, Fits, WriterHolds, WriterLo, WriterHi, WriterUnsent, SlotsInUse;
    var t := WriterStep(s, w, e);
    if WriterHolds(s.writers[w]) == 1 {
      SoleWriter(s, w);
    }
    PlainStep(s, w, e);
    MoveWriter(s, w, t.writers[w]);
    SamePositions(s, t);
  }

  /** Equal components make equal judgements. */
  lemma SamePackets(s: State, t: State)
    requires Unwritten(t) == Unwritten(s) && InFlight(t) == InFlight(s)
    requires t.book.accepted == s.book.accepted
    requires t.net.log == s.net.log && t.net.out == s.net.out && t.net.failed == s.net.failed && t.net.cuts == s.net.cuts
    requires t.mem.heap == s.mem.heap && t.producers == s.producers
    ensures Order(t) == Order(s) && Recyclable(t) == Recyclable(s) && Content(t) == Content(s)
  {
  }

  /** What a writer event does to the packets in flight. */
  lemma WriterMoves(s: State, w: nat, e: WriterEvent)
    requires Positions(s) && WriterEnabled(s, w, e)
    ensures var t := WriterStep(s, w, e);
      && Positions(t)
      && (e.WritevOk? ==> InFlight(t) == InFlight(s) && Unwritten(t) == s.queue)
      && (e.WritevFail? ==> InFlight(t) == Unwritten(t) == s.queue)
      && (e.Recycle? ==> Unwritten(t) == Unwritten(s) == s.queue && InFlight(s) == [s.arrays.recycle[s.writers[w].i].value] + InFlight(t))
      && (!e.WritevOk? && !e.WritevFail? && !e.Recycle? ==> InFlight(t) == InFlight(s) && Unwritten(t) == Unwritten(s))
  {
    match e
    case Poll => PollMoves(s, w);
    case EndBatch => EndBatchMoves(s, w);
    case WritevOk(nils, to) => WritevOkMoves(s, w, nils, to);
    case WritevFail(k, nils, to) => WritevFailMoves(s, w, k, nils, to);
    case Recycle => RecycleMoves(s, w);
    case _ => PlainMoves(s, w, e);
  }

  lemma SendMoves(s: State, p: nat)
    requires Positions(s) && ProducerEnabled(s, p, Send)
    ensures var t := ProducerStep(s, p, Send); var pkt := t.queue[|s.queue|];
      && t.queue == s.queue + [pkt] && Positions(t)
      && InFlight(t) == InFlight(s) + [pkt] && Unwritten(t) == Unwritten(s) + [pkt]
  {
    var t := ProducerStep(s, p, Send);
    TotalUpdate(s.producers, p, t.producers[p], ProducerHolds);
    var pkt := t.queue[|s.queue|];
    assert Slots(s.arrays.recycle, Lo(s), Hi(s)) + (s.queue + [pkt]) == InFlight(s) + [pkt];
    assert Slots(s.arrays.recycle, 0, Unsent(s)) + (s.queue + [pkt]) == Unwritten(s) + [pkt];
  }

  lemma SpawnMoves(s: State, p: nat)
    requires Positions(s) && ProducerEnabled(s, p, Spawn)
    ensures var t := ProducerStep(s, p, Spawn);
      Positions(t) && InFlight(t) == InFlight(s) && Unwritten(t) == Unwritten(s)
  {
    var t := ProducerStep(s, p, Spawn);
    TotalUpdate(s.producers, p, Ready, ProducerHolds);
    TotalSnoc(s.writers, Polling(0), WriterHolds);
    TotalSnoc(s.writers, Polling(0), WriterLo);
    TotalSnoc(s.writers, Polling(0), WriterHi);
    TotalSnoc(s.writers, Polling(0), WriterUnsent);
    SamePositions(s, t);
  }

  /** A producer event adds its packet (`Send`) or leaves the packets in flight alone. */
  lemma ProducerMoves(s: State, p: nat, e: ProducerEvent)
    requires Positions(s) && ProducerEnabled(s, p, e)
    ensures var t := ProducerStep(s, p, e);
      && Positions(t)
      && (e.Send? ==> var pkt := t.queue[|s.queue|];
            && t.queue == s.queue + [pkt]
            && InFlight(t) == InFlight(s) + [pkt] && Unwritten(t) == Unwritten(s) + [pkt])
      && (!e.Send? ==> InFlight(t) == InFlight(s) && Unwritten(t) == Unwritten(s))
  {
    if e.Send? {
      SendMoves(s, p);
    } else if e.Spawn? {
      SpawnMoves(s, p);
    } else {
      var t := ProducerStep(s, p, e);
      TotalUpdate(s.producers, p, t.producers[p], ProducerHolds);
      assert t.producers == s.producers[p := t.producers[p]];
      SamePositions(s, t);
    }
  }

  /** Closers and the rest of the program touch neither queue, batch nor `running`. */
  lemma OtherMoves(s: State, t: State)
    requires Positions(s)
    requires t.cfg == s.cfg && t.queue == s.queue && t.running == s.running && t.arrays.send == s.arrays.send && t.arrays.recycle == s.arrays.recycle
    requires t.writers == s.writers && (t.producers == s.producers || t.producers == s.producers + [Ready])
    ensures Positions(t) && InFlight(t) == InFlight(s) && Unwritten(t) == Unwritten(s)
  {
    TotalSnoc(s.producers, Ready, ProducerHolds);
  }
}
