/** What `Close` may and may not rely on when it reads `running` as idle. */
module WriteLoopClosing {
  import opened Common
  import opened WriteLoop
  import opened WriteLoopInvariant
  import opened WriteLoopSteps
  import opened WriteLoopTheorems

  // ---------------------------------------------------------------- what reading idle means

  /** No packet in the queue has any bytes. */
  ghost predicate NothingQueued(s: State)
  {
    forall j :: 0 <= j < |s.queue| ==> s.queue[j].len == 0
  }

  lemma {:induction false} ConcatEmpty(ps: seq<seq<byte>>)
    ensures Concat(ps) == [] <==> forall i :: 0 <= i < |ps| ==> ps[i] == []
  {
    if ps != [] {
      ConcatEmpty(ps[1..]);
      assert forall i :: 0 < i < |ps| ==> ps[i] == ps[1..][i - 1];
      assert forall i :: 0 <= i < |ps[1..]| ==> ps[1..][i] == ps[i + 1];
    }
  }

  lemma SplitData(accepted: seq<Accepted>, k: nat)
    requires k <= |accepted|
    ensures Concat(Data(accepted)) == Concat(Data(accepted[..k])) + Concat(Data(accepted[k..]))
  {
    assert Data(accepted) == Data(accepted[..k]) + Data(accepted[k..]);
    ConcatAppend(Data(accepted[..k]), Data(accepted[k..]));
  }

  /** A queued packet has as many bytes as its caller supplied. */
  lemma QueuedLengths(queue: seq<Packet>, accepted: seq<Accepted>, heap: map<Buf, seq<byte>>)
    requires Numbered(queue, |accepted|) && AllIntact(queue, accepted, heap)
    ensures var late := Data(accepted[|accepted| - |queue|..]);
      |late| == |queue| && forall j :: 0 <= j < |queue| ==> |late[j]| == queue[j].len
  {
    forall j | 0 <= j < |queue| ensures |accepted[|accepted| - |queue| + j].data| == queue[j].len {
      assert Intact(heap, accepted, queue[j]);
    }
  }

  /** While `running` is idle the queue holds the packets accepted last. */
  lemma IdleQueue(s: State)
    requires Inv(s) && !s.running
    ensures |s.queue| <= |s.book.accepted|
    ensures var late := Data(s.book.accepted[|s.book.accepted| - |s.queue|..]);
      |late| == |s.queue| && forall j :: 0 <= j < |s.queue| ==> |late[j]| == s.queue[j].len
  {
    hide Ownership, Calls, CloseOnce, Wakeup, Flush, Recyclable;
    NoWriter(s);
    assert Unwritten(s) == s.queue;
    QueuedLengths(s.queue, s.book.accepted, s.mem.heap);
  }

  /**
   When `Close` reads idle and nothing failed, everything accepted has been delivered exactly when the packets
   in the queue have no bytes.
   */
  lemma IdleDeliversAllIff(s: State)
    requires Reachable(s) && !s.running && !s.net.failed
    ensures s.net.out == Concat(Data(s.book.accepted)) <==> NothingQueued(s)
  {
    hide Reachable, Inv;
    ReachableHasInv(s);
    IdleQueue(s);
    IdleMeansFlushed(s);
    var k := |s.book.accepted| - |s.queue|;
    var late := Data(s.book.accepted[k..]);
    SplitData(s.book.accepted, k);
    ConcatEmpty(late);
    assert |s.net.out + Concat(late)| == |s.net.out| + |Concat(late)|;
  }

  // ---------------------------------------------------------------- the exact condition

  /** Nobody is going to look at the queue again before `running` is idle: it is, or the writer is past its length read. */
  ghost predicate Committed(s: State)
  {
    !s.running || exists w :: 0 <= w < |s.writers| && (s.writers[w].Flushing? || s.writers[w].Storing?)
  }

  /** Whoever is past looking at the queue has left no bytes in it. */
  ghost predicate Settled(s: State)
  {
    Committed(s) ==> NothingQueued(s)
  }

  /** An event that neither sends a packet nor fails. */
  ghost predicate Calm(e: Event)
  {
    match e
    case Produce(_, pe) => !pe.Send?
    case Write(_, we) => !we.WritevFail? && !we.FlushFail?
    case Close(_, _) => true
    case Outside(_) => true
  }

  ghost predicate IsCalmRun(s: State, es: seq<Event>)
  {
    IsRun(s, es) && forall i :: 0 <= i < |es| ==> Calm(es[i])
  }

  lemma WriterKeepsSettled(s: State, w: nat, e: WriterEvent)
    requires Control(s) && Flush(s) && Settled(s) && !s.net.failed && WriterEnabled(s, w, e) && Calm(Write(w, e))
    ensures Settled(WriterStep(s, w, e)) && !WriterStep(s, w, e).net.failed
  {
    var t := WriterStep(s, w, e);
    if Committed(t) {
      if !Committed(s) {
        assert t.queue == [];
      } else if e.Poll? {
        assert forall j :: 0 <= j < |t.queue| ==> t.queue[j] == s.queue[j + 1];
      }
    }
  }

  lemma ProducerKeepsSettled(s: State, p: nat, e: ProducerEvent)
    requires Settled(s) && ProducerEnabled(s, p, e) && !e.Send?
    ensures Settled(ProducerStep(s, p, e)) && ProducerStep(s, p, e).net == s.net
  {
    var t := ProducerStep(s, p, e);
    assert t.queue == s.queue && s.writers <= t.writers;
    if Committed(t) && t.running {
      var w :| 0 <= w < |t.writers| && (t.writers[w].Flushing? || t.writers[w].Storing?);
      assert t.writers[w] == s.writers[w];
    }
  }

  /** Closers and the rest of the program touch neither queue, writers nor `running`. */
  lemma OtherKeepsSettled(s: State, t: State)
    requires Settled(s) && t.queue == s.queue && t.writers == s.writers && t.running == s.running
    ensures Settled(t)
  {
  }

  lemma StepKeepsSettled(s: State, e: Event)
    requires Inv(s) && Settled(s) && !s.net.failed && Enabled(s, e) && Calm(e)
    ensures Settled(Step(s, e)) && !Step(s, e).net.failed
  {
    hide Settled, Order, Recyclable, Content, Ownership, Calls, SlotsInUse, Flush, Control;
    match e
    case Produce(p, pe) => ProducerKeepsSettled(s, p, pe);
    case Write(w, we) => WriterKeepsSettled(s, w, we);
    case Close(c, ce) => OtherKeepsSettled(s, CloserStep(s, c, ce));
    case Outside(oe) => OtherKeepsSettled(s, OutsideStep(s, oe));
  }

  lemma {:induction false} RunKeepsSettled(s: State, es: seq<Event>)
    requires Reachable(s) && Settled(s) && !s.net.failed && IsCalmRun(s, es)
    ensures var t := After(s, es); Reachable(t) && Settled(t) && !t.net.failed
    decreases |es|
  {
    hide Inv, Settled, Reachable;
    if es != [] {
      assert Calm(es[0]);
      ReachableHasInv(s);
      StepKeepsSettled(s, es[0]);
      ReachableStep(s, es[0]);
      RunKeepsSettled(Step(s, es[0]), es[1..]);
    }
  }

  /** Delivered: every accepted byte was given to the transport. */
  ghost predicate Delivered(s: State) { s.net.out == Concat(Data(s.book.accepted)) }

  /** The writer's store of idle, with what is queued still queued. */
  lemma StoresIdle(s: State, w: nat) returns (es: seq<Event>)
    requires Reachable(s) && w < |s.writers| && s.writers[w].Storing?
    ensures IsCalmRun(s, es)
    ensures var t := After(s, es); Reachable(t) && !t.running && t.queue == s.queue && t.net == s.net && t.book == s.book
  {
    hide Reachable;
    var e := Write(w, StoreIdle);
    RunCons(s, e, []);
    ReachableStep(s, e);
    es := [e] + [];
  }

  lemma FlushesFirst(s: State, w: nat) returns (es: seq<Event>)
    requires Reachable(s) && w < |s.writers| && s.writers[w].Flushing?
    ensures IsCalmRun(s, es)
    ensures var t := After(s, es);
      Reachable(t) && !t.running && t.queue == s.queue && t.net.failed == s.net.failed && t.book == s.book
  {
    hide Reachable;
    var e := Write(w, FlushOk);
    ReachableStep(s, e);
    var rest := StoresIdle(Step(s, e), w);
    RunCons(s, e, rest);
    es := [e] + rest;
    assert forall i :: 0 < i < |es| ==> es[i] == rest[i - 1];
  }

  /** From an unsettled state `running` can become idle with bytes queued, without any further send or failure. */
  lemma UnsettledLoses(s: State) returns (es: seq<Event>)
    requires Reachable(s) && !s.net.failed && !Settled(s)
    ensures IsCalmRun(s, es) && !After(s, es).running && !Delivered(After(s, es))
  {
    hide Reachable, IsRun, After, NothingQueued;
    if !s.running {
      es := [];
      EmptyRun(s);
    } else {
      var w :| 0 <= w < |s.writers| && (s.writers[w].Flushing? || s.writers[w].Storing?);
      if s.writers[w].Flushing? {
        es := FlushesFirst(s, w);
      } else {
        es := StoresIdle(s, w);
      }
    }
    SameQueued(s, After(s, es));
    IdleDeliversAllIff(After(s, es));
  }

  lemma EmptyRun(s: State)
    ensures IsCalmRun(s, []) && After(s, []) == s
  {
  }

  lemma SameQueued(s: State, t: State)
    requires t.queue == s.queue
    ensures NothingQueued(t) == NothingQueued(s)
  {
  }

  /**
   What a caller of `Close` can know beforehand. If nothing is sent and nothing fails from now on, then `Close`,
   whenever it reads idle, finds everything delivered, if and only if at the present moment no bytes are queued
   or the writer has not yet taken its last look at the queue's length.
   */
  lemma CloseDeliversIff(s: State)
    requires Reachable(s) && !s.net.failed
    ensures Settled(s) <==>
      forall es: seq<Event> :: IsCalmRun(s, es) && !After(s, es).running ==> Delivered(After(s, es))
  {
    if Settled(s) {
      forall es: seq<Event> | IsCalmRun(s, es) && !After(s, es).running ensures Delivered(After(s, es)) {
        RunKeepsSettled(s, es);
        IdleDeliversAllIff(After(s, es));
      }
    } else {
      var es := UnsettledLoses(s);
    }
  }

  // ---------------------------------------------------------------- after the last call

  /** No call is under way and no writer is alive. */
  ghost predicate AtRest(s: State)
  {
    && (forall p :: 0 <= p < |s.producers| ==> s.producers[p].Ready?)
    && (forall w :: 0 <= w < |s.writers| ==> s.writers[w].Finished?)
  }

  lemma {:induction false} RestStays(s: State, es: seq<Event>)
    requires AtRest(s) && IsRun(s, es)
    requires forall i :: 0 <= i < |es| ==> !(es[i].Produce? && es[i].pe.Begin?)
    ensures AtRest(After(s, es)) && After(s, es).book.accepted == s.book.accepted
    ensures IsCalmRun(s, es)
    decreases |es|
  {
    if es != [] {
      var t := Step(s, es[0]);
      assert AtRest(t) && t.book.accepted == s.book.accepted && Calm(es[0]);
      RestStays(t, es[1..]);
      assert forall i :: 0 < i < |es| ==> es[i] == es[1..][i - 1];
    }
  }

  /** A `Close` called at rest, after the last call, finds everything delivered and flushed. */
  lemma CloseAfterLastCall(s: State, es: seq<Event>)
    requires Reachable(s) && AtRest(s) && !s.net.failed && IsRun(s, es)
    requires forall i :: 0 <= i < |es| ==> !(es[i].Produce? && es[i].pe.Begin?)
    ensures var t := After(s, es);
      !t.running && Delivered(t) && t.net.flushed == |t.net.out| && t.book.accepted == s.book.accepted
  {
    ReachableHasInv(s);
    QuiescentDelivered(s);
    RestStays(s, es);
    RunKeepsSettled(s, es);
    ReachableHasInv(After(s, es));
    QuiescentDelivered(After(s, es));
  }

  // ---------------------------------------------------------------- runs

  lemma RunCons(s: State, e: Event, rest: seq<Event>)
    requires Enabled(s, e) && IsRun(Step(s, e), rest)
    ensures IsRun(s, [e] + rest) && After(s, [e] + rest) == After(Step(s, e), rest)
  {
    assert ([e] + rest)[1..] == rest;
  }

  lemma {:induction false} RunSnoc(s: State, es: seq<Event>, e: Event)
    requires IsRun(s, es) && Enabled(After(s, es), e)
    ensures IsRun(s, es + [e]) && After(s, es + [e]) == Step(After(s, es), e)
    decreases |es|
  {
    hide Enabled, Step;
    if es == [] {
      RunCons(s, e, []);
      assert es + [e] == [e] + [];
    } else {
      RunSnoc(Step(s, es[0]), es[1..], e);
      RunCons(s, es[0], es[1..] + [e]);
      assert es + [e] == [es[0]] + (es[1..] + [e]);
    }
  }

  lemma ReachableStep(s: State, e: Event)
    requires Reachable(s) && Enabled(s, e)
    ensures Reachable(Step(s, e))
  {
    hide Init, Enabled, Step;
    var start: State, es: seq<Event> :| Init(start) && IsRun(start, es) && After(start, es) == s;
    RunSnoc(start, es, e);
  }

  // ---------------------------------------------------------------- two runs of a small channel

  /** A channel with room for two packets and one caller. */
  ghost function Small(): State
  {
    State(Config(2, true), [], false, Arrays([None, None], [None, None]), [Ready], [],
          Shutdown([], false, Nil, false), Memory(map[], multiset{}, multiset{}), Transport([], 0, [], false, {}),
          Book([], [], map[]))
  }

  lemma SmallIsReachable()
    ensures Reachable(Small())
  {
    assert Init(Small()) && IsRun(Small(), []) && After(Small(), []) == Small();
  }

  /** The state in which the only caller has a filled buffer `b` in hand, with the single byte `x`. */
  ghost function WithFilled(s: State, b: Buf, x: byte): State
  {
    s.(producers := [Filled(|s.book.calls|, [x], b)], mem := s.mem.(heap := s.mem.heap[b := [x]]),
       book := s.book.(calls := s.book.calls + [[x]]))
  }

  lemma Fills(s: State, b: Buf, x: byte)
    requires Reachable(s) && s.producers == [Ready] && b !in s.mem.heap
    ensures Reachable(WithFilled(s, b, x))
  {
    hide Reachable;
    var u := Step(s, Produce(0, Begin([x])));
    ReachableStep(s, Produce(0, Begin([x])));
    var v := Step(u, Produce(0, GetFresh(b, [x])));
    ReachableStep(u, Produce(0, GetFresh(b, [x])));
    var w := Step(v, Produce(0, Fill));
    ReachableStep(v, Produce(0, Fill));
    var one := [x];
    assert one + one[1..] == one && v.mem.heap[b] == one;
    assert s.mem.heap[b := one][b := one] == s.mem.heap[b := one];
    assert w.producers == [Filled(|s.book.calls|, one, b)];
  }

  /** The state after the caller sent it. */
  ghost function WithSent(s: State, b: Buf, x: byte): State
  {
    var f := WithFilled(s, b, x);
    f.(producers := [Sent(|s.book.calls|, 1)], queue := s.queue + [Packet(b, 1, |s.book.accepted|)],
       book := f.book.(accepted := s.book.accepted + [Accepted(|s.book.calls|, [x])]))
  }

  lemma Sends(s: State, b: Buf, x: byte)
    requires Reachable(s) && s.producers == [Ready] && b !in s.mem.heap && |s.queue| < s.cfg.queueCap
    ensures Reachable(WithSent(s, b, x))
  {
    hide Reachable;
    Fills(s, b, x);
    var f := WithFilled(s, b, x);
    ReachableStep(f, Produce(0, Send));
    assert Step(f, Produce(0, Send)).producers == [Sent(|s.book.calls|, 1)];
  }

  /** What stays as it is while a writer writes. */
  ghost predicate SameCallers(s: State, t: State)
  {
    && t.cfg == s.cfg && t.running == s.running && t.producers == s.producers && t.closing == s.closing
    && t.book == s.book && t.mem.heap == s.mem.heap && t.net.failed == s.net.failed
  }

  /** A writer polls and writes the one packet in the queue. */
  lemma WritesOne(s: State, pkt: Packet, x: byte) returns (t: State)
    requires Reachable(s) && s.writers == [Polling(0)] && s.queue == [pkt] && |s.arrays.send| == |s.arrays.recycle| == 2
    requires pkt.buf in s.mem.heap && s.mem.heap[pkt.buf] == [x] && pkt.len == 1 && s.net.flushed <= |s.net.out|
    ensures Reachable(t) && SameCallers(s, t) && t.writers == [Recycling(1, 0)] && t.queue == []
    ensures t.net.out == s.net.out + [x] && |t.arrays.send| == |t.arrays.recycle| == 2 && t.arrays.recycle[0] == Some(pkt)
  {
    hide Reachable;
    ReachableStep(s, Write(0, Poll));
    var a := Step(s, Write(0, Poll));
    assert a.writers == [Polling(1)] && a.queue == [] && a.arrays.send[..1] == [Some(pkt)];
    ReachableStep(a, Write(0, EndBatch));
    var b := Step(a, Write(0, EndBatch));
    LiveOne(Some(pkt));
    var es, one := BatchEntries(b, 1), [x];
    assert Live(b.arrays.send[..1]) == [pkt] && one[..1] == one && Payload(b.mem.heap, pkt) == one;
    assert es == [Entry(pkt.no, [x])] && EntryBytes(es) == [[x]];
    ConcatOne([x]);
    var e := WritevOk({}, s.net.flushed);
    ReachableStep(b, Write(0, e));
    t := Step(b, Write(0, e));
  }

  /** It gives the buffer back and sees an empty queue. */
  lemma RecyclesOne(s: State, pkt: Packet) returns (t: State)
    requires Reachable(s) && s.writers == [Recycling(1, 0)] && s.queue == [] && |s.arrays.send| == |s.arrays.recycle| == 2
    requires s.arrays.recycle[0] == Some(pkt)
    ensures Reachable(t) && SameCallers(s, t) && t.writers == [Flushing] && t.queue == [] && t.net == s.net
  {
    hide Reachable;
    ReachableStep(s, Write(0, Recycle));
    var a := Step(s, Write(0, Recycle));
    ReachableStep(a, Write(0, LoadLen));
    t := Step(a, Write(0, LoadLen));
  }

  /** The first call of the run: sent, told, and written up to the writer's last look at the queue. */
  lemma FirstCall() returns (t: State)
    ensures Reachable(t) && t.cfg == Small().cfg && t.running && t.producers == [Ready] && t.writers == [Flushing]
    ensures t.queue == [] && !t.net.failed && t.net.out == [7] && t.mem.heap == map[0 := [7]]
    ensures t.closing == Small().closing
    ensures t.book == Book([[7]], [Accepted(0, [7])], map[0 := Return(1, Nil)])
  {
    hide Reachable;
    SmallIsReachable();
    Sends(Small(), 0, 7);
    var s := WithSent(Small(), 0, 7);
    ReachableStep(s, Produce(0, CasIdle));
    var a := Step(s, Produce(0, CasIdle));
    ReachableStep(a, Produce(0, Spawn));
    var b := Step(a, Produce(0, Spawn));
    assert b.writers == [Polling(0)] && b.producers == [Ready];
    var pkt := Packet(0, 1, 0);
    var c := WritesOne(b, pkt, 7);
    t := RecyclesOne(c, pkt);
    ReachableHasInv(t);
  }

  /** Every call has returned, and was told that its bytes were taken. */
  ghost predicate AllTold(s: State)
  {
    && (forall p :: 0 <= p < |s.producers| ==> s.producers[p].Ready?)
    && (forall c: nat :: c < |s.book.calls| ==> c in s.book.results && s.book.results[c] == Return(|s.book.calls[c]|, Nil))
  }

  /** A caller whose compare-and-swap loses is told its length. */
  lemma LosesCas(s: State, call: nat, n: nat) returns (t: State)
    requires Reachable(s) && s.producers == [Sent(call, n)] && s.running
    ensures Reachable(t)
    ensures t == s.(producers := [Ready], book := s.book.(results := s.book.results[call := Return(n, Nil)]))
  {
    hide Reachable;
    ReachableStep(s, Produce(0, CasIdle));
    t := Step(s, Produce(0, CasIdle));
  }

  /** The second call: sent and told after the writer's last look at the queue, before its store of idle. */
  lemma SecondCall() returns (t: State)
    ensures Reachable(t) && t.cfg == Small().cfg && !t.running && t.closing == Small().closing
    ensures AllTold(t) && !t.net.failed && t.net.out == [7] && Data(t.book.accepted) == [[7], [8]]
  {
    hide Reachable;
    var s := FirstCall();
    Sends(s, 1, 8);
    var b := LosesCas(WithSent(s, 1, 8), 1, 1);
    assert b.producers == [Ready] && b.writers == [Flushing];
    ReachableStep(b, Write(0, FlushOk));
    var c := Step(b, Write(0, FlushOk));
    ReachableStep(c, Write(0, StoreIdle));
    t := Step(c, Write(0, StoreIdle));
    assert t.book.accepted == [Accepted(0, [7]), Accepted(1, [8])];
  }

  /**
   `Close` does not always wait for everything, not even with `untilWrite` and after all calls have returned
   without an error: what is sent between the writer's last look at the queue and its store of idle is left
   behind when `Close` reads idle before the writer looks again.
   */
  lemma CloseMayOvertake() returns (called: State, s: State)
    ensures Reachable(called) && called.closing.closers == [] && called.cfg.untilWrite && AllTold(called)
    ensures Enabled(called, Outside(CallsClose))
    ensures var closing := Step(called, Outside(CallsClose)); Enabled(closing, Close(0, CasClose)) && s == Step(closing, Close(0, CasClose))
    ensures CloserEnabled(s, 0, StopWaiting) && !s.net.failed
    ensures s.net.out == [7] && Data(s.book.accepted) == [[7], [8]]
  {
    hide Reachable, AllTold;
    called := SecondCall();
    s := Step(Step(called, Outside(CallsClose)), Close(0, CasClose));
  }

  /**
   `asyncWrite` can return no error for bytes that were not sent: when only a parent context is cancelled, the
   channel's close error is still nil.
   */
  lemma UnsentIsToldNil() returns (s: State)
    ensures Reachable(s) && s.book.calls == [[1]] && s.book.accepted == [] && s.book.results == map[0 := Return(0, Nil)]
  {
    hide Reachable;
    SmallIsReachable();
    Fills(Small(), 0, 1);
    var a := WithFilled(Small(), 0, 1);
    ReachableStep(a, Outside(CancelParent));
    var b := Step(a, Outside(CancelParent));
    ReachableStep(b, Produce(0, CancelChannel));
    s := Step(b, Produce(0, CancelChannel));
  }
}
