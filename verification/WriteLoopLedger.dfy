/** The write loop as a ledger: what the interleaved steps do to the queue, and that they can do what one call does. */
module WriteLoopLedger {
  import opened Common
  import opened WriteLoop
  import opened WriteLoopInvariant
  import opened WriteLoopSteps
  import opened WriteLoopSafety
  import opened WriteLoopTheorems
  import opened WriteLoopProgress
  import opened WriteLoopClosing
  import opened WriteLoopAnswers
  import opened Ledgers

  ghost function LedgerOf(s: State): Ledger
  {
    Ledger(s.cfg.queueCap, Payloads(s.mem.heap, s.queue), Data(s.book.accepted), s.running)
  }

  ghost function MoveOf(s: State, e: Event): Move
    requires Enabled(s, e)
  {
    match e
    case Produce(p, pe) =>
      (match pe
       case Send => Put(s.producers[p].data)
       case CasIdle => if s.running then Stay else Raise
       case _ => Stay)
    case Write(_, we) =>
      (match we
       case Poll => Take
       case StoreIdle => Lower
       case PanicStore => Lower
       case CasAgain => if s.running then Stay else Raise
       case _ => Stay)
    case Close(_, _) => Stay
    case Outside(_) => Stay
  }

  // ---------------------------------------------------------------- every step is a move

  lemma QueuedAreLast(queue: seq<Packet>, accepted: seq<Accepted>, heap: map<Buf, seq<byte>>)
    requires Numbered(queue, |accepted|) && AllIntact(queue, accepted, heap)
    ensures Payloads(heap, queue) == Data(accepted)[|accepted| - |queue|..]
  {
    forall j | 0 <= j < |queue| ensures Payload(heap, queue[j]) == accepted[|accepted| - |queue| + j].data {
      assert Intact(heap, accepted, queue[j]);
    }
  }

  lemma QueueOrder(batch: seq<Packet>, queue: seq<Packet>, accepted: seq<Accepted>, heap: map<Buf, seq<byte>>)
    requires Numbered(batch + queue, |accepted|) && AllIntact(batch + queue, accepted, heap)
    ensures Numbered(queue, |accepted|) && AllIntact(queue, accepted, heap)
  {
    assert forall j :: 0 <= j < |queue| ==> queue[j] == (batch + queue)[|batch| + j];
  }

  /** The queue holds the bytes accepted last. */
  lemma LedgerIsProper(s: State)
    requires Inv(s)
    ensures Proper(LedgerOf(s))
  {
    QueueOrder(Slots(s.arrays.recycle, 0, Unsent(s)), s.queue, s.book.accepted, s.mem.heap);
    QueuedAreLast(s.queue, s.book.accepted, s.mem.heap);
  }

  lemma SameProper(l: Ledger, m: Ledger)
    requires Proper(l) && Proper(m) && l.cap == m.cap && |l.queue| == |m.queue| && l.accepted == m.accepted && l.running == m.running
    ensures l == m
  {
  }

  /** The sizes and the flag after a step are those after its move. */
  lemma SizesMove(s: State, e: Event)
    requires Positions(s) && Enabled(s, e)
    ensures Allowed(LedgerOf(s), MoveOf(s, e))
    ensures var l, m := Do(LedgerOf(s), MoveOf(s, e)), LedgerOf(Step(s, e));
      l.cap == m.cap && |l.queue| == |m.queue| && l.accepted == m.accepted && l.running == m.running
  {
    hide Positions, ProducerEnabled, ProducerStep, WriterEnabled, WriterStep;
    match e
    case Produce(p, pe) => ProducerSizes(s, p, pe);
    case Write(w, we) => WriterSizes(s, w, we);
    case Close(_, _) =>
    case Outside(_) =>
  }

  lemma ProducerSizes(s: State, p: nat, e: ProducerEvent)
    requires ProducerEnabled(s, p, e)
    ensures Allowed(LedgerOf(s), MoveOf(s, Produce(p, e)))
    ensures var l, m := Do(LedgerOf(s), MoveOf(s, Produce(p, e))), LedgerOf(ProducerStep(s, p, e));
      l.cap == m.cap && |l.queue| == |m.queue| && l.accepted == m.accepted && l.running == m.running
  {
  }

  lemma WriterSizes(s: State, w: nat, e: WriterEvent)
    requires Positions(s) && WriterEnabled(s, w, e)
    ensures Allowed(LedgerOf(s), MoveOf(s, Write(w, e)))
    ensures var l, m := Do(LedgerOf(s), MoveOf(s, Write(w, e))), LedgerOf(WriterStep(s, w, e));
      l.cap == m.cap && |l.queue| == |m.queue| && l.accepted == m.accepted && l.running == m.running
  {
    hide WriterStep, MoveOf;
    if WriterHolds(s.writers[w]) == 1 {
      SoleWriter(s, w);
    }
    HolderSizes(s, w, e);
  }

  lemma HolderSizes(s: State, w: nat, e: WriterEvent)
    requires WriterEnabled(s, w, e) && (WriterHolds(s.writers[w]) == 1 ==> s.running)
    ensures Allowed(LedgerOf(s), MoveOf(s, Write(w, e)))
    ensures var l, m := Do(LedgerOf(s), MoveOf(s, Write(w, e))), LedgerOf(WriterStep(s, w, e));
      l.cap == m.cap && |l.queue| == |m.queue| && l.accepted == m.accepted && l.running == m.running
  {
  }

  /** Every atomic action of every thread is one move of the ledger. */
  lemma StepIsMove(s: State, e: Event)
    requires Inv(s) && Enabled(s, e)
    ensures Allowed(LedgerOf(s), MoveOf(s, e)) && LedgerOf(Step(s, e)) == Do(LedgerOf(s), MoveOf(s, e))
  {
    hide LedgerOf, MoveOf, Step, Enabled, Proper, Do, Allowed;
    LedgerIsProper(s);
    StepKeepsInv(s, e);
    LedgerIsProper(Step(s, e));
    SizesMove(s, e);
    DoIsOnward(LedgerOf(s), MoveOf(s, e));
    SameProper(Do(LedgerOf(s), MoveOf(s, e)), LedgerOf(Step(s, e)));
  }

  /** So every run, whatever the interleaving, is a run of the ledger. */
  lemma {:induction false} RunIsMoves(s: State, es: seq<Event>)
    requires Inv(s) && IsRun(s, es)
    ensures Leads(LedgerOf(s), LedgerOf(After(s, es)))
    decreases |es|
  {
    hide Inv, LedgerOf, MoveOf, Step, Enabled, Leads, Do, Allowed;
    if es == [] {
      LeadsNowhere(LedgerOf(s));
    } else {
      StepIsMove(s, es[0]);
      StepKeepsInv(s, es[0]);
      RunIsMoves(Step(s, es[0]), es[1..]);
      LeadsFirst(LedgerOf(s), MoveOf(s, es[0]), LedgerOf(After(s, es)));
    }
  }

  // ---------------------------------------------------------------- a whole call, a whole drain

  /** From the filled buffer to the answer. */
  lemma SendsAndWakes(s: State, p: nat) returns (es: seq<Event>)
    requires Reachable(s) && p < |s.producers| && s.producers[p].Filled? && |s.queue| < s.cfg.queueCap
    ensures IsRun(s, es)
    ensures var t, pc := After(s, es), s.producers[p];
      && LedgerOf(t) == Called(LedgerOf(s), pc.data)
      && |t.writers| == |s.writers| + (if s.running then 0 else 1)
      && pc.call in t.book.results && t.book.results[pc.call] == Return(|pc.data|, Nil)
  {
    hide Reachable, Inv, LedgerOf, Proper;
    var a := Step(s, Produce(p, Send));
    ReachableHasInv(s);
    ReachableStep(s, Produce(p, Send));
    StepIsMove(s, Produce(p, Send));
    FlagOf(s);
    es := WakesUp(a, p);
    RunCons(s, Produce(p, Send), es);
    es := [Produce(p, Send)] + es;
  }

  /** From the send to the answer. */
  lemma WakesUp(s: State, p: nat) returns (es: seq<Event>)
    requires Reachable(s) && p < |s.producers| && s.producers[p].Sent?
    ensures IsRun(s, es)
    ensures var t, pc := After(s, es), s.producers[p];
      && LedgerOf(t) == LedgerOf(s).(running := true)
      && |t.writers| == |s.writers| + (if s.running then 0 else 1)
      && pc.call in t.book.results && t.book.results[pc.call] == Return(pc.n, Nil)
  {
    hide Reachable, Inv, LedgerOf, Proper;
    var a := Step(s, Produce(p, CasIdle));
    ReachableHasInv(s);
    StepIsMove(s, Produce(p, CasIdle));
    FlagOf(s);
    if s.running {
      es := [];
    } else {
      ReachableStep(s, Produce(p, CasIdle));
      ReachableHasInv(a);
      StepIsMove(a, Produce(p, Spawn));
      RunCons(a, Produce(p, Spawn), []);
      es := [Produce(p, Spawn)] + [];
    }
    RunCons(s, Produce(p, CasIdle), es);
    es := [Produce(p, CasIdle)] + es;
  }

  lemma FlagOf(s: State)
    ensures LedgerOf(s).running == s.running && |LedgerOf(s).queue| == |s.queue| && LedgerOf(s).cap == s.cfg.queueCap
  {
  }

  /** The buffer is filled first. */
  lemma FillsFirst(s: State, data: seq<byte>, call: nat) returns (t: State)
    requires Reachable(s) && Starting(s, data, call)
    ensures var p := |s.producers| - 1;
      && Enabled(s, Produce(p, Fill)) && t == Step(s, Produce(p, Fill)) && Reachable(t)
      && t.producers == s.producers[p := Filled(call, data, s.producers[p].buf)]
      && t.queue == s.queue && t.cfg == s.cfg && t.running == s.running && t.writers == s.writers && LedgerOf(t) == LedgerOf(s)
  {
    hide Reachable, Inv, LedgerOf, Proper;
    var p := |s.producers| - 1;
    t := Step(s, Produce(p, Fill));
    ReachableHasInv(s);
    StepIsMove(s, Produce(p, Fill));
    ReachableStep(s, Produce(p, Fill));
  }

  /**
   What one call of `asyncWrite` does when nobody interferes, some run of the steps does: one packet is accepted,
   the flag is raised, a writer is spawned exactly if it was not, and the caller is told the length.
   */
  lemma CallIsRun(s: State, data: seq<byte>) returns (es: seq<Event>)
    requires Reachable(s) && |s.queue| < s.cfg.queueCap
    ensures IsRun(s, es)
    ensures var t := After(s, es);
      && LedgerOf(t) == Called(LedgerOf(s), data)
      && |t.writers| == |s.writers| + (if s.running then 0 else 1)
      && |s.book.calls| in t.book.results && t.book.results[|s.book.calls|] == Return(|data|, Nil)
  {
    hide Reachable, Inv, Step, Enabled;
    var begin := NewCaller(s, data);
    var a := After(s, begin);
    ReachableRun(s, begin);
    SameLedger(s, begin);
    var p := |s.producers|;
    var b := FillsFirst(a, data, |s.book.calls|);
    var rest := SendsAndWakes(b, p);
    RunCons(a, Produce(p, Fill), rest);
    RunsTogether(s, begin, [Produce(p, Fill)] + rest);
    es := begin + ([Produce(p, Fill)] + rest);
  }

  /** With the same queue length, accepted packets and flag the ledger is the same. */
  lemma SameLedger(s: State, es: seq<Event>)
    requires Reachable(s) && IsRun(s, es)
    requires var t := After(s, es);
      t.cfg == s.cfg && t.queue == s.queue && t.running == s.running && t.book.accepted == s.book.accepted
    ensures LedgerOf(After(s, es)) == LedgerOf(s)
  {
    hide Reachable, Inv;
    ReachableRun(s, es);
    ReachableHasInv(s);
    ReachableHasInv(After(s, es));
    LedgerIsProper(s);
    LedgerIsProper(After(s, es));
    SameProper(LedgerOf(s), LedgerOf(After(s, es)));
  }

  lemma {:induction false} DrainAcceptsNothing(s: State, es: seq<Event>)
    requires IsDrain(s, es)
    ensures After(s, es).book.accepted == s.book.accepted && After(s, es).cfg == s.cfg
    decreases |es|
  {
    if es != [] {
      assert Draining(es[0]);
      assert forall i :: 0 <= i < |es| - 1 ==> es[1..][i] == es[i + 1];
      DrainAcceptsNothing(Step(s, es[0]), es[1..]);
    }
  }

  /**
   What `writeOnce` does when nobody else sends, some run of the steps does: the queue is emptied, the flag
   lowered, and all that was accepted is written and flushed.
   */
  lemma DrainIsRun(s: State) returns (es: seq<Event>)
    requires Reachable(s) && !s.net.failed
    ensures IsRun(s, es)
    ensures var t := After(s, es);
      && LedgerOf(t) == LedgerOf(s).(queue := [], running := false)
      && t.net.out == Concat(Data(s.book.accepted)) && t.net.flushed == |t.net.out|
  {
    hide Reachable, Inv;
    ReachableHasInv(s);
    es := DrainExists(s);
    DrainsAreFinite(s, es);
    DrainAcceptsNothing(s, es);
    ReachableRun(s, es);
    QuiescentDelivered(After(s, es));
  }
}
