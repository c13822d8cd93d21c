/** When the answer of a call means what it seems to mean: a nil error for bytes that were not sent. */
module WriteLoopAnswers {
  import opened Common
  import opened Totals
  import opened WriteLoop
  import opened WriteLoopInvariant
  import opened WriteLoopTheorems
  import opened WriteLoopClosing

  /** The call was told no error, though its bytes were not accepted. */
  ghost predicate MisledCall(s: State, c: nat)
  {
    && c in s.book.results && c < |s.book.calls| && s.book.calls[c] != []
    && s.book.results[c].err == Nil && !WasAccepted(s.book.accepted, c)
  }

  ghost predicate Misled(s: State)
  {
    exists c: nat :: MisledCall(s, c)
  }

  /** The one event that misleads a caller: the cancelled context is seen before the channel has a close error. */
  ghost predicate Misleads(s: State, e: Event)
    requires Enabled(s, e)
  {
    && e.Produce? && e.pe.CancelChannel?
    && s.producers[e.p].data != [] && s.closing.closeErr == Nil
  }

  /** What was accepted stays accepted. */
  lemma AcceptedStays(a: seq<Accepted>, b: seq<Accepted>, c: nat)
    requires a <= b && WasAccepted(a, c)
    ensures WasAccepted(b, c)
  {
  }

  lemma OnlyItMisleads(s: State, p: nat, e: ProducerEvent, c: nat)
    requires Calls(s) && !MisledCall(s, c) && ProducerEnabled(s, p, e) && MisledCall(ProducerStep(s, p, e), c)
    ensures Misleads(s, Produce(p, e))
  {
    var t := ProducerStep(s, p, e);
    var pc := s.producers[p];
    assert HasCall(pc) ==> ProducerCall(s, pc);
    if WasAccepted(s.book.accepted, c) {
      AcceptedStays(s.book.accepted, t.book.accepted, c);
    }
  }

  lemma ItMisleads(s: State, p: nat)
    requires Calls(s) && ProducerEnabled(s, p, CancelChannel) && Misleads(s, Produce(p, CancelChannel))
    ensures Misled(ProducerStep(s, p, CancelChannel))
  {
    var pc := s.producers[p];
    assert ProducerCall(s, pc);
    assert MisledCall(ProducerStep(s, p, CancelChannel), pc.call);
  }

  /** A producer's event misleads its caller exactly when it sees the cancelled context too early. */
  lemma ProducerMisleads(s: State, p: nat, e: ProducerEvent)
    requires Calls(s) && !Misled(s) && ProducerEnabled(s, p, e)
    ensures Misled(ProducerStep(s, p, e)) <==> Misleads(s, Produce(p, e))
  {
    hide Calls, MisledCall, ProducerStep, ProducerEnabled;
    if Misled(ProducerStep(s, p, e)) {
      var c: nat :| MisledCall(ProducerStep(s, p, e), c);
      OnlyItMisleads(s, p, e, c);
    }
    if Misleads(s, Produce(p, e)) {
      ItMisleads(s, p);
    }
  }

  lemma OtherBook(s: State, e: Event)
    requires Enabled(s, e) && !e.Produce?
    ensures Step(s, e).book == s.book
  {
  }

  lemma StepMisleads(s: State, e: Event)
    requires Inv(s) && !Misled(s) && Enabled(s, e)
    ensures Misled(Step(s, e)) <==> Misleads(s, e)
  {
    hide Calls;
    if e.Produce? {
      ProducerMisleads(s, e.p, e.pe);
    } else {
      OtherBook(s, e);
      assert forall c: nat :: MisledCall(Step(s, e), c) <==> MisledCall(s, c);
    }
  }

  // ---------------------------------------------------------------- the close error stays

  /** Once there is a close error nobody is going to set another one. */
  ghost predicate ErrorIsFinal(s: State)
  {
    s.closing.closeErr != Nil ==>
      s.closing.closed && forall c :: 0 <= c < |s.closing.closers| ==> !s.closing.closers[c].Waiting? && !s.closing.closers[c].SettingErr?
  }

  lemma CloserKeepsError(s: State, c: nat, e: CloserEvent)
    requires CloseOnce(s) && ErrorIsFinal(s) && CloserEnabled(s, c, e)
    ensures var t := CloserStep(s, c, e); ErrorIsFinal(t) && (s.closing.closeErr != Nil ==> t.closing.closeErr != Nil)
  {
    if e.SetErr? {
      TotalUpdate(s.closing.closers, c, Closed, CloserPassed);
      forall d | 0 <= d < |s.closing.closers| && d != c ensures CloserPassed(s.closing.closers[d]) == 0 {
        if d < c {
          TotalTwo(s.closing.closers, d, c, CloserPassed);
        } else {
          TotalTwo(s.closing.closers, c, d, CloserPassed);
        }
      }
    }
  }

  /** Another call of `Close` may come, and the context may be done. */
  ghost predicate SameClosing(s: State, t: State)
  {
    && t.closing.closed == s.closing.closed && t.closing.closeErr == s.closing.closeErr
    && (t.closing.closers == s.closing.closers || t.closing.closers == s.closing.closers + [CasClosed])
  }

  lemma OtherClosing(s: State, e: Event)
    requires Enabled(s, e) && !e.Close?
    ensures SameClosing(s, Step(s, e))
  {
    hide ProducerEnabled, ProducerStep, WriterEnabled, WriterStep, OutsideEnabled, OutsideStep;
    match e
    case Produce(p, pe) => ProducerClosing(s, p, pe);
    case Write(w, we) => WriterClosing(s, w, we);
    case Outside(oe) => OutsideClosing(s, oe);
  }

  lemma ProducerClosing(s: State, p: nat, e: ProducerEvent)
    requires ProducerEnabled(s, p, e)
    ensures SameClosing(s, ProducerStep(s, p, e))
  {
  }

  lemma WriterClosing(s: State, w: nat, e: WriterEvent)
    requires WriterEnabled(s, w, e)
    ensures SameClosing(s, WriterStep(s, w, e))
  {
  }

  lemma OutsideClosing(s: State, e: OutsideEvent)
    requires OutsideEnabled(s, e)
    ensures SameClosing(s, OutsideStep(s, e))
  {
  }

  lemma CloserOnly(s: State, e: Event)
    requires Enabled(s, e) && e.Close?
    ensures CloserEnabled(s, e.c, e.ce) && Step(s, e) == CloserStep(s, e.c, e.ce)
  {
  }

  lemma StepKeepsError(s: State, e: Event)
    requires CloseOnce(s) && ErrorIsFinal(s) && Enabled(s, e)
    ensures ErrorIsFinal(Step(s, e)) && (s.closing.closeErr != Nil ==> Step(s, e).closing.closeErr != Nil)
  {
    hide Enabled, Step;
    if e.Close? {
      CloserOnly(s, e);
      CloserKeepsError(s, e.c, e.ce);
    } else {
      OtherClosing(s, e);
    }
  }

  lemma {:induction false} RunKeepsError(s: State, es: seq<Event>)
    requires Reachable(s) && ErrorIsFinal(s) && IsRun(s, es)
    ensures var t := After(s, es); Reachable(t) && ErrorIsFinal(t) && (s.closing.closeErr != Nil ==> t.closing.closeErr != Nil)
    decreases |es|
  {
    hide Reachable, Inv, ErrorIsFinal, Enabled, Step;
    if es != [] {
      ReachableHasInv(s);
      StepKeepsError(s, es[0]);
      ReachableStep(s, es[0]);
      RunKeepsError(Step(s, es[0]), es[1..]);
    }
  }

  lemma StartIsReachable(s: State)
    requires Init(s)
    ensures Reachable(s) && ErrorIsFinal(s)
  {
    assert IsRun(s, []) && After(s, []) == s;
  }

  lemma ErrorIsFinalAlways(s: State)
    requires Reachable(s)
    ensures ErrorIsFinal(s)
  {
    var start: State, es: seq<Event> :| Init(start) && IsRun(start, es) && After(start, es) == s;
    StartIsReachable(start);
    RunKeepsError(start, es);
  }

  /** With a close error, no run misleads anybody. */
  lemma {:induction false} NobodyMisled(s: State, es: seq<Event>)
    requires Reachable(s) && !Misled(s) && s.closing.closeErr != Nil && IsRun(s, es)
    ensures !Misled(After(s, es))
    decreases |es|
  {
    hide Reachable, Inv, ErrorIsFinal, Misled, Step;
    if es != [] {
      ReachableHasInv(s);
      ErrorIsFinalAlways(s);
      StepMisleads(s, es[0]);
      StepKeepsError(s, es[0]);
      ReachableStep(s, es[0]);
      NobodyMisled(Step(s, es[0]), es[1..]);
    }
  }

  // ---------------------------------------------------------------- before there is a close error

  /** There is always a buffer that does not exist yet. */
  lemma NewBuffer(heap: map<Buf, seq<byte>>) returns (b: Buf)
    ensures b !in heap
  {
    b := Above(heap.Keys);
  }

  lemma Above(bs: set<Buf>) returns (b: Buf)
    ensures forall x :: x in bs ==> x < b
    decreases |bs|
  {
    if bs == {} {
      b := 0;
    } else {
      var x :| x in bs;
      var more := Above(bs - {x});
      b := if x < more then more else x + 1;
      assert forall y :: y in bs ==> y == x || y in bs - {x};
    }
  }

  /** The last producer is in its first call and holds a buffer that is large enough. */
  ghost predicate Starting(s: State, data: seq<byte>, call: nat)
  {
    && s.producers != []
    && var pc := s.producers[|s.producers| - 1];
       && pc.Holding? && pc.call == call && pc.data == data
       && pc.buf in s.mem.heap && |s.mem.heap[pc.buf]| == |data|
  }

  /** A new caller takes a new buffer for its bytes. */
  lemma NewCaller(s: State, data: seq<byte>) returns (es: seq<Event>)
    ensures IsRun(s, es)
    ensures var t := After(s, es);
      && Starting(t, data, |s.book.calls|) && |t.producers| == |s.producers| + 1
      && t.cfg == s.cfg && t.queue == s.queue && t.running == s.running && t.writers == s.writers && t.closing == s.closing
      && t.book.accepted == s.book.accepted && t.net == s.net
  {
    var p := |s.producers|;
    var b := NewBuffer(s.mem.heap);
    var a := Step(s, Outside(NewProducer));
    var c := Step(a, Produce(p, Begin(data)));
    RunCons(c, Produce(p, GetFresh(b, data)), []);
    RunCons(a, Produce(p, Begin(data)), [Produce(p, GetFresh(b, data))] + []);
    es := [Produce(p, Begin(data))] + ([Produce(p, GetFresh(b, data))] + []);
    RunCons(s, Outside(NewProducer), es);
    es := [Outside(NewProducer)] + es;
  }

  /** It fills the buffer, and then the parent context is cancelled. */
  lemma FillsInVain(s: State, call: nat) returns (es: seq<Event>)
    requires Starting(s, [1], call) && s.closing.closeErr == Nil
    ensures IsRun(s, es)
    ensures var t := After(s, es); var e := Produce(|s.producers| - 1, CancelChannel); Enabled(t, e) && Misleads(t, e)
  {
    var p := |s.producers| - 1;
    var a := Step(s, Produce(p, Fill));
    RunCons(a, Outside(CancelParent), []);
    es := [Outside(CancelParent)] + [];
    RunCons(s, Produce(p, Fill), es);
    es := [Produce(p, Fill)] + es;
  }

  /**
   Exactly when a nil error can be trusted: from now on nobody is ever told a nil error for bytes that were not
   sent, whatever happens, if and only if the channel has a close error.
   */
  lemma NilIsTrueIff(s: State)
    requires Reachable(s) && !Misled(s)
    ensures s.closing.closeErr != Nil <==> forall es: seq<Event> :: IsRun(s, es) ==> !Misled(After(s, es))
  {
    hide Reachable, Inv, Misled;
    if s.closing.closeErr != Nil {
      forall es: seq<Event> | IsRun(s, es) ensures !Misled(After(s, es)) {
        NobodyMisled(s, es);
      }
    } else {
      var begin := NewCaller(s, [1]);
      var fill := FillsInVain(After(s, begin), |s.book.calls|);
      RunsTogether(s, begin, fill);
      var es := MisledNext(s, begin + fill, Produce(|s.producers|, CancelChannel));
    }
  }

  /** After a run to an event that misleads, somebody is misled, now or with that event. */
  lemma MisledNext(s: State, es: seq<Event>, e: Event) returns (more: seq<Event>)
    requires Reachable(s) && IsRun(s, es) && Enabled(After(s, es), e) && Misleads(After(s, es), e)
    ensures IsRun(s, more) && Misled(After(s, more))
  {
    hide Reachable, Inv, Misled, Misleads, Enabled, Step;
    if Misled(After(s, es)) {
      more := es;
    } else {
      ReachableRun(s, es);
      ReachableHasInv(After(s, es));
      StepMisleads(After(s, es), e);
      RunSnoc(s, es, e);
      more := es + [e];
    }
  }

  lemma {:induction false} RunsTogether(s: State, a: seq<Event>, b: seq<Event>)
    requires IsRun(s, a) && IsRun(After(s, a), b)
    ensures IsRun(s, a + b) && After(s, a + b) == After(After(s, a), b)
    decreases |a|
  {
    hide Enabled, Step;
    if a == [] {
      assert a + b == b;
    } else {
      RunsTogether(Step(s, a[0]), a[1..], b);
      RunCons(s, a[0], a[1..] + b);
      assert a + b == [a[0]] + (a[1..] + b);
    }
  }

  lemma {:induction false} ReachableRun(s: State, es: seq<Event>)
    requires Reachable(s) && IsRun(s, es)
    ensures Reachable(After(s, es))
    decreases |es|
  {
    hide Reachable;
    if es != [] {
      ReachableStep(s, es[0]);
      ReachableRun(Step(s, es[0]), es[1..]);
    }
  }
}
