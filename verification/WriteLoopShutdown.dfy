/** What a failure and a call of `Close` leave behind, and what callers are told then. */
module WriteLoopShutdown {
  import opened Totals
  import opened WriteLoop
  import opened WriteLoopInvariant
  import opened WriteLoopTheorems
  import opened WriteLoopClosing
  import opened WriteLoopAnswers

  // ---------------------------------------------------------------- a failure closes the channel

  /** A writer on its way to `Close`. */
  ghost predicate OnTheWay(s: State)
  {
    exists w :: 0 <= w < |s.writers| && (s.writers[w].Panicked? || s.writers[w].Closing?)
  }

  /** The closer is past the compare-and-swap and has not finished. */
  ghost predicate UnderWay(s: State)
  {
    exists c :: 0 <= c < |s.closing.closers| && CloserPassed(s.closing.closers[c]) == 1
  }

  ghost predicate Tidy(s: State)
  {
    && (s.net.failed ==> s.closing.closers != [] || OnTheWay(s))
    && (forall c :: 0 <= c < |s.closing.closers| && !s.closing.closers[c].CasClosed? ==> s.closing.closed)
    && (s.closing.closed ==> s.closing.ctxDone || UnderWay(s))
    && (s.closing.closeErr == Nil || s.closing.closeErr == CloseError)
  }

  lemma ProducerKeepsTidy(s: State, p: nat, e: ProducerEvent)
    requires Tidy(s) && ProducerEnabled(s, p, e)
    ensures Tidy(ProducerStep(s, p, e))
  {
    var t := ProducerStep(s, p, e);
    assert t.closing == s.closing && t.net == s.net && s.writers <= t.writers;
    if OnTheWay(s) {
      var w :| 0 <= w < |s.writers| && (s.writers[w].Panicked? || s.writers[w].Closing?);
      assert t.writers[w] == s.writers[w];
    }
  }

  /** A writer that fails, and one on its way, go on to call `Close`. */
  lemma WriterStaysOnTheWay(s: State, w: nat, e: WriterEvent)
    requires (s.net.failed ==> s.closing.closers != [] || OnTheWay(s)) && WriterEnabled(s, w, e)
    ensures var t := WriterStep(s, w, e); t.net.failed ==> t.closing.closers != [] || OnTheWay(t)
  {
    var t := WriterStep(s, w, e);
    if t.net.failed && t.closing.closers == [] {
      if s.net.failed {
        var v :| 0 <= v < |s.writers| && (s.writers[v].Panicked? || s.writers[v].Closing?);
        assert v != w ==> t.writers[v] == s.writers[v];
        assert v == w ==> t.writers[w].Closing?;
      } else {
        assert t.writers[w].Panicked?;
      }
    }
  }

  lemma ClosingKeepsTidy(s: State, t: State)
    requires Tidy(s) && SameClosing(s, t) && t.closing.ctxDone == s.closing.ctxDone
    requires t.net.failed ==> t.closing.closers != [] || OnTheWay(t)
    ensures Tidy(t)
  {
    if UnderWay(s) {
      var c :| 0 <= c < |s.closing.closers| && CloserPassed(s.closing.closers[c]) == 1;
      assert t.closing.closers[c] == s.closing.closers[c];
    }
  }

  lemma WriterKeepsTidy(s: State, w: nat, e: WriterEvent)
    requires Tidy(s) && WriterEnabled(s, w, e)
    ensures Tidy(WriterStep(s, w, e))
  {
    hide WriterStep, WriterEnabled, OnTheWay, UnderWay, SameClosing;
    WriterStaysOnTheWay(s, w, e);
    WriterClosing(s, w, e);
    WriterContext(s, w, e);
    ClosingKeepsTidy(s, WriterStep(s, w, e));
  }

  lemma WriterContext(s: State, w: nat, e: WriterEvent)
    requires WriterEnabled(s, w, e)
    ensures WriterStep(s, w, e).closing.ctxDone == s.closing.ctxDone
  {
  }

  lemma CloserKeepsTidy(s: State, c: nat, e: CloserEvent)
    requires Tidy(s) && CloseOnce(s) && CloserEnabled(s, c, e)
    ensures Tidy(CloserStep(s, c, e))
  {
    var t := CloserStep(s, c, e);
    assert OnTheWay(t) == OnTheWay(s);
    TotalUpdate(s.closing.closers, c, t.closing.closers[c], CloserPassed);
    if CloserPassed(t.closing.closers[c]) == 1 {
      assert UnderWay(t);
    } else if !e.Cancel? && UnderWay(s) {
      var d :| 0 <= d < |s.closing.closers| && CloserPassed(s.closing.closers[d]) == 1;
      assert d != c && t.closing.closers[d] == s.closing.closers[d];
    }
  }

  lemma OutsideKeepsTidy(s: State, e: OutsideEvent)
    requires Tidy(s) && OutsideEnabled(s, e)
    ensures Tidy(OutsideStep(s, e))
  {
    var t := OutsideStep(s, e);
    assert t.writers == s.writers && t.net == s.net && s.closing.closers <= t.closing.closers;
    if UnderWay(s) {
      var c :| 0 <= c < |s.closing.closers| && CloserPassed(s.closing.closers[c]) == 1;
      assert t.closing.closers[c] == s.closing.closers[c];
    }
  }

  lemma StepKeepsTidy(s: State, e: Event)
    requires Tidy(s) && CloseOnce(s) && Enabled(s, e)
    ensures Tidy(Step(s, e))
  {
    hide Tidy, CloseOnce, ProducerStep, WriterStep, CloserStep, OutsideStep;
    match e
    case Produce(p, pe) => ProducerKeepsTidy(s, p, pe);
    case Write(w, we) => WriterKeepsTidy(s, w, we);
    case Close(c, ce) => CloserKeepsTidy(s, c, ce);
    case Outside(oe) => OutsideKeepsTidy(s, oe);
  }

  lemma {:induction false} RunKeepsTidy(s: State, es: seq<Event>)
    requires Reachable(s) && Tidy(s) && IsRun(s, es)
    ensures Tidy(After(s, es))
    decreases |es|
  {
    hide Reachable, Tidy, Enabled, Step;
    if es != [] {
      ReachableHasInv(s);
      StepKeepsTidy(s, es[0]);
      ReachableStep(s, es[0]);
      RunKeepsTidy(Step(s, es[0]), es[1..]);
    }
  }

  lemma ReachableIsTidy(s: State)
    requires Reachable(s)
    ensures Tidy(s)
  {
    var start: State, es: seq<Event> :| Init(start) && IsRun(start, es) && After(start, es) == s;
    StartIsReachable(start);
    RunKeepsTidy(start, es);
  }

  /** After a failure some writer is on its way to `Close`, or `Close` has been called. */
  lemma FailureCloses(s: State)
    requires Reachable(s) && s.net.failed
    ensures s.closing.closers != [] || exists w :: 0 <= w < |s.writers| && (s.writers[w].Panicked? || s.writers[w].Closing?)
  {
    ReachableIsTidy(s);
  }

  /** A failed channel whose writers and closers have finished is closed, and its context is done. */
  lemma FailedIsClosed(s: State)
    requires Reachable(s) && s.net.failed
    requires forall w :: 0 <= w < |s.writers| ==> s.writers[w].Finished?
    requires forall c :: 0 <= c < |s.closing.closers| ==> s.closing.closers[c].Closed?
    ensures s.closing.closed && s.closing.ctxDone
  {
    ReachableIsTidy(s);
    assert s.closing.closers[0].Closed?;
  }

  // ---------------------------------------------------------------- what `Close` leaves behind

  /** A closed channel has its context done, unless the call of `Close` that closed it is still under way. */
  lemma ClosedIsDone(s: State)
    requires Reachable(s) && s.closing.closed && forall c :: 0 <= c < |s.closing.closers| ==> CloserPassed(s.closing.closers[c]) == 0
    ensures s.closing.ctxDone
    ensures forall p :: 0 <= p < |s.producers| && s.producers[p].Filled? ==> Enabled(s, Produce(p, CancelChannel))
  {
    ReachableIsTidy(s);
  }

  /** The close error is `e`, and nobody is going to set another. */
  ghost predicate ErrorIs(s: State, e: Error)
  {
    && s.closing.closeErr == e && s.closing.closed
    && forall c :: 0 <= c < |s.closing.closers| ==> !s.closing.closers[c].Waiting? && !s.closing.closers[c].SettingErr?
  }

  lemma SettingErrIsLast(s: State, c: nat, e: Error)
    requires CloseOnce(s) && CloserEnabled(s, c, SetErr(e))
    ensures ErrorIs(CloserStep(s, c, SetErr(e)), e)
  {
    var closers := s.closing.closers;
    TotalUpdate(closers, c, Closed, CloserPassed);
    forall d | 0 <= d < |closers| && d != c ensures CloserPassed(closers[d]) == 0 {
      if d < c {
        TotalTwo(closers, d, c, CloserPassed);
      } else {
        TotalTwo(closers, c, d, CloserPassed);
      }
    }
  }

  lemma StepKeepsErrorIs(s: State, e: Event, err: Error)
    requires ErrorIs(s, err) && Enabled(s, e)
    ensures ErrorIs(Step(s, e), err)
  {
    hide ProducerStep, WriterStep, OutsideStep, ProducerEnabled, WriterEnabled, OutsideEnabled;
    if !e.Close? {
      OtherClosing(s, e);
    }
  }

  lemma {:induction false} RunKeepsErrorIs(s: State, es: seq<Event>, err: Error)
    requires ErrorIs(s, err) && IsRun(s, es)
    ensures ErrorIs(After(s, es), err)
    decreases |es|
  {
    hide ErrorIs, Enabled, Step;
    if es != [] {
      StepKeepsErrorIs(s, es[0], err);
      RunKeepsErrorIs(Step(s, es[0]), es[1..], err);
    }
  }

  /** The error that `Close` stores is the channel's close error from then on, whatever happens. */
  lemma ErrorIsKept(s: State, c: nat, e: Error, es: seq<Event>)
    requires Reachable(s) && CloserEnabled(s, c, SetErr(e)) && IsRun(Step(s, Close(c, SetErr(e))), es)
    ensures After(Step(s, Close(c, SetErr(e))), es).closing.closeErr == e
  {
    ReachableHasInv(s);
    SettingErrIsLast(s, c, e);
    RunKeepsErrorIs(Step(s, Close(c, SetErr(e))), es, e);
  }

  ghost predicate PastError(s: State)
  {
    exists c :: 0 <= c < |s.closing.closers| && (s.closing.closers[c].ClosingTransport? || s.closing.closers[c].Cancelling?)
  }

  /** The context is done only when the close error has been decided. */
  ghost predicate ErrorFirst(s: State)
  {
    s.closing.ctxDone || PastError(s) ==> ErrorIs(s, s.closing.closeErr)
  }

  lemma CloserKeepsErrorFirst(s: State, c: nat, e: CloserEvent)
    requires CloseOnce(s) && ErrorFirst(s) && CloserEnabled(s, c, e)
    ensures ErrorFirst(CloserStep(s, c, e))
  {
    var t := CloserStep(s, c, e);
    if e.SetErr? {
      SettingErrIsLast(s, c, e.err);
    } else if PastError(s) {
      assert ErrorIs(s, s.closing.closeErr);
    } else {
      assert forall d :: 0 <= d < |s.closing.closers| && d != c ==> t.closing.closers[d] == s.closing.closers[d];
    }
  }

  lemma StepKeepsErrorFirst(s: State, e: Event)
    requires CloseOnce(s) && ErrorFirst(s) && Enabled(s, e) && e != Outside(CancelParent)
    ensures ErrorFirst(Step(s, e))
  {
    hide ProducerStep, WriterStep, ProducerEnabled, WriterEnabled, CloseOnce;
    if e.Close? {
      CloserKeepsErrorFirst(s, e.c, e.ce);
    } else {
      OtherClosing(s, e);
      OtherContext(s, e);
    }
  }

  lemma OtherContext(s: State, e: Event)
    requires Enabled(s, e) && !e.Close? && e != Outside(CancelParent)
    ensures Step(s, e).closing.ctxDone == s.closing.ctxDone
  {
    hide WriterStep, WriterEnabled;
    if e.Write? {
      WriterContext(s, e.w, e.we);
    }
  }

  lemma {:induction false} RunKeepsErrorFirst(s: State, es: seq<Event>)
    requires Reachable(s) && ErrorFirst(s) && IsRun(s, es) && Outside(CancelParent) !in es
    ensures ErrorFirst(After(s, es))
    decreases |es|
  {
    hide Reachable, ErrorFirst, Enabled, Step;
    if es != [] {
      ReachableHasInv(s);
      StepKeepsErrorFirst(s, es[0]);
      ReachableStep(s, es[0]);
      RunKeepsErrorFirst(Step(s, es[0]), es[1..]);
    }
  }

  /**
   As long as no parent context is cancelled, a caller who sees the channel's context done is told the error that
   `Close` was given.
   */
  lemma ErrorBeforeDone(start: State, es: seq<Event>)
    requires Init(start) && IsRun(start, es) && Outside(CancelParent) !in es
    ensures var s := After(start, es); s.closing.ctxDone ==> ErrorIs(s, s.closing.closeErr)
  {
    StartIsReachable(start);
    RunKeepsErrorFirst(start, es);
  }

  // ---------------------------------------------------------------- how long `Close` waits

  /** How often closer `c` sleeps in a run. */
  ghost function Sleeps(es: seq<Event>, c: nat): nat
  {
    if es == [] then 0 else (if es[0] == Close(c, Sleep) then 1 else 0) + Sleeps(es[1..], c)
  }

  /** Before the end of its wait, the rounds a closer has slept. */
  ghost predicate StillWaits(s: State, c: nat, rounds: nat)
  {
    && c < |s.closing.closers|
    && var pc := s.closing.closers[c]; (pc.CasClosed? && rounds == 0) || pc == Waiting(rounds)
  }

  /** Past its wait, in the course of closing. */
  ghost predicate GoesAhead(s: State, c: nat)
  {
    c < |s.closing.closers| && (s.closing.closers[c].SettingErr? || s.closing.closers[c].ClosingTransport? || s.closing.closers[c].Cancelling?)
  }

  ghost predicate HasEnded(s: State, c: nat)
  {
    c < |s.closing.closers| && s.closing.closers[c].Closed?
  }

  ghost predicate WasIdle(s: State, es: seq<Event>)
    requires IsRun(s, es)
    decreases |es|
  {
    !s.running || (es != [] && WasIdle(Step(s, es[0]), es[1..]))
  }

  /** One event of the wait. */
  lemma StepWaits(s: State, e: Event, c: nat, rounds: nat)
    requires StillWaits(s, c, rounds) && Enabled(s, e)
    ensures |s.closing.closers| <= |Step(s, e).closing.closers| && Step(s, e).cfg == s.cfg
    ensures e == Close(c, Sleep) ==> s.cfg.untilWrite || rounds < 10
    ensures var t := Step(s, e);
      || StillWaits(t, c, rounds + if e == Close(c, Sleep) then 1 else 0)
      || HasEnded(t, c)
      || (GoesAhead(t, c) && (!s.running || (!s.cfg.untilWrite && rounds >= 10)))
  {
    hide ProducerStep, WriterStep, OutsideStep, ProducerEnabled, WriterEnabled, OutsideEnabled;
    SameConfig(s, e);
    if !e.Close? {
      OtherClosing(s, e);
    }
  }

  lemma SameConfig(s: State, e: Event)
    requires Enabled(s, e)
    ensures Step(s, e).cfg == s.cfg
  {
  }

  /** A closer that is over stays over, and one that goes ahead does not sleep any more. */
  lemma StepIsOver(s: State, e: Event, c: nat)
    requires c < |s.closing.closers| && (s.closing.closers[c].Closed? || GoesAhead(s, c)) && Enabled(s, e)
    ensures var t := Step(s, e);
      && c < |t.closing.closers| && (t.closing.closers[c].Closed? || GoesAhead(t, c)) && e != Close(c, Sleep)
      && (s.closing.closers[c].Closed? ==> t.closing.closers[c].Closed?)
  {
    hide ProducerStep, WriterStep, OutsideStep, ProducerEnabled, WriterEnabled, OutsideEnabled;
    if !e.Close? {
      OtherClosing(s, e);
    }
  }

  lemma {:induction false} RunIsOver(s: State, es: seq<Event>, c: nat)
    requires c < |s.closing.closers| && (s.closing.closers[c].Closed? || GoesAhead(s, c)) && IsRun(s, es)
    ensures Sleeps(es, c) == 0 && (s.closing.closers[c].Closed? ==> !GoesAhead(After(s, es), c))
    decreases |es|
  {
    hide Enabled, Step;
    if es != [] {
      StepIsOver(s, es[0], c);
      RunIsOver(Step(s, es[0]), es[1..], c);
    }
  }

  /** `Close` goes ahead only after it was idle at some time, or, without `untilWrite`, after ten rounds of waiting. */
  lemma {:induction false} CloseWaits(s: State, es: seq<Event>, c: nat, rounds: nat)
    requires StillWaits(s, c, rounds) && IsRun(s, es)
    ensures GoesAhead(After(s, es), c) ==> WasIdle(s, es) || (!s.cfg.untilWrite && rounds + Sleeps(es, c) >= 10)
    ensures s.cfg.untilWrite || rounds > 10 || rounds + Sleeps(es, c) <= 10
    decreases |es|
  {
    hide Enabled, Step;
    if es != [] {
      var e, t := es[0], Step(s, es[0]);
      StepWaits(s, e, c, rounds);
      var more := rounds + if e == Close(c, Sleep) then 1 else 0;
      if StillWaits(t, c, more) {
        CloseWaits(t, es[1..], c, more);
      } else {
        RunIsOver(t, es[1..], c);
        assert !(e == Close(c, Sleep)) by { NoSleepNow(s, e, c, rounds); }
      }
    }
  }

  lemma NoSleepNow(s: State, e: Event, c: nat, rounds: nat)
    requires StillWaits(s, c, rounds) && Enabled(s, e) && !StillWaits(Step(s, e), c, rounds + if e == Close(c, Sleep) then 1 else 0)
    ensures e != Close(c, Sleep)
  {
  }

  // ---------------------------------------------------------------- what `Close` does, and in which order

  /** How far a call of `Close` that won the compare-and-swap has come. */
  ghost function Phase(c: Closer): nat
  {
    match c
    case CasClosed => 0
    case Waiting(_) => 1
    case SettingErr => 2
    case ClosingTransport => 3
    case Cancelling => 4
    case Closed => 5
  }

  /** The event that ends phase `k`. */
  ghost predicate Ends(e: CloserEvent, k: nat)
  {
    match e
    case StopWaiting => k == 1
    case SetErr(_) => k == 2
    case CloseTransport(_) => k == 3
    case Cancel => k == 4
    case _ => false
  }

  /** A call of `Close` goes through its phases one by one, each ended by its own event. */
  lemma PhaseByPhase(s: State, e: Event, c: nat)
    requires c < |s.closing.closers| && 1 <= Phase(s.closing.closers[c]) && Enabled(s, e)
    ensures c < |Step(s, e).closing.closers|
    ensures var k, l := Phase(s.closing.closers[c]), Phase(Step(s, e).closing.closers[c]);
      l == k || (l == k + 1 && e.Close? && e.c == c && Ends(e.ce, k))
  {
    hide Enabled, Step, Phase, Ends;
    if e.Close? {
      CloserPhase(s, e, c);
    } else {
      OtherClosing(s, e);
    }
  }

  lemma CloserPhase(s: State, e: Event, c: nat)
    requires c < |s.closing.closers| && 1 <= Phase(s.closing.closers[c]) && Enabled(s, e) && e.Close?
    ensures c < |Step(s, e).closing.closers|
    ensures var k, l := Phase(s.closing.closers[c]), Phase(Step(s, e).closing.closers[c]);
      l == k || (l == k + 1 && e.c == c && Ends(e.ce, k))
  {
    hide WriterStep, ProducerStep, OutsideStep;
    match e.ce
    case CasClose =>
    case Sleep =>
    case StopWaiting =>
    case SetErr(_) =>
    case CloseTransport(_) =>
    case Cancel =>
  }

  /** Somewhere in the run closer `c` ended phase `k`. */
  ghost predicate Ended(es: seq<Event>, c: nat, k: nat)
  {
    exists i :: 0 <= i < |es| && es[i].Close? && es[i].c == c && Ends(es[i].ce, k)
  }

  lemma {:induction false} PhasesEnd(s: State, es: seq<Event>, c: nat, k: nat)
    requires c < |s.closing.closers| && 1 <= Phase(s.closing.closers[c]) <= k && IsRun(s, es)
    requires c < |After(s, es).closing.closers| && Phase(After(s, es).closing.closers[c]) > k
    ensures Ended(es, c, k)
    decreases |es|
  {
    hide Enabled, Step;
    var t := Step(s, es[0]);
    PhaseByPhase(s, es[0], c);
    if Phase(t.closing.closers[c]) > k {
      assert es[0].Close? && es[0].c == c && Ends(es[0].ce, k);
    } else {
      PhasesEnd(t, es[1..], c, k);
      var i :| 0 <= i < |es[1..]| && es[1..][i].Close? && es[1..][i].c == c && Ends(es[1..][i].ce, k);
      assert es[i + 1] == es[1..][i];
    }
  }

  /** What was given to `SetErr` in the run, when that has come. */
  lemma {:induction false} ErrorWasSet(s: State, es: seq<Event>, c: nat) returns (e: Error)
    requires Reachable(s) && c < |s.closing.closers| && 1 <= Phase(s.closing.closers[c]) <= 2 && IsRun(s, es)
    requires c < |After(s, es).closing.closers| && Phase(After(s, es).closing.closers[c]) > 2
    ensures Close(c, SetErr(e)) in es && ErrorIs(After(s, es), e)
    decreases |es|
  {
    hide Reachable, Enabled, Step, ErrorIs;
    var t := Step(s, es[0]);
    PhaseByPhase(s, es[0], c);
    if Phase(t.closing.closers[c]) > 2 {
      e := es[0].ce.err;
      ReachableHasInv(s);
      assert es[0] == Close(c, SetErr(e));
      FirstSet(s, c, e);
      RunKeepsErrorIs(t, es[1..], e);
    } else {
      ReachableStep(s, es[0]);
      e := ErrorWasSet(t, es[1..], c);
      assert Close(c, SetErr(e)) in es[1..];
    }
  }

  lemma FirstSet(s: State, c: nat, e: Error)
    requires Inv(s) && Enabled(s, Close(c, SetErr(e)))
    ensures ErrorIs(Step(s, Close(c, SetErr(e))), e)
  {
    SettingErrIsLast(s, c, e);
  }

  /**
   A call of `Close` that got past the compare-and-swap and has returned has waited, stored its error, closed the
   transport and cancelled the context; the channel keeps that error.
   */
  lemma CloseDoesAll(s: State, es: seq<Event>, c: nat) returns (e: Error)
    requires Reachable(s) && c < |s.closing.closers| && s.closing.closers[c].Waiting? && IsRun(s, es)
    requires c < |After(s, es).closing.closers| && After(s, es).closing.closers[c].Closed?
    ensures Ended(es, c, 1) && Ended(es, c, 3) && Ended(es, c, 4) && Close(c, SetErr(e)) in es
    ensures After(s, es).closing.closeErr == e && After(s, es).closing.closed
  {
    PhasesEnd(s, es, c, 1);
    PhasesEnd(s, es, c, 3);
    PhasesEnd(s, es, c, 4);
    e := ErrorWasSet(s, es, c);
  }

  // ---------------------------------------------------------------- what callers are told

  /** What is told by each event that ends a call, in terms of the call and the channel. */
  lemma ToldWhy(s: State, p: nat, e: ProducerEvent)
    requires Inv(s) && ProducerEnabled(s, p, e) && !s.producers[p].Ready? && ProducerStep(s, p, e).producers[p].Ready?
    ensures var c := s.producers[p].call; var r := ProducerStep(s, p, e).book.results;
      && c < |s.book.calls| && c !in s.book.results && r.Keys == s.book.results.Keys + {c}
      && match e
         case RejectClosed => r[c] == Return(0, s.closing.closeErr) && s.closing.closeErr != Nil
         case PutBack => r[c] == Return(0, Nil) && s.book.calls[c] == []
         case Refuse =>
           r[c] == Return(0, NoSpace) && |s.queue| == s.cfg.queueCap && !s.cfg.untilWrite && !s.closing.ctxDone
         case CancelChannel => r[c] == Return(0, s.closing.closeErr) && s.closing.ctxDone
         case CancelCaller => r[c] == Return(0, CtxError)
         case _ => (e.CasIdle? || e.Spawn?) && r[c] == Return(|s.book.calls[c]|, Nil) && WasAccepted(s.book.accepted, c)
  {
    assert ProducerCall(s, s.producers[p]);
  }

  /** A caller that has not sent anything yet can be told the close error exactly when there is one. */
  lemma RejectedIff(s: State, p: nat)
    requires Reachable(s) && p < |s.producers|
    requires s.producers[p].NeedBuf? || s.producers[p].Holding? || s.producers[p].Filled?
    ensures ProducerEnabled(s, p, RejectClosed) <==> s.closing.closeErr != Nil
    ensures ProducerEnabled(s, p, RejectClosed) ==>
      ProducerStep(s, p, RejectClosed).book.results[s.producers[p].call] == Return(0, CloseError)
  {
    ReachableIsTidy(s);
  }

  /** A caller is told that there is no space exactly when the queue was full, nothing was done, and it may not wait. */
  lemma ToldNoSpaceIff(s: State, p: nat, e: ProducerEvent)
    requires Reachable(s) && ProducerEnabled(s, p, e) && !s.producers[p].Ready? && ProducerStep(s, p, e).producers[p].Ready?
    ensures s.producers[p].call in ProducerStep(s, p, e).book.results
    ensures ProducerStep(s, p, e).book.results[s.producers[p].call].err == NoSpace <==> e.Refuse?
  {
    ReachableHasInv(s);
    ReachableIsTidy(s);
    hide Inv;
    ToldWhy(s, p, e);
  }
}
