/** Handlers as the pipeline sees them: what they can handle, and what they do with a message. */
module Handlers {
  import opened Common

  datatype Capability = Active | Inbound | Outbound | Exceptional | Inactive | Evented

  /** What a handler does with a message: hand a message on, keep it, or panic. */
  datatype Action<M> = Forward(m: M) | Absorb(m: M) | Panic

  /** `passes` are the signals (other than messages) that the handler hands on. */
  datatype Handler<!M> =
    Handler(caps: set<Capability>, passes: set<Capability>, onRead: M -> Action<M>, onWrite: M -> Action<M>)

  /** What becomes of a message, and the positions of the handlers that got to see it, in order. */
  datatype Journey<M> = Journey(result: Action<M>, visited: seq<nat>)

  /** `headHandler` gives every written message to the channel. */
  function HeadHandler<M>(): (h: Handler<M>)
    ensures h.caps == {Outbound}
  {
    Handler({Outbound}, {}, (m: M) => Forward(m), (m: M) => Absorb(m))
  }

  /** `tailHandler` only handles exceptions, and closes the channel. */
  function TailHandler<M>(): (h: Handler<M>)
    ensures h.caps == {Exceptional}
  {
    Handler({Exceptional}, {}, (m: M) => Forward(m), (m: M) => Forward(m))
  }

  /** `checkHandler`: every handler can handle something. */
  predicate Recognized<M>(hs: seq<Handler<M>>)
  {
    forall i :: 0 <= i < |hs| ==> hs[i].caps != {}
  }

  // ---------------------------------------------------------------- what dispatch means

  /**
   A message travelling towards the tail: handlers that cannot read are skipped, the others act in order.
   The first of `hs` stands at position `base`. `Forward` as the result means it fell off the end.
   */
  function ReadThrough<M>(hs: seq<Handler<M>>, m: M, base: nat): (r: Journey<M>)
  {
    if hs == [] then Journey(Forward(m), [])
    else if Inbound !in hs[0].caps then ReadThrough(hs[1..], m, base + 1)
    else
      match hs[0].onRead(m)
      case Forward(n) =>
        var rest := ReadThrough(hs[1..], n, base + 1);
        Journey(rest.result, [base] + rest.visited)
      case other => Journey(other, [base])
  }

  /** A message travelling towards the head, from behind the last of `hs`; the first stands at position 0. */
  function WriteThrough<M>(hs: seq<Handler<M>>, m: M): (r: Journey<M>)
  {
    if hs == [] then Journey(Forward(m), [])
    else
      var last := |hs| - 1;
      if Outbound !in hs[last].caps then WriteThrough(hs[..last], m)
      else
        match hs[last].onWrite(m)
        case Forward(n) =>
          var rest := WriteThrough(hs[..last], n);
          Journey(rest.result, [last] + rest.visited)
        case other => Journey(other, [last])
  }

  /** The positions at which a signal (active, exception, inactive, event) is handled. */
  function SignalPath<M>(hs: seq<Handler<M>>, cap: Capability, base: nat): (visited: seq<nat>)
  {
    if hs == [] then []
    else if cap !in hs[0].caps then SignalPath(hs[1..], cap, base + 1)
    else [base] + if cap in hs[0].passes then SignalPath(hs[1..], cap, base + 1) else []
  }

  /** None of the handlers at positions `from` to `to` - 1 can `cap`. */
  predicate NoneCan<M>(hs: seq<Handler<M>>, cap: Capability, from: nat, to: nat)
    requires to <= |hs|
  {
    forall i :: from <= i < to ==> cap !in hs[i].caps
  }

  /** Dispatch skips handlers that cannot read. */
  lemma {:induction false} SkipReaders<M>(hs: seq<Handler<M>>, from: nat, to: nat, m: M)
    requires from <= to <= |hs| && NoneCan(hs, Inbound, from, to)
    ensures ReadThrough(hs[from..], m, from) == ReadThrough(hs[to..], m, to)
  {
    if from < to {
      assert hs[to - 1..][1..] == hs[to..];
      SkipReaders(hs, from, to - 1, m);
    }
  }

  lemma {:induction false} SkipSignal<M>(hs: seq<Handler<M>>, cap: Capability, from: nat, to: nat)
    requires from <= to <= |hs| && NoneCan(hs, cap, from, to)
    ensures SignalPath(hs[from..], cap, from) == SignalPath(hs[to..], cap, to)
  {
    if from < to {
      assert hs[to - 1..][1..] == hs[to..];
      SkipSignal(hs, cap, from, to - 1);
    }
  }

  /** Dispatch skips handlers that cannot write. */
  lemma {:induction false} SkipWriters<M>(hs: seq<Handler<M>>, from: nat, to: nat, m: M)
    requires from <= to <= |hs| && NoneCan(hs, Outbound, from, to)
    ensures WriteThrough(hs[..to], m) == WriteThrough(hs[..from], m)
  {
    if from < to {
      assert hs[..to][..to - 1] == hs[..to - 1];
      SkipWriters(hs, from, to - 1, m);
    }
  }

  predicate SomeCapable<M>(hs: seq<Handler<M>>, cap: Capability)
  {
    exists i :: 0 <= i < |hs| && cap in hs[i].caps
  }

  /** A signal is handled exactly when somebody can handle it. */
  lemma {:induction false} SignalIsHandled<M>(hs: seq<Handler<M>>, cap: Capability, base: nat)
    ensures SignalPath(hs, cap, base) != [] <==> SomeCapable(hs, cap)
  {
    if hs != [] && cap !in hs[0].caps {
      var rest := hs[1..];
      SignalIsHandled(rest, cap, base + 1);
      if SomeCapable(hs, cap) {
        var i :| 0 <= i < |hs| && cap in hs[i].caps;
        assert rest[i - 1] == hs[i];
      }
      if SomeCapable(rest, cap) {
        var i :| 0 <= i < |rest| && cap in rest[i].caps;
        assert hs[i + 1] == rest[i];
      }
    }
  }

  /** From position `k` a message goes straight to the next handler that can read, at position `at`, if there is one. */
  lemma ReadStep<M>(hs: seq<Handler<M>>, k: nat, at: nat, m: M)
    requires k < at <= |hs| && NoneCan(hs, Inbound, k + 1, at) && (at < |hs| ==> Inbound in hs[at].caps)
    ensures var j := ReadThrough(hs[k + 1..], m, k + 1);
      if at == |hs| then j.result == Forward(m) && j.visited == []
      else
        var r := hs[at].onRead(m);
        if r.Forward? then
          var rest := ReadThrough(hs[at + 1..], r.m, at + 1);
          j.result == rest.result && j.visited == [at] + rest.visited
        else j.result == r && j.visited == [at]
  {
    hide NoneCan;
    SkipReaders(hs, k + 1, at, m);
    assert at < |hs| ==> hs[at..][1..] == hs[at + 1..];
  }

  /** The same towards the head: the next handler that can write is at position `at` - 1. */
  lemma WriteStep<M>(hs: seq<Handler<M>>, k: nat, at: nat, m: M)
    requires at <= k <= |hs| && NoneCan(hs, Outbound, at, k) && (at > 0 ==> Outbound in hs[at - 1].caps)
    ensures var j := WriteThrough(hs[..k], m);
      if at == 0 then j.result == Forward(m) && j.visited == []
      else
        var r := hs[at - 1].onWrite(m);
        if r.Forward? then
          var rest := WriteThrough(hs[..at - 1], r.m);
          j.result == rest.result && j.visited == [at - 1] + rest.visited
        else j.result == r && j.visited == [at - 1]
  {
    hide NoneCan;
    SkipWriters(hs, at, k, m);
    assert at > 0 ==> hs[..at][..at - 1] == hs[..at - 1];
  }

  /** From position `k` a signal goes straight to the next capable handler, at position `at`, if there is one. */
  lemma SignalStep<M>(hs: seq<Handler<M>>, cap: Capability, k: nat, at: nat)
    requires k < at <= |hs| && NoneCan(hs, cap, k + 1, at) && (at < |hs| ==> cap in hs[at].caps)
    ensures SomeCapable(hs[k + 1..], cap) <==> at < |hs|
    ensures SignalPath(hs[k + 1..], cap, k + 1) ==
      if at == |hs| then []
      else [at] + if cap in hs[at].passes then SignalPath(hs[at + 1..], cap, at + 1) else []
  {
    hide SomeCapable, NoneCan;
    SkipSignal(hs, cap, k + 1, at);
    SignalIsHandled(hs[k + 1..], cap, k + 1);
    assert at < |hs| ==> hs[at..][1..] == hs[at + 1..];
  }

  lemma {:induction false} SignalPasses<M>(hs: seq<Handler<M>>, cap: Capability, base: nat, k: nat)
    requires k <= |hs| && forall i :: 0 <= i < k && cap in hs[i].caps ==> cap in hs[i].passes
    ensures SignalPath(hs, cap, base) == Capable(hs[..k], cap, base) + SignalPath(hs[k..], cap, base + k)
  {
    if k == 0 {
      assert hs[0..] == hs;
    } else {
      SignalPasses(hs, cap, base, k - 1);
      assert hs[..k][..k - 1] == hs[..k - 1] && hs[k - 1..][1..] == hs[k..];
    }
  }

  /** A signal visits the capable handlers in order, up to the first that does not pass it on (at `k`). */
  lemma SignalStops<M>(hs: seq<Handler<M>>, cap: Capability, base: nat, k: nat)
    requires k <= |hs| && forall i :: 0 <= i < k && cap in hs[i].caps ==> cap in hs[i].passes
    requires k < |hs| ==> cap in hs[k].caps && cap !in hs[k].passes
    ensures SignalPath(hs, cap, base) == Capable(hs[..k], cap, base) + if k < |hs| then [base + k] else []
  {
    SignalPasses(hs, cap, base, k);
  }

  // ---------------------------------------------------------------- codec stacks

  /** The message a handler passes towards the head. */
  function Encode<M>(h: Handler<M>, m: M): (n: M)
  {
    if Outbound in h.caps && h.onWrite(m).Forward? then h.onWrite(m).m else m
  }

  /** The handler encodes `m` and forwards it, and reads its own encoding back as `m`. */
  ghost predicate Undoes<M>(h: Handler<M>, m: M)
  {
    && (Outbound in h.caps ==> h.onWrite(m).Forward?)
    && (if Inbound in h.caps then h.onRead(Encode(h, m)) == Forward(m) else Encode(h, m) == m)
  }

  /** What a message becomes when the handlers encode it one after the other, the last one first. */
  function EncodeAll<M>(hs: seq<Handler<M>>, m: M): (n: M)
  {
    if hs == [] then m else EncodeAll(hs[..|hs| - 1], Encode(hs[|hs| - 1], m))
  }

  /** Every handler undoes its encoding of the message it is given. */
  ghost predicate AllUndo<M>(hs: seq<Handler<M>>, m: M)
  {
    hs == [] || (Undoes(hs[|hs| - 1], m) && AllUndo(hs[..|hs| - 1], Encode(hs[|hs| - 1], m)))
  }

  /** Positions (counted from `base`) of the handlers that can `cap`, in order. */
  function Capable<M>(hs: seq<Handler<M>>, cap: Capability, base: nat): (ps: seq<nat>)
  {
    if hs == [] then []
    else
      var n := |hs| - 1;
      Capable(hs[..n], cap, base) + if cap in hs[n].caps then [base + n] else []
  }

  lemma ReversedSnoc<T>(s: seq<T>, x: T)
    ensures Reversed(s + [x]) == [x] + Reversed(s)
  {
  }

  /** The last handler is the first to see a written message. */
  lemma WriteLast<M>(before: seq<Handler<M>>, hs: seq<Handler<M>>, m: M)
    requires hs != [] && Undoes(hs[|hs| - 1], m)
    ensures var n := |hs| - 1;
      var j, rest := WriteThrough(before + hs, m), WriteThrough(before + hs[..n], Encode(hs[n], m));
      j.result == rest.result && j.visited == (if Outbound in hs[n].caps then [|before| + n] else []) + rest.visited
  {
    assert (before + hs)[..|before + hs| - 1] == before + hs[..|hs| - 1];
  }

  lemma ReversedEnd<T>(s: seq<T>, more: bool, x: T)
    ensures Reversed(s + if more then [x] else []) == (if more then [x] else []) + Reversed(s)
  {
    if more {
      ReversedSnoc(s, x);
    } else {
      assert s + [] == s;
    }
  }

  lemma CapableLast<M>(hs: seq<Handler<M>>, cap: Capability, base: nat)
    requires hs != []
    ensures var n := |hs| - 1;
      Capable(hs, cap, base) == Capable(hs[..n], cap, base) + if cap in hs[n].caps then [base + n] else []
  {
  }

  lemma ReversedLast<M>(hs: seq<Handler<M>>, cap: Capability, base: nat)
    requires hs != []
    ensures var n := |hs| - 1;
      Reversed(Capable(hs, cap, base)) == (if cap in hs[n].caps then [base + n] else []) + Reversed(Capable(hs[..n], cap, base))
  {
    hide Reversed, Capable;
    var n := |hs| - 1;
    CapableLast(hs, cap, base);
    ReversedEnd(Capable(hs[..n], cap, base), cap in hs[n].caps, base + n);
  }

  lemma NobodyCapable<M>(cap: Capability, base: nat)
    ensures forall rest: seq<nat> :: Reversed(Capable<M>([], cap, base)) + rest == rest
  {
  }

  /** On the way to the head, the handlers encode from last to first. */
  lemma {:induction false} WriteEncodes<M>(before: seq<Handler<M>>, hs: seq<Handler<M>>, m: M)
    requires AllUndo(hs, m)
    ensures var j := WriteThrough(before + hs, m); var rest := WriteThrough(before, EncodeAll(hs, m));
      && j.result == rest.result
      && j.visited == Reversed(Capable(hs, Outbound, |before|)) + rest.visited
    decreases |hs|
  {
    hide WriteThrough, Encode, Reversed, Capable;
    if hs == [] {
      assert before + hs == before;
      NobodyCapable<M>(Outbound, |before|);
    } else {
      var n := |hs| - 1;
      WriteLast(before, hs, m);
      WriteEncodes(before, hs[..n], Encode(hs[n], m));
      ReversedLast(hs, Outbound, |before|);
    }
  }

  /** On the way to the tail, the handlers decode from first to last. */
  lemma {:induction false} ReadDecodes<M>(hs: seq<Handler<M>>, after: seq<Handler<M>>, m: M, base: nat)
    requires AllUndo(hs, m)
    ensures var j := ReadThrough(hs + after, EncodeAll(hs, m), base); var rest := ReadThrough(after, m, base + |hs|);
      && j.result == rest.result
      && j.visited == Capable(hs, Inbound, base) + rest.visited
    decreases |hs|
  {
    if hs == [] {
      assert hs + after == after;
    } else {
      var n := |hs| - 1;
      var rest := [hs[n]] + after;
      assert hs + after == hs[..n] + rest;
      ReadDecodes(hs[..n], rest, Encode(hs[n], m), base);
      assert rest[1..] == after;
    }
  }

  /** The handler next to the head encodes last, what all the others made of the message. */
  lemma {:induction false} EncodeFirst<M>(hs: seq<Handler<M>>, m: M)
    requires hs != [] && AllUndo(hs, m)
    ensures AllUndo(hs[1..], m) && Undoes(hs[0], EncodeAll(hs[1..], m))
    ensures EncodeAll(hs, m) == Encode(hs[0], EncodeAll(hs[1..], m))
    decreases |hs|
  {
    var n := |hs| - 1;
    if n > 0 {
      EncodeFirst(hs[..n], Encode(hs[n], m));
      assert hs[..n][1..] == hs[1..][..n - 1];
    }
  }

  /** When every handler that reads also writes and conversely, the two directions visit the same handlers. */
  lemma {:induction false} SameCapable<M>(hs: seq<Handler<M>>, base: nat)
    requires forall i :: 0 <= i < |hs| ==> (Inbound in hs[i].caps <==> Outbound in hs[i].caps)
    ensures Capable(hs, Inbound, base) == Capable(hs, Outbound, base)
  {
    if hs != [] {
      SameCapable(hs[..|hs| - 1], base);
    }
  }

  /**
   Codec stacks compose, whatever the number of handlers between the head and the application `app`. A
   message written behind them reaches the channel encoded by all of them, last to first; what the channel
   got, read by the same stack, reaches the application as the message that was written.
   */
  lemma StackRoundTrip<M>(hs: seq<Handler<M>>, app: seq<Handler<M>>, m: M)
    requires AllUndo(hs, m)
    ensures var w := WriteThrough([HeadHandler()] + hs, m);
      w.result == Absorb(EncodeAll(hs, m)) && w.visited == Reversed(Capable(hs, Outbound, 1)) + [0]
    ensures var r := ReadThrough(hs + app, EncodeAll(hs, m), 1); var up := ReadThrough(app, m, 1 + |hs|);
      r.result == up.result && r.visited == Capable(hs, Inbound, 1) + up.visited
  {
    WriteEncodes([HeadHandler()], hs, m);
    var head := [HeadHandler<M>()];
    assert head[..0] == [] && WriteThrough(head, EncodeAll(hs, m)) == Journey(Absorb(EncodeAll(hs, m)), [0]);
    ReadDecodes(hs, app, m, 1);
  }

  /** The same for the handlers of a whole pipeline, head and tail included. */
  lemma PipelineRoundTrip<M>(contents: seq<Handler<M>>, hs: seq<Handler<M>>, m: M)
    requires contents == [HeadHandler()] + hs + [TailHandler()] && AllUndo(hs, m)
    ensures WriteThrough(contents[..|contents| - 1], m).result == Absorb(EncodeAll(hs, m))
    ensures ReadThrough(contents[1..], EncodeAll(hs, m), 1).result == Forward(m)
  {
    var tail := [TailHandler<M>()];
    assert contents[..|contents| - 1] == [HeadHandler()] + hs && contents[1..] == hs + tail;
    StackRoundTrip(hs, tail, m);
    assert tail[1..] == [] && ReadThrough(tail, m, 1 + |hs|) == Journey(Forward(m), []);
  }

  /** Where every handler is a codec, a write visits the codecs in exactly the reverse order of a read. */
  lemma ReverseOrder<M>(hs: seq<Handler<M>>, m: M)
    requires AllUndo(hs, m)
    requires forall i :: 0 <= i < |hs| ==> (Inbound in hs[i].caps <==> Outbound in hs[i].caps)
    ensures var w, r := WriteThrough([HeadHandler()] + hs, m), ReadThrough(hs + [TailHandler()], EncodeAll(hs, m), 1);
      w.visited == Reversed(r.visited) + [0] && r.result == Forward(m)
  {
    var tail := [TailHandler<M>()];
    StackRoundTrip(hs, tail, m);
    SameCapable(hs, 1);
    assert tail[1..] == [] && ReadThrough(tail, m, 1 + |hs|) == Journey(Forward(m), []);
    assert ReadThrough(hs + tail, EncodeAll(hs, m), 1).visited == Capable(hs, Outbound, 1);
  }
}
