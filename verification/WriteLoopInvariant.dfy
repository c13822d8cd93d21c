/** The inductive invariant of the write loop, and the proof that every event keeps it. */
module WriteLoopInvariant {
  import opened Common
  import opened Totals
  import opened WriteLoop

  // ---------------------------------------------------------------- per-thread quantities

  /** 1 for a producer that won `running` and has not spawned its writer yet. */
  function ProducerHolds(p: Producer): nat { if p.Won? then 1 else 0 }

  /** 1 for a writer between taking `running` (or being spawned) and its store of idle. */
  function WriterHolds(w: Writer): nat
  {
    if w.ReadAgain? || w.Retaking? || w.Closing? || w.Finished? then 0 else 1
  }

  /** The batch positions a writer still answers for: `[Lo, Hi)`, of which `Unsent` are not written yet. */
  function WriterLo(w: Writer): nat { if w.Recycling? then w.i else 0 }

  function WriterHi(w: Writer): nat
  {
    match w
    case Polling(n) => n
    case Writing(n) => n
    case Recycling(n, _) => n
    case _ => 0
  }

  function WriterUnsent(w: Writer): nat
  {
    match w
    case Polling(n) => n
    case Writing(n) => n
    case _ => 0
  }

  /** The writer's local lengths fit the batch. */
  predicate Fits(w: Writer, cap: nat)
  {
    match w
    case Polling(n) => n <= cap
    case Writing(n) => 0 < n <= cap
    case Recycling(n, i) => i < n <= cap
    case _ => true
  }

  /** 1 for a closer that passed the compare-and-swap on `closed`. */
  function CloserPassed(c: Closer): nat
  {
    if c.Waiting? || c.SettingErr? || c.ClosingTransport? || c.Cancelling? then 1 else 0
  }

  ghost function Holders(s: State): nat
  {
    Total(s.producers, ProducerHolds) + Total(s.writers, WriterHolds)
  }

  ghost function Lo(s: State): nat { Total(s.writers, WriterLo) }
  ghost function Hi(s: State): nat { Total(s.writers, WriterHi) }
  ghost function Unsent(s: State): nat { Total(s.writers, WriterUnsent) }

  // ---------------------------------------------------------------- packets in flight

  ghost function Slots(slots: seq<Option<Packet>>, lo: nat, hi: nat): seq<Packet>
  {
    if lo <= hi <= |slots| then Live(slots[lo..hi]) else []
  }

  /** Batch packets not recycled yet, then the queue: every packet whose buffer the channel owns. */
  ghost function InFlight(s: State): seq<Packet> { Slots(s.arrays.recycle, Lo(s), Hi(s)) + s.queue }

  /** Batch packets not given to the transport yet, then the queue. */
  ghost function Unwritten(s: State): seq<Packet> { Slots(s.arrays.recycle, 0, Unsent(s)) + s.queue }

  // ---------------------------------------------------------------- buffers

  /** How many of the packets `ps` live in buffer `b`. */
  ghost function PacketsIn(ps: seq<Packet>, b: Buf): nat
  {
    if ps == [] then 0 else (if ps[0].buf == b then 1 else 0) + PacketsIn(ps[1..], b)
  }

  ghost function Holds(p: Producer, b: Buf): nat
  {
    if (p.Holding? || p.Filled?) && p.buf == b then 1 else 0
  }

  /** How many of the producers hold buffer `b`. */
  ghost function ProducersOf(ps: seq<Producer>, b: Buf): nat
  {
    if ps == [] then 0 else Holds(ps[0], b) + ProducersOf(ps[1..], b)
  }

  /** The number of owners of `b`: pool, other users of the pool, producers, batch and queue. */
  ghost function OwnersOf(mem: Memory, ps: seq<Producer>, inFlight: seq<Packet>, b: Buf): nat
  {
    mem.pool[b] + mem.outside[b] + ProducersOf(ps, b) + PacketsIn(inFlight, b)
  }

  ghost function Owners(s: State, b: Buf): nat { OwnersOf(s.mem, s.producers, InFlight(s), b) }

  // ---------------------------------------------------------------- the invariant

  /** `running` is set exactly when there is one holder, and the batch belongs to that holder. */
  ghost predicate Control(s: State)
  {
    && s.cfg.queueCap > 0
    && |s.arrays.send| == |s.arrays.recycle| == s.cfg.BatchCap()
    && |s.queue| <= s.cfg.queueCap
    && (forall w :: 0 <= w < |s.writers| ==> Fits(s.writers[w], |s.arrays.recycle|))
    && Holders(s) == (if s.running then 1 else 0)
  }

  /** The batch slots in use hold packets, and unwritten ones agree in both arrays. */
  ghost predicate SlotsInUse(s: State)
  {
    && Lo(s) <= Hi(s) <= |s.arrays.recycle| && Unsent(s) <= |s.arrays.recycle| && |s.arrays.send| == |s.arrays.recycle|
    && (forall j :: Lo(s) <= j < Hi(s) ==> s.arrays.recycle[j].Some?)
    && (forall j :: 0 <= j < Unsent(s) ==> s.arrays.send[j] == s.arrays.recycle[j] && s.arrays.recycle[j].Some?)
  }

  /** Unwritten packets carry consecutive numbers ending at the last accepted one. */
  ghost predicate Numbered(ps: seq<Packet>, count: nat)
  {
    && |ps| <= count
    && forall j :: 0 <= j < |ps| ==> ps[j].no == count - |ps| + j
  }

  /** Written packets: increasing numbers, each the supplied bytes (or, at a failure, their start). */
  ghost predicate LogOk(log: seq<Entry>, accepted: seq<Accepted>, written: nat, failed: bool)
  {
    && written <= |accepted|
    && (forall j :: 0 <= j < |log| ==> log[j].no < written && log[j].bytes <= accepted[log[j].no].data)
    && (forall i, j :: 0 <= i < j < |log| ==> log[i].no < log[j].no)
    && (!failed ==> |log| == written && forall j :: 0 <= j < |log| ==> log[j] == Entry(j, accepted[j].data))
  }

  ghost predicate OrderOf(unwritten: seq<Packet>, accepted: seq<Accepted>, log: seq<Entry>, failed: bool)
  {
    Numbered(unwritten, |accepted|) && LogOk(log, accepted, |accepted| - |unwritten|, failed)
  }

  /** The transport was given exactly the logged bytes. */
  ghost predicate OutIsLog(net: Transport) { net.out == Concat(EntryBytes(net.log)) }

  /** Every packet was written whole but for the last one of a `Writev` that failed. */
  ghost predicate WholeBut(log: seq<Entry>, cuts: set<nat>, accepted: seq<Accepted>)
  {
    forall j :: 0 <= j < |log| && j + 1 !in cuts ==> log[j].no < |accepted| && log[j].bytes == accepted[log[j].no].data
  }

  ghost predicate Order(s: State)
  {
    && OrderOf(Unwritten(s), s.book.accepted, s.net.log, s.net.failed) && OutIsLog(s.net)
    && WholeBut(s.net.log, s.net.cuts, s.book.accepted)
  }

  /** The packet was written whole. */
  ghost predicate IsWritten(accepted: seq<Accepted>, log: seq<Entry>, p: Packet)
  {
    p.no < |accepted| && Entry(p.no, accepted[p.no].data) in log
  }

  /** The first `k` packets in flight wait to be recycled, and were written whole. */
  ghost predicate RecyclableOf(inFlight: seq<Packet>, k: int, accepted: seq<Accepted>, log: seq<Entry>)
  {
    && 0 <= k <= |inFlight|
    && Numbered(inFlight, |accepted|)
    && forall j :: 0 <= j < k ==> IsWritten(accepted, log, inFlight[j])
  }

  ghost predicate Recyclable(s: State)
  {
    RecyclableOf(InFlight(s), |InFlight(s)| - |Unwritten(s)|, s.book.accepted, s.net.log)
  }

  /** The heap still holds, for `p`, the bytes its caller supplied. */
  ghost predicate Intact(heap: map<Buf, seq<byte>>, accepted: seq<Accepted>, p: Packet)
  {
    && p.no < |accepted|
    && p.buf in heap && p.len <= |heap[p.buf]|
    && heap[p.buf][..p.len] == accepted[p.no].data
  }

  ghost predicate FilledOk(heap: map<Buf, seq<byte>>, p: Producer)
  {
    p.Filled? ==> p.buf in heap && |p.data| <= |heap[p.buf]| && heap[p.buf][..|p.data|] == p.data
  }

  ghost predicate AllIntact(unwritten: seq<Packet>, accepted: seq<Accepted>, heap: map<Buf, seq<byte>>)
  {
    forall j :: 0 <= j < |unwritten| ==> Intact(heap, accepted, unwritten[j])
  }

  ghost predicate AllFilledOk(producers: seq<Producer>, heap: map<Buf, seq<byte>>)
  {
    forall p :: 0 <= p < |producers| ==> FilledOk(heap, producers[p])
  }

  ghost predicate ContentOf(unwritten: seq<Packet>, accepted: seq<Accepted>, producers: seq<Producer>, heap: map<Buf, seq<byte>>)
  {
    AllIntact(unwritten, accepted, heap) && AllFilledOk(producers, heap)
  }

  ghost predicate Content(s: State) { ContentOf(Unwritten(s), s.book.accepted, s.producers, s.mem.heap) }

  /** No buffer has two owners, and owned buffers exist. */
  ghost predicate Ownership(s: State)
  {
    forall b :: OwnedOnce(s, b)
  }

  ghost predicate OwnedOnce(s: State, b: Buf)
  {
    Owners(s, b) <= 1 && (Owners(s, b) > 0 ==> b in s.mem.heap)
  }

  /** Everything written is flushed when `running` is idle, and already when a writer is about to store idle. */
  ghost predicate Flush(s: State)
  {
    && s.net.flushed <= |s.net.out|
    && (!s.net.failed && (!s.running || exists w :: 0 <= w < |s.writers| && s.writers[w].Storing?) ==> s.net.flushed == |s.net.out|)
    && (forall w :: 0 <= w < |s.writers| && (s.writers[w].Panicked? || s.writers[w].Closing?) ==> s.net.failed)
  }

  /** Someone will still look at the queue. */
  ghost predicate Attended(s: State)
  {
    || (exists p :: 0 <= p < |s.producers| && s.producers[p].Sent?)
    || (exists w :: 0 <= w < |s.writers| && (s.writers[w].ReadAgain? || s.writers[w].Retaking?))
  }

  ghost predicate Wakeup(s: State)
  {
    s.queue != [] && !s.running && !s.net.failed ==> Attended(s)
  }

  ghost predicate HasCall(p: Producer) { !p.Ready? }

  ghost predicate WasAccepted(accepted: seq<Accepted>, call: nat)
  {
    exists i :: 0 <= i < |accepted| && accepted[i].call == call
  }

  ghost predicate ProducerCall(s: State, p: Producer)
    requires HasCall(p)
  {
    && p.call < |s.book.calls| && p.call !in s.book.results
    && (p.NeedBuf? || p.Holding? || p.Filled? ==> p.data == s.book.calls[p.call] && !WasAccepted(s.book.accepted, p.call))
    && (p.Sent? || p.Won? ==> p.n == |s.book.calls[p.call]| && WasAccepted(s.book.accepted, p.call))
  }

  /** What callers are told is what happened to their packet, and no call is accepted twice. */
  ghost predicate Calls(s: State)
  {
    && (forall p :: 0 <= p < |s.producers| && HasCall(s.producers[p]) ==> ProducerCall(s, s.producers[p]))
    && (forall p, q :: 0 <= p < q < |s.producers| && HasCall(s.producers[p]) && HasCall(s.producers[q])
          ==> s.producers[p].call != s.producers[q].call)
    && (forall i :: 0 <= i < |s.book.accepted| ==>
          s.book.accepted[i].call < |s.book.calls| && s.book.accepted[i].data == s.book.calls[s.book.accepted[i].call])
    && (forall i, j :: 0 <= i < j < |s.book.accepted| ==> s.book.accepted[i].call != s.book.accepted[j].call)
    && (forall c :: c in s.book.results ==> c < |s.book.calls| && ResultOk(s, c))
  }

  ghost predicate ResultOk(s: State, c: nat)
    requires c in s.book.results && c < |s.book.calls|
  {
    if WasAccepted(s.book.accepted, c) then s.book.results[c] == Return(|s.book.calls[c]|, Nil)
    else s.book.results[c].n == 0
  }

  /** At most one call of `Close` gets past the compare-and-swap. */
  ghost predicate CloseOnce(s: State)
  {
    && Total(s.closing.closers, CloserPassed) <= 1
    && (!s.closing.closed ==> Total(s.closing.closers, CloserPassed) == 0)
  }

  ghost predicate Inv(s: State)
  {
    && Control(s) && SlotsInUse(s) && Order(s) && Recyclable(s) && Content(s) && Ownership(s)
    && Flush(s) && Wakeup(s) && Calls(s) && CloseOnce(s)
  }

  // ---------------------------------------------------------------- helper lemmas

  lemma {:induction false} LiveAppend(a: seq<Option<Packet>>, b: seq<Option<Packet>>)
    ensures Live(a + b) == Live(a) + Live(b)
  {
    if a == [] {
      assert a + b == b;
    } else {
      var h := if a[0].Some? then [a[0].value] else [];
      LiveAppend(a[1..], b);
      assert (a + b)[1..] == a[1..] + b;
      assert Live(a + b) == h + (Live(a[1..]) + Live(b));
      assert h + (Live(a[1..]) + Live(b)) == (h + Live(a[1..])) + Live(b);
    }
  }

  lemma LiveOne(o: Option<Packet>)
    ensures Live([o]) == if o.Some? then [o.value] else []
  {
  }

  lemma {:induction false} LiveFull(slots: seq<Option<Packet>>)
    requires forall j :: 0 <= j < |slots| ==> slots[j].Some?
    ensures |Live(slots)| == |slots|
    ensures forall j :: 0 <= j < |slots| ==> Live(slots)[j] == slots[j].value
  {
    if slots != [] {
      LiveFull(slots[1..]);
    }
  }

  lemma {:induction false} PacketsInAppend(x: seq<Packet>, y: seq<Packet>, b: Buf)
    ensures PacketsIn(x + y, b) == PacketsIn(x, b) + PacketsIn(y, b)
  {
    if x == [] {
      assert x + y == y;
    } else {
      PacketsInAppend(x[1..], y, b);
      assert (x + y)[1..] == x[1..] + y;
    }
  }

  lemma PacketsInOne(p: Packet, b: Buf)
    ensures PacketsIn([p], b) == if p.buf == b then 1 else 0
  {
  }

  lemma {:induction false} PacketsInMember(ps: seq<Packet>, j: nat)
    requires j < |ps|
    ensures PacketsIn(ps, ps[j].buf) >= 1
  {
    if j > 0 {
      PacketsInMember(ps[1..], j - 1);
    }
  }

  lemma {:induction false} ProducersOfUpdate(ps: seq<Producer>, i: nat, x: Producer, b: Buf)
    requires i < |ps|
    ensures ProducersOf(ps[i := x], b) + Holds(ps[i], b) == ProducersOf(ps, b) + Holds(x, b)
    ensures Holds(ps[i], b) <= ProducersOf(ps, b)
  {
    if i == 0 {
      assert ps[i := x][1..] == ps[1..];
    } else {
      assert ps[i := x][1..] == ps[1..][i - 1 := x];
      ProducersOfUpdate(ps[1..], i - 1, x, b);
    }
  }

  lemma {:induction false} ProducersOfSnoc(ps: seq<Producer>, x: Producer, b: Buf)
    ensures ProducersOf(ps + [x], b) == ProducersOf(ps, b) + Holds(x, b)
  {
    if ps == [] {
      assert ps + [x] == [x] && [x][1..] == [];
    } else {
      assert (ps + [x])[1..] == ps[1..] + [x];
      ProducersOfSnoc(ps[1..], x, b);
    }
  }

  lemma {:induction false} ProducersOfTwo(ps: seq<Producer>, i: nat, j: nat, b: Buf)
    requires i < |ps| && j < |ps| && i != j
    ensures Holds(ps[i], b) + Holds(ps[j], b) <= ProducersOf(ps, b)
  {
    if i == 0 {
      ProducersOfUpdate(ps[1..], j - 1, ps[j], b);
    } else if j == 0 {
      ProducersOfUpdate(ps[1..], i - 1, ps[i], b);
    } else {
      ProducersOfTwo(ps[1..], i - 1, j - 1, b);
    }
  }
}
