/** Every event keeps the invariant, so it holds in every reachable state. */
module WriteLoopSafety {
  import opened Common
  import opened Totals
  import opened WriteLoop
  import opened WriteLoopInvariant
  import opened WriteLoopSteps

  // ---------------------------------------------------------------- order

  /** The batch gives the transport the next accepted packets, each with its caller's bytes. */
  lemma EntriesAre(ps: seq<Packet>, queue: seq<Packet>, accepted: seq<Accepted>, heap: map<Buf, seq<byte>>)
    requires Numbered(ps + queue, |accepted|) && AllIntact(ps + queue, accepted, heap)
    ensures var es := Entries(heap, ps); var base := |accepted| - |ps + queue|;
      && |es| == |ps|
      && forall j :: 0 <= j < |es| ==> es[j] == Entry(base + j, accepted[base + j].data)
  {
    var es, base := Entries(heap, ps), |accepted| - |ps + queue|;
    forall j | 0 <= j < |es| ensures es[j] == Entry(base + j, accepted[base + j].data) {
      assert ps[j] == (ps + queue)[j];
      assert Intact(heap, accepted, (ps + queue)[j]);
    }
  }

  /** A failed write leaves the leading entries, all but the last one of them whole. */
  lemma {:induction false} CutIsPrefix(es: seq<Entry>, k: nat)
    ensures |Cut(es, k)| <= |es|
    ensures forall j :: 0 <= j < |Cut(es, k)| - 1 ==> Cut(es, k)[j] == es[j]
    ensures forall j :: 0 <= j < |Cut(es, k)| ==> Cut(es, k)[j].no == es[j].no && Cut(es, k)[j].bytes <= es[j].bytes
  {
    if es != [] && k > 0 && |es[0].bytes| <= k {
      CutIsPrefix(es[1..], k - |es[0].bytes|);
    }
  }

  lemma EntryBytesAppend(a: seq<Entry>, b: seq<Entry>)
    ensures Concat(EntryBytes(a + b)) == Concat(EntryBytes(a)) + Concat(EntryBytes(b))
  {
    assert EntryBytes(a + b) == EntryBytes(a) + EntryBytes(b);
    ConcatAppend(EntryBytes(a), EntryBytes(b));
  }

  /** A write that fails after `k` bytes leaves exactly the first `k` bytes of its batch. */
  lemma {:induction false} CutIs(es: seq<Entry>, k: nat)
    ensures var all := Concat(EntryBytes(es));
      Concat(EntryBytes(Cut(es, k))) == if k < |all| then all[..k] else all
    decreases |es|
  {
    if es != [] {
      assert EntryBytes(es)[1..] == EntryBytes(es[1..]);
      var first := es[0].bytes;
      if k == 0 {
        assert Concat(EntryBytes([])) == [];
      } else if |first| <= k {
        CutIs(es[1..], k - |first|);
        var cut := [es[0]] + Cut(es[1..], k - |first|);
        assert EntryBytes(cut) == [first] + EntryBytes(Cut(es[1..], k - |first|));
        assert EntryBytes(cut)[1..] == EntryBytes(Cut(es[1..], k - |first|));
      } else {
        var cut := [Entry(es[0].no, first[..k])];
        assert EntryBytes(cut) == [first[..k]];
        ConcatOne(first[..k]);
      }
    }
  }

  lemma TailNumbered(ps: seq<Packet>, queue: seq<Packet>, count: nat)
    requires Numbered(ps + queue, count)
    ensures Numbered(queue, count)
  {
    forall j | 0 <= j < |queue| ensures queue[j].no == count - |queue| + j {
      assert queue[j] == (ps + queue)[|ps| + j];
    }
  }

  lemma TailIntact(ps: seq<Packet>, queue: seq<Packet>, accepted: seq<Accepted>, heap: map<Buf, seq<byte>>)
    requires AllIntact(ps + queue, accepted, heap)
    ensures AllIntact(queue, accepted, heap)
  {
    forall j | 0 <= j < |queue| ensures Intact(heap, accepted, queue[j]) {
      assert queue[j] == (ps + queue)[|ps| + j];
    }
  }

  /** Appending the next packets (all of them whole unless the write failed) keeps the log in order. */
  lemma LogGrows(log: seq<Entry>, es: seq<Entry>, accepted: seq<Accepted>, before: nat, after: nat, failed: bool, fails: bool)
    requires LogOk(log, accepted, before, failed)
    requires before + |es| <= after <= |accepted|
    requires forall j :: 0 <= j < |es| ==> es[j].no == before + j && es[j].bytes <= accepted[before + j].data
    requires !fails ==> before + |es| == after && forall j :: 0 <= j < |es| ==> es[j] == Entry(before + j, accepted[before + j].data)
    ensures LogOk(log + es, accepted, after, failed || fails)
  {
    var l := log + es;
    forall j | 0 <= j < |l| ensures l[j].no < after && l[j].bytes <= accepted[l[j].no].data {
      if j >= |log| { assert l[j] == es[j - |log|]; }
    }
    forall i, j | 0 <= i < j < |l| ensures l[i].no < l[j].no {
      if j >= |log| { assert l[j] == es[j - |log|]; }
      if i >= |log| { assert l[i] == es[i - |log|]; }
    }
    if !failed && !fails {
      forall j | 0 <= j < |l| ensures l[j] == Entry(j, accepted[j].data) {
        if j >= |log| { assert l[j] == es[j - |log|]; }
      }
    }
  }

  lemma OutGrows(net: Transport, es: seq<Entry>, to: nat, failed: bool, cuts: set<nat>)
    requires OutIsLog(net)
    ensures OutIsLog(Transport(net.out + Concat(EntryBytes(es)), to, net.log + es, failed, cuts))
  {
    EntryBytesAppend(net.log, es);
  }

  /** Whole entries, or whole entries and a last one that is marked, keep the log whole but for the marks. */
  lemma WholeGrows(net: Transport, es: seq<Entry>, accepted: seq<Accepted>, cuts: set<nat>)
    requires WholeBut(net.log, net.cuts, accepted) && net.cuts <= cuts
    requires forall j :: 0 <= j < |es| && |net.log| + j + 1 !in cuts ==>
      es[j].no < |accepted| && es[j].bytes == accepted[es[j].no].data
    ensures WholeBut(net.log + es, cuts, accepted)
  {
    var l := net.log + es;
    forall j | 0 <= j < |l| && j + 1 !in cuts ensures l[j].no < |accepted| && l[j].bytes == accepted[l[j].no].data {
      if j >= |net.log| { assert l[j] == es[j - |net.log|]; }
    }
  }

  /** A batch written whole. */
  lemma WriteWhole(ps: seq<Packet>, queue: seq<Packet>, accepted: seq<Accepted>, heap: map<Buf, seq<byte>>, log: seq<Entry>, failed: bool)
    requires OrderOf(ps + queue, accepted, log, failed) && AllIntact(ps + queue, accepted, heap)
    ensures OrderOf(queue, accepted, log + Entries(heap, ps), failed)
  {
    hide LogOk, AllIntact;
    EntriesAre(ps, queue, accepted, heap);
    TailNumbered(ps, queue, |accepted|);
    LogGrows(log, Entries(heap, ps), accepted, |accepted| - |ps + queue|, |accepted| - |queue|, failed, false);
  }

  /** The packets just written are the ones to recycle. */
  lemma WrittenRecyclable(ps: seq<Packet>, queue: seq<Packet>, accepted: seq<Accepted>, heap: map<Buf, seq<byte>>, log: seq<Entry>)
    requires Numbered(ps + queue, |accepted|) && AllIntact(ps + queue, accepted, heap)
    ensures RecyclableOf(ps + queue, |ps|, accepted, log + Entries(heap, ps))
  {
    var es := Entries(heap, ps);
    EntriesAre(ps, queue, accepted, heap);
    forall j | 0 <= j < |ps| ensures IsWritten(accepted, log + es, (ps + queue)[j]) {
      assert (log + es)[|log| + j] == es[j];
    }
  }

  /** A batch of which only the first `k` bytes were written. */
  lemma WriteCut(ps: seq<Packet>, queue: seq<Packet>, accepted: seq<Accepted>, heap: map<Buf, seq<byte>>, log: seq<Entry>, failed: bool, k: nat)
    requires OrderOf(ps + queue, accepted, log, failed) && AllIntact(ps + queue, accepted, heap)
    ensures OrderOf(queue, accepted, log + Cut(Entries(heap, ps), k), true)
  {
    hide LogOk, AllIntact;
    var all := Entries(heap, ps);
    EntriesAre(ps, queue, accepted, heap);
    CutIsPrefix(all, k);
    TailNumbered(ps, queue, |accepted|);
    LogGrows(log, Cut(all, k), accepted, |accepted| - |ps + queue|, |accepted| - |queue|, failed, true);
  }

  /** What a batch that was written whole does to the marks. */
  lemma WholeBatch(ps: seq<Packet>, queue: seq<Packet>, accepted: seq<Accepted>, heap: map<Buf, seq<byte>>, net: Transport)
    requires Numbered(ps + queue, |accepted|) && AllIntact(ps + queue, accepted, heap)
    requires WholeBut(net.log, net.cuts, accepted)
    ensures WholeBut(net.log + Entries(heap, ps), net.cuts, accepted)
  {
    EntriesAre(ps, queue, accepted, heap);
    WholeGrows(net, Entries(heap, ps), accepted, net.cuts);
  }

  /** What a batch that was written in part does to the marks. */
  lemma CutBatch(ps: seq<Packet>, queue: seq<Packet>, accepted: seq<Accepted>, heap: map<Buf, seq<byte>>, net: Transport, k: nat)
    requires Numbered(ps + queue, |accepted|) && AllIntact(ps + queue, accepted, heap)
    requires WholeBut(net.log, net.cuts, accepted)
    ensures var es := Cut(Entries(heap, ps), k); WholeBut(net.log + es, AfterFailure(net, es), accepted)
  {
    var es := Cut(Entries(heap, ps), k);
    EntriesAre(ps, queue, accepted, heap);
    CutIsPrefix(Entries(heap, ps), k);
    WholeGrows(net, es, accepted, AfterFailure(net, es));
  }

  lemma WritevOkKeeps(s: State, w: nat, nils: set<nat>, to: nat)
    requires Positions(s) && Order(s) && Content(s) && WriterEnabled(s, w, WritevOk(nils, to))
    ensures var t := WriterStep(s, w, WritevOk(nils, to)); Order(t) && Recyclable(t) && Content(t)
  {
    hide WholeBut, LogOk, RecyclableOf, AllIntact, AllFilledOk;
    WritevOkMoves(s, w, nils, to);
    BatchIsUnwritten(s, w);
    var ps := Live(s.arrays.send[..s.writers[w].n]);
    WriteWhole(ps, s.queue, s.book.accepted, s.mem.heap, s.net.log, s.net.failed);
    OutGrows(s.net, Entries(s.mem.heap, ps), to, s.net.failed, s.net.cuts);
    WholeBatch(ps, s.queue, s.book.accepted, s.mem.heap, s.net);
    WrittenRecyclable(ps, s.queue, s.book.accepted, s.mem.heap, s.net.log);
    TailIntact(ps, s.queue, s.book.accepted, s.mem.heap);
  }

  lemma WritevFailKeeps(s: State, w: nat, k: nat, nils: set<nat>, to: nat)
    requires Positions(s) && Order(s) && Content(s) && WriterEnabled(s, w, WritevFail(k, nils, to))
    ensures var t := WriterStep(s, w, WritevFail(k, nils, to)); Order(t) && Recyclable(t) && Content(t)
  {
    hide WholeBut, LogOk, AllIntact, AllFilledOk;
    WritevFailMoves(s, w, k, nils, to);
    BatchIsUnwritten(s, w);
    var ps := Live(s.arrays.send[..s.writers[w].n]);
    var es := Cut(Entries(s.mem.heap, ps), k);
    WriteCut(ps, s.queue, s.book.accepted, s.mem.heap, s.net.log, s.net.failed, k);
    OutGrows(s.net, es, to, true, AfterFailure(s.net, es));
    CutBatch(ps, s.queue, s.book.accepted, s.mem.heap, s.net, k);
    TailIntact(ps, s.queue, s.book.accepted, s.mem.heap);
    TailNumbered(ps, s.queue, |s.book.accepted|);
  }

  /** Letting go of the oldest packet in flight. */
  lemma DropOldest(f: seq<Packet>, g: seq<Packet>, k: int, accepted: seq<Accepted>, log: seq<Entry>)
    requires |f| == |g| + 1 && f[1..] == g && k >= 1 && RecyclableOf(f, k, accepted, log)
    ensures RecyclableOf(g, k - 1, accepted, log)
  {
  }

  lemma RecycleKeeps(s: State, w: nat)
    requires Positions(s) && Order(s) && Recyclable(s) && Content(s) && WriterEnabled(s, w, Recycle)
    ensures var t := WriterStep(s, w, Recycle); Order(t) && Recyclable(t) && Content(t)
  {
    var t := WriterStep(s, w, Recycle);
    RecycleMoves(s, w);
    RecycleKeepsRecyclable(s, t, s.arrays.recycle[s.writers[w].i].value);
    assert Order(t) == Order(s) && Content(t) == Content(s);
  }

  lemma RecycleKeepsRecyclable(s: State, t: State, x: Packet)
    requires Recyclable(s) && t.net.log == s.net.log && t.book.accepted == s.book.accepted
    requires InFlight(s) == [x] + InFlight(t) && Unwritten(t) == Unwritten(s) && |Unwritten(t)| <= |InFlight(t)|
    ensures Recyclable(t)
  {
    var k := |InFlight(s)| - |Unwritten(s)|;
    assert InFlight(s)[1..] == InFlight(t);
    DropOldest(InFlight(s), InFlight(t), k, s.book.accepted, s.net.log);
    assert Recyclable(t) == RecyclableOf(InFlight(t), k - 1, s.book.accepted, s.net.log);
  }

  lemma WriterKeepsPackets(s: State, w: nat, e: WriterEvent)
    requires Positions(s) && Order(s) && Recyclable(s) && Content(s) && WriterEnabled(s, w, e)
    ensures var t := WriterStep(s, w, e); Order(t) && Recyclable(t) && Content(t)
  {
    match e
    case WritevOk(nils, to) => WritevOkKeeps(s, w, nils, to);
    case WritevFail(k, nils, to) => WritevFailKeeps(s, w, k, nils, to);
    case Recycle => RecycleKeeps(s, w);
    case FlushFail(to) => FlushFailKeeps(s, w, to);
    case _ =>
      WriterMoves(s, w, e);
      SamePackets(s, WriterStep(s, w, e));
  }

  lemma FlushFailKeeps(s: State, w: nat, to: nat)
    requires Positions(s) && Order(s) && Recyclable(s) && Content(s) && WriterEnabled(s, w, FlushFail(to))
    ensures var t := WriterStep(s, w, FlushFail(to)); Order(t) && Recyclable(t) && Content(t)
  {
    var t := WriterStep(s, w, FlushFail(to));
    PlainMoves(s, w, FlushFail(to));
    assert Recyclable(t) == Recyclable(s) && Content(t) == Content(s);
  }

  lemma AcceptOneIntact(u: seq<Packet>, pkt: Packet, a: Accepted, accepted: seq<Accepted>, heap: map<Buf, seq<byte>>)
    requires AllIntact(u, accepted, heap) && Intact(heap, accepted + [a], pkt)
    ensures AllIntact(u + [pkt], accepted + [a], heap)
  {
  }

  lemma SendKeepsFilled(s: State, p: nat)
    requires AllFilledOk(s.producers, s.mem.heap) && ProducerEnabled(s, p, Send)
    ensures AllFilledOk(ProducerStep(s, p, Send).producers, s.mem.heap)
    ensures var pc := s.producers[p];
      Intact(s.mem.heap, s.book.accepted + [Accepted(pc.call, pc.data)], Packet(pc.buf, |pc.data|, |s.book.accepted|))
  {
  }

  lemma SendKeepsOrder(s: State, t: State, pkt: Packet, a: Accepted)
    requires Order(s) && pkt.no == |s.book.accepted| && Unwritten(t) == Unwritten(s) + [pkt]
    requires t.book.accepted == s.book.accepted + [a] && t.net == s.net
    ensures Order(t)
  {
  }

  lemma SendKeepsRecyclable(s: State, t: State, pkt: Packet, a: Accepted)
    requires Recyclable(s) && pkt.no == |s.book.accepted|
    requires Unwritten(t) == Unwritten(s) + [pkt] && InFlight(t) == InFlight(s) + [pkt]
    requires t.book.accepted == s.book.accepted + [a] && t.net == s.net
    ensures Recyclable(t)
  {
  }

  lemma SendKeepsContent(s: State, p: nat)
    requires Positions(s) && Content(s) && ProducerEnabled(s, p, Send)
    ensures Content(ProducerStep(s, p, Send))
  {
    var t := ProducerStep(s, p, Send);
    var pc := s.producers[p];
    var pkt, a := Packet(pc.buf, |pc.data|, |s.book.accepted|), Accepted(pc.call, pc.data);
    SendMoves(s, p);
    SendKeepsFilled(s, p);
    AcceptOneIntact(Unwritten(s), pkt, a, s.book.accepted, s.mem.heap);
    assert AllIntact(Unwritten(t), t.book.accepted, t.mem.heap)
      == AllIntact(Unwritten(s) + [pkt], s.book.accepted + [a], s.mem.heap);
  }

  lemma SendKeepsPackets(s: State, p: nat)
    requires Positions(s) && Order(s) && Recyclable(s) && Content(s) && ProducerEnabled(s, p, Send)
    ensures var t := ProducerStep(s, p, Send); Order(t) && Recyclable(t) && Content(t)
  {
    var t := ProducerStep(s, p, Send);
    var pc := s.producers[p];
    SendMoves(s, p);
    SendKeepsContent(s, p);
    SendKeepsOrder(s, t, Packet(pc.buf, |pc.data|, |s.book.accepted|), Accepted(pc.call, pc.data));
    SendKeepsRecyclable(s, t, Packet(pc.buf, |pc.data|, |s.book.accepted|), Accepted(pc.call, pc.data));
  }

  // ---------------------------------------------------------------- content

  /** An unwritten packet is in flight, so its buffer belongs to the channel. */
  lemma UnwrittenOwned(s: State, j: nat)
    requires Positions(s) && j < |Unwritten(s)|
    ensures PacketsIn(InFlight(s), Unwritten(s)[j].buf) >= 1
  {
    if Total(s.writers, WriterHolds) == 0 {
      NoWriter(s);
    } else {
      var w := TotalPositive(s.writers, WriterHolds);
      SoleWriter(s, w);
    }
    var q := |Unwritten(s)| - |s.queue|;
    if q == 0 {
      assert Unwritten(s) == s.queue;
      PacketsInMember(s.queue, j);
      PacketsInAppend(Slots(s.arrays.recycle, Lo(s), Hi(s)), s.queue, s.queue[j].buf);
    } else {
      assert Unwritten(s) == InFlight(s);
      PacketsInMember(InFlight(s), j);
    }
  }

  /** Writing to a buffer that is not in flight disturbs no unwritten packet. */
  lemma WriteElsewhere(s: State, b: Buf, bytes: seq<byte>)
    requires Positions(s) && Content(s)
    requires PacketsIn(InFlight(s), b) == 0
    ensures AllIntact(Unwritten(s), s.book.accepted, s.mem.heap[b := bytes])
  {
    forall j | 0 <= j < |Unwritten(s)| ensures Intact(s.mem.heap[b := bytes], s.book.accepted, Unwritten(s)[j]) {
      UnwrittenOwned(s, j);
      assert Intact(s.mem.heap, s.book.accepted, Unwritten(s)[j]);
    }
  }

  lemma OthersFilled(ps: seq<Producer>, heap: map<Buf, seq<byte>>, b: Buf, bytes: seq<byte>, p: nat, x: Producer)
    requires AllFilledOk(ps, heap) && p < |ps| && FilledOk(heap[b := bytes], x)
    requires ProducersOf(ps, b) <= Holds(ps[p], b)
    ensures AllFilledOk(ps[p := x], heap[b := bytes])
  {
    var now := ps[p := x];
    forall q | 0 <= q < |now| ensures FilledOk(heap[b := bytes], now[q]) {
      if q != p {
        assert FilledOk(heap, ps[q]);
        ProducersOfTwo(ps, p, q, b);
      }
    }
  }

  lemma FillKeepsContent(s: State, p: nat)
    requires Positions(s) && Content(s) && Ownership(s) && ProducerEnabled(s, p, Fill)
    ensures Content(ProducerStep(s, p, Fill))
  {
    var t := ProducerStep(s, p, Fill);
    var pc := s.producers[p];
    ProducerMoves(s, p, Fill);
    ProducersOfUpdate(s.producers, p, pc, pc.buf);
    assert OwnedOnce(s, pc.buf);
    WriteElsewhere(s, pc.buf, t.mem.heap[pc.buf]);
    OthersFilled(s.producers, s.mem.heap, pc.buf, t.mem.heap[pc.buf], p, t.producers[p]);
  }

  lemma GetFreshKeepsContent(s: State, p: nat, b: Buf, junk: seq<byte>)
    requires Positions(s) && Content(s) && Ownership(s) && ProducerEnabled(s, p, GetFresh(b, junk))
    ensures Content(ProducerStep(s, p, GetFresh(b, junk)))
  {
    var t := ProducerStep(s, p, GetFresh(b, junk));
    ProducerMoves(s, p, GetFresh(b, junk));
    assert OwnedOnce(s, b);
    WriteElsewhere(s, b, junk);
    OthersFilled(s.producers, s.mem.heap, b, junk, p, t.producers[p]);
  }

  lemma OneProducerFilled(ps: seq<Producer>, heap: map<Buf, seq<byte>>, p: nat, x: Producer)
    requires AllFilledOk(ps, heap) && p < |ps| && FilledOk(heap, x)
    ensures AllFilledOk(ps[p := x], heap)
  {
  }

  lemma ProducerKeepsPackets(s: State, p: nat, e: ProducerEvent)
    requires Positions(s) && Order(s) && Recyclable(s) && Content(s) && Ownership(s) && ProducerEnabled(s, p, e)
    ensures var t := ProducerStep(s, p, e); Order(t) && Recyclable(t) && Content(t)
  {
    if e.Send? {
      SendKeepsPackets(s, p);
    } else {
      var t := ProducerStep(s, p, e);
      ProducerMoves(s, p, e);
      assert t.book.accepted == s.book.accepted && t.net == s.net;
      assert Order(t) == Order(s) && Recyclable(t) == Recyclable(s);
      if e.Fill? {
        FillKeepsContent(s, p);
      } else if e.GetFresh? {
        GetFreshKeepsContent(s, p, e.b, e.junk);
      } else {
        OneProducerFilled(s.producers, s.mem.heap, p, t.producers[p]);
        assert t.producers == s.producers[p := t.producers[p]];
        assert Content(t) == ContentOf(Unwritten(s), s.book.accepted, t.producers, s.mem.heap);
      }
    }
  }

  // ---------------------------------------------------------------- ownership

  lemma WriterOwners(s: State, w: nat, e: WriterEvent, b: Buf)
    requires Positions(s) && WriterEnabled(s, w, e)
    ensures Owners(WriterStep(s, w, e), b) <= Owners(s, b)
    ensures !e.WritevFail? ==> Owners(WriterStep(s, w, e), b) == Owners(s, b)
  {
    var t := WriterStep(s, w, e);
    WriterMoves(s, w, e);
    if e.Recycle? {
      var pkt := s.arrays.recycle[s.writers[w].i].value;
      PacketsInAppend([pkt], InFlight(t), b);
      PacketsInOne(pkt, b);
    } else if e.WritevFail? {
      PacketsInAppend(Slots(s.arrays.recycle, Lo(s), Hi(s)), s.queue, b);
    } else {
      assert InFlight(t) == InFlight(s) && t.mem == s.mem;
    }
  }

  lemma WriterKeepsOwnership(s: State, w: nat, e: WriterEvent)
    requires Positions(s) && Ownership(s) && WriterEnabled(s, w, e)
    ensures Ownership(WriterStep(s, w, e))
  {
    var t := WriterStep(s, w, e);
    forall b ensures OwnedOnce(t, b) {
      assert OwnedOnce(s, b);
      WriterOwners(s, w, e, b);
    }
  }

  /** The events with which a caller abandons its buffer to the garbage collector. */
  ghost predicate GivesUp(e: ProducerEvent)
  {
    e.RejectClosed? || e.Refuse? || e.CancelChannel? || e.CancelCaller?
  }

  /** The owners of `b` after a producer event: the producer's own share changes, and what it took or gave. */
  lemma ProducerOwners(s: State, p: nat, e: ProducerEvent, b: Buf)
    requires Positions(s) && ProducerEnabled(s, p, e)
    ensures var t := ProducerStep(s, p, e);
      Owners(t, b) + (if GivesUp(e) then Holds(s.producers[p], b) else 0) ==
        Owners(s, b) + (if e.GetFresh? && e.b == b then 1 else 0)
  {
    hide ProducerStep, ProducerEnabled, Positions, InFlight, Unwritten;
    var t := ProducerStep(s, p, e);
    ProducerMoves(s, p, e);
    OwnShare(s, p, e, b);
    ProducersOfUpdate(s.producers, p, t.producers[p], b);
    if e.Send? {
      var pkt := t.queue[|s.queue|];
      PacketsInAppend(InFlight(s), [pkt], b);
      PacketsInOne(pkt, b);
    }
  }

  /** What the producer itself, the pool and the queue have of `b`. */
  lemma OwnShare(s: State, p: nat, e: ProducerEvent, b: Buf)
    requires ProducerEnabled(s, p, e)
    ensures var t := ProducerStep(s, p, e);
      && p < |s.producers| && t.producers == s.producers[p := t.producers[p]] && t.mem.outside == s.mem.outside
      && (e.Send? ==> |t.queue| == |s.queue| + 1)
      && t.mem.pool[b] + Holds(t.producers[p], b) + (if GivesUp(e) then Holds(s.producers[p], b) else 0)
           + (if e.Send? && t.queue[|s.queue|].buf == b then 1 else 0) ==
         s.mem.pool[b] + Holds(s.producers[p], b) + (if e.GetFresh? && e.b == b then 1 else 0)
  {
  }

  lemma ProducerKeepsOwnership(s: State, p: nat, e: ProducerEvent)
    requires Positions(s) && Ownership(s) && ProducerEnabled(s, p, e)
    ensures Ownership(ProducerStep(s, p, e))
  {
    var t := ProducerStep(s, p, e);
    assert s.mem.heap.Keys <= t.mem.heap.Keys;
    forall b ensures OwnedOnce(t, b) {
      assert OwnedOnce(s, b);
      ProducerOwners(s, p, e, b);
    }
  }

  // ---------------------------------------------------------------- flush and wakeup

  lemma WriterKeepsFlush(s: State, w: nat, e: WriterEvent)
    requires Positions(s) && Flush(s) && WriterEnabled(s, w, e)
    ensures Flush(WriterStep(s, w, e))
  {
    var t := WriterStep(s, w, e);
    if WriterHolds(s.writers[w]) == 1 {
      SoleWriter(s, w);
    }
    assert forall v :: 0 <= v < |t.writers| && v != w ==> t.writers[v] == s.writers[v];
    assert s.writers[w].Storing? && !s.net.failed ==> s.net.flushed == |s.net.out|;
  }

  lemma ProducerKeepsFlush(s: State, p: nat, e: ProducerEvent)
    requires Positions(s) && Flush(s) && ProducerEnabled(s, p, e)
    ensures Flush(ProducerStep(s, p, e))
  {
    var t := ProducerStep(s, p, e);
    assert forall v :: 0 <= v < |s.writers| ==> t.writers[v] == s.writers[v];
    assert forall v :: |s.writers| <= v < |t.writers| ==> t.writers[v] == Polling(0);
  }

  lemma WriterKeepsWakeup(s: State, w: nat, e: WriterEvent)
    requires Positions(s) && Flush(s) && Wakeup(s) && WriterEnabled(s, w, e)
    ensures Wakeup(WriterStep(s, w, e))
  {
    var t := WriterStep(s, w, e);
    if WriterHolds(s.writers[w]) == 1 {
      SoleWriter(s, w);
    }
    if t.queue != [] && !t.running && !t.net.failed {
      if e.StoreIdle? {
        assert t.writers[w].ReadAgain?;
      } else if e.LoadLenAgain? {
        assert t.writers[w].Retaking?;
      }
    }
  }

  lemma ProducerKeepsWakeup(s: State, p: nat, e: ProducerEvent)
    requires Positions(s) && Wakeup(s) && ProducerEnabled(s, p, e)
    ensures Wakeup(ProducerStep(s, p, e))
  {
    var t := ProducerStep(s, p, e);
    if t.queue != [] && !t.running && !t.net.failed {
      if e.Send? {
        assert t.producers[p].Sent?;
      } else {
        TotalUpdate(s.producers, p, s.producers[p], ProducerHolds);
        assert Attended(s);
        if q :| 0 <= q < |s.producers| && s.producers[q].Sent? {
          assert t.producers[q].Sent?;
        } else {
          var v :| 0 <= v < |s.writers| && (s.writers[v].ReadAgain? || s.writers[v].Retaking?);
          assert t.writers[v] == s.writers[v];
        }
      }
    }
  }

  // ---------------------------------------------------------------- calls

  lemma SendAccepts(accepted: seq<Accepted>, a: Accepted, call: nat)
    ensures WasAccepted(accepted + [a], call) <==> WasAccepted(accepted, call) || a.call == call
  {
    if WasAccepted(accepted, call) {
      var i :| 0 <= i < |accepted| && accepted[i].call == call;
      assert (accepted + [a])[i].call == call;
    }
    if a.call == call {
      assert (accepted + [a])[|accepted|].call == call;
    }
  }

  /** `Begin` opens a new call. */
  lemma BeginKeepsCalls(s: State, p: nat, data: seq<byte>)
    requires Calls(s) && ProducerEnabled(s, p, Begin(data))
    ensures Calls(ProducerStep(s, p, Begin(data)))
  {
    var t := ProducerStep(s, p, Begin(data));
    assert !WasAccepted(s.book.accepted, |s.book.calls|);
    forall q | 0 <= q < |t.producers| && HasCall(t.producers[q]) ensures ProducerCall(t, t.producers[q]) {
      if q != p {
        assert ProducerCall(s, s.producers[q]);
      }
    }
    forall c | c in t.book.results ensures c < |t.book.calls| && ResultOk(t, c) {
      assert ResultOk(s, c);
    }
    forall i, j | 0 <= i < j < |t.producers| && HasCall(t.producers[i]) && HasCall(t.producers[j])
      ensures t.producers[i].call != t.producers[j].call
    {
      assert i != p ==> ProducerCall(s, s.producers[i]);
      assert j != p ==> ProducerCall(s, s.producers[j]);
    }
  }

  lemma SendKeepsCalls(s: State, p: nat)
    requires Calls(s) && ProducerEnabled(s, p, Send)
    ensures Calls(ProducerStep(s, p, Send))
  {
    var t := ProducerStep(s, p, Send);
    var pc := s.producers[p];
    var a := Accepted(pc.call, pc.data);
    assert ProducerCall(s, pc);
    forall q | 0 <= q < |t.producers| && HasCall(t.producers[q]) ensures ProducerCall(t, t.producers[q]) {
      SendAccepts(s.book.accepted, a, t.producers[q].call);
      if q != p {
        assert ProducerCall(s, s.producers[q]);
      }
    }
    forall c | c in t.book.results ensures c < |t.book.calls| && ResultOk(t, c) {
      assert ResultOk(s, c);
      SendAccepts(s.book.accepted, a, c);
    }
    forall i, j | 0 <= i < j < |t.book.accepted| ensures t.book.accepted[i].call != t.book.accepted[j].call {
      if j == |s.book.accepted| {
        assert t.book.accepted[i] == s.book.accepted[i];
        assert !WasAccepted(s.book.accepted, pc.call);
      }
    }
  }

  /** Moving a producer within its call, or ending the call truthfully, keeps the bookkeeping. */
  lemma MoveKeepsCalls(s: State, t: State, p: nat)
    requires Calls(s) && p < |s.producers| && HasCall(s.producers[p])
    requires t.book.calls == s.book.calls && t.book.accepted == s.book.accepted && |t.producers| == |s.producers|
    requires t.producers == s.producers[p := t.producers[p]]
    requires if t.producers[p].Ready? then
        && t.book.results.Keys == s.book.results.Keys + {s.producers[p].call}
        && (forall c :: c in s.book.results ==> t.book.results[c] == s.book.results[c])
        && ResultOk(t, s.producers[p].call)
      else t.book.results == s.book.results && t.producers[p].call == s.producers[p].call && ProducerCall(t, t.producers[p])
    ensures Calls(t)
  {
    forall q | 0 <= q < |t.producers| && HasCall(t.producers[q]) ensures ProducerCall(t, t.producers[q]) {
      if q != p {
        assert ProducerCall(s, s.producers[q]);
        assert s.producers[q].call != s.producers[p].call;
      }
    }
    forall c | c in t.book.results ensures c < |t.book.calls| && ResultOk(t, c) {
      if c in s.book.results {
        assert ResultOk(s, c);
      }
    }
  }

  lemma ProducerKeepsCalls(s: State, p: nat, e: ProducerEvent)
    requires Calls(s) && ProducerEnabled(s, p, e)
    ensures Calls(ProducerStep(s, p, e))
  {
    match e
    case Begin(data) => BeginKeepsCalls(s, p, data);
    case Send => SendKeepsCalls(s, p);
    case _ =>
      assert ProducerCall(s, s.producers[p]);
      MoveKeepsCalls(s, ProducerStep(s, p, e), p);
  }

  // ---------------------------------------------------------------- assembly

  lemma WriterKeepsCalls(s: State, w: nat, e: WriterEvent)
    requires Calls(s) && CloseOnce(s) && WriterEnabled(s, w, e)
    ensures Calls(WriterStep(s, w, e)) && CloseOnce(WriterStep(s, w, e))
  {
    SameCalls(s, WriterStep(s, w, e));
    TotalSnoc(s.closing.closers, CasClosed, CloserPassed);
  }

  lemma WriterKeepsInv(s: State, w: nat, e: WriterEvent)
    requires Inv(s) && WriterEnabled(s, w, e)
    ensures Inv(WriterStep(s, w, e))
  {
    WriterMoves(s, w, e);
    WriterKeepsPackets(s, w, e);
    WriterKeepsOwnership(s, w, e);
    WriterKeepsFlush(s, w, e);
    WriterKeepsWakeup(s, w, e);
    WriterKeepsCalls(s, w, e);
  }

  lemma SameCalls(s: State, t: State)
    requires Calls(s)
    requires t.book.calls == s.book.calls && t.book.accepted == s.book.accepted && t.book.results == s.book.results
    requires t.producers == s.producers || t.producers == s.producers + [Ready]
    ensures Calls(t)
  {
    forall q | 0 <= q < |t.producers| && HasCall(t.producers[q]) ensures ProducerCall(t, t.producers[q]) {
      assert t.producers[q] == s.producers[q];
      assert ProducerCall(s, s.producers[q]);
    }
    forall c | c in t.book.results ensures c < |t.book.calls| && ResultOk(t, c) {
      assert ResultOk(s, c);
    }
  }

  lemma ProducerKeepsInv(s: State, p: nat, e: ProducerEvent)
    requires Inv(s) && ProducerEnabled(s, p, e)
    ensures Inv(ProducerStep(s, p, e))
  {
    ProducerMoves(s, p, e);
    ProducerKeepsPackets(s, p, e);
    ProducerKeepsOwnership(s, p, e);
    ProducerKeepsFlush(s, p, e);
    ProducerKeepsWakeup(s, p, e);
    ProducerKeepsCalls(s, p, e);
  }

  /** Closers do not touch what the rest of the invariant is about. */
  lemma CloserFrame(s: State, c: nat, e: CloserEvent)
    requires Positions(s) && CloserEnabled(s, c, e)
    ensures var t := CloserStep(s, c, e);
      && Positions(t) && InFlight(t) == InFlight(s) && Unwritten(t) == Unwritten(s)
      && t.mem == s.mem && t.producers == s.producers && t.writers == s.writers
      && t.queue == s.queue && t.running == s.running && t.book == s.book
      && t.net.log == s.net.log && t.net.out == s.net.out && t.net.failed == s.net.failed && t.net.cuts == s.net.cuts
      && (t.net.flushed == s.net.flushed || s.net.flushed <= t.net.flushed <= |s.net.out|)
  {
    OtherMoves(s, CloserStep(s, c, e));
  }

  lemma CloserKeepsCalls(s: State, c: nat, e: CloserEvent)
    requires Calls(s) && CloseOnce(s) && CloserEnabled(s, c, e)
    ensures Calls(CloserStep(s, c, e)) && CloseOnce(CloserStep(s, c, e))
  {
    var t := CloserStep(s, c, e);
    SameCalls(s, t);
    TotalUpdate(s.closing.closers, c, t.closing.closers[c], CloserPassed);
    assert t.closing.closers == s.closing.closers[c := t.closing.closers[c]];
  }

  lemma SameOwners(s: State, t: State)
    requires Ownership(s) && InFlight(t) == InFlight(s) && t.mem == s.mem && t.producers == s.producers
    ensures Ownership(t)
  {
    forall b ensures OwnedOnce(t, b) {
      assert OwnedOnce(s, b);
    }
  }

  lemma CloserKeepsInv(s: State, c: nat, e: CloserEvent)
    requires Inv(s) && CloserEnabled(s, c, e)
    ensures Inv(CloserStep(s, c, e))
  {
    var t := CloserStep(s, c, e);
    CloserFrame(s, c, e);
    SamePackets(s, t);
    CloserKeepsCalls(s, c, e);
    SameOwners(s, t);
    assert Positions(t) && Flush(t);
    assert Attended(t) == Attended(s);
  }

  lemma OutsideKeepsContent(s: State, e: OutsideEvent)
    requires Positions(s) && Content(s) && Ownership(s) && OutsideEnabled(s, e)
    ensures Content(OutsideStep(s, e))
  {
    var t := OutsideStep(s, e);
    OtherMoves(s, t);
    if e.Scribble? || e.MakeFresh? {
      assert OwnedOnce(s, e.b);
      WriteElsewhere(s, e.b, e.junk);
      forall p | 0 <= p < |s.producers| ensures FilledOk(t.mem.heap, s.producers[p]) {
        assert FilledOk(s.mem.heap, s.producers[p]);
        ProducersOfUpdate(s.producers, p, s.producers[p], e.b);
      }
    } else {
      assert t.mem.heap == s.mem.heap;
    }
  }

  lemma OutsideKeepsOwnership(s: State, e: OutsideEvent)
    requires Positions(s) && Ownership(s) && OutsideEnabled(s, e)
    ensures Ownership(OutsideStep(s, e))
  {
    var t := OutsideStep(s, e);
    OtherMoves(s, t);
    forall b ensures OwnedOnce(t, b) {
      assert OwnedOnce(s, b);
      ProducersOfSnoc(s.producers, Ready, b);
    }
  }

  /** The rest of the program does not touch the order, the flushing and the calls of this channel. */
  lemma OutsideKeepsRest(s: State, e: OutsideEvent)
    requires Positions(s) && Order(s) && Recyclable(s) && Flush(s) && Calls(s) && CloseOnce(s) && OutsideEnabled(s, e)
    ensures var t := OutsideStep(s, e); Positions(t) && Order(t) && Recyclable(t) && Flush(t) && Calls(t) && CloseOnce(t)
  {
    hide OutsideStep, OutsideEnabled, Positions, Order, Recyclable, Flush, Calls, CloseOnce;
    OutsideKeepsOrder(s, e);
    OutsideKeepsCalls(s, e);
  }

  lemma OutsideKeepsOrder(s: State, e: OutsideEvent)
    requires Positions(s) && Order(s) && Recyclable(s) && Flush(s) && OutsideEnabled(s, e)
    ensures var t := OutsideStep(s, e); Positions(t) && Order(t) && Recyclable(t) && Flush(t)
  {
    var t := OutsideStep(s, e);
    OtherMoves(s, t);
    assert Order(t) == Order(s) && Recyclable(t) == Recyclable(s);
  }

  lemma OutsideKeepsCalls(s: State, e: OutsideEvent)
    requires Calls(s) && CloseOnce(s) && OutsideEnabled(s, e)
    ensures var t := OutsideStep(s, e); Calls(t) && CloseOnce(t)
  {
    SameCalls(s, OutsideStep(s, e));
    TotalSnoc(s.closing.closers, CasClosed, CloserPassed);
  }

  lemma OutsideKeepsWakeup(s: State, e: OutsideEvent)
    requires Wakeup(s) && OutsideEnabled(s, e)
    ensures Wakeup(OutsideStep(s, e))
  {
    var t := OutsideStep(s, e);
    if Attended(s) {
      if p :| 0 <= p < |s.producers| && s.producers[p].Sent? {
        assert t.producers[p].Sent?;
      }
    }
  }

  lemma OutsideKeepsInv(s: State, e: OutsideEvent)
    requires Inv(s) && OutsideEnabled(s, e)
    ensures Inv(OutsideStep(s, e))
  {
    OutsideKeepsContent(s, e);
    OutsideKeepsOwnership(s, e);
    OutsideKeepsRest(s, e);
    OutsideKeepsWakeup(s, e);
  }

  lemma StepKeepsInv(s: State, e: Event)
    requires Inv(s) && Enabled(s, e)
    ensures Inv(Step(s, e))
  {
    match e
    case Produce(p, pe) => ProducerKeepsInv(s, p, pe);
    case Write(w, we) => WriterKeepsInv(s, w, we);
    case Close(c, ce) => CloserKeepsInv(s, c, ce);
    case Outside(oe) => OutsideKeepsInv(s, oe);
  }

  lemma {:induction false} AllReady(ps: seq<Producer>, b: Buf)
    requires forall p :: p in ps ==> p == Ready
    ensures Total(ps, ProducerHolds) == 0 && ProducersOf(ps, b) == 0
  {
    if ps != [] {
      assert ps[0] in ps;
      forall p | p in ps[1..] ensures p == Ready { assert p in ps; }
      AllReady(ps[1..], b);
    }
  }

  lemma InitInv(s: State)
    requires Init(s)
    ensures Inv(s)
  {
    assert InFlight(s) == [] && Unwritten(s) == [];
    forall b ensures OwnedOnce(s, b) {
      AllReady(s.producers, b);
    }
    assert Total(s.producers, ProducerHolds) == 0 by { AllReady(s.producers, 0); }
    forall p | 0 <= p < |s.producers| ensures s.producers[p] == Ready { assert s.producers[p] in s.producers; }
  }

  /** The invariant holds at the end of every run, whatever the schedule. */
  lemma {:induction false} ReachableInv(s: State, es: seq<Event>)
    requires Inv(s) && IsRun(s, es)
    ensures Inv(After(s, es))
    decreases |es|
  {
    if es != [] {
      StepKeepsInv(s, es[0]);
      ReachableInv(Step(s, es[0]), es[1..]);
    }
  }
}
