/**
 The asynchronous write path of a channel as a step system: every atomic action of `asyncWrite`,
 `asyncWritev`, `ReadFrom`, `writeOnce` and the waiting part of `Close` is one event, and events of
 any number of threads interleave freely. Go's memory model is taken as sequentially consistent.
 */
module WriteLoop {
  import opened Common

  /** The identity of a pooled backing array. */
  type Buf = nat

  /** A slice `buf[:len]` in the write queue; `no` records its place in the order of acceptance. */
  datatype Packet = Packet(buf: Buf, len: nat, no: nat)

  datatype Error = Nil | NoSpace | CtxError | CloseError

  /** What `asyncWrite` or `asyncWritev` gives back to its caller. */
  datatype Return = Return(n: nat, err: Error)

  /** One goroutine that calls into the channel, and how far its present call has come. */
  datatype Producer =
    | Ready
    | NeedBuf(call: nat, data: seq<byte>)
    | Holding(call: nat, data: seq<byte>, buf: Buf)
    | Filled(call: nat, data: seq<byte>, buf: Buf)
    | Sent(call: nat, n: nat)
    | Won(call: nat, n: nat)

  /** One goroutine inside `writeOnce`; `n` is the length of its `sendBuffers`. */
  datatype Writer =
    | Polling(n: nat)
    | Writing(n: nat)
    | Recycling(n: nat, i: nat)
    | ReadLen
    | Flushing
    | Storing
    | ReadAgain
    | Retaking
    | Panicked
    | Closing
    | Finished

  /** One goroutine inside `Close`. */
  datatype Closer =
    | CasClosed
    | Waiting(rounds: nat)
    | SettingErr
    | ClosingTransport
    | Cancelling
    | Closed

  /** A packet the channel accepted: the call that sent it and the bytes that call supplied. */
  datatype Accepted = Accepted(call: nat, data: seq<byte>)

  /** A packet given to the transport, whole or (when a write fails part-way) its first bytes. */
  datatype Entry = Entry(no: nat, bytes: seq<byte>)

  /** `queueCap` is the capacity of `writeQueue`; the asynchronous channel has a positive one. */
  datatype Config = Config(queueCap: nat, untilWrite: bool) {
    /** The capacity of `writeBuffers` and of `recycleBuffers`. */
    function BatchCap(): (c: nat)
    {
      queueCap / 2 + 1
    }
  }

  /** The backing arrays of `writeBuffers` and `recycleBuffers`, shared by all writers. */
  datatype Arrays = Arrays(send: seq<Option<Packet>>, recycle: seq<Option<Packet>>)

  /** The calls of `Close`, the fields they set, and whether the channel's context is done. */
  datatype Shutdown = Shutdown(closers: seq<Closer>, closed: bool, closeErr: Error, ctxDone: bool)

  /** Buffers with their bytes; the ones in the pool, and the ones other users of the pool hold. */
  datatype Memory = Memory(heap: map<Buf, seq<byte>>, pool: multiset<Buf>, outside: multiset<Buf>)

  /**
   Bytes given to the transport, how many of them are flushed, and (history) the packets given to it, whether
   anything failed, and the lengths the log had right after each `Writev` that wrote something and then failed.
   */
  datatype Transport = Transport(out: seq<byte>, flushed: nat, log: seq<Entry>, failed: bool, cuts: set<nat>)

  /** History of the calls: what each supplied, what was accepted, what each was told. */
  datatype Book = Book(calls: seq<seq<byte>>, accepted: seq<Accepted>, results: map<nat, Return>)

  datatype State = State(
    cfg: Config,
    queue: seq<Packet>,
    running: bool,
    arrays: Arrays,
    producers: seq<Producer>,
    writers: seq<Writer>,
    closing: Shutdown,
    mem: Memory,
    net: Transport,
    book: Book)

  ghost predicate Init(s: State)
  {
    && s.cfg.queueCap > 0
    && s.queue == [] && !s.running
    && |s.arrays.send| == |s.arrays.recycle| == s.cfg.BatchCap()
    && (forall p :: p in s.producers ==> p == Ready)
    && s.writers == [] && s.closing.closers == []
    && !s.closing.closed && s.closing.closeErr == Nil && !s.closing.ctxDone
    && (forall b :: s.mem.pool[b] + s.mem.outside[b] <= 1)
    && (forall b :: b in s.mem.pool || b in s.mem.outside ==> b in s.mem.heap)
    && s.net.out == [] && s.net.flushed == 0
    && !s.net.failed && s.net.cuts == {} && s.book.accepted == [] && s.net.log == [] && s.book.calls == [] && s.book.results == map[]
  }

  // ---------------------------------------------------------------- slices and slots

  /** The packets of the slots that are not nil. */
  function Live(slots: seq<Option<Packet>>): (r: seq<Packet>)
  {
    if slots == [] then []
    else (if slots[0].Some? then [slots[0].value] else []) + Live(slots[1..])
  }

  /** The bytes a packet stands for in the present heap. */
  function Payload(heap: map<Buf, seq<byte>>, p: Packet): (r: seq<byte>)
  {
    if p.buf in heap && p.len <= |heap[p.buf]| then heap[p.buf][..p.len] else []
  }

  function Entries(heap: map<Buf, seq<byte>>, ps: seq<Packet>): (r: seq<Entry>)
  {
    seq(|ps|, j requires 0 <= j < |ps| => Entry(ps[j].no, Payload(heap, ps[j])))
  }

  function EntryBytes(es: seq<Entry>): (r: seq<seq<byte>>)
  {
    seq(|es|, j requires 0 <= j < |es| => es[j].bytes)
  }

  /** The first `k` bytes of `es`, entry by entry: what a write that fails after `k` bytes leaves. */
  function Cut(es: seq<Entry>, k: nat): (r: seq<Entry>)
  {
    if es == [] || k == 0 then []
    else if |es[0].bytes| <= k then [es[0]] + Cut(es[1..], k - |es[0].bytes|)
    else [Entry(es[0].no, es[0].bytes[..k])]
  }

  /** A failed write of `es` marks its last entry as the one that may be cut. */
  function AfterFailure(net: Transport, es: seq<Entry>): (cuts: set<nat>)
  {
    if es == [] then net.cuts else net.cuts + {|net.log + es|}
  }

  /** The slots after `Writev` consumed them: some of the first `n` became nil. */
  function NilOut(slots: seq<Option<Packet>>, n: nat, nils: set<nat>): (r: seq<Option<Packet>>)
  {
    seq(|slots|, j requires 0 <= j < |slots| => if j < n && j in nils then None else slots[j])
  }

  // ---------------------------------------------------------------- producers

  datatype ProducerEvent =
    | Begin(data: seq<byte>)
    | RejectClosed
    | GetPooled(b: Buf)
    | GetFresh(b: Buf, junk: seq<byte>)
    | PutBack
    | Fill
    | Send
    | Refuse
    | CancelChannel
    | CancelCaller
    | CasIdle
    | Spawn

  ghost predicate ProducerEnabled(s: State, p: nat, e: ProducerEvent)
  {
    && p < |s.producers|
    && var pc := s.producers[p];
       match e
       case Begin(_) => pc.Ready?
       case RejectClosed => (pc.NeedBuf? || pc.Holding? || pc.Filled?) && s.closing.closeErr != Nil
       case GetPooled(b) => pc.NeedBuf? && b in s.mem.pool && b in s.mem.heap && |pc.data| <= |s.mem.heap[b]|
       case GetFresh(b, junk) => pc.NeedBuf? && b !in s.mem.heap && |pc.data| <= |junk|
       case PutBack => pc.Holding? && pc.data == []
       case Fill => pc.Holding? && pc.buf in s.mem.heap && |pc.data| <= |s.mem.heap[pc.buf]|
       case Send => pc.Filled? && |s.queue| < s.cfg.queueCap
       case Refuse => pc.Filled? && |s.queue| == s.cfg.queueCap && !s.cfg.untilWrite && !s.closing.ctxDone
       case CancelChannel => pc.Filled? && s.closing.ctxDone
       case CancelCaller => pc.Filled?
       case CasIdle => pc.Sent?
       case Spawn => pc.Won?
  }

  ghost function Finish(s: State, p: nat, r: Return): State
    requires p < |s.producers| && !s.producers[p].Ready?
  {
    s.(producers := s.producers[p := Ready], book := s.book.(results := s.book.results[s.producers[p].call := r]))
  }

  ghost function ProducerStep(s: State, p: nat, e: ProducerEvent): State
    requires ProducerEnabled(s, p, e)
  {
    var pc := s.producers[p];
    match e
    case Begin(data) =>
      s.(producers := s.producers[p := NeedBuf(|s.book.calls|, data)], book := s.book.(calls := s.book.calls + [data]))
    case RejectClosed =>
      Finish(s, p, Return(0, s.closing.closeErr))
    case GetPooled(b) =>
      s.(producers := s.producers[p := Holding(pc.call, pc.data, b)], mem := s.mem.(pool := s.mem.pool - multiset{b}))
    case GetFresh(b, junk) =>
      s.(producers := s.producers[p := Holding(pc.call, pc.data, b)], mem := s.mem.(heap := s.mem.heap[b := junk]))
    case PutBack =>
      Finish(s.(mem := s.mem.(pool := s.mem.pool + multiset{pc.buf})), p, Return(0, Nil))
    case Fill =>
      s.(producers := s.producers[p := Filled(pc.call, pc.data, pc.buf)],
         mem := s.mem.(heap := s.mem.heap[pc.buf := pc.data + s.mem.heap[pc.buf][|pc.data|..]]))
    case Send =>
      s.(producers := s.producers[p := Sent(pc.call, |pc.data|)],
         queue := s.queue + [Packet(pc.buf, |pc.data|, |s.book.accepted|)],
         book := s.book.(accepted := s.book.accepted + [Accepted(pc.call, pc.data)]))
    case Refuse =>
      Finish(s, p, Return(0, NoSpace))
    case CancelChannel =>
      Finish(s, p, Return(0, s.closing.closeErr))
    case CancelCaller =>
      Finish(s, p, Return(0, CtxError))
    case CasIdle =>
      if s.running then Finish(s, p, Return(pc.n, Nil))
      else s.(producers := s.producers[p := Won(pc.call, pc.n)], running := true)
    case Spawn =>
      Finish(s.(writers := s.writers + [Polling(0)]), p, Return(pc.n, Nil))
  }

  // ---------------------------------------------------------------- writers

  /** `flushedTo` lets the transport push buffered bytes out by itself; `nils` are the consumed slots. */
  datatype WriterEvent =
    | Poll
    | EndBatch
    | WritevOk(nils: set<nat>, flushedTo: nat)
    | WritevFail(k: nat, nils: set<nat>, flushedTo: nat)
    | Recycle
    | LoadLen
    | FlushOk
    | FlushFail(flushedTo: nat)
    | StoreIdle
    | LoadLenAgain
    | CasAgain
    | PanicStore
    | CallClose

  /** What the batch of length `n` gives to the transport. */
  ghost function BatchEntries(s: State, n: nat): seq<Entry>
    requires n <= |s.arrays.send|
  {
    Entries(s.mem.heap, Live(s.arrays.send[..n]))
  }

  ghost predicate WriterEnabled(s: State, w: nat, e: WriterEvent)
  {
    && w < |s.writers|
    && var pc := s.writers[w];
       match e
       case Poll => pc.Polling? && pc.n < |s.arrays.send| && pc.n < |s.arrays.recycle| && s.queue != []
       case EndBatch => pc.Polling? && (pc.n >= |s.arrays.send| || s.queue == [])
       case WritevOk(nils, to) =>
         && pc.Writing? && pc.n <= |s.arrays.send|
         && s.net.flushed <= to <= |s.net.out + Concat(EntryBytes(BatchEntries(s, pc.n)))|
       case WritevFail(k, nils, to) =>
         && pc.Writing? && pc.n <= |s.arrays.send|
         && s.net.flushed <= to <= |s.net.out + Concat(EntryBytes(Cut(BatchEntries(s, pc.n), k)))|
       case Recycle => pc.Recycling? && pc.i < pc.n <= |s.arrays.recycle| && pc.n <= |s.arrays.send| && s.arrays.recycle[pc.i].Some?
       case LoadLen => pc.ReadLen?
       case FlushOk => pc.Flushing?
       case FlushFail(to) => pc.Flushing? && s.net.flushed <= to <= |s.net.out|
       case StoreIdle => pc.Storing?
       case LoadLenAgain => pc.ReadAgain?
       case CasAgain => pc.Retaking?
       case PanicStore => pc.Panicked?
       case CallClose => pc.Closing?
  }

  ghost function At(s: State, w: nat, pc: Writer): State
    requires w < |s.writers|
  {
    s.(writers := s.writers[w := pc])
  }

  ghost function WriterStep(s: State, w: nat, e: WriterEvent): State
    requires WriterEnabled(s, w, e)
  {
    var pc := s.writers[w];
    match e
    case Poll =>
      At(s, w, Polling(pc.n + 1)).(
        queue := s.queue[1..],
        arrays := Arrays(s.arrays.send[pc.n := Some(s.queue[0])], s.arrays.recycle[pc.n := Some(s.queue[0])]))
    case EndBatch =>
      At(s, w, if pc.n > 0 then Writing(pc.n) else Flushing)
    case WritevOk(nils, to) =>
      var es := BatchEntries(s, pc.n);
      At(s, w, Recycling(pc.n, 0)).(
        net := Transport(s.net.out + Concat(EntryBytes(es)), to, s.net.log + es, s.net.failed, s.net.cuts),
        arrays := s.arrays.(send := NilOut(s.arrays.send, pc.n, nils)))
    case WritevFail(k, nils, to) =>
      var es := Cut(BatchEntries(s, pc.n), k);
      At(s, w, Panicked).(
        net := Transport(s.net.out + Concat(EntryBytes(es)), to, s.net.log + es, true, AfterFailure(s.net, es)),
        arrays := s.arrays.(send := NilOut(s.arrays.send, pc.n, nils)))
    case Recycle =>
      At(s, w, if pc.i + 1 == pc.n then ReadLen else Recycling(pc.n, pc.i + 1)).(
        mem := s.mem.(pool := s.mem.pool + multiset{s.arrays.recycle[pc.i].value.buf}),
        arrays := Arrays(s.arrays.send[pc.i := None], s.arrays.recycle[pc.i := None]))
    case LoadLen =>
      At(s, w, if |s.queue| > 0 then Polling(0) else Flushing)
    case FlushOk =>
      At(s, w, Storing).(net := s.net.(flushed := |s.net.out|))
    case FlushFail(to) =>
      At(s, w, Panicked).(net := s.net.(flushed := to, failed := true))
    case StoreIdle =>
      At(s, w, ReadAgain).(running := false)
    case LoadLenAgain =>
      At(s, w, if |s.queue| > 0 then Retaking else Finished)
    case CasAgain =>
      if s.running then At(s, w, Finished) else At(s, w, Polling(0)).(running := true)
    case PanicStore =>
      At(s, w, Closing).(running := false)
    case CallClose =>
      At(s, w, Finished).(closing := s.closing.(closers := s.closing.closers + [CasClosed]))
  }

  // ---------------------------------------------------------------- closers

  datatype CloserEvent =
    | CasClose
    | Sleep
    | StopWaiting
    | SetErr(err: Error)
    | CloseTransport(flushedTo: nat)
    | Cancel

  ghost predicate CloserEnabled(s: State, c: nat, e: CloserEvent)
  {
    && c < |s.closing.closers|
    && var pc := s.closing.closers[c];
       match e
       case CasClose => pc.CasClosed?
       case Sleep => pc.Waiting? && (s.cfg.untilWrite || pc.rounds < 10) && s.running
       case StopWaiting => pc.Waiting? && !((s.cfg.untilWrite || pc.rounds < 10) && s.running)
       case SetErr(err) => pc.SettingErr? && (err == Nil || err == CloseError)
       case CloseTransport(to) => pc.ClosingTransport? && s.net.flushed <= to <= |s.net.out|
       case Cancel => pc.Cancelling?
  }

  ghost function CloserStep(s: State, c: nat, e: CloserEvent): State
    requires CloserEnabled(s, c, e)
  {
    var pc, cl := s.closing.closers[c], s.closing;
    match e
    case CasClose =>
      if cl.closed then s.(closing := cl.(closers := cl.closers[c := Closed]))
      else s.(closing := cl.(closers := cl.closers[c := Waiting(0)], closed := true))
    case Sleep => s.(closing := cl.(closers := cl.closers[c := Waiting(pc.rounds + 1)]))
    case StopWaiting => s.(closing := cl.(closers := cl.closers[c := SettingErr]))
    case SetErr(err) => s.(closing := cl.(closers := cl.closers[c := ClosingTransport], closeErr := err))
    case CloseTransport(to) =>
      s.(closing := cl.(closers := cl.closers[c := Cancelling]), net := s.net.(flushed := to))
    case Cancel => s.(closing := cl.(closers := cl.closers[c := Closed], ctxDone := true))
  }

  // ---------------------------------------------------------------- everything else

  /** The rest of the program: new callers, calls of `Close`, the parent context, other users of the pool. */
  datatype OutsideEvent =
    | NewProducer
    | CallsClose
    | CancelParent
    | TakePooled(b: Buf)
    | MakeFresh(b: Buf, junk: seq<byte>)
    | Scribble(b: Buf, junk: seq<byte>)
    | PutPooled(b: Buf)
    | DropPooled(b: Buf)

  ghost predicate OutsideEnabled(s: State, e: OutsideEvent)
  {
    match e
    case NewProducer => true
    case CallsClose => true
    case CancelParent => true
    case TakePooled(b) => b in s.mem.pool
    case MakeFresh(b, junk) => b !in s.mem.heap
    case Scribble(b, junk) => b in s.mem.outside && b in s.mem.heap && |junk| == |s.mem.heap[b]|
    case PutPooled(b) => b in s.mem.outside
    case DropPooled(b) => b in s.mem.pool
  }

  ghost function OutsideStep(s: State, e: OutsideEvent): State
    requires OutsideEnabled(s, e)
  {
    match e
    case NewProducer => s.(producers := s.producers + [Ready])
    case CallsClose => s.(closing := s.closing.(closers := s.closing.closers + [CasClosed]))
    case CancelParent => s.(closing := s.closing.(ctxDone := true))
    case TakePooled(b) => s.(mem := s.mem.(pool := s.mem.pool - multiset{b}, outside := s.mem.outside + multiset{b}))
    case MakeFresh(b, junk) => s.(mem := s.mem.(heap := s.mem.heap[b := junk], outside := s.mem.outside + multiset{b}))
    case Scribble(b, junk) => s.(mem := s.mem.(heap := s.mem.heap[b := junk]))
    case PutPooled(b) => s.(mem := s.mem.(outside := s.mem.outside - multiset{b}, pool := s.mem.pool + multiset{b}))
    case DropPooled(b) => s.(mem := s.mem.(pool := s.mem.pool - multiset{b}))
  }

  // ---------------------------------------------------------------- runs

  datatype Event =
    | Produce(p: nat, pe: ProducerEvent)
    | Write(w: nat, we: WriterEvent)
    | Close(c: nat, ce: CloserEvent)
    | Outside(oe: OutsideEvent)

  ghost predicate Enabled(s: State, e: Event)
  {
    match e
    case Produce(p, pe) => ProducerEnabled(s, p, pe)
    case Write(w, we) => WriterEnabled(s, w, we)
    case Close(c, ce) => CloserEnabled(s, c, ce)
    case Outside(oe) => OutsideEnabled(s, oe)
  }

  ghost function Step(s: State, e: Event): State
    requires Enabled(s, e)
  {
    match e
    case Produce(p, pe) => ProducerStep(s, p, pe)
    case Write(w, we) => WriterStep(s, w, we)
    case Close(c, ce) => CloserStep(s, c, ce)
    case Outside(oe) => OutsideStep(s, oe)
  }

  /** `es` is a schedule that can be followed from `s`. */
  ghost predicate IsRun(s: State, es: seq<Event>)
    decreases |es|
  {
    es == [] || (Enabled(s, es[0]) && IsRun(Step(s, es[0]), es[1..]))
  }

  ghost function After(s: State, es: seq<Event>): State
    requires IsRun(s, es)
    decreases |es|
  {
    if es == [] then s else After(Step(s, es[0]), es[1..])
  }
}
