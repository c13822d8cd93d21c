/**
 `writeOnce` as one writer runs it: on its own two buffers, on a transport that may fail, and with other callers
 sending between its actions. `incoming` are the packets they are still going to send, `schedule` says when.
 */
module Writers {
  import opened Common
  import opened Slices
  import opened Pools
  import opened Channels
  import opened Ledgers

  /** Slots are not bytes: an array of slots is none of the backing arrays. */
  lemma SlotsApart(ps: seq<Slice>, slots: array<Option<Slice>>)
    ensures forall o: object :: o in Arrays(ps) ==> o != slots
  {
  }

  /** What is left of a slice after its first `k` bytes. */
  function Rest(p: Slice, k: nat): (r: Slice)
    requires k <= p.len <= p.cap
  {
    Slice(p.data, p.off + k, p.len - k, p.cap - k)
  }

  lemma RestIs(p: Slice, k: nat)
    requires p.Valid() && k <= p.len
    ensures Rest(p, k).Valid() && Bytes(p)[..k] + Bytes(Rest(p, k)) == Bytes(p)
  {
  }

  /** The first `m` slices of a batch, and the first `k` bytes of the next one. */
  ghost function Beginning(batch: seq<Slice>, m: nat, k: nat): (r: seq<byte>)
    requires AllSlices(batch) && m <= |batch| && (m < |batch| ==> k <= batch[m].len)
    reads Arrays(batch)
  {
    Joined(batch[..m]) + if m < |batch| then Bytes(batch[m])[..k] else []
  }

  /** The slots after that much was written: nil, then the rest of one slice, then the slices not reached. */
  ghost predicate Consumed(slots: seq<Option<Slice>>, batch: seq<Slice>, m: nat, k: nat)
  {
    && m <= |batch| <= |slots| && (forall j :: 0 <= j < m ==> slots[j] == None)
    && (m < |batch| ==> k < batch[m].len <= batch[m].cap && slots[m] == Some(Rest(batch[m], k)))
    && (forall j :: m < j < |batch| ==> slots[j] == Some(batch[j]))
  }

  /** A slice written to its end belongs to the ones before the next. */
  lemma WholeSlice(batch: seq<Slice>, m: nat)
    requires AllSlices(batch) && m < |batch|
    ensures Beginning(batch, m, batch[m].len) == Beginning(batch, m + 1, 0) == Beginning(batch, m, 0) + Bytes(batch[m])
  {
    assert batch[..m + 1][..m] == batch[..m];
    assert Bytes(batch[m])[..batch[m].len] == Bytes(batch[m]);
  }

  lemma NothingYet(batch: seq<Slice>)
    requires AllSlices(batch)
    ensures Beginning(batch, 0, 0) == []
  {
  }

  lemma PartOfSlice(batch: seq<Slice>, m: nat, k: nat)
    requires AllSlices(batch) && m < |batch| && k <= batch[m].len
    ensures Beginning(batch, m, k) == Beginning(batch, m, 0) + Bytes(batch[m])[..k]
  {
  }

  /** What was written is a beginning of the batch. */
  lemma BeginningIsPrefix(batch: seq<Slice>, m: nat, k: nat)
    requires AllSlices(batch) && m <= |batch| && (m < |batch| ==> k <= batch[m].len)
    ensures Beginning(batch, m, k) <= Joined(batch) && Beginning(batch, |batch|, k) == Joined(batch)
  {
    hide Joined;
    var js := Progress(batch);
    PartsAre(batch, js, m);
    assert batch[..|batch|] == batch;
    if m < |batch| {
      PrefixOfPart(js[m], Bytes(batch[m])[..k], js[m + 1], Joined(batch));
    }
  }

  lemma PrefixOfPart(done: seq<byte>, some: seq<byte>, more: seq<byte>, all: seq<byte>)
    requires done + some <= more <= all
    ensures done + some <= all
  {
  }

  lemma {:induction false} PartsAre(batch: seq<Slice>, js: seq<seq<byte>>, m: nat)
    requires AllSlices(batch) && |js| == |batch| + 1 && js[0] == [] && m <= |batch|
    requires forall i, j :: 0 <= i < |batch| && j == i + 1 ==> js[j] == js[i] + Bytes(batch[i])
    ensures js[m] == Joined(batch[..m])
  {
    if m > 0 {
      PartsAre(batch, js, m - 1);
      assert batch[..m][..m - 1] == batch[..m - 1];
    }
  }

  /** Bytes on their way to the peer; `faults` says of each operation whether it fails, and after how many bytes. */
  class Transport {
    var out: seq<byte>
    var flushed: nat
    var faults: seq<Option<nat>>

    /** Some operation is going to fail. */
    ghost predicate Faulty()
      reads this
    {
      exists i :: 0 <= i < |faults| && faults[i].Some?
    }

    lemma NotBytes(ps: seq<Slice>)
      ensures forall o: object :: o in Arrays(ps) ==> o != this
    {
    }

    method NextFault() returns (f: Option<nat>)
      modifies this`faults
      ensures (f.Some? ==> old(Faulty())) && (Faulty() ==> old(Faulty()))
    {
      f := if faults == [] then None else faults[0];
      faults := if faults == [] then [] else faults[1..];
    }

    /** The writes of `net.Buffers`, one slice after the other, until all are written or one fails. */
    method WriteSlices(bufs: array<Option<Slice>>, n: nat, ghost batch: seq<Slice>) returns (ok: bool, m: nat, k: nat)
      requires n == |batch| <= bufs.Length && AllSlices(batch)
      requires forall j :: 0 <= j < n ==> bufs[j] == Some(batch[j])
      modifies this
      ensures m <= n && (m < n ==> k <= batch[m].len) && (m == n ==> k == 0)
      ensures out == old(out) + Beginning(batch, m, k) && flushed == old(flushed)
      ensures (ok ==> m == n) && (!ok ==> old(Faulty())) && (Faulty() ==> old(Faulty()))
    {
      hide Joined, Beginning;
      NothingYet(batch);
      NotBytes(batch);
      m, k := 0, 0;
      while m < n
        invariant m <= n && out == old(out) + Beginning(batch, m, 0) && flushed == old(flushed) && (Faulty() ==> old(Faulty()))
      {
        var p := bufs[m].value;
        var f := NextFault();
        if f.Some? {
          k := if f.value < p.len then f.value else p.len;
          PartOfSlice(batch, m, k);
          ConcatAssoc(old(out), Beginning(batch, m, 0), Bytes(p)[..k]);
          out := out + Bytes(p)[..k];
          return false, m, k;
        }
        WholeSlice(batch, m);
        ConcatAssoc(old(out), Beginning(batch, m, 0), Bytes(p));
        out := out + Bytes(p);
        m := m + 1;
      }
      return true, m, 0;
    }

    /** `consume`: the slots whose bytes were written become nil, and the one written in part is shortened. */
    method Consume(bufs: array<Option<Slice>>, n: nat, i: nat, k: nat, ghost batch: seq<Slice>) returns (m: nat, r: nat)
      requires i <= n == |batch| <= bufs.Length && AllSlices(batch) && (i < n ==> k <= batch[i].len) && (i == n ==> k == 0)
      requires forall j :: 0 <= j < n ==> bufs[j] == Some(batch[j])
      modifies bufs
      ensures Consumed(bufs[..], batch, m, r) && Beginning(batch, m, r) == Beginning(batch, i, k) && (i == n ==> m == n)
      ensures forall j :: n <= j < bufs.Length ==> bufs[j] == old(bufs[j])
    {
      hide Joined, Beginning;
      SlotsApart(batch, bufs);
      m, r := 0, k;
      while m < n && (m < i || bufs[m].value.len <= r)
        invariant m <= n && (m <= i ==> r == k) && (m > i ==> r == 0)
        invariant m > i ==> Beginning(batch, m, r) == Beginning(batch, i, k)
        invariant forall j :: 0 <= j < m ==> bufs[j] == None
        invariant forall j :: m <= j < bufs.Length ==> bufs[j] == old(bufs[j])
      {
        WholeSlice(batch, m);
        bufs[m] := None;
        r := if m < i then k else 0;
        m := m + 1;
      }
      if m < n {
        bufs[m] := Some(Rest(bufs[m].value, r));
      }
    }

    /**
     Writes the first `n` buffers, or fails somewhere on the way. The slots are consumed as far as their bytes
     were written: `m` of them are nil, and of the next one the first `k` bytes are gone.
     */
    method Writev(bufs: array<Option<Slice>>, n: nat, ghost batch: seq<Slice>) returns (ok: bool, ghost m: nat, ghost k: nat)
      requires n == |batch| <= bufs.Length && AllSlices(batch)
      requires forall j :: 0 <= j < n ==> bufs[j] == Some(batch[j])
      modifies this, bufs
      ensures Consumed(bufs[..], batch, m, k) && out == old(out) + Beginning(batch, m, k)
      ensures ok ==> m == n
      ensures (!ok ==> old(Faulty())) && (Faulty() ==> old(Faulty()))
      ensures flushed == old(flushed) && forall j :: n <= j < bufs.Length ==> bufs[j] == old(bufs[j])
    {
      hide Beginning, Consumed;
      SlotsApart(batch, bufs);
      var i, part;
      ok, i, part := WriteSlices(bufs, n, batch);
      m, k := Consume(bufs, n, i, part, batch);
    }

    /** `Flush`. */
    method Flush() returns (ok: bool)
      modifies this
      ensures out == old(out) && (if ok then flushed == |out| else flushed == old(flushed))
      ensures (!ok ==> old(Faulty())) && (Faulty() ==> old(Faulty()))
    {
      var f := NextFault();
      if f.Some? {
        return false;
      }
      flushed := |out|;
      return true;
    }
  }

  /** A batch taken off the front of an owned queue. */
  lemma SplitQueue(q: seq<Slice>, n: nat, pool: BytePool)
    requires Owned(q, pool) && n <= |q|
    ensures Owned(q[..n], pool) && Owned(q[n..], pool) && Arrays(q[..n]) !! Arrays(q[n..])
    ensures Arrays(q[..n]) + Arrays(q[n..]) == Arrays(q)
  {
  }

  lemma Between(out: seq<byte>, t: seq<byte>, b: seq<byte>, all: seq<byte>)
    requires t <= out + b && b <= all
    ensures t <= out + all
  {
  }

  lemma PrefixConcat(d: seq<seq<byte>>, m: nat, n: nat)
    requires m <= n <= |d|
    ensures Concat(d[..n]) == Concat(d[..m]) + Concat(d[m..n])
    ensures Concat(d[..m]) <= Concat(d[..n])
  {
    assert d[..n] == d[..m] + d[m..n];
    ConcatAppend(d[..m], d[m..n]);
  }

  /** The part of a channel that only its write loop uses, and the callers around it. */
  class Writer {
    const ch: Channel
    const transport: Transport
    const writeBuffers: array<Option<Slice>>
    const recycleBuffers: array<Option<Slice>>
    var incoming: seq<Slice>
    var schedule: seq<(nat, bool)>

    /** The queue and what is still going to come, all in buffers of their own. */
    ghost function All(): seq<Slice>
      reads this, ch
    {
      ch.writeQueue + incoming
    }

    ghost predicate Valid()
      reads this, ch, ch.pool, ch.pool.pool.shards, Arrays(ch.writeQueue)
    {
      && ch.Valid() && Owned(All(), ch.pool)
      && writeBuffers != recycleBuffers
      && writeBuffers.Length == recycleBuffers.Length == ch.queueCap / 2 + 1
    }

    /**
     `d` are the bytes of everything from the first packet of this writer to the last one to come: those not
     polled yet still hold theirs, and those sent so far are accepted, behind the `past` ones.
     */
    ghost predicate Booked(d: seq<seq<byte>>, past: seq<seq<byte>>)
      reads this, ch, Arrays(All())
    {
      AllSlices(All()) && HoldsLast(All(), d) && ch.accepted == past + d[..|d| - |incoming|]
    }

    constructor (ch: Channel, transport: Transport, incoming: seq<Slice>, schedule: seq<(nat, bool)>)
      requires ch.Valid() && Owned(ch.writeQueue + incoming, ch.pool)
      ensures this.ch == ch && this.transport == transport && this.incoming == incoming && Valid()
    {
      this.ch, this.transport, this.incoming, this.schedule := ch, transport, incoming, schedule;
      this.writeBuffers := new Option<Slice>[ch.queueCap / 2 + 1](_ => None);
      this.recycleBuffers := new Option<Slice>[ch.queueCap / 2 + 1](_ => None);
    }

    /** Another caller is going to win `running` for a writer of its own. */
    ghost predicate MayBeTaken()
      reads this
    {
      exists i :: 0 <= i < |schedule| && schedule[i].1
    }

    /** Time goes on: packets arrive, and neither failures nor other writers come from nowhere. */
    twostate predicate GoesOn()
      reads this, transport
    {
      && |incoming| <= |old(incoming)|
      && (MayBeTaken() ==> old(MayBeTaken())) && (transport.Faulty() ==> old(transport.Faulty()))
    }

    // -------------------------------------------------------------- other callers

    /** The next packet to come can be put in the queue. */
    lemma NextToCome()
      requires Valid() && incoming != []
      ensures var more := ch.writeQueue + [incoming[0]];
        && more + incoming[1..] == All() && IsSlice(incoming[0])
        && Owned(more, ch.pool) && HoldsLast(more, ch.accepted + [Bytes(incoming[0])])
    {
      var pkt := incoming[0];
      SplitQueue(All(), |ch.writeQueue|, ch.pool);
      assert All()[..|ch.writeQueue|] == ch.writeQueue && All()[|ch.writeQueue|..] == incoming;
      assert pkt.data in Arrays(incoming);
      HoldsLastSnoc(ch.writeQueue, pkt, ch.pool, ch.accepted);
    }

    /** Its bytes are the next ones of the book. */
    lemma NextInBook(d: seq<seq<byte>>, past: seq<seq<byte>>)
      requires Booked(d, past) && incoming != [] && IsSlice(incoming[0])
      ensures |incoming| <= |d|
      ensures ch.accepted + [Bytes(incoming[0])] == past + d[..|d| - |incoming| + 1]
    {
      var k := |d| - |incoming|;
      assert All()[|ch.writeQueue|] == incoming[0];
      assert d[..k + 1] == d[..k] + [Bytes(incoming[0])];
    }

    /** One caller's send. */
    method ArriveOne(ghost d: seq<seq<byte>>, ghost past: seq<seq<byte>>)
      requires Valid() && Booked(d, past) && incoming != [] && |ch.writeQueue| < ch.queueCap
      modifies this`incoming, ch`writeQueue, ch`accepted
      ensures Valid() && Booked(d, past) && All() == old(All()) && |incoming| == |old(incoming)| - 1
    {
      hide BytePool.Valid;
      NextToCome();
      NextInBook(d, past);
      var pkt := incoming[0];
      ch.accepted := ch.accepted + [Bytes(pkt)];
      ch.writeQueue := ch.writeQueue + [pkt];
      incoming := incoming[1..];
    }

    /** The next entry of the schedule. */
    method NextTurn() returns (k: nat, taken: bool)
      modifies this`schedule
      ensures (taken ==> old(MayBeTaken())) && (MayBeTaken() ==> old(MayBeTaken()))
    {
      k, taken := 0, false;
      if schedule != [] {
        k, taken := schedule[0].0, schedule[0].1;
        schedule := schedule[1..];
      }
    }

    /** Other callers send as many packets as the schedule says, while there is room. */
    method Arrive(ghost d: seq<seq<byte>>, ghost past: seq<seq<byte>>) returns (taken: bool)
      requires Valid() && Booked(d, past)
      modifies this`incoming, this`schedule, ch`writeQueue, ch`accepted
      ensures Valid() && Booked(d, past) && All() == old(All())
      ensures |ch.writeQueue| >= |old(ch.writeQueue)| && GoesOn() && (taken ==> old(MayBeTaken()))
    {
      var k;
      k, taken := NextTurn();
      while k > 0 && incoming != [] && |ch.writeQueue| < ch.queueCap
        invariant Valid() && Booked(d, past) && All() == old(All())
        invariant |ch.writeQueue| >= |old(ch.writeQueue)| && GoesOn()
        decreases k
      {
        ghost var before := |incoming|;
        ArriveOne(d, past);
        assert |All()| == |ch.writeQueue| + |incoming|;
        k := k - 1;
      }
    }

    /** The same while `running` is idle: then a caller may also win it for another writer. */
    method ArriveIdle(ghost d: seq<seq<byte>>, ghost past: seq<seq<byte>>)
      requires Valid() && Booked(d, past)
      modifies this`incoming, this`schedule, ch`writeQueue, ch`accepted, ch`running
      ensures Valid() && Booked(d, past) && All() == old(All())
      ensures |ch.writeQueue| >= |old(ch.writeQueue)| && GoesOn()
      ensures (old(ch.running) ==> ch.running) && (ch.running ==> old(ch.running) || old(MayBeTaken()))
    {
      hide BytePool.Valid, Owned;
      var taken := Arrive(d, past);
      ch.running := ch.running || taken;
    }

    // -------------------------------------------------------------- polling

    method PollOne(n: nat, ghost d: seq<seq<byte>>, ghost past: seq<seq<byte>>)
      requires Valid() && Booked(d, past) && n < writeBuffers.Length && ch.writeQueue != []
      modifies ch`writeQueue, writeBuffers, recycleBuffers
      ensures Valid() && Booked(d, past) && All() == old(All())[1..]
      ensures writeBuffers[n] == recycleBuffers[n] == Some(old(All())[0])
      ensures forall j :: 0 <= j < n ==> writeBuffers[j] == old(writeBuffers[j]) && recycleBuffers[j] == old(recycleBuffers[j])
    {
      hide BytePool.Valid, HoldsLast, Owned;
      SlotsApart(All(), writeBuffers);
      SlotsApart(All(), recycleBuffers);
      OwnedDrop(All(), 1, ch.pool, d);
      assert All()[1..] == ch.writeQueue[1..] + incoming;
      var pkt := ch.writeQueue[0];
      ch.PollAway(1);
      writeBuffers[n] := Some(pkt);
      recycleBuffers[n] := Some(pkt);
    }

    /** Packets are polled into both buffers until these are full or the queue is empty. */
    method Poll(ghost d: seq<seq<byte>>, ghost past: seq<seq<byte>>) returns (n: nat)
      requires Valid() && Booked(d, past)
      modifies this`incoming, this`schedule, ch`writeQueue, ch`accepted, writeBuffers, recycleBuffers
      ensures Valid() && Booked(d, past) && n <= |old(All())| && n <= writeBuffers.Length
      ensures n == ch.queueCap / 2 + 1 || ch.writeQueue == []
      ensures All() == old(All())[n..] && (old(ch.writeQueue) != [] ==> n > 0) && GoesOn()
      ensures forall j :: 0 <= j < n ==> writeBuffers[j] == recycleBuffers[j] == Some(old(All())[j])
    {
      hide Writer.Booked, Channel.Valid, Owned, Transport.Faulty;
      ghost var q := All();
      n := 0;
      while n < writeBuffers.Length
        invariant n <= |q| && n <= writeBuffers.Length
        invariant Valid() && Booked(d, past) && All() == q[n..]
        invariant n == 0 ==> |ch.writeQueue| >= |old(ch.writeQueue)|
        invariant GoesOn()
        invariant forall j :: 0 <= j < n ==> writeBuffers[j] == recycleBuffers[j] == Some(q[j])
      {
        var _ := Arrive(d, past);
        if ch.writeQueue == [] {
          return;
        }
        PollOne(n, d, past);
        n := n + 1;
      }
    }

    // -------------------------------------------------------------- writing and recycling

    /** What a writer has in hand after polling: the first `n` of `q`, whose bytes are `d[w..w + n]`. */
    ghost predicate InHand(q: seq<Slice>, n: nat)
      reads this, ch, ch.pool, recycleBuffers
    {
      && n <= |q| && n <= recycleBuffers.Length && All() == q[n..]
      && Owned(q[..n], ch.pool) && Arrays(q[..n]) !! Arrays(All())
      && forall j :: 0 <= j < n ==> recycleBuffers[j] == Some(q[j])
    }

    /** What the book says of the packets not polled yet. */
    lemma StillToWrite(d: seq<seq<byte>>, past: seq<seq<byte>>)
      requires Valid() && Booked(d, past)
      ensures 0 < writeBuffers.Length == recycleBuffers.Length
      ensures Owned(All(), ch.pool) && AllSlices(All()) && |All()| <= |d|
      ensures forall j :: 0 <= j < |All()| ==> Bytes(All()[j]) == d[|d| - |All()| + j]
    {
    }

    /** A batch is polled; its bytes are the next ones. */
    method PollBatch(ghost d: seq<seq<byte>>, ghost past: seq<seq<byte>>) returns (n: nat)
      requires Valid() && Booked(d, past)
      modifies this`incoming, this`schedule, ch`writeQueue, ch`accepted, writeBuffers, recycleBuffers
      ensures Valid() && Booked(d, past) && InHand(old(All()), n)
      ensures (n == 0 ==> ch.writeQueue == []) && (old(ch.writeQueue) != [] ==> n > 0) && GoesOn()
      ensures forall j :: 0 <= j < n ==> writeBuffers[j] == recycleBuffers[j]
      ensures var w := |d| - |old(All())|; Joined(old(All())[..n]) == Concat(d[w..w + n])
    {
      hide Writer.Valid, Writer.Booked, HoldsLast, Concat, Joined;
      StillToWrite(d, past);
      ghost var q, w := All(), |d| - |All()|;
      SlotsApart(q, writeBuffers);
      SlotsApart(q, recycleBuffers);
      n := Poll(d, past);
      SplitQueue(q, n, ch.pool);
      assert forall j :: 0 <= j < n ==> Bytes(q[..n][j]) == d[w..w + n][j];
      JoinedIsConcat(q[..n], d[w..w + n]);
    }

    /** The batch in hand is written; on a failure some of it may be. */
    method SendBatch(n: nat, ghost q: seq<Slice>, ghost d: seq<seq<byte>>, ghost past: seq<seq<byte>>) returns (ok: bool)
      requires Valid() && Booked(d, past) && InHand(q, n)
      requires forall j :: 0 <= j < n ==> writeBuffers[j] == recycleBuffers[j]
      modifies transport, writeBuffers
      ensures Valid() && Booked(d, past) && InHand(q, n)
      ensures var sent := old(transport.out) + old(Joined(q[..n]));
        if ok then transport.out == sent else old(transport.out) <= transport.out && transport.out <= sent
      ensures (!ok ==> old(transport.Faulty())) && GoesOn()
    {
      hide Joined, Beginning;
      SlotsApart(All(), writeBuffers);
      SlotsApart(q[..n], writeBuffers);
      ghost var m, k;
      ok, m, k := transport.Writev(writeBuffers, n, q[..n]);
      BeginningIsPrefix(q[..n], m, k);
    }

    /** The first buffer of the batch goes back to the pool; the others, and the queue, keep theirs. */
    method GiveBack(buf: Slice, ghost left: seq<Slice>, ghost d: seq<seq<byte>>, ghost past: seq<seq<byte>>)
      requires Valid() && Booked(d, past) && left != [] && buf == left[0]
      requires Owned(left, ch.pool) && Arrays(left) !! Arrays(All())
      modifies ch.pool, ch.pool.pool.shards
      ensures Valid() && Booked(d, past) && Owned(left[1..], ch.pool) && Arrays(left[1..]) !! Arrays(All())
      ensures ch.pool.free == old(ch.pool.free) + {buf.data}
    {
      hide BytePool.Valid, HoldsLast;
      SplitQueue(left, 1, ch.pool);
      assert left[..1] == [buf];
      assert buf.data in Arrays(left) && buf.data !in Arrays(All());
      SplitQueue(All(), |ch.writeQueue|, ch.pool);
      assert All()[..|ch.writeQueue|] == ch.writeQueue;
      ch.pool.Put(buf.data);
    }

    /** The same, and its slots become nil. */
    method RecycleOne(i: nat, ghost left: seq<Slice>, ghost d: seq<seq<byte>>, ghost past: seq<seq<byte>>)
      requires Valid() && Booked(d, past) && left != [] && i < recycleBuffers.Length && recycleBuffers[i] == Some(left[0])
      requires Owned(left, ch.pool) && Arrays(left) !! Arrays(All())
      modifies ch.pool, ch.pool.pool.shards, writeBuffers, recycleBuffers
      ensures Valid() && Booked(d, past) && Owned(left[1..], ch.pool) && Arrays(left[1..]) !! Arrays(All())
      ensures ch.pool.free == old(ch.pool.free) + {left[0].data}
      ensures writeBuffers[..] == old(writeBuffers[..])[i := None] && recycleBuffers[..] == old(recycleBuffers[..])[i := None]
    {
      hide BytePool.Valid, HoldsLast, Owned;
      SlotsApart(All(), writeBuffers);
      SlotsApart(All(), recycleBuffers);
      SlotsApart(ch.writeQueue, writeBuffers);
      SlotsApart(ch.writeQueue, recycleBuffers);
      GiveBack(recycleBuffers[i].value, left, d, past);
      writeBuffers[i] := None;
      recycleBuffers[i] := None;
    }

    /** Every buffer of a written batch goes back to the pool, and its slots become nil. */
    method Recycle(n: nat, ghost batch: seq<Slice>, ghost d: seq<seq<byte>>, ghost past: seq<seq<byte>>)
      requires Valid() && Booked(d, past) && n == |batch| <= writeBuffers.Length == recycleBuffers.Length
      requires Owned(batch, ch.pool) && Arrays(batch) !! Arrays(All())
      requires forall j :: 0 <= j < n ==> recycleBuffers[j] == Some(batch[j])
      modifies ch.pool, ch.pool.pool.shards, writeBuffers, recycleBuffers
      ensures Valid() && Booked(d, past) && old(ch.pool.free) <= ch.pool.free
      ensures forall j :: 0 <= j < n ==> batch[j].data in ch.pool.free
      ensures forall j :: 0 <= j < n ==> writeBuffers[j] == recycleBuffers[j] == None
    {
      hide Writer.Valid, Writer.Booked, Owned, Arrays;
      assert batch[0..] == batch;
      for i := 0 to n
        invariant Valid() && Booked(d, past) && old(ch.pool.free) <= ch.pool.free
        invariant Owned(batch[i..], ch.pool) && Arrays(batch[i..]) !! Arrays(All())
        invariant forall j :: 0 <= j < i ==> batch[j].data in ch.pool.free
        invariant forall j :: 0 <= j < i ==> writeBuffers[..][j] == recycleBuffers[..][j] == None
        invariant forall j :: i <= j < n ==> recycleBuffers[..][j] == Some(batch[j])
      {
        assert batch[i..][1..] == batch[i + 1..];
        RecycleOne(i, batch[i..], d, past);
      }
      assert forall j :: 0 <= j < n ==> writeBuffers[j] == writeBuffers[..][j] && recycleBuffers[j] == recycleBuffers[..][j];
    }

    // -------------------------------------------------------------- the loop

    /** How far a writer has come: the first `w` of `t`, whose bytes are `d`, are written and given back. */
    ghost predicate WrittenUpTo(t: seq<Slice>, d: seq<seq<byte>>, w: nat, out: seq<byte>)
      reads this, ch, ch.pool, transport
    {
      && w <= |t| == |d| && All() == t[w..]
      && transport.out == out + Concat(d[..w])
      && forall i :: 0 <= i < w ==> t[i].data in ch.pool.free
    }

    /** The bookkeeping of `Recycle` among all packets. */
    method RecycleBatch(ghost t: seq<Slice>, ghost w: nat, n: nat, ghost d: seq<seq<byte>>, ghost past: seq<seq<byte>>)
      requires Valid() && Booked(d, past) && w + n <= |t| && InHand(t[w..], n)
      requires forall i :: 0 <= i < w ==> t[i].data in ch.pool.free
      modifies ch.pool, ch.pool.pool.shards, writeBuffers, recycleBuffers
      ensures Valid() && Booked(d, past) && forall i :: 0 <= i < w + n ==> t[i].data in ch.pool.free
    {
      ghost var batch := t[w..][..n];
      Recycle(n, batch, d, past);
      forall i | w <= i < w + n ensures t[i].data in ch.pool.free {
        assert batch[i - w] == t[i];
      }
    }

    /** The batch in hand is written and recycled, or written in part. */
    method FinishBatch(n: nat, ghost t: seq<Slice>, ghost d: seq<seq<byte>>, ghost past: seq<seq<byte>>, ghost w: nat, ghost out: seq<byte>)
      returns (ok: bool)
      requires Valid() && Booked(d, past) && w + n <= |t| == |d| && InHand(t[w..], n)
      requires forall j :: 0 <= j < n ==> writeBuffers[j] == recycleBuffers[j]
      requires Joined(t[w..][..n]) == Concat(d[w..w + n]) && transport.out == out + Concat(d[..w])
      requires forall i :: 0 <= i < w ==> t[i].data in ch.pool.free
      modifies ch.pool, ch.pool.pool.shards, transport, writeBuffers, recycleBuffers
      ensures Valid() && Booked(d, past) && (!ok ==> old(transport.Faulty())) && GoesOn()
      ensures if ok then WrittenUpTo(t, d, w + n, out)
              else out <= transport.out && transport.out <= out + Concat(d[..w + n])
    {
      hide Writer.Valid, Writer.Booked, Joined, Concat, Writer.MayBeTaken, Transport.Faulty;
      PrefixConcat(d, w, w + n);
      ConcatAssoc(out, Concat(d[..w]), Concat(d[w..w + n]));
      assert t[w..][n..] == t[w + n..];
      ok := SendBatch(n, t[w..], d, past);
      if ok {
        RecycleBatch(t, w, n, d, past);
      }
    }

    /** One round of the loop: a batch is polled, written and recycled. */
    method WriteBatch(ghost t: seq<Slice>, ghost d: seq<seq<byte>>, ghost past: seq<seq<byte>>, ghost w: nat, ghost out: seq<byte>)
      returns (n: nat, ok: bool)
      requires Valid() && Booked(d, past) && WrittenUpTo(t, d, w, out)
      modifies this`incoming, this`schedule, ch`writeQueue, ch`accepted, ch.pool, ch.pool.pool.shards
      modifies transport, writeBuffers, recycleBuffers
      ensures Valid() && Booked(d, past) && w + n <= |t| == |d| && All() == t[w + n..]
      ensures (n == 0 ==> ok && ch.writeQueue == []) && (old(ch.writeQueue) != [] ==> n > 0)
      ensures (!ok ==> old(transport.Faulty())) && GoesOn()
      ensures if ok then WrittenUpTo(t, d, w + n, out)
              else out <= transport.out && transport.out <= out + Concat(d[..w + n])
    {
      hide Writer.Valid, Writer.Booked, Concat, Joined;
      n := PollBatch(d, past);
      ok := true;
      assert t[w..][n..] == t[w + n..];
      if n > 0 {
        ok := FinishBatch(n, t, d, past, w, out);
      }
    }

    /** The flush: only after the queue was found empty. */
    method FlushOut(ghost t: seq<Slice>, ghost d: seq<seq<byte>>, ghost past: seq<seq<byte>>, ghost w: nat, ghost out: seq<byte>)
      returns (ok: bool)
      requires Valid() && Booked(d, past) && WrittenUpTo(t, d, w, out) && ch.writeQueue == []
      modifies transport
      ensures Valid() && Booked(d, past) && WrittenUpTo(t, d, w, out)
      ensures ok ==> transport.flushed == |transport.out|
      ensures (!ok ==> old(transport.Faulty())) && GoesOn()
    {
      ok := transport.Flush();
    }

    /** The store of idle. */
    method StoreIdle(ghost d: seq<seq<byte>>, ghost past: seq<seq<byte>>)
      requires Valid() && Booked(d, past)
      modifies ch`running
      ensures Valid() && Booked(d, past) && All() == old(All()) && !ch.running
    {
      ch.running := false;
    }

    /** The writer's compare-and-swap. */
    method TakeAgain(ghost d: seq<seq<byte>>, ghost past: seq<seq<byte>>) returns (won: bool)
      requires Valid() && Booked(d, past)
      modifies ch`running
      ensures Valid() && Booked(d, past) && All() == old(All()) && ch.running && (won <==> !old(ch.running))
    {
      won := !ch.running;
      if won {
        ch.running := true;
      }
    }

    /** The second half of a round: the flush, the store of idle, and the double check that may lead to another round. */
    method FlushAndLeave(ghost t: seq<Slice>, ghost d: seq<seq<byte>>, ghost past: seq<seq<byte>>, ghost w: nat, ghost out: seq<byte>)
      returns (ok: bool, again: bool)
      requires Valid() && Booked(d, past) && WrittenUpTo(t, d, w, out) && ch.writeQueue == []
      modifies this`incoming, this`schedule, ch`writeQueue, ch`accepted, ch`running, transport
      ensures Valid() && Booked(d, past) && WrittenUpTo(t, d, w, out) && GoesOn()
      ensures again ==> ok && ch.running && ch.writeQueue != []
      ensures !again && ok ==> transport.flushed == |transport.out| && (ch.running || ch.writeQueue == [])
      ensures !ok ==> !ch.running && old(transport.Faulty())
      ensures !again && ch.running ==> old(MayBeTaken())
    {
      hide Writer.Valid, Writer.Booked, Concat, Arrays, AllSlices;
      again := false;
      ok := FlushOut(t, d, past, w, out);
      StoreIdle(d, past);
      if !ok {
        return;
      }
      // double check
      ArriveIdle(d, past);
      if |ch.writeQueue| > 0 {
        ArriveIdle(d, past);
        again := TakeAgain(d, past);
      }
    }

    /** The loop of `writeOnce`, in terms of the book; `w` packets were written (in part, when it fails). */
    method Loop(ghost t: seq<Slice>, ghost d: seq<seq<byte>>, ghost past: seq<seq<byte>>, ghost out: seq<byte>)
      returns (ok: bool, ghost w: nat)
      requires Valid() && ch.running && Booked(d, past) && WrittenUpTo(t, d, 0, out)
      modifies this`incoming, this`schedule, ch`writeQueue, ch`accepted, ch`running, ch.pool, ch.pool.pool.shards
      modifies transport, writeBuffers, recycleBuffers
      ensures Valid() && Booked(d, past) && GoesOn() && w <= |t| == |d| && All() == t[w..]
      ensures ok ==> WrittenUpTo(t, d, w, out) && transport.flushed == |transport.out| && (ch.running || ch.writeQueue == [])
      ensures !ok ==> !ch.running && out <= transport.out && transport.out <= out + Concat(d[..w])
      ensures (!ok ==> old(transport.Faulty())) && (ch.running ==> old(MayBeTaken()))
    {
      hide Writer.Valid, Writer.Booked, Concat, Arrays, AllSlices;
      w := 0;
      while true
        invariant Valid() && ch.running && Booked(d, past) && WrittenUpTo(t, d, w, out)
        invariant GoesOn()
        decreases |t| - w, if ch.writeQueue == [] then 1 else 0
      {
        var n;
        n, ok := WriteBatch(t, d, past, w, out);
        w := w + n;
        if !ok {
          StoreIdle(d, past);
          return;
        }
        if n > 0 {
          var _ := Arrive(d, past);
          if |ch.writeQueue| > 0 {
            continue;
          }
        }
        var again;
        ok, again := FlushAndLeave(t, d, past, w, out);
        if !again {
          return;
        }
      }
    }

    /** At first the book holds the bytes of everything in the queue and still to come. */
    lemma BookOpens(d: seq<seq<byte>>, past: seq<seq<byte>>)
      requires Valid() && d == BytesOf(All())
      requires past == ch.accepted[..|ch.accepted| - |ch.writeQueue|]
      ensures Booked(d, past)
    {
      assert HoldsLast(ch.writeQueue, ch.accepted) && AllSlices(ch.writeQueue) && AllSlices(All());
      hide BytePool.Valid, BytesOf, HoldsLast, Channel.Valid, Owned;
      BytesHold(All());
      QueuedBytes(ch.writeQueue, incoming, ch.accepted, d);
      assert |d| - |incoming| == |ch.writeQueue|;
    }

    lemma NothingWritten(d: seq<seq<byte>>)
      requires |d| == |All()|
      ensures WrittenUpTo(All(), d, 0, transport.out)
    {
    }

    lemma Opening() returns (d: seq<seq<byte>>, past: seq<seq<byte>>)
      requires Valid()
      ensures |ch.writeQueue| <= |ch.accepted| && |past| == |ch.accepted| - |ch.writeQueue|
      ensures |incoming| <= |d| && ch.accepted == past + d[..|d| - |incoming|]
      ensures Booked(d, past) && WrittenUpTo(All(), d, 0, transport.out)
    {
      d, past := BytesOf(All()), ch.accepted[..|ch.accepted| - |ch.writeQueue|];
      BookOpens(d, past);
      NothingWritten(d);
    }

    twostate lemma StillValid()
      requires old(Valid()) && Valid()
      ensures old(ch.Valid()) && ch.Valid()
    {
    }

    /** What the book says in terms of the accepted packets. */
    lemma BookCloses(t: seq<Slice>, d: seq<seq<byte>>, past: seq<seq<byte>>, w: nat, before: nat)
      requires Valid() && Booked(d, past) && w <= |t| == |d| && All() == t[w..] && |incoming| <= before <= |d|
      ensures |past| + w == |ch.accepted| - |ch.writeQueue|
      ensures ch.accepted[|past|..|ch.accepted| - |ch.writeQueue|] == d[..w]
      ensures Concat(d[..w]) <= Concat(ch.accepted[|past|..])
      ensures past + d[..|d| - before] <= ch.accepted
    {
      var p := |d| - |incoming|;
      assert |All()| == |ch.writeQueue| + |incoming|;
      assert ch.accepted[|past|..] == d[..p];
      assert ch.accepted[|past|..|past| + w] == d[..p][..w] == d[..w];
      PrefixConcat(d, w, p);
    }

    /**
     `writeOnce`. Either the transport fails (false: the panic, after which the channel is closed): `running` is
     idle and only a beginning of the accepted bytes was written. Or everything accepted since the first packet
     of the queue, but for what is in the queue now, was written in order and flushed, and its buffers given
     back; and what is in the queue now is looked after: it is empty, or another writer holds `running`.
     */
    method WriteOnce() returns (ok: bool)
      requires Valid() && ch.running
      modifies this`incoming, this`schedule, ch`writeQueue, ch`accepted, ch`running, ch.pool, ch.pool.pool.shards
      modifies transport, writeBuffers, recycleBuffers
      ensures Valid() && |old(ch.accepted)| - |old(ch.writeQueue)| <= |ch.accepted| - |ch.writeQueue|
      ensures old(ch.accepted) <= ch.accepted
      ensures var from := |old(ch.accepted)| - |old(ch.writeQueue)|;
        ok ==> transport.out == old(transport.out) + Concat(ch.accepted[from..|ch.accepted| - |ch.writeQueue|])
      ensures ok ==> transport.flushed == |transport.out| && (ch.running || ch.writeQueue == [])
      ensures var from := |old(ch.accepted)| - |old(ch.writeQueue)|;
        !ok ==> old(transport.out) <= transport.out && transport.out <= old(transport.out) + Concat(ch.accepted[from..])
      ensures !ok ==> !ch.running && old(transport.Faulty())
      ensures ch.running ==> old(MayBeTaken())
      ensures ok ==> forall i :: 0 <= i < |old(All())| - |All()| ==> old(All())[i].data in ch.pool.free
      ensures Leads(old(ch.AsLedger()), ch.AsLedger())
    {
      hide Leads, Writer.Valid, Writer.Booked, Channel.Valid, BytePool.Valid, HoldsLast, Owned, Concat;
      ghost var t, out, before := All(), transport.out, |incoming|;
      ghost var d, past := Opening();
      ghost var w;
      ok, w := Loop(t, d, past, out);
      BookCloses(t, d, past, w, before);
      if !ok {
        Between(out, transport.out, Concat(d[..w]), Concat(ch.accepted[|past|..]));
      }
      StillValid();
      ch.LedgerFollows();
    }
  }

  lemma BytesHold(q: seq<Slice>)
    requires AllSlices(q)
    ensures HoldsLast(q, BytesOf(q))
  {
  }

  lemma QueuedBytes(q: seq<Slice>, more: seq<Slice>, accepted: seq<seq<byte>>, d: seq<seq<byte>>)
    requires AllSlices(q) && AllSlices(q + more) && d == BytesOf(q + more) && HoldsLast(q, accepted)
    ensures accepted == accepted[..|accepted| - |q|] + d[..|q|]
  {
  }
}
