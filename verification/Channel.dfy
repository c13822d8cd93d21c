/**
 One call of the asynchronous channel at a time, on its own fields and buffers: what a producer's calls put
 in the queue, and what one writer does with a queue. (How calls interleave is the subject of `WriteLoop`.)
 The rest of the world acts through `world`: the writer's polls between sends, cancellation, and the pool's choices.
 */
module Channels {
  import opened Common
  import opened Slices
  import opened PowersOfTwo
  import opened Pools
  import opened Streams
  import opened Ledgers

  const MIN_READ: nat := 1024

  datatype Error = Nil | NoSpace | CloseError | ShortWrite | CallerDone | ReaderError

  /** What a call gives back, or that it panicked. */
  datatype Outcome = Returned(n: nat, err: Error) | Panicked

  /**
   What happens around one send: how many packets the writer polls first, whether the channel's context is
   done by then (and the channel closed), and whether a `select` that can also send prefers to see that; the same
   of the caller's own context.
   */
  datatype Turn = Turn(polled: nat, cancelled: bool, closed: bool, preferred: bool, callerDone: bool, callerPreferred: bool)

  /** Slices that were taken from the pool and not given back, no two of the same array. */
  ghost predicate Owned(q: seq<Slice>, pool: BytePool)
    reads pool
  {
    && AllSlices(q)
    && (forall i :: 0 <= i < |q| ==> q[i].data in pool.made && q[i].data !in pool.free)
    && (forall i, j :: 0 <= i < j < |q| ==> q[i].data != q[j].data)
  }

  /** A slice from the pool that is in nobody else's hands. */
  ghost predicate Spare(s: Slice, q: seq<Slice>, pool: BytePool)
    reads pool
  {
    IsSlice(s) && s.data in pool.made && s.data !in pool.free && s.data !in Arrays(q)
  }

  lemma OwnedSnoc(q: seq<Slice>, s: Slice, pool: BytePool)
    requires Owned(q, pool) && Spare(s, q, pool)
    ensures Owned(q + [s], pool) && Arrays(q + [s]) == Arrays(q) + {s.data}
  {
    var r := q + [s];
    forall i | 0 <= i < |r| ensures IsSlice(r[i]) && r[i].data in Arrays(q) + {s.data} {
      if i < |q| { assert q[i].data in Arrays(q); }
    }
    assert forall d :: d in Arrays(q) + {s.data} ==> d in Arrays(r) by {
      assert r[|q|] == s;
      forall d | d in Arrays(q) ensures d in Arrays(r) {
        var i :| 0 <= i < |q| && q[i].data == d;
        assert r[i].data == d;
      }
    }
  }

  /** The queue holds the packets accepted last. */
  ghost predicate HoldsLast(q: seq<Slice>, accepted: seq<seq<byte>>)
    requires AllSlices(q)
    reads Arrays(q)
  {
    |q| <= |accepted| && forall i :: 0 <= i < |q| ==> Bytes(q[i]) == accepted[|accepted| - |q| + i]
  }

  lemma OwnedDrop(q: seq<Slice>, k: nat, pool: BytePool, accepted: seq<seq<byte>>)
    requires Owned(q, pool) && k <= |q| && HoldsLast(q, accepted)
    ensures Owned(q[k..], pool) && Arrays(q[k..]) <= Arrays(q)
    ensures HoldsLast(q[k..], accepted)
  {
  }

  lemma HoldsLastSnoc(q: seq<Slice>, s: Slice, pool: BytePool, accepted: seq<seq<byte>>)
    requires Owned(q, pool) && Spare(s, q, pool) && HoldsLast(q, accepted)
    ensures Owned(q + [s], pool) && HoldsLast(q + [s], accepted + [Bytes(s)])
  {
  }

  /** `CountOf`: the length of the slices together. */
  method CountOf(buffs: seq<Slice>) returns (n: nat)
    requires AllSlices(buffs)
    ensures n == |Joined(buffs)|
  {
    n := 0;
    for i := 0 to |buffs|
      invariant n == |Joined(buffs[..i])|
    {
      assert buffs[..i + 1][..i] == buffs[..i];
      n := n + buffs[i].len;
    }
    assert buffs[..|buffs|] == buffs;
  }

  /** The loop of `asyncWritev`: every copy fits when the buffer has room for all the pieces. */
  method GatherInto(b: array<byte>, p: seq<Slice>) returns (offset: nat)
    requires AllSlices(p) && b !in Arrays(p) && |Joined(p)| <= b.Length
    modifies b
    ensures offset == |Joined(p)| && b[..offset] == Joined(p)
  {
    hide Joined;
    ghost var all := Joined(p);
    ghost var js := Progress(p);
    offset := 0;
    for i := 0 to |p|
      modifies b
      invariant offset <= b.Length && js[i] == b[..offset]
    {
      assert p[i].data in Arrays(p);
      assert js[i + 1] == js[i] + old(Bytes(p[i])) && js[i + 1] <= all;
      CopyTo(b, offset, p[i]);
      assert b[..offset + p[i].len] == b[..offset] + b[offset..offset + p[i].len];
      offset := offset + p[i].len;
    }
  }

  /** The packets accepted after the first `k` bring the bytes `data` in pieces of at most `MIN_READ`. */
  ghost predicate Brought(accepted: seq<seq<byte>>, k: nat, data: seq<byte>)
  {
    && k <= |accepted| && Concat(accepted[k..]) == data
    && forall i :: k <= i < |accepted| ==> 1 <= |accepted[i]| <= MIN_READ
  }

  lemma BroughtNone(accepted: seq<seq<byte>>)
    ensures Brought(accepted, |accepted|, [])
  {
  }

  lemma BroughtMore(before: seq<seq<byte>>, k: nat, data: seq<byte>, piece: seq<byte>)
    requires Brought(before, k, data) && 1 <= |piece| <= MIN_READ
    ensures Brought(before + [piece], k, data + piece)
  {
    assert (before + [piece])[k..] == before[k..] + [piece];
    ConcatSnoc(before[k..], piece);
  }

  /** A caller's own context. The background context is never done. */
  class Context {
    const background: bool
    var done: bool

    constructor (background: bool)
      ensures this.background == background && !done
    {
      this.background := background;
      done := false;
    }
  }

  /** The turns after the next one. */
  function Next(world: seq<Turn>): (w: seq<Turn>)
  {
    if world == [] then [] else world[1..]
  }

  class Channel {
    const queueCap: nat
    const untilWrite: bool
    const pool: BytePool
    var writeQueue: seq<Slice>
    var running: bool
    var closeErr: Error
    var done: bool
    var spawned: nat
    var world: seq<Turn>
    var choices: seq<nat>
    /** The bytes of every packet that was put in the queue so far. */
    ghost var accepted: seq<seq<byte>>

    /** The queue holds the last accepted packets, in buffers that belong to nobody else. */
    ghost predicate Valid()
      reads this, pool, pool.pool.shards, Arrays(writeQueue)
    {
      && queueCap > 0 && |writeQueue| <= queueCap
      && pool.Valid() && Owned(writeQueue, pool) && HoldsLast(writeQueue, accepted)
    }

    constructor (queueCap: nat, untilWrite: bool, pool: BytePool, world: seq<Turn>, choices: seq<nat>)
      requires queueCap > 0 && pool.Valid()
      ensures Valid() && this.pool == pool && accepted == [] && !running && closeErr == Nil
    {
      this.queueCap := queueCap;
      this.untilWrite := untilWrite;
      this.pool := pool;
      this.world, this.choices := world, choices;
      writeQueue, running, closeErr, done, spawned := [], false, Nil, false, 0;
      accepted := [];
    }

    /** The writer polls `k` packets. */
    method PollAway(k: nat)
      requires Valid() && k <= |writeQueue|
      modifies this`writeQueue
      ensures Valid() && writeQueue == old(writeQueue)[k..] && Arrays(writeQueue) <= old(Arrays(writeQueue))
    {
      OwnedDrop(writeQueue, k, pool, accepted);
      writeQueue := writeQueue[k..];
    }

    /** The channel's context is done, or is going to be. */
    ghost predicate MayEnd()
      reads this
    {
      done || exists i :: 0 <= i < |world| && world[i].cancelled
    }

    /** The caller's own context is going to be done. */
    ghost predicate MayLeave()
      reads this
    {
      exists i :: 0 <= i < |world| && world[i].callerDone
    }

    /** The channel as a queue, a record and a flag. */
    ghost function AsLedger(): Ledger
      requires AllSlices(writeQueue)
      reads this, Arrays(writeQueue)
    {
      Ledger(queueCap, BytesOf(writeQueue), accepted, running)
    }

    lemma LedgerIsProper()
      requires Valid()
      ensures Proper(AsLedger())
    {
    }

    /** What was accepted stays, and what has left the queue does not come back. */
    twostate predicate Onwards()
      reads this
    {
      old(accepted) <= accepted && old(|accepted| - |writeQueue|) <= |accepted| - |writeQueue|
    }

    /** Then the channel has done nothing but the moves of a ledger. */
    twostate lemma LedgerFollows()
      requires old(Valid()) && Valid() && Onwards()
      ensures Leads(old(AsLedger()), AsLedger())
    {
      LedgerIsProper();
      assert old(Proper(AsLedger())) by { LedgerWasProper(); }
      LeadsIff(old(AsLedger()), AsLedger());
    }

    twostate lemma LedgerWasProper()
      requires old(Valid())
      ensures old(Proper(AsLedger()))
    {
    }

    /** A call that nobody interferes with is one packet put and the flag raised. */
    twostate lemma CallIsCalled(data: seq<byte>)
      requires old(Valid()) && Valid() && accepted == old(accepted) + [data] && |writeQueue| == old(|writeQueue|) + 1 && running
      ensures AsLedger() == Called(old(AsLedger()), data)
    {
      hide Proper;
      LedgerIsProper();
      LedgerWasProper();
      CalledIs(old(AsLedger()), AsLedger(), data);
    }

    /** Time goes on: nothing is undone, no cancellation comes from nowhere, and `Close` sets its error once done. */
    twostate predicate GoesOn()
      reads this
    {
      && Onwards()
      && (old(done) ==> done) && (MayEnd() ==> old(MayEnd())) && (MayLeave() ==> old(MayLeave()))
      && (closeErr == old(closeErr) || (done && closeErr == CloseError))
    }

    /**
     The world takes its turn: the writer polls, the context may be cancelled. In the end the writer polls
     whatever is left.
     */
    method Yield(ctx: Context) returns (t: Turn)
      requires Valid()
      modifies this`writeQueue, this`done, this`closeErr, this`world, ctx`done
      ensures Valid() && Arrays(writeQueue) <= old(Arrays(writeQueue)) && GoesOn() && Patient(ctx)
      ensures world == Next(old(world)) && t == old(UpNext())
      ensures |writeQueue| == |old(writeQueue)| - Min(t.polled, |old(writeQueue)|)
    {
      hide BytePool.Valid, Owned;
      t := NextTurn();
      ctx.done := ctx.done || (t.callerDone && !ctx.background);
      PollAway(Min(t.polled, |writeQueue|));
    }

    /** The world's next turn. */
    function UpNext(): (t: Turn)
      reads this
    {
      if world == [] then Turn(|writeQueue|, false, false, false, false, false) else world[0]
    }

    /** What the world does next. */
    method NextTurn() returns (t: Turn)
      modifies this`done, this`closeErr, this`world
      ensures GoesOn()
      ensures world == Next(old(world)) && t == old(UpNext()) && (t.callerDone ==> old(MayLeave()))
    {
      t := UpNext();
      world := Next(world);
      done := done || t.cancelled;
      closeErr := if t.cancelled && t.closed then CloseError else closeErr;
    }

    /** The call took no more than one turn. */
    twostate predicate AtOnce()
      reads this
    {
      world == old(world) || world == Next(old(world))
    }

    /** A caller waits only with `untilWrite`, for a queue that is full, and while no context is done. */
    twostate predicate WaitsOnlyIfFull(ctx: Context)
      reads this, ctx
    {
      !untilWrite || old(|writeQueue| < queueCap || done || ctx.done) ==> AtOnce()
    }

    /** Blocks while the queue is full, until there is room or a context is done. */
    method WaitForRoom(ctx: Context) returns (t: Turn)
      requires Valid()
      modifies this`writeQueue, this`done, this`closeErr, this`world, ctx`done
      ensures Valid() && Arrays(writeQueue) <= old(Arrays(writeQueue)) && GoesOn() && Patient(ctx)
      ensures untilWrite ==> |writeQueue| < queueCap || done || ctx.done
      ensures WaitsOnlyIfFull(ctx) && (AtOnce() || |writeQueue| + t.polled >= queueCap)
    {
      t := Yield(ctx);
      if untilWrite {
        while |writeQueue| == queueCap && !done && !ctx.done
          invariant Valid() && Arrays(writeQueue) <= old(Arrays(writeQueue)) && GoesOn() && Patient(ctx)
          invariant WaitsOnlyIfFull(ctx) && (AtOnce() || |writeQueue| + t.polled >= queueCap)
          decreases |world|, |writeQueue|
        {
          t := Yield(ctx);
        }
      }
    }

    /** The caller's context stays done, and is not done from nowhere. */
    twostate predicate Patient(ctx: Context)
      reads this, ctx
    {
      && (old(ctx.done) ==> ctx.done)
      && (ctx.done ==> old(ctx.done) || (!ctx.background && old(MayLeave())))
    }

    /** Why a packet is not sent: there is no space, and nothing else to report, or the channel's context is done. */
    ghost predicate Refused(err: Error)
      reads this
    {
      || (done && err == closeErr)
      || (err == NoSpace && !untilWrite && |writeQueue| == queueCap && !done)
    }

    /** The same for a caller with a context of its own. */
    ghost predicate Refusal(err: Error, ctx: Context)
      reads this, ctx
    {
      || (done && err == closeErr)
      || (ctx.done && err == CallerDone)
      || (err == NoSpace && !untilWrite && |writeQueue| == queueCap && !done && !ctx.done)
    }

    /** The channel does not take packets at the moment. */
    ghost predicate Stopped()
      reads this
    {
      done || closeErr != Nil || (!untilWrite && |writeQueue| == queueCap)
    }

    /**
     The `select` that puts a packet in the queue: it is either accepted, or the error says why not. A full
     queue refuses at once, unless a context is done, or (`untilWrite`) blocks until there is room or a context is done.
     */
    method Send(pkt: Slice, ctx: Context) returns (sent: bool, err: Error)
      requires Valid() && Spare(pkt, writeQueue, pool)
      modifies this`writeQueue, this`done, this`closeErr, this`world, this`accepted, ctx`done
      ensures Valid() && Arrays(writeQueue) <= old(Arrays(writeQueue)) + {pkt.data}
      ensures sent ==> err == Nil && accepted == old(accepted) + [Bytes(pkt)]
      ensures !sent ==> accepted == old(accepted) && Refusal(err, ctx)
      ensures GoesOn() && Patient(ctx) && WaitsOnlyIfFull(ctx)
    {
      hide BytePool.Valid, Owned, HoldsLast;
      var t := WaitForRoom(ctx);
      var full := |writeQueue| == queueCap;
      if ctx.done && (t.callerPreferred || (full && !done)) {
        return false, CallerDone;
      }
      if done && (t.preferred || full) {
        return false, closeErr;
      }
      if full {
        return false, NoSpace;
      }
      OwnedSnoc(writeQueue, pkt, pool);
      HoldsLastSnoc(writeQueue, pkt, pool, accepted);
      writeQueue := writeQueue + [pkt];
      accepted := accepted + [Bytes(pkt)];
      return true, Nil;
    }

    /** The compare-and-swap that follows a successful send. */
    method TrySend()
      modifies this`running, this`spawned
      ensures running && spawned == old(spawned) + (if old(running) then 0 else 1)
    {
      if !running {
        running := true;
        spawned := spawned + 1;
      }
    }

    /** `running` is set as soon as anything is accepted, and a writer is spawned exactly when it was not set before. */
    twostate predicate Wakes()
      reads this
    {
      && |accepted| >= |old(accepted)| && running == (old(running) || |accepted| > |old(accepted)|)
      && spawned == old(spawned) + (if running && !old(running) then 1 else 0)
    }

    /** Nothing the queue depends on changes when the pool lends out or fills a slice that was free. */
    twostate lemma QueueUntouched(new b: array<byte>)
      requires old(Valid()) && pool.Valid()
      requires pool.made == old(pool.made) + {b} && pool.free == old(pool.free) - {b}
      requires b in old(pool.free) || fresh(b)
      requires writeQueue == old(writeQueue) && accepted == old(accepted)
      requires forall d :: d in Arrays(writeQueue) ==> d[..] == old(d[..])
      ensures Valid() && b !in Arrays(writeQueue)
    {
    }

    /** The pool panics when it is asked for that many bytes. */
    ghost predicate TooLarge(n: nat) { n > pool.pool.stepSize && n > HEAD_BIT }

    /** A copy of the slice in a buffer from the pool; null is the pool's panic. The buffer always has room. */
    method Clone(p: Slice, pick: nat) returns (b: array?<byte>)
      requires Valid() && IsSlice(p) && p.data !in pool.free
      modifies pool, pool.pool.shards, pool.free
      ensures b == null ==> Valid() && pool.free == old(pool.free)
      ensures b == null <==> TooLarge(p.len)
      ensures b != null ==> pool.free == old(pool.free) - {b} && (b in old(pool.free) || fresh(b))
      ensures b != null ==> Valid() && Spare(Front(b, p.len), writeQueue, pool) && b[..p.len] == old(Bytes(p))
      ensures b != null ==> forall d :: d in old(pool.free) && d != b ==> d[..] == old(d[..])
    {
      b := pool.Get(p.len, pick);
      if b == null {
        return;
      }
      CopyTo(b, 0, p);
      assert b[..p.len] == b[0..0 + p.len];
      QueueUntouched(b);
    }

    /** The end of `asyncWrite` and `asyncWritev`: the `select`, and after a send the compare-and-swap. */
    method Enqueue(pkt: Slice, ctx: Context) returns (r: Outcome)
      requires Valid() && Spare(pkt, writeQueue, pool)
      modifies this`writeQueue, this`done, this`closeErr, this`world, this`accepted, this`running, this`spawned, ctx`done
      ensures Valid() && Arrays(writeQueue) <= old(Arrays(writeQueue)) + {pkt.data} && GoesOn() && Wakes() && Patient(ctx) && WaitsOnlyIfFull(ctx)
      ensures r.Returned?
      ensures if accepted == old(accepted) then r.n == 0 && Refusal(r.err, ctx)
              else accepted == old(accepted) + [Bytes(pkt)] && r == Returned(pkt.len, Nil)
    {
      hide BytePool.Valid, HoldsLast, Owned;
      var sent, err := Send(pkt, ctx);
      if !sent {
        return Returned(0, err);
      }
      TrySend();
      return Returned(pkt.len, Nil);
    }

    /** `asyncWrite`: a pooled slice, or a copy of the caller's bytes in one, is sent. */
    method AsyncWrite(p: Slice, clone: bool, pick: nat, ctx: Context) returns (r: Outcome)
      requires Valid() && IsSlice(p)
      requires if clone then p.data !in pool.free else Spare(p, writeQueue, pool)
      modifies this, pool, pool.pool.shards, pool.free, ctx`done
      ensures Valid() && pool.free <= old(pool.free)
      ensures (r == Panicked <==> clone && TooLarge(p.len)) && (r == Panicked ==> accepted == old(accepted))
      ensures r.Returned? && accepted != old(accepted) ==>
        accepted == old(accepted) + [old(Bytes(p))] && r == Returned(p.len, Nil)
      ensures r.Returned? && accepted == old(accepted) ==> r.n == 0 && Refusal(r.err, ctx)
      ensures GoesOn() && Wakes() && Patient(ctx) && WaitsOnlyIfFull(ctx)
      ensures forall d :: d in Arrays(writeQueue) ==>
        d in old(Arrays(writeQueue)) || (if clone then d in old(pool.free) || fresh(d) else d == p.data)
    {
      var packet := p;
      if clone {
        var b := Clone(p, pick);
        if b == null {
          return Panicked;
        }
        packet := Front(b, p.len);
      }
      r := Enqueue(packet, ctx);
    }

    /** The pieces one after the other in one buffer from the pool; null is the pool's panic. */
    method Gather(p: seq<Slice>, pick: nat) returns (b: array?<byte>, offset: nat)
      requires Valid() && AllSlices(p) && Arrays(p) !! pool.free && |Joined(p)| < 2 * HEAD_BIT
      modifies pool, pool.pool.shards, pool.free
      ensures b == null ==> Valid() && pool.free == old(pool.free)
      ensures b == null <==> TooLarge(|old(Joined(p))|)
      ensures b != null ==> pool.free == old(pool.free) - {b} && (b in old(pool.free) || fresh(b))
      ensures b != null ==> Valid() && Spare(Front(b, offset), writeQueue, pool) && b[..offset] == old(Joined(p))
    {
      hide Joined, BytePool.Valid;
      var dataLen := CountOf(p);
      b := pool.Get(dataLen, pick);
      offset := 0;
      if b == null {
        return;
      }
      offset := GatherInto(b, p);
      QueueUntouched(b);
    }

    /** `asyncWritev`: all the pieces are sent as one packet. */
    method AsyncWritev(p: seq<Slice>, pick: nat, ctx: Context) returns (r: Outcome)
      requires Valid() && AllSlices(p) && Arrays(p) !! pool.free && |Joined(p)| < 2 * HEAD_BIT
      modifies this, pool, pool.pool.shards, pool.free, ctx`done
      ensures Valid() && pool.free <= old(pool.free)
      ensures (r == Panicked <==> TooLarge(|old(Joined(p))|)) && (r == Panicked ==> accepted == old(accepted))
      ensures r.Returned? && accepted != old(accepted) ==>
        accepted == old(accepted) + [old(Joined(p))] && r == Returned(|old(Joined(p))|, Nil)
      ensures r.Returned? && accepted == old(accepted) ==> r.n == 0 && Refusal(r.err, ctx)
      ensures GoesOn() && Wakes() && Patient(ctx) && WaitsOnlyIfFull(ctx)
    {
      var b, offset := Gather(p, pick);
      if b == null {
        return Panicked;
      }
      r := Enqueue(Front(b, offset), ctx);
    }

    /** Which of the elements of a shard the pool is going to hand out. */
    method Pick() returns (pick: nat)
      modifies this`choices
    {
      pick := if choices == [] then 0 else choices[0];
      choices := if choices == [] then [] else choices[1..];
    }

    /** `write1`; `Write1` always clones. */
    method Write1(p: Slice, clone: bool) returns (r: Outcome)
      requires Valid() && IsSlice(p)
      requires if clone then p.data !in pool.free else Spare(p, writeQueue, pool)
      modifies this, pool, pool.pool.shards, pool.free
      ensures Valid() && pool.free <= old(pool.free)
      ensures old(closeErr) != Nil ==> r == Returned(0, old(closeErr)) && accepted == old(accepted) && closeErr == old(closeErr)
      ensures old(closeErr) == Nil ==> (r == Panicked <==> clone && TooLarge(p.len))
      ensures r == Panicked ==> accepted == old(accepted)
      ensures r.Returned? && accepted != old(accepted) ==> accepted == old(accepted) + [old(Bytes(p))] && r == Returned(p.len, Nil)
      ensures r.Returned? && accepted == old(accepted) && old(closeErr) == Nil ==> r.n == 0 && Refused(r.err)
      ensures GoesOn() && Wakes()
      ensures forall d :: d in Arrays(writeQueue) ==>
        d in old(Arrays(writeQueue)) || (if clone then d in old(pool.free) || fresh(d) else d == p.data)
    {
      if closeErr != Nil {
        return Returned(0, closeErr);
      }
      var pick := Pick();
      var background := new Context(true);
      r := AsyncWrite(p, clone, pick, background);
    }

    /** `CtxWrite1`: the caller's context may end the wait, and the close error is not looked at first. */
    method CtxWrite1(p: Slice, ctx: Context) returns (r: Outcome)
      requires Valid() && IsSlice(p) && p.data !in pool.free
      modifies this, pool, pool.pool.shards, pool.free, ctx`done
      ensures Valid() && pool.free <= old(pool.free)
      ensures (r == Panicked <==> TooLarge(p.len)) && (r == Panicked ==> accepted == old(accepted))
      ensures r.Returned? && accepted != old(accepted) ==> accepted == old(accepted) + [old(Bytes(p))] && r == Returned(p.len, Nil)
      ensures r.Returned? && accepted == old(accepted) ==> r.n == 0 && Refusal(r.err, ctx)
      ensures GoesOn() && Wakes() && Patient(ctx) && WaitsOnlyIfFull(ctx)
    {
      var pick := Pick();
      r := AsyncWrite(p, true, pick, ctx);
    }

    /** `Writev`. */
    method Writev(p: seq<Slice>) returns (r: Outcome)
      requires Valid() && AllSlices(p) && Arrays(p) !! pool.free && |Joined(p)| < 2 * HEAD_BIT
      modifies this, pool, pool.pool.shards, pool.free
      ensures Valid() && pool.free <= old(pool.free)
      ensures old(closeErr) != Nil ==> r == Returned(0, old(closeErr)) && accepted == old(accepted) && closeErr == old(closeErr)
      ensures old(closeErr) == Nil ==> (r == Panicked <==> TooLarge(|old(Joined(p))|))
      ensures r == Panicked ==> accepted == old(accepted)
      ensures r.Returned? && accepted != old(accepted) ==>
        accepted == old(accepted) + [old(Joined(p))] && r == Returned(|old(Joined(p))|, Nil)
      ensures r.Returned? && accepted == old(accepted) && old(closeErr) == Nil ==> r.n == 0 && Refused(r.err)
      ensures GoesOn() && Wakes()
    {
      if closeErr != Nil {
        return Returned(0, closeErr);
      }
      var pick := Pick();
      var background := new Context(true);
      r := AsyncWritev(p, pick, background);
    }

    /** `CtxWritev`. */
    method CtxWritev(p: seq<Slice>, ctx: Context) returns (r: Outcome)
      requires Valid() && AllSlices(p) && Arrays(p) !! pool.free && |Joined(p)| < 2 * HEAD_BIT
      modifies this, pool, pool.pool.shards, pool.free, ctx`done
      ensures Valid() && pool.free <= old(pool.free)
      ensures (r == Panicked <==> TooLarge(|old(Joined(p))|)) && (r == Panicked ==> accepted == old(accepted))
      ensures r.Returned? && accepted != old(accepted) ==>
        accepted == old(accepted) + [old(Joined(p))] && r == Returned(|old(Joined(p))|, Nil)
      ensures r.Returned? && accepted == old(accepted) ==> r.n == 0 && Refusal(r.err, ctx)
      ensures GoesOn() && Wakes() && Patient(ctx) && WaitsOnlyIfFull(ctx)
    {
      var pick := Pick();
      r := AsyncWritev(p, pick, ctx);
    }

    /** A buffer with the next bytes of the reader, or none at its end. */
    method Fill(reader: Reader) returns (b: array<byte>, rn: nat, eof: bool)
      requires Valid()
      modifies this`choices, pool, pool.pool.shards, pool.free, reader
      ensures Valid() && Spare(Front(b, rn), writeQueue, pool) && rn <= MIN_READ <= b.Length
      ensures pool.free == old(pool.free) - {b} && pool.made == old(pool.made) + {b} && (b in old(pool.free) || fresh(b))
      ensures old(reader.rest) == b[..rn] + reader.rest
      ensures (eof <==> rn == 0) && (eof <==> old(reader.rest) == []) && rn == old(reader.Offered(1024))
    {
      var pick := Pick();
      var data := pool.Get(MIN_READ, pick);
      b := data;
      var got;
      got, eof := reader.Read(MIN_READ);
      rn := |got|;
      Refill(b, got);
      QueueUntouched(b);
    }

    /**
     Why a piece that was read is not sent: the channel has a close error, the packet was refused, or the cancelled
     send gave no error, which is a short write.
     */
    ghost predicate Rejected(err: Error)
      reads this
    {
      || (closeErr != Nil && err == closeErr)
      || (err == ShortWrite && done && closeErr == Nil)
      || Refused(err)
    }

    /** One round of `ReadFrom`: the piece read becomes a packet, or is refused with an error. */
    method ReadPiece(reader: Reader) returns (rn: nat, eof: bool, err: Error, ghost piece: seq<byte>)
      requires Valid()
      modifies this, pool, pool.pool.shards, pool.free, reader
      ensures Valid() && forall d :: d in pool.free ==> d in old(pool.free) || fresh(d)
      ensures old(reader.rest) == piece + reader.rest && |piece| == rn == old(reader.Offered(1024))
      ensures (eof <==> rn == 0) && (eof <==> old(reader.rest) == [])
      ensures accepted == if err == Nil && rn > 0 then old(accepted) + [piece] else old(accepted)
      ensures rn == 0 ==> err == Nil && pool.made - pool.free == old(pool.made - pool.free)
      ensures err != Nil ==> Rejected(err)
      ensures old(closeErr) != Nil && rn > 0 ==> err == old(closeErr)
      ensures GoesOn() && Wakes()
    {
      var b;
      b, rn, eof := Fill(reader);
      piece := b[..rn];
      err := Nil;
      if rn > 0 {
        var w := Write1(Front(b, rn), false);
        err := if w.err == Nil && w.n != rn then ShortWrite else w.err;
      } else {
        pool.Put(b);
      }
    }

    /** The same, in terms of the bytes `data` brought since `was`. */
    method ReadMore(reader: Reader, ghost was: seq<seq<byte>>, ghost data: seq<byte>)
      returns (rn: nat, eof: bool, err: Error, ghost more: seq<byte>)
      requires Valid() && was <= accepted && Brought(accepted, |was|, data)
      modifies this, pool, pool.pool.shards, pool.free, reader
      ensures Valid() && forall d :: d in pool.free ==> d in old(pool.free) || fresh(d)
      ensures was <= accepted && Brought(accepted, |was|, more)
      ensures if err == Nil then data + old(reader.rest) == more + reader.rest && |more| == |data| + rn else more == data && Rejected(err)
      ensures rn + |reader.rest| == |old(reader.rest)|
      ensures (eof <==> rn == 0) && (eof <==> old(reader.rest) == [])
      ensures GoesOn() && Wakes()
    {
      hide Channel.Valid, Channel.MayEnd, Channel.MayLeave, Brought;
      ghost var before, rest := accepted, reader.rest;
      ghost var piece;
      rn, eof, err, piece := ReadPiece(reader);
      more := data;
      if err == Nil {
        more := data + piece;
        ConcatAssoc(data, piece, reader.rest);
        if rn > 0 {
          BroughtMore(before, |was|, data, piece);
        } else {
          assert more == data;
        }
      }
    }

    /**
     `ReadFrom`: every piece the reader returns becomes a packet of its own, until the end or a refusal; `data`
     are the bytes that were accepted. `n` counts the bytes read, a refused piece included.
     */
    method ReadFrom(reader: Reader) returns (r: Outcome, ghost data: seq<byte>)
      requires Valid()
      modifies this, pool, pool.pool.shards, pool.free, reader
      ensures Valid() && forall d :: d in pool.free ==> d in old(pool.free) || fresh(d)
      ensures r.Returned? && data <= old(reader.rest) && Brought(accepted, |old(accepted)|, data)
      ensures old(accepted) <= accepted
      ensures r.err == Nil ==> data == old(reader.rest) && r.n == |data| && !reader.broken
      ensures r.err != Nil ==> (r.err == ReaderError && data == old(reader.rest) && reader.broken) || Rejected(r.err)
      ensures old(closeErr) != Nil ==> r == Returned(0, old(closeErr)) && accepted == old(accepted) && reader.rest == old(reader.rest)
      ensures GoesOn() && Wakes()
      ensures r.n + |reader.rest| == |old(reader.rest)|
    {
      hide Channel.Valid, Channel.MayEnd, Channel.MayLeave, Brought;
      BroughtNone(accepted);
      data := [];
      if closeErr != Nil {
        return Returned(0, closeErr), data;
      }
      ghost var was := accepted;
      var n := 0;
      while true
        invariant Valid() && was <= accepted && Brought(accepted, |was|, data)
        invariant forall d :: d in pool.free ==> d in old(pool.free) || fresh(d)
        invariant old(reader.rest) == data + reader.rest && n == |data| && GoesOn() && Wakes()
        decreases |reader.rest|
      {
        var rn, eof, err;
        rn, eof, err, data := ReadMore(reader, was, data);
        n := n + rn;
        if err != Nil {
          return Returned(n, err), data;
        }
        if eof {
          return Returned(n, if reader.broken then ReaderError else Nil), data;
        }
      }
    }
  }
}
