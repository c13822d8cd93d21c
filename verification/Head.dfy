/** The head of the pipeline, where every message ends up in the channel's queue (`headHandler.HandleWrite`). */
module Heads {
  import opened Common
  import opened Slices
  import opened Messages
  import opened PowersOfTwo
  import opened Channels
  import opened Ledgers
  import MessageBytes

  /** The packets accepted since `was` bring the bytes `data`. */
  ghost predicate Extends(accepted: seq<seq<byte>>, was: seq<seq<byte>>, data: seq<byte>)
  {
    |was| <= |accepted| && accepted[..|was|] == was && Concat(accepted[|was|..]) == data
  }

  lemma ExtendsNone(was: seq<seq<byte>>)
    ensures Extends(was, was, [])
  {
  }

  lemma ExtendsMore(accepted: seq<seq<byte>>, was: seq<seq<byte>>, data: seq<byte>, piece: seq<byte>)
    requires Extends(accepted, was, data)
    ensures Extends(accepted + [piece], was, data + piece)
  {
    assert (accepted + [piece])[|was|..] == accepted[|was|..] + [piece];
    assert (accepted + [piece])[..|was|] == accepted[..|was|];
    ConcatSnoc(accepted[|was|..], piece);
  }

  /** One piece of a message that writes itself: taken whole, or refused with an error. */
  method WritePiece(ch: Channel, piece: Slice, ghost was: seq<seq<byte>>, ghost data: seq<byte>) returns (ok: bool)
    requires ch.Valid() && IsSlice(piece) && piece.data !in ch.pool.free && Extends(ch.accepted, was, data)
    modifies ch, ch.pool, ch.pool.pool.shards, ch.pool.free
    ensures ch.Valid() && ch.pool.free <= old(ch.pool.free)
    ensures Extends(ch.accepted, was, if ok then data + old(Bytes(piece)) else data)
    ensures ok && !ch.done ==> ch.accepted == old(ch.accepted) + [old(Bytes(piece))]
    ensures !ok ==> ch.Stopped() || ch.TooLarge(piece.len)
    ensures ch.GoesOn() && ch.Wakes()
    ensures forall d :: d in Arrays(ch.writeQueue) ==> d in old(Arrays(ch.writeQueue)) || d in old(ch.pool.free) || fresh(d)
  {
    ExtendsMore(ch.accepted, was, data, Bytes(piece));
    var w := ch.Write1(piece, true);
    ok := w.Returned? && w.err == Nil && w.n == piece.len;
  }

  /** Packets without bytes. */
  ghost function Empties(n: nat): (r: seq<seq<byte>>)
    ensures |r| == n && forall i :: 0 <= i < n ==> r[i] == []
  {
    seq(n, _ => [])
  }

  /** Nil slices that a writer-to passes before anything else become packets without bytes. */
  method WriteNils(ch: Channel, n: nat) returns (ok: bool)
    requires ch.Valid()
    modifies ch, ch.pool, ch.pool.pool.shards, ch.pool.free
    ensures ch.Valid() && ch.pool.free <= old(ch.pool.free) && Extends(ch.accepted, old(ch.accepted), [])
    ensures ok && !ch.done ==> ch.accepted == old(ch.accepted) + Empties(n)
    ensures !ok ==> ch.Stopped()
    ensures ch.GoesOn() && ch.Wakes()
    ensures forall d :: d in Arrays(ch.writeQueue) ==> d in old(Arrays(ch.writeQueue)) || d in old(ch.pool.free) || fresh(d)
  {
    hide Channel.Valid, Channel.MayEnd, Channel.MayLeave, Empties, Extends;
    EmptiesSnoc(ch.accepted, 0);
    var empty := new byte[0];
    ghost var was := ch.accepted;
    ExtendsNone(was);
    ok := true;
    for i := 0 to n
      invariant ch.Valid() && ch.pool.free <= old(ch.pool.free) && Extends(ch.accepted, was, []) && ch.GoesOn() && ch.Wakes()
      invariant !ch.done ==> ch.accepted == was + Empties(i)
      invariant forall d :: d in Arrays(ch.writeQueue) ==> d in old(Arrays(ch.writeQueue)) || d in old(ch.pool.free) || fresh(d)
    {
      EmptiesSnoc(was, i);
      assert Bytes(Front(empty, 0)) == [];
      ok := WritePiece(ch, Front(empty, 0), was, []);
      if !ok {
        return;
      }
    }
  }

  lemma AppendSnoc(a: seq<seq<byte>>, b: seq<seq<byte>>, i: nat)
    requires i < |b|
    ensures a + b[..i + 1] == (a + b[..i]) + [b[i]]
  {
  }

  lemma EmptiesSnoc(a: seq<seq<byte>>, n: nat)
    ensures a + Empties(n + 1) == (a + Empties(n)) + [[]] && a + Empties(0) == a
  {
  }

  /** Slices written one after the other, up to the first that is not taken whole. */
  method WriteEach(ch: Channel, ps: seq<Slice>, ghost was: seq<seq<byte>>) returns (ok: bool, ghost data: seq<byte>)
    requires ch.Valid() && AllSlices(ps) && Arrays(ps) !! ch.pool.free && Extends(ch.accepted, was, [])
    modifies ch, ch.pool, ch.pool.pool.shards, ch.pool.free
    ensures ch.Valid() && Extends(ch.accepted, was, data)
    ensures data <= old(Joined(ps)) && (ok ==> data == old(Joined(ps)))
    ensures ok && !ch.done ==> ch.accepted == old(ch.accepted) + old(BytesOf(ps))
    ensures !ok ==> ch.Stopped() || exists i :: 0 <= i < |ps| && ch.TooLarge(ps[i].len)
    ensures ch.GoesOn() && ch.Wakes()
  {
    hide Channel.Valid, Channel.MayEnd, Channel.MayLeave, Channel.TooLarge, Joined, Extends;
    ghost var start, bs := ch.accepted, BytesOf(ps);
    ghost var js := Progress(ps);
    for i := 0 to |ps|
      invariant ch.Valid() && ch.pool.free <= old(ch.pool.free)
      invariant Extends(ch.accepted, was, js[i]) && ch.GoesOn() && ch.Wakes()
      invariant !ch.done ==> ch.accepted == start + bs[..i]
    {
      assert ps[i].data in Arrays(ps);
      assert js[i + 1] == js[i] + bs[i] && Bytes(ps[i]) == bs[i];
      AppendSnoc(start, bs, i);
      ok := WritePiece(ch, ps[i], was, js[i]);
      if !ok {
        return false, js[i];
      }
    }
    assert bs[..|ps|] == bs;
    return true, js[|ps|];
  }

  /** `WriteTo` of a message that writes itself piece by piece, and stops at the first that is not taken whole. */
  method WriteTo(ch: Channel, ps: seq<Slice>, nils: nat) returns (ok: bool, ghost data: seq<byte>)
    requires ch.Valid() && AllSlices(ps) && Arrays(ps) !! ch.pool.free
    modifies ch, ch.pool, ch.pool.pool.shards, ch.pool.free
    ensures ch.Valid() && Extends(ch.accepted, old(ch.accepted), data)
    ensures data <= old(Joined(ps)) && (ok ==> data == old(Joined(ps)))
    ensures ok && !ch.done ==> ch.accepted == old(ch.accepted) + Empties(nils) + old(BytesOf(ps))
    ensures !ok ==> ch.Stopped() || exists i :: 0 <= i < |ps| && ch.TooLarge(ps[i].len)
    ensures ch.GoesOn() && ch.Wakes()
  {
    hide Channel.Valid, Joined, BytesOf, Empties, Channel.MayEnd, Channel.MayLeave, Channel.TooLarge;
    ghost var was, all, bs := ch.accepted, Joined(ps), BytesOf(ps);
    data := [];
    ok := WriteNils(ch, nils);
    if ok {
      assert Joined(ps) == all && BytesOf(ps) == bs;
      ok, data := WriteEach(ch, ps, was);
    }
  }

  /** A buffer of the caller's: neither free in the pool nor in the queue. */
  ghost predicate Apart(buf: array<byte>, ch: Channel)
    reads ch, ch.pool
  {
    buf !in ch.pool.free && buf !in Arrays(ch.writeQueue)
  }

  /** One chunk comes into the buffer and is written. */
  method WriteChunk(ch: Channel, buf: array<byte>, chunk: seq<byte>, ghost was: seq<seq<byte>>, ghost data: seq<byte>) returns (ok: bool)
    requires ch.Valid() && Apart(buf, ch) && |chunk| <= buf.Length < 2 * HEAD_BIT && Extends(ch.accepted, was, data)
    modifies ch, ch.pool, ch.pool.pool.shards, ch.pool.free, buf
    ensures ch.Valid() && Apart(buf, ch) && ch.pool.free <= old(ch.pool.free)
    ensures Extends(ch.accepted, was, if ok then data + chunk else data)
    ensures ok && !ch.done ==> ch.accepted == old(ch.accepted) + [chunk]
    ensures !ok ==> ch.Stopped() || ch.TooLarge(|chunk|)
    ensures ch.GoesOn() && ch.Wakes()
  {
    Refill(buf, chunk);
    ok := WritePiece(ch, Front(buf, |chunk|), was, data);
  }

  /**
   `WriteTo` of a message that passes every chunk in one buffer: since `Write1` clones, what comes into the buffer
   later does not change the packets that are already in the queue.
   */
  method WriteToReusing(ch: Channel, buf: array<byte>, chunks: seq<seq<byte>>, nils: nat) returns (ok: bool, ghost data: seq<byte>)
    requires ch.Valid() && Apart(buf, ch) && buf.Length < 2 * HEAD_BIT
    requires forall i :: 0 <= i < |chunks| ==> |chunks[i]| <= buf.Length
    modifies ch, ch.pool, ch.pool.pool.shards, ch.pool.free, buf
    ensures ch.Valid() && Extends(ch.accepted, old(ch.accepted), data)
    ensures data <= Concat(chunks) && (ok ==> data == Concat(chunks))
    ensures ok && !ch.done ==> ch.accepted == old(ch.accepted) + Empties(nils) + chunks
    ensures !ok ==> ch.Stopped() || exists i :: 0 <= i < |chunks| && ch.TooLarge(|chunks[i]|)
    ensures ch.GoesOn() && ch.Wakes()
  {
    hide Channel.Valid, Channel.MayEnd, Channel.MayLeave, Channel.TooLarge, Extends, Concat, Empties;
    ConcatNone();
    ghost var was := ch.accepted;
    ok := WriteNils(ch, nils);
    if !ok {
      return false, [];
    }
    for i := 0 to |chunks|
      invariant ch.Valid() && Apart(buf, ch) && ch.pool.free <= old(ch.pool.free)
      invariant Extends(ch.accepted, was, Concat(chunks[..i])) && ch.GoesOn() && ch.Wakes()
      invariant !ch.done ==> ch.accepted == was + Empties(nils) + chunks[..i]
    {
      ConcatPart(chunks, i);
      AppendSnoc(was + Empties(nils), chunks, i);
      ok := WriteChunk(ch, buf, chunks[i], was, Concat(chunks[..i]));
      if !ok {
        return false, Concat(chunks[..i]);
      }
    }
    assert chunks[..|chunks|] == chunks;
    return true, Concat(chunks);
  }

  lemma ConcatPart(ps: seq<seq<byte>>, i: nat)
    requires i < |ps|
    ensures Concat(ps[..i + 1]) == Concat(ps[..i]) + ps[i] && Concat(ps[..i]) <= Concat(ps)
  {
    hide Concat;
    SplitParts(ps, i);
    ConcatSnoc(ps[..i], ps[i]);
    ConcatAppend(ps[..i], ps[i..]);
  }

  lemma SplitParts(ps: seq<seq<byte>>, i: nat)
    requires i < |ps|
    ensures ps[..i + 1] == ps[..i] + [ps[i]] && ps == ps[..i] + ps[i..]
  {
  }

  /** `Write1` of a whole message. */
  method WriteSlice(ch: Channel, s: Slice) returns (ok: bool, ghost data: seq<byte>)
    requires ch.Valid() && IsSlice(s) && s.data !in ch.pool.free
    modifies ch, ch.pool, ch.pool.pool.shards, ch.pool.free
    ensures ch.Valid() && Extends(ch.accepted, old(ch.accepted), data)
    ensures data <= old(Joined([s])) && (ok ==> data == old(Joined([s])) || (ch.done && ch.closeErr == Nil))
    ensures ch.accepted == old(ch.accepted) || ch.accepted == old(ch.accepted) + [old(Joined([s]))]
    ensures !ok ==> ch.Stopped() || ch.TooLarge(s.len)
    ensures ch.GoesOn() && ch.Wakes()
  {
    ghost var was := ch.accepted;
    ExtendsNone(was);
    ExtendsMore(was, was, [], Bytes(s));
    JoinedOne(s);
    var w := ch.Write1(s, true);
    ok, data := w.Returned? && w.err == Nil, if ch.accepted == was then [] else old(Bytes(s));
  }

  /** A message that is written as one packet. */
  predicate IsPacket(m: Message) { m.ByteSlice? || m.SliceList? || m.Buffer? }

  /** The message can be written: its type is supported and its own reading or writing does not fail. */
  predicate Writable(m: Message)
  {
    match m
    case KeepingWriter(_, h) => !h.failed
    case ReusingWriter(_, _, h) => !h.failed
    case FromReader(r) => !r.broken
    case Text(_) => false
    case Unrecognized => false
    case _ => true
  }

  /** The packets that a writer-to writes, behind the nil slices. */
  ghost function Pieces(m: Message): seq<seq<byte>>
    requires m.Valid()
    reads Arrays(m.Parts())
  {
    if m.ReusingWriter? then m.chunks else BytesOf(m.Parts())
  }

  /** The message has a piece that is too large for the pool. */
  ghost predicate Oversized(m: Message, ch: Channel)
    requires m.Valid()
    reads Arrays(m.Parts())
  {
    match m
    case SliceList(ps) => ch.TooLarge(|Joined(ps)|)
    case ReusingWriter(_, chunks, _) => exists i :: 0 <= i < |chunks| && ch.TooLarge(|chunks[i]|)
    case _ => exists i :: 0 <= i < |m.Parts()| && ch.TooLarge(m.Parts()[i].len)
  }

  /**
   `headHandler.HandleWrite`; `ok` is false when it panics. Whatever the shape of the message, what is
   accepted is the beginning of its bytes, and all of them unless it panics; one slice or list of slices is one
   packet. It panics only on a message that cannot be written, on one too large, and when the channel is stopped. (The exception: when the context is done without a close error, a slice that was not sent is reported
   as no error at all.)
   */
  method HandleWrite(ch: Channel, m: Message) returns (ok: bool, ghost data: seq<byte>)
    requires ch.Valid() && m.Valid() && Arrays(m.Parts()) !! ch.pool.free && (m.SliceList? ==> |Joined(m.ps)| < 2 * HEAD_BIT)
    requires m.ReusingWriter? ==> Apart(m.buf, ch)
    modifies ch, ch.pool, ch.pool.pool.shards, ch.pool.free, m.Consumed()
    ensures ch.Valid() && Extends(ch.accepted, old(ch.accepted), data)
    ensures data <= old(m.Content())
    ensures ok ==> Writable(m) && (data == old(m.Content()) || (IsPacket(m) && ch.done && ch.closeErr == Nil))
    ensures m.Text? || m.Unrecognized? ==> !ok && ch.accepted == old(ch.accepted)
    ensures IsPacket(m) ==> ch.accepted == old(ch.accepted) || ch.accepted == old(ch.accepted) + [old(m.Content())]
    ensures ok && !ch.done && m.IsWriterTo() ==> ch.accepted == old(ch.accepted) + Empties(m.habits.nils) + old(Pieces(m))
    ensures !ok ==> !Writable(m) || ch.Stopped() || old(Oversized(m, ch))
    ensures ch.GoesOn() && ch.Wakes() && Leads(old(ch.AsLedger()), ch.AsLedger())
    ensures ch.untilWrite && old(ch.closeErr) == Nil && !old(ch.MayEnd()) && Writable(m) && !old(Oversized(m, ch)) ==>
      ok && data == old(m.Content())
    ensures ok && data == old(m.Content()) ==> (data == old(MessageBytes.Made(m)) <==> MessageBytes.Stealable(m))
  {
    hide Leads, Channel.Valid, Concat;
    ghost var was := ch.accepted;
    MessageBytes.MadeIsContent(m);
    ExtendsNone(was);
    match m {
      case ByteSlice(s) =>
        ok, data := WriteSlice(ch, s);
      case SliceList(ps) =>
        ExtendsMore(was, was, [], Joined(ps));
        var w := ch.Writev(ps);
        ok, data := w.Returned? && w.err == Nil, if ch.accepted == was then [] else old(Joined(ps));
      case Buffer(s) =>
        ok, data := WriteSlice(ch, s);
      case KeepingWriter(ps, h) =>
        ok, data := WriteTo(ch, ps, h.nils);
        ok := ok && !h.failed;
      case ReusingWriter(buf, chunks, h) =>
        ok, data := WriteToReusing(ch, buf, chunks, h.nils);
        ok := ok && !h.failed;
      case FromReader(r) =>
        var w;
        w, data := ch.ReadFrom(r);
        ok := w.err == Nil;
      case Text(_) =>
        ok, data := false, [];
      case Unrecognized =>
        ok, data := false, [];
    }
    ch.LedgerFollows();
  }
}
