/**
 Byte streams as the codecs see them: a read returns at least one byte without an error, or the stream has
 ended. How many bytes a read returns is up to the stream (`chunks` is its arbitrary plan).
 */
module Streams {
  import opened Common

  function Min(a: nat, b: nat): (m: nat) { if a < b then a else b }

  class Reader {
    var rest: seq<byte>
    var chunks: seq<nat>
    /** The error at the end is not `io.EOF`. */
    const broken: bool

    constructor (rest: seq<byte>, chunks: seq<nat>, broken: bool)
      ensures this.rest == rest && this.broken == broken
    {
      this.rest := rest;
      this.chunks := chunks;
      this.broken := broken;
    }

    /** How many bytes the next read into a buffer of `max` bytes returns. */
    function Offered(max: nat): (n: nat)
      reads this
    {
      var n := if chunks == [] || chunks[0] < 1 then 1 else chunks[0];
      Min(Min(n, max), |rest|)
    }

    /** `Read(p)` with `len(p) == max`. */
    method Read(max: nat) returns (got: seq<byte>, eof: bool)
      requires max > 0
      modifies this
      ensures old(rest) == got + rest && |got| == old(Offered(max))
      ensures eof <==> old(rest) == []
      ensures !eof ==> 1 <= |got| <= max
    {
      if rest == [] {
        return [], true;
      }
      var n := Offered(max);
      chunks := if chunks == [] then [] else chunks[1..];
      got, eof := rest[..n], false;
      rest := rest[n..];
    }
  }

  /** A read into a one-byte buffer. */
  method ReadOne(r: Reader) returns (b: Option<byte>)
    modifies r
    ensures b == None <==> old(r.rest) == []
    ensures b.Some? ==> old(r.rest) == [b.value] + r.rest
    ensures b == None ==> r.rest == []
  {
    var got, eof := r.Read(1);
    if eof {
      return None;
    }
    assert got == [got[0]];
    return Some(got[0]);
  }

  /** `io.ReadFull`: all `n` bytes, or fewer when the stream ends first. */
  method ReadFull(r: Reader, n: nat) returns (got: seq<byte>)
    modifies r
    ensures |got| == Min(n, |old(r.rest)|) && old(r.rest) == got + r.rest
  {
    got := [];
    while |got| < n
      invariant |got| <= n && old(r.rest) == got + r.rest
      decreases n - |got|
    {
      var chunk, eof := r.Read(n - |got|);
      if eof {
        return;
      }
      got := got + chunk;
    }
  }

  /**
   What a codec posts downstream: bytes already in hand, then at most `limit` bytes of the stream behind
   (`io.MultiReader` over a `bytes.Reader` and an `io.LimitReader`; `limit` counts what is left).
   */
  class FrameReader {
    var head: seq<byte>
    var limit: nat
    const src: Reader

    ghost function Content(): seq<byte>
      reads this, src
    {
      head + src.rest[..Min(limit, |src.rest|)]
    }

    /** What stays in the stream after this frame has been read to its end. */
    ghost function Behind(): seq<byte>
      reads this, src
    {
      src.rest[Min(limit, |src.rest|)..]
    }

    constructor (head: seq<byte>, src: Reader, limit: nat)
      ensures this.head == head && this.src == src && this.limit == limit
    {
      this.head := head;
      this.src := src;
      this.limit := limit;
    }

    method Read(max: nat) returns (got: seq<byte>, eof: bool)
      requires max > 0
      modifies this, src
      ensures old(Content()) == got + Content() && Behind() == old(Behind())
      ensures eof <==> old(Content()) == []
      ensures !eof ==> 1 <= |got| <= max
    {
      if head != [] {
        var n := Min(max, |head|);
        got, eof := head[..n], false;
        head := head[n..];
        return;
      }
      if limit == 0 {
        return [], true;
      }
      got, eof := src.Read(Min(max, limit));
      limit := limit - |got|;
    }

    /** `io.CopyN(ioutil.Discard, …, n)`: skips `n` bytes, or fewer when the frame ends first. */
    method Skip(n: nat) returns (skipped: nat)
      modifies this, src
      ensures skipped == Min(n, |old(Content())|)
      ensures Content() == old(Content())[skipped..] && Behind() == old(Behind())
    {
      skipped := 0;
      while skipped < n
        invariant skipped <= n && skipped <= |old(Content())|
        invariant Content() == old(Content())[skipped..] && Behind() == old(Behind())
        decreases n - skipped
      {
        var got, eof := Read(n - skipped);
        if eof {
          return;
        }
        skipped := skipped + |got|;
      }
    }

    /** Reads the frame to its end, as a handler downstream does. */
    method Drain() returns (all: seq<byte>)
      modifies this, src
      ensures all == old(Content()) && src.rest == old(Behind())
    {
      all := [];
      var eof := false;
      while !eof
        invariant old(Content()) == all + Content() && Behind() == old(Behind())
        invariant eof ==> Content() == []
        decreases !eof, |Content()|
      {
        var got;
        got, eof := Read(512);
        all := all + got;
      }
      assert src.rest == src.rest[..Min(limit, |src.rest|)] + src.rest[Min(limit, |src.rest|)..];
    }
  }

  // ---------------------------------------------------------------- repeated decoding

  /** One decoding step on a whole stream: the message and what is left, or a failure. */
  type Decoder = seq<byte> -> Option<(seq<byte>, seq<byte>)>

  /** Decoding `n` messages one after the other. */
  function DecodeMany(dec: Decoder, stream: seq<byte>, n: nat): (r: Option<(seq<seq<byte>>, seq<byte>)>)
    decreases n
  {
    if n == 0 then Some(([], stream))
    else
      match dec(stream)
      case None => None
      case Some((first, rest)) =>
        match DecodeMany(dec, rest, n - 1)
        case None => None
        case Some((more, left)) => Some(([first] + more, left))
  }

  /** When each frame alone decodes to its message and leaves what follows, so does any concatenation of frames. */
  lemma {:induction false} FramesDecode(dec: Decoder, frames: seq<seq<byte>>, messages: seq<seq<byte>>, rest: seq<byte>)
    requires |frames| == |messages|
    requires forall i, left :: 0 <= i < |frames| ==> dec(frames[i] + left) == Some((messages[i], left))
    ensures DecodeMany(dec, Concat(frames) + rest, |frames|) == Some((messages, rest))
  {
    if frames == [] {
      assert [] + rest == rest;
    } else {
      var left := Concat(frames[1..]) + rest;
      assert Concat(frames) + rest == frames[0] + left;
      assert dec(frames[0] + left) == Some((messages[0], left));
      forall i, l | 0 <= i < |frames[1..]| ensures dec(frames[1..][i] + l) == Some((messages[1..][i], l)) {
        assert dec(frames[i + 1] + l) == Some((messages[i + 1], l));
      }
      FramesDecode(dec, frames[1..], messages[1..], rest);
      assert [messages[0]] + messages[1..] == messages;
    }
  }

  ghost function Prepend(done: seq<seq<byte>>, r: Option<(seq<seq<byte>>, seq<byte>)>): Option<(seq<seq<byte>>, seq<byte>)>
  {
    match r
    case None => None
    case Some((more, left)) => Some((done + more, left))
  }

  lemma PrependEnds(done: seq<seq<byte>>, r: Option<(seq<seq<byte>>, seq<byte>)>, left: seq<byte>)
    ensures Prepend([], r) == r
    ensures Prepend(done, Some(([], left))) == Some((done, left))
  {
    assert done + [] == done;
    if r.Some? { assert [] + r.value.0 == r.value.0; }
  }

  /** One more message decoded in front of the remaining ones. */
  lemma DecodeStep(dec: Decoder, done: seq<seq<byte>>, stream: seq<byte>, message: seq<byte>, rest: seq<byte>, n: nat)
    requires n > 0 && dec(stream) == Some((message, rest))
    ensures Prepend(done, DecodeMany(dec, stream, n)) == Prepend(done + [message], DecodeMany(dec, rest, n - 1))
  {
    match DecodeMany(dec, rest, n - 1)
    case None =>
    case Some((more, left)) =>
      assert done + ([message] + more) == (done + [message]) + more;
  }
}
