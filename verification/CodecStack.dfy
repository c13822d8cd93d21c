/**
 The framing codecs as handlers of a pipeline, stacked in any number and order, and what a stack makes of
 whole streams: from the messages written on one side to the messages delivered on the other.
 */
module CodecStack {
  import opened Common
  import opened Streams
  import opened Handlers
  import Delimiter
  import LengthField
  import Varint
  import WriteLoop
  import WriteLoopTheorems

  datatype Codec =
    | ByDelimiter(d: Delimiter.Codec)
    | ByLength(c: LengthField.Config, p: LengthField.Prepender)
    | ByVarint(v: Varint.Codec)
  {
    ghost predicate Valid()
    {
      match this
      case ByDelimiter(d) => d.Valid()
      case ByLength(c, p) => c.Valid() && p.Valid()
      case ByVarint(v) => v.Valid()
    }

    /** What `HandleWrite` hands towards the head; `None` is a panic. */
    ghost function Encoded(body: seq<byte>): Option<seq<byte>>
      requires Valid()
    {
      match this
      case ByDelimiter(d) => Some(Delimiter.Encoded(d, body))
      case ByLength(_, p) => if |body| < TWO_63 then Some(LengthField.Encoded(p, body)) else None
      case ByVarint(v) => if |body| <= v.maxFrameLength then Some(Varint.Encoded(body)) else None
    }

    /** What `HandleRead` hands towards the tail, and what it leaves in the stream. */
    ghost function Decode(s: seq<byte>): Option<(seq<byte>, seq<byte>)>
      requires Valid()
    {
      match this
      case ByDelimiter(d) => Delimiter.Decode(d, s)
      case ByLength(c, _) => LengthField.Decode(c, s)
      case ByVarint(v) => Varint.Decode(v, s)
    }

    /** The body is one this codec can carry and give back unchanged. */
    ghost predicate Carries(body: seq<byte>)
      requires Valid()
    {
      match this
      case ByDelimiter(d) => d.stripDelimiter && Delimiter.Admissible(d, body)
      case ByLength(c, p) =>
        LengthField.Matching(c, p) && LengthField.Fitting(c, p, body) && c.initialBytesToStrip == p.lengthFieldLength
      case ByVarint(v) => |body| <= v.maxFrameLength
    }
  }

  /** Every codec gives back a body it carries, whatever follows in the stream. */
  lemma RoundTrip(c: Codec, body: seq<byte>, rest: seq<byte>)
    requires c.Valid() && c.Carries(body)
    ensures c.Encoded(body).Some? && c.Decode(c.Encoded(body).value + rest) == Some((body, rest))
  {
    match c
    case ByDelimiter(d) =>
      var w := Delimiter.Encoded(d, body);
      Delimiter.EncodedIs(d, body);
      Delimiter.RoundTrip(d, body, rest);
      Delimiter.DecodeIsHandleRead(d, w + rest, Delimiter.Posted(body, |w|));
      assert (w + rest)[|w|..] == rest;
    case ByLength(l, p) =>
      LengthField.RoundTrip(l, p, body, rest);
      assert LengthField.Encoded(p, body)[l.initialBytesToStrip..] == body;
    case ByVarint(v) => Varint.RoundTrip(v, body, rest);
  }

  /** The delimiter and the varint codec carry exactly the bodies that they give back. */
  lemma CarriesIff(c: Codec, body: seq<byte>)
    requires c.Valid() && !c.ByLength?
    ensures c.Carries(body) <==>
      c.Encoded(body).Some? && forall rest :: c.Decode(c.Encoded(body).value + rest) == Some((body, rest))
  {
    if c.Carries(body) {
      forall rest ensures c.Encoded(body).Some? && c.Decode(c.Encoded(body).value + rest) == Some((body, rest)) {
        RoundTrip(c, body, rest);
      }
      RoundTrip(c, body, []);
    } else if c.ByDelimiter? && c.Encoded(body).Some? {
      NotCarried(c.d, body);
    }
  }

  /** What the delimiter codec does not carry does not come back, even when nothing follows. */
  lemma NotCarried(d: Delimiter.Codec, body: seq<byte>)
    requires d.Valid() && !(d.stripDelimiter && Delimiter.Admissible(d, body))
    ensures Delimiter.Decode(d, Delimiter.Encoded(d, body) + []) != Some((body, []))
  {
    var w := Delimiter.Encoded(d, body);
    Delimiter.EncodedIs(d, body);
    Delimiter.RoundTrip(d, body, []);
    assert w + [] == w;
  }

  // ---------------------------------------------------------------- codecs as handlers

  ghost function OnRead(c: Codec, m: seq<byte>): Action<seq<byte>>
    requires c.Valid()
  {
    match c.Decode(m)
    case Some((frame, _)) => Forward(frame)
    case None => Panic
  }

  ghost function OnWrite(c: Codec, m: seq<byte>): Action<seq<byte>>
    requires c.Valid()
  {
    match c.Encoded(m)
    case Some(wire) => Forward(wire)
    case None => Panic
  }

  ghost function AsHandler(c: Codec): (h: Handler<seq<byte>>)
    requires c.Valid()
  {
    Handler({Inbound, Outbound}, {}, (m: seq<byte>) => OnRead(c, m), (m: seq<byte>) => OnWrite(c, m))
  }

  ghost predicate AllValid(cs: seq<Codec>)
  {
    forall i :: 0 <= i < |cs| ==> cs[i].Valid()
  }

  ghost function Stack(cs: seq<Codec>): (hs: seq<Handler<seq<byte>>>)
    requires AllValid(cs)
    ensures |hs| == |cs|
  {
    seq(|cs|, i requires 0 <= i < |cs| => AsHandler(cs[i]))
  }

  /** Every codec of the stack carries what the codecs behind it make of the message. */
  ghost predicate StackCarries(cs: seq<Codec>, m: seq<byte>)
    requires AllValid(cs)
  {
    cs == [] ||
    (cs[|cs| - 1].Carries(m) && StackCarries(cs[..|cs| - 1], cs[|cs| - 1].Encoded(m).value))
  }

  lemma OneUndoes(c: Codec, m: seq<byte>)
    requires c.Valid() && c.Carries(m)
    ensures c.Encoded(m).Some? && Encode(AsHandler(c), m) == c.Encoded(m).value && Undoes(AsHandler(c), m)
  {
    var h, wire := AsHandler(c), c.Encoded(m).value;
    RoundTrip(c, m, []);
    assert wire + [] == wire;
    assert h.onWrite(m) == OnWrite(c, m) && h.onRead(wire) == OnRead(c, wire);
  }

  /** Codecs that carry what they get undo their encodings. */
  lemma {:induction false} StackUndoes(cs: seq<Codec>, m: seq<byte>)
    requires AllValid(cs) && StackCarries(cs, m)
    ensures AllUndo(Stack(cs), m)
    decreases |cs|
  {
    hide Codec.Carries, Codec.Encoded, Codec.Decode;
    if cs != [] {
      var n := |cs| - 1;
      OneUndoes(cs[n], m);
      StackUndoes(cs[..n], cs[n].Encoded(m).value);
      assert Stack(cs)[..n] == Stack(cs[..n]);
    }
  }

  // ---------------------------------------------------------------- whole streams

  /** The bytes a message becomes on its way through the stack. */
  ghost function Wire(cs: seq<Codec>, m: seq<byte>): seq<byte>
    requires AllValid(cs)
  {
    EncodeAll(Stack(cs), m)
  }

  ghost function Wires(cs: seq<Codec>, ms: seq<seq<byte>>): seq<seq<byte>>
    requires AllValid(cs)
  {
    seq(|ms|, i requires 0 <= i < |ms| => Wire(cs, ms[i]))
  }

  /** The codec next to the head as a decoding step on the transport's stream. */
  ghost function FirstDecoder(cs: seq<Codec>): Decoder
    requires AllValid(cs) && cs != []
  {
    (s: seq<byte>) => cs[0].Decode(s)
  }

  /** What the codecs behind the first one deliver. */
  ghost function Deliver(cs: seq<Codec>, frame: seq<byte>): Action<seq<byte>>
    requires AllValid(cs) && cs != []
  {
    ReadThrough(Stack(cs)[1..], frame, 2).result
  }

  /** The frame that the first codec cuts from the stream for a message. */
  ghost function Frame(cs: seq<Codec>, m: seq<byte>): seq<byte>
    requires AllValid(cs) && cs != []
  {
    EncodeAll(Stack(cs)[1..], m)
  }

  lemma FirstCarries(cs: seq<Codec>, m: seq<byte>)
    requires AllValid(cs) && cs != [] && StackCarries(cs, m)
    ensures cs[0].Carries(Frame(cs, m))
    decreases |cs|
  {
    hide Codec.Carries, Codec.Encoded, Codec.Decode;
    var n := |cs| - 1;
    if n == 0 {
      assert Stack(cs)[1..] == [];
    } else {
      OneUndoes(cs[n], m);
      FirstCarries(cs[..n], cs[n].Encoded(m).value);
      var hs := Stack(cs)[1..];
      assert Stack(cs[..n])[1..] == hs[..n - 1] && hs[n - 1] == AsHandler(cs[n]);
    }
  }

  /** One message: its wire bytes, followed by anything, give its frame, and the frame gives the message. */
  lemma OneMessage(cs: seq<Codec>, m: seq<byte>, rest: seq<byte>)
    requires AllValid(cs) && cs != [] && StackCarries(cs, m)
    ensures FirstDecoder(cs)(Wire(cs, m) + rest) == Some((Frame(cs, m), rest))
    ensures Deliver(cs, Frame(cs, m)) == Forward(m)
  {
    var hs := Stack(cs);
    StackUndoes(cs, m);
    EncodeFirst(hs, m);
    FirstCarries(cs, m);
    RoundTrip(cs[0], Frame(cs, m), rest);
    ReadDecodes(hs[1..], [], m, 2);
    assert hs[1..] + [] == hs[1..];
  }

  /**
   Any sequence of messages, written one after the other through a stack, is decoded one by one from the
   concatenated bytes, leaving what follows untouched, and delivered unchanged and in order.
   */
  lemma MessagesArrive(cs: seq<Codec>, ms: seq<seq<byte>>, rest: seq<byte>)
    requires AllValid(cs) && cs != [] && forall i :: 0 <= i < |ms| ==> StackCarries(cs, ms[i])
    ensures var got := DecodeMany(FirstDecoder(cs), Concat(Wires(cs, ms)) + rest, |ms|);
      && got.Some? && got.value.1 == rest && |got.value.0| == |ms|
      && forall i :: 0 <= i < |ms| ==> Deliver(cs, got.value.0[i]) == Forward(ms[i])
  {
    var frames := seq(|ms|, i requires 0 <= i < |ms| => Frame(cs, ms[i]));
    forall i, left | 0 <= i < |ms| ensures FirstDecoder(cs)(Wires(cs, ms)[i] + left) == Some((frames[i], left)) {
      OneMessage(cs, ms[i], left);
    }
    FramesDecode(FirstDecoder(cs), Wires(cs, ms), frames, rest);
    forall i | 0 <= i < |ms| ensures Deliver(cs, frames[i]) == Forward(ms[i]) {
      OneMessage(cs, ms[i], []);
    }
  }

  /**
   End to end: whatever the interleaving of the callers, when the write loop is at rest without a failure and
   each accepted packet was the encoding of a message, the peer decodes from the transport exactly those
   messages, in the order of acceptance, with nothing left over.
   */
  lemma EndToEnd(s: WriteLoop.State, cs: seq<Codec>, ms: seq<seq<byte>>)
    requires WriteLoopTheorems.Reachable(s) && WriteLoopTheorems.Quiescent(s) && !s.net.failed
    requires AllValid(cs) && cs != [] && forall i :: 0 <= i < |ms| ==> StackCarries(cs, ms[i])
    requires WriteLoopTheorems.Data(s.book.accepted) == Wires(cs, ms)
    ensures s.net.flushed == |s.net.out|
    ensures var got := DecodeMany(FirstDecoder(cs), s.net.out, |ms|);
      && got.Some? && got.value.1 == [] && |got.value.0| == |ms|
      && forall i :: 0 <= i < |ms| ==> Deliver(cs, got.value.0[i]) == Forward(ms[i])
  {
    hide WriteLoopTheorems.Reachable, WriteLoopTheorems.Quiescent, StackCarries, Wires;
    WriteLoopTheorems.ReachableHasInv(s);
    WriteLoopTheorems.QuiescentDelivered(s);
    MessagesArrive(cs, ms, []);
    assert s.net.out + [] == s.net.out;
  }
}
