/** The delimiter codec (`codec/frame/delimiter.go`). */
module Delimiter {
  import opened Common
  import opened Streams

  /** The codec's fields; `DelimiterCodec` panics on a maximum that is not positive and on an empty delimiter. */
  datatype Codec = Codec(maxFrameLength: int, delimiter: seq<byte>, stripDelimiter: bool) {
    predicate Valid() { maxFrameLength > 0 && delimiter != [] }
  }

  datatype Outcome =
    | Posted(frame: seq<byte>, consumed: nat)
    | TooLarge
    | EndOfStream

  // ---------------------------------------------------------------- specification

  /** The first `k` bytes of `s` end with `d`. */
  ghost predicate EndsAt(s: seq<byte>, d: seq<byte>, k: int)
  {
    |d| <= k <= |s| && s[k - |d|..k] == d
  }

  ghost predicate OccursAt(d: seq<byte>, s: seq<byte>, i: int)
  {
    0 <= i <= |s| - |d| && s[i..i + |d|] == d
  }

  /** `d` appears somewhere inside `s`. */
  ghost predicate Occurs(d: seq<byte>, s: seq<byte>)
  {
    exists i :: OccursAt(d, s, i)
  }

  /** `s` without its last byte. */
  function ButLast(s: seq<byte>): (r: seq<byte>)
  {
    if s == [] then [] else s[..|s| - 1]
  }

  /** No prefix of length up to `n` ends with the delimiter. */
  ghost predicate NoEndUpTo(s: seq<byte>, d: seq<byte>, n: nat)
  {
    n <= |s| && forall k :: 0 <= k <= n ==> !EndsAt(s, d, k)
  }

  /** The first prefix that ends with the delimiter has length `k`. */
  ghost predicate FirstEnd(s: seq<byte>, d: seq<byte>, k: nat)
  {
    0 < k <= |s| && EndsAt(s, d, k) && NoEndUpTo(s, d, k - 1)
  }

  /** The posted frame: without the delimiter when it is to be stripped. */
  function Strip(c: Codec, frame: seq<byte>): (r: seq<byte>)
    requires c.stripDelimiter ==> |c.delimiter| <= |frame|
  {
    if c.stripDelimiter then frame[..|frame| - |c.delimiter|] else frame
  }

  /** What the codec must do with a stream, in terms of the whole stream. */
  ghost predicate Meets(c: Codec, s: seq<byte>, r: Outcome)
    requires c.Valid()
  {
    match r
    case Posted(frame, k) =>
      k <= c.maxFrameLength && FirstEnd(s, c.delimiter, k) && frame == Strip(c, s[..k])
    case TooLarge =>
      NoEndUpTo(s, c.delimiter, c.maxFrameLength)
    case EndOfStream =>
      |s| < c.maxFrameLength && NoEndUpTo(s, c.delimiter, |s|)
  }

  ghost function Consumed(c: Codec, s: seq<byte>, r: Outcome): nat
    requires c.Valid() && Meets(c, s, r)
  {
    match r
    case Posted(_, k) => k
    case TooLarge => c.maxFrameLength
    case EndOfStream => |s|
  }

  /** A stream determines the outcome. */
  lemma OneOutcome(c: Codec, s: seq<byte>, a: Outcome, b: Outcome)
    requires c.Valid() && Meets(c, s, a) && Meets(c, s, b)
    ensures a == b
  {
  }

  // ---------------------------------------------------------------- the codec

  /** `HandleRead`: reads byte by byte, checking the delimiter after each. */
  method HandleRead(c: Codec, reader: Reader) returns (r: Outcome)
    requires c.Valid()
    modifies reader
    ensures Meets(c, old(reader.rest), r)
    ensures reader.rest == old(reader.rest)[Consumed(c, old(reader.rest), r)..]
  {
    hide EndsAt;
    ghost var s := reader.rest;
    EndOfBuffer([], s, s, c.delimiter);
    var readBuff: seq<byte> := [];
    while |readBuff| < c.maxFrameLength
      invariant |readBuff| <= c.maxFrameLength
      invariant s == readBuff + reader.rest
      invariant NoEndUpTo(s, c.delimiter, |readBuff|)
      decreases c.maxFrameLength - |readBuff|
    {
      var temp := ReadOne(reader);
      if temp == None {
        return EndOfStream;
      }
      readBuff := readBuff + [temp.value];
      EndOfBuffer(readBuff, reader.rest, s, c.delimiter);
      if |readBuff| >= |c.delimiter| && c.delimiter == readBuff[|readBuff| - |c.delimiter|..] {
        return Posted(Strip(c, readBuff), |readBuff|);
      }
    }
    return TooLarge;
  }

  /** The check on the buffer is the check on the stream. */
  lemma EndOfBuffer(buff: seq<byte>, rest: seq<byte>, s: seq<byte>, d: seq<byte>)
    requires s == buff + rest
    ensures EndsAt(s, d, |buff|) <==> |buff| >= |d| && d == buff[|buff| - |d|..]
    ensures s[..|buff|] == buff && s[|buff|..] == rest
  {
  }

  /** `HandleWrite`: the body, then the delimiter. */
  function HandleWrite(c: Codec, body: seq<byte>): (pieces: seq<seq<byte>>)
  {
    [body, c.delimiter]
  }

  ghost function Encoded(c: Codec, body: seq<byte>): seq<byte> { Concat(HandleWrite(c, body)) }

  lemma EncodedIs(c: Codec, body: seq<byte>)
    ensures Encoded(c, body) == body + c.delimiter
  {
    assert [body, c.delimiter][1..] == [c.delimiter];
    ConcatOne(c.delimiter);
  }

  // ---------------------------------------------------------------- round trip

  lemma OccursIsEnd(s: seq<byte>, d: seq<byte>, n: nat)
    requires n <= |s|
    ensures Occurs(d, s[..n]) <==> !NoEndUpTo(s, d, n)
  {
    if i :| OccursAt(d, s[..n], i) {
      assert s[..n][i..i + |d|] == s[i..i + |d|];
      assert EndsAt(s, d, i + |d|);
    }
    if k :| 0 <= k <= n && EndsAt(s, d, k) {
      assert s[..n][k - |d|..k] == s[k - |d|..k];
      assert OccursAt(d, s[..n], k - |d|);
    }
  }

  /** What the reader of a written body gets. */
  ghost function Expected(c: Codec, body: seq<byte>): seq<byte>
  {
    if c.stripDelimiter then body else body + c.delimiter
  }

  /** A posted frame is exactly the bytes consumed, less the delimiter where that is stripped. */
  lemma PostedIs(c: Codec, s: seq<byte>, r: Outcome)
    requires c.Valid() && Meets(c, s, r) && r.Posted?
    ensures r.consumed <= |s| && s[..r.consumed] == r.frame + (if c.stripDelimiter then c.delimiter else [])
  {
  }

  /**
   The delimiter round trip is exact: a written frame, followed by anything, is read back and leaves what
   follows, if and only if it fits the maximum and the delimiter does not occur earlier than at its end.
   */
  lemma RoundTrip(c: Codec, body: seq<byte>, rest: seq<byte>)
    requires c.Valid()
    ensures var w := Encoded(c, body);
      Meets(c, w + rest, Posted(Expected(c, body), |w|)) <==>
        |body| + |c.delimiter| <= c.maxFrameLength && !Occurs(c.delimiter, ButLast(w))
  {
    EncodedIs(c, body);
    var d := c.delimiter;
    var w := body + d;
    var s := w + rest;
    assert s[..|w|] == w && w[|body|..] == d;
    assert s[..|w| - 1] == ButLast(w);
    OccursIsEnd(s, d, |w| - 1);
    assert Strip(c, w) == Expected(c, body);
  }

  /** No proper prefix of the delimiter is also its suffix. */
  ghost predicate NoBorder(d: seq<byte>)
  {
    forall m :: 0 < m < |d| ==> d[..m] != d[|d| - m..]
  }

  /** For a delimiter without a border the second condition is that the body does not contain it. */
  lemma BorderFree(body: seq<byte>, d: seq<byte>)
    requires d != [] && NoBorder(d)
    ensures Occurs(d, ButLast(body + d)) <==> Occurs(d, body)
  {
    var w := ButLast(body + d);
    BodyFirst(body, d);
    if Occurs(d, body) {
      var i :| OccursAt(d, body, i);
      SameWindow(body, w, i, |d|);
      assert OccursAt(d, w, i);
    }
    if Occurs(d, w) {
      var i :| OccursAt(d, w, i);
      if i + |d| <= |body| {
        SameWindow(body, w, i, |d|);
        assert OccursAt(d, body, i);
      } else {
        OverlapIsBorder(body, d, i);
        assert false;
      }
    }
  }

  lemma BodyFirst(body: seq<byte>, d: seq<byte>)
    requires d != []
    ensures body <= ButLast(body + d)
  {
  }

  lemma SameWindow(p: seq<byte>, w: seq<byte>, i: nat, n: nat)
    requires p <= w && i + n <= |p|
    ensures p[i..i + n] == w[i..i + n]
  {
    assert w[..|p|] == p;
    assert w[..|p|][i..i + n] == w[i..i + n];
  }

  /** An occurrence that reaches into the delimiter makes a border. */
  lemma OverlapIsBorder(body: seq<byte>, d: seq<byte>, i: int)
    requires d != [] && OccursAt(d, ButLast(body + d), i) && i + |d| > |body|
    ensures !NoBorder(d)
  {
    var w := ButLast(body + d);
    var m := i + |d| - |body|;
    forall j | 0 <= j < m ensures d[j] == d[|d| - m + j] {
      assert w[|body| + j] == (body + d)[|body| + j] == d[j];
      assert w[i..i + |d|][|d| - m + j] == w[i + (|d| - m + j)] == w[|body| + j];
    }
    assert d[..m] == d[|d| - m..];
  }

  /** A border can make the body's end and the delimiter's start look like an earlier delimiter. */
  lemma BorderMatters()
    ensures var d: seq<byte> := [0, 0]; var body: seq<byte> := [1, 0];
      !Occurs(d, body) && Occurs(d, ButLast(body + d))
  {
    var d: seq<byte> := [0, 0];
    var body: seq<byte> := [1, 0];
    assert !OccursAt(d, body, 0) by { assert body[0..2][0] != d[0]; }
    assert ButLast(body + d)[1..3] == d;
    assert OccursAt(d, ButLast(body + d), 1);
  }

  // ---------------------------------------------------------------- whole streams

  /** The codec as a decoding step on a whole stream. */
  ghost function Decode(c: Codec, s: seq<byte>): (r: Option<(seq<byte>, seq<byte>)>)
    requires c.Valid()
  {
    if k: nat :| k <= c.maxFrameLength && FirstEnd(s, c.delimiter, k) then Some((Strip(c, s[..k]), s[k..])) else None
  }

  /** `Decode` is what `HandleRead` does. */
  lemma DecodeIsHandleRead(c: Codec, s: seq<byte>, r: Outcome)
    requires c.Valid() && Meets(c, s, r)
    ensures Decode(c, s) == if r.Posted? then Some((r.frame, s[r.consumed..])) else None
  {
  }

  ghost predicate Admissible(c: Codec, body: seq<byte>)
  {
    && |body| + |c.delimiter| <= c.maxFrameLength
    && !Occurs(c.delimiter, ButLast(body + c.delimiter))
  }

  ghost function DecodeWith(c: Codec): Decoder
    requires c.Valid()
  {
    (s: seq<byte>) => Decode(c, s)
  }

  /** Repeated decoding of a concatenation of admissible frames returns exactly those frames. */
  lemma StreamRoundTrip(c: Codec, bodies: seq<seq<byte>>, rest: seq<byte>)
    requires c.Valid() && forall i :: 0 <= i < |bodies| ==> Admissible(c, bodies[i])
    ensures var frames := seq(|bodies|, i requires 0 <= i < |bodies| => Encoded(c, bodies[i]));
      var messages := seq(|bodies|, i requires 0 <= i < |bodies| => Expected(c, bodies[i]));
      DecodeMany(DecodeWith(c), Concat(frames) + rest, |bodies|) == Some((messages, rest))
  {
    var frames := seq(|bodies|, i requires 0 <= i < |bodies| => Encoded(c, bodies[i]));
    var messages := seq(|bodies|, i requires 0 <= i < |bodies| => Expected(c, bodies[i]));
    forall i, left | 0 <= i < |frames| ensures DecodeWith(c)(frames[i] + left) == Some((messages[i], left)) {
      RoundTrip(c, bodies[i], left);
      EncodedIs(c, bodies[i]);
      DecodeIsHandleRead(c, frames[i] + left, Posted(messages[i], |frames[i]|));
    }
    FramesDecode(DecodeWith(c), frames, messages, rest);
  }

  /** The read loop of a channel over this codec: `n` frames, or fewer when one cannot be decoded. */
  method ReadMany(c: Codec, reader: Reader, n: nat) returns (frames: seq<seq<byte>>, ok: bool)
    requires c.Valid()
    modifies reader
    ensures DecodeMany(DecodeWith(c), old(reader.rest), n) == if ok then Some((frames, reader.rest)) else None
  {
    ghost var dec := DecodeWith(c);
    frames := [];
    PrependEnds(frames, DecodeMany(dec, reader.rest, n), reader.rest);
    for i := 0 to n
      invariant DecodeMany(dec, old(reader.rest), n) == Prepend(frames, DecodeMany(dec, reader.rest, n - i))
    {
      ghost var s := reader.rest;
      var r := HandleRead(c, reader);
      DecodeIsHandleRead(c, s, r);
      if !r.Posted? {
        return frames, false;
      }
      DecodeStep(dec, frames, s, r.frame, reader.rest, n - i);
      frames := frames + [r.frame];
    }
    PrependEnds(frames, None, reader.rest);
    return frames, true;
  }
}
