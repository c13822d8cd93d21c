/**
 The varint length codec (`codec/frame/varint_length.go`): a base-128 length, least significant group first,
 with the high bit of every byte but the last set ("Base 128 Varints" of the Protocol Buffers encoding guide,
 the unsigned LEB128 of section 7.6 of DWARF Version 5), then the body.
 */
module Varint {
  import opened Common
  import opened Streams

  const MAX_VARINT_LEN: nat := 10

  // ---------------------------------------------------------------- specification

  function Pow128(k: nat): (p: nat)
    ensures p >= 1
  {
    if k == 0 then 1 else 128 * Pow128(k - 1)
  }

  /** The number the low seven bits of the bytes spell, least significant group first. */
  function Base128(bs: seq<byte>): (v: nat)
    ensures v < Pow128(|bs|)
  {
    if bs == [] then 0 else (bs[0] as int) % 128 + 128 * Base128(bs[1..])
  }

  /** Every byte but the last has its high bit set, and the last has not. */
  ghost predicate IsVarint(bs: seq<byte>)
  {
    && bs != []
    && (forall i :: 0 <= i < |bs| - 1 ==> bs[i] >= 128)
    && bs[|bs| - 1] < 128
  }

  datatype Uvarint = Value(v: nat, n: nat) | Overflow | EndOfStream

  /** The first `n` bytes of the stream are a varint of at most ten bytes. */
  ghost predicate StartsWithVarint(s: seq<byte>, n: nat)
  {
    && 0 < n <= |s| && n <= MAX_VARINT_LEN
    && (forall i :: 0 <= i < n - 1 ==> s[i] >= 128)
    && s[n - 1] < 128
  }

  /** What `binary.ReadUvarint` must make of a stream: the 64-bit number of the varint at its start. */
  ghost function Parse(s: seq<byte>): Uvarint
  {
    if n: nat :| StartsWithVarint(s, n) then
      if Base128(s[..n]) < TWO_64 then Value(Base128(s[..n]), n) else Overflow
    else if |s| >= MAX_VARINT_LEN then Overflow
    else EndOfStream
  }

  lemma ParseIs(s: seq<byte>, n: nat)
    requires StartsWithVarint(s, n)
    ensures Parse(s) == if Base128(s[..n]) < TWO_64 then Value(Base128(s[..n]), n) else Overflow
  {
  }

  /** With nothing but continuation bytes there is no varint. */
  lemma ParseNone(s: seq<byte>, n: nat)
    requires n <= |s| && n <= MAX_VARINT_LEN && forall i :: 0 <= i < n ==> s[i] >= 128
    ensures n == |s| < MAX_VARINT_LEN ==> Parse(s) == EndOfStream
    ensures n == MAX_VARINT_LEN ==> Parse(s) == Overflow
  {
  }

  // ---------------------------------------------------------------- reading

  lemma {:induction false} Base128Snoc(bs: seq<byte>, b: byte)
    ensures Base128(bs + [b]) == Base128(bs) + (b as int % 128) * Pow128(|bs|)
  {
    if bs == [] {
      assert [b][1..] == [];
      assert bs + [b] == [b];
    } else {
      assert (bs + [b])[1..] == bs[1..] + [b];
      Base128Snoc(bs[1..], b);
      NextGroup(b as int % 128, Pow128(|bs| - 1));
    }
  }

  lemma NextGroup(m: nat, p: nat)
    ensures 128 * (m * p) == m * (128 * p)
  {
  }

  lemma Tens()
    ensures Pow128(9) == TWO_63 && Pow128(10) == 64 * TWO_64
  {
  }

  /**
   `binary.ReadUvarint` over the one-byte reads of `byteReader`: it never takes a byte past the varint.
   (Shifting a group left and or-ing it in is adding it, because the groups do not overlap.)
   */
  method ReadUvarint(reader: Reader) returns (r: Uvarint)
    modifies reader
    ensures r == Parse(old(reader.rest))
    ensures r.Value? ==> r.n <= |old(reader.rest)| && reader.rest == old(reader.rest)[r.n..]
  {
    hide Parse, Base128, Pow128;
    GroupPowers(0);
    ghost var s := reader.rest;
    ghost var taken: seq<byte> := [];
    var x, scale := 0, 1;
    for i := 0 to MAX_VARINT_LEN
      invariant |taken| == i && s == taken + reader.rest
      invariant forall j :: 0 <= j < i ==> taken[j] >= 128
      invariant x == Base128(taken) && scale == Pow128(i)
    {
      var b := ReadOne(reader);
      if b == None {
        ParseNone(s, i);
        return EndOfStream;
      }
      if b.value < 128 {
        SnocLast(taken, b.value);
        LastByte(taken, b.value, reader.rest);
        if i == MAX_VARINT_LEN - 1 && b.value > 1 {
          return Overflow;
        }
        return Value(x + (b.value as int) * scale, i + 1);
      }
      Base128Snoc(taken, b.value);
      GroupPowers(i);
      taken := taken + [b.value];
      x := x + (b.value as int % 128) * scale;
      scale := scale * 128;
    }
    ParseNone(s, MAX_VARINT_LEN);
    return Overflow;
  }

  lemma GroupPowers(i: nat)
    ensures Base128([]) == 0 && Pow128(0) == 1 && Pow128(i + 1) == 128 * Pow128(i)
  {
  }

  lemma StartsHere(taken: seq<byte>, b: byte, rest: seq<byte>)
    requires |taken| < MAX_VARINT_LEN && b < 128 && forall j :: 0 <= j < |taken| ==> taken[j] >= 128
    ensures var s := taken + ([b] + rest); var n := |taken| + 1;
      StartsWithVarint(s, n) && s[..n] == taken + [b] && s[n..] == rest
  {
  }

  lemma SnocLast(taken: seq<byte>, b: byte)
    requires b < 128
    ensures Base128(taken + [b]) == Base128(taken) + (b as int) * Pow128(|taken|)
  {
    Base128Snoc(taken, b);
    SmallGroup(b, Pow128(|taken|));
  }

  lemma SmallGroup(b: byte, p: nat)
    requires b < 128
    ensures (b as int % 128) * p == (b as int) * p
  {
  }

  lemma SnocFits(taken: seq<byte>, b: byte)
    requires |taken| < MAX_VARINT_LEN && b < 128
    ensures Base128(taken + [b]) >= TWO_64 <==> |taken| == MAX_VARINT_LEN - 1 && b > 1
  {
    SnocLast(taken, b);
    GroupFits(|taken|, Base128(taken), b);
  }

  /** What the last byte of a varint makes of the groups before it. */
  lemma LastByte(taken: seq<byte>, b: byte, rest: seq<byte>)
    requires |taken| < MAX_VARINT_LEN && b < 128 && forall j :: 0 <= j < |taken| ==> taken[j] >= 128
    ensures Parse(taken + ([b] + rest)) ==
      if |taken| == MAX_VARINT_LEN - 1 && b > 1 then Overflow else Value(Base128(taken + [b]), |taken| + 1)
    ensures (taken + ([b] + rest))[|taken| + 1..] == rest
  {
    StartsHere(taken, b, rest);
    ParseIs(taken + ([b] + rest), |taken| + 1);
    SnocFits(taken, b);
  }

  /** Nine groups, or a tenth of at most one bit, are what fits in 64 bits. */
  lemma GroupFits(i: nat, x: nat, b: byte)
    requires i < MAX_VARINT_LEN && x < Pow128(i) && b < 128
    ensures x + (b as int) * Pow128(i) >= TWO_64 <==> i == MAX_VARINT_LEN - 1 && b > 1
  {
    Tens();
    if i < 9 {
      PowUpTo9(i + 1);
      assert (b as int) * Pow128(i) <= 127 * Pow128(i);
    } else if b > 1 {
      assert (b as int) * Pow128(9) >= 2 * Pow128(9);
    } else {
      assert (b as int) * Pow128(9) <= Pow128(9);
    }
  }

  lemma {:induction false} PowUpTo9(k: nat)
    requires k <= 9
    ensures Pow128(k) <= Pow128(9)
    decreases 9 - k
  {
    if k < 9 {
      PowUpTo9(k + 1);
    }
  }

  // ---------------------------------------------------------------- writing

  /** The varint of `v`. */
  function PutUvarint(v: nat): (bs: seq<byte>)
  {
    if v < 128 then [v as byte] else [(v % 128 + 128) as byte] + PutUvarint(v / 128)
  }

  lemma {:induction false} PutIsVarint(v: nat)
    ensures IsVarint(PutUvarint(v)) && Base128(PutUvarint(v)) == v
  {
    var bs := PutUvarint(v);
    if v >= 128 {
      PutIsVarint(v / 128);
      assert bs[1..] == PutUvarint(v / 128);
    } else {
      assert bs[1..] == [];
    }
  }

  lemma {:induction false} PutLength(v: nat, k: nat)
    requires k >= 1 && v < Pow128(k)
    ensures |PutUvarint(v)| <= k
    decreases k
  {
    if v >= 128 {
      PutLength(v / 128, k - 1);
    }
  }

  lemma TenBytes(v: nat)
    requires v < TWO_64
    ensures |PutUvarint(v)| <= MAX_VARINT_LEN
  {
    Tens();
    PutLength(v, MAX_VARINT_LEN);
  }

  lemma PutStep(v: nat)
    ensures PutUvarint(v) == if v < 128 then [v as byte] else [(v % 128 + 128) as byte] + PutUvarint(v / 128)
  {
  }

  method Store(head: array<byte>, n: nat, b: byte)
    requires n < head.Length
    modifies head
    ensures head[..n + 1] == old(head[..n]) + [b]
  {
    head[n] := b;
  }

  /** `binary.PutUvarint` into the fixed ten-byte header array. */
  method PutInto(head: array<byte>, v: nat) returns (n: nat)
    requires head.Length == MAX_VARINT_LEN && v < TWO_64
    modifies head
    ensures n <= head.Length && head[..n] == PutUvarint(v)
  {
    hide PutUvarint;
    TenBytes(v);
    var x := v;
    n := 0;
    while x >= 128
      invariant n + |PutUvarint(x)| <= head.Length
      invariant PutUvarint(v) == head[..n] + PutUvarint(x)
      decreases x
    {
      PutStep(x);
      ghost var done, more := head[..n], PutUvarint(x / 128);
      var b := (x % 128 + 128) as byte;
      ConcatAssoc(done, [b], more);
      Store(head, n, b);
      x := x / 128;
      n := n + 1;
    }
    PutStep(x);
    Store(head, n, x as byte);
    n := n + 1;
  }

  // ---------------------------------------------------------------- the codec

  /** `VarintLengthFieldCodec` panics unless the maximum is positive. */
  datatype Codec = Codec(maxFrameLength: int) {
    predicate Valid() { 0 < maxFrameLength < TWO_63 }
  }

  /** `HandleWrite`: header, then payload; `None` is the panic on a body over the maximum. */
  method HandleWrite(c: Codec, body: seq<byte>) returns (pieces: Option<seq<seq<byte>>>)
    requires c.Valid()
    ensures pieces == if |body| > c.maxFrameLength then None else Some([PutUvarint(|body|), body])
  {
    if |body| > c.maxFrameLength {
      return None;
    }
    var head := new byte[MAX_VARINT_LEN];
    var n := PutInto(head, |body|);
    return Some([head[..n], body]);
  }

  /** What `HandleRead` and a reader downstream that reads the frame to its end make of a whole stream. */
  ghost function Decode(c: Codec, s: seq<byte>): Option<(seq<byte>, seq<byte>)>
  {
    match Parse(s)
    case Value(v, n) =>
      if v <= c.maxFrameLength && n <= |s| then
        var k := Min(v, |s| - n); Some((s[n..][..k], s[n..][k..]))
      else None
    case _ => None
  }

  /** `HandleRead`: the posted frame, a limited reader over the stream; null for a panic. */
  method HandleRead(c: Codec, reader: Reader) returns (frame: FrameReader?)
    requires c.Valid()
    modifies reader
    ensures frame != null ==> fresh(frame) && frame.src == reader
    ensures Decode(c, old(reader.rest)) == if frame == null then None else Some((frame.Content(), frame.Behind()))
  {
    ghost var s := reader.rest;
    var u := ReadUvarint(reader);
    if !u.Value? || u.v > c.maxFrameLength {
      return null;
    }
    frame := new FrameReader([], reader, u.v);
    assert frame.Content() == s[u.n..][..Min(u.v, |s| - u.n)];
  }

  ghost function Encoded(body: seq<byte>): seq<byte> { Concat([PutUvarint(|body|), body]) }

  lemma ParsePut(v: nat, rest: seq<byte>)
    requires v < TWO_64
    ensures Parse(PutUvarint(v) + rest) == Value(v, |PutUvarint(v)|)
  {
    var head := PutUvarint(v);
    PutIsVarint(v);
    TenBytes(v);
    assert (head + rest)[..|head|] == head && (head + rest)[|head| - 1] == head[|head| - 1];
    ParseIs(head + rest, |head|);
  }

  /**
   What the decoder makes of an announced length: above the maximum it is rejected, and otherwise the frame is that
   many bytes, or fewer if the stream ends first.
   */
  lemma DecodeAnnounced(c: Codec, v: nat, rest: seq<byte>)
    requires v < TWO_64
    ensures var k := Min(v, |rest|);
      Decode(c, PutUvarint(v) + rest) == if v > c.maxFrameLength then None else Some((rest[..k], rest[k..]))
  {
    var head := PutUvarint(v);
    ParsePut(v, rest);
    assert (head + rest)[|head|..] == rest;
  }

  /** Within the maximum, every body comes back and exactly the following stream is left. */
  lemma RoundTrip(c: Codec, body: seq<byte>, rest: seq<byte>)
    requires c.Valid() && |body| <= c.maxFrameLength
    ensures Decode(c, Encoded(body) + rest) == Some((body, rest))
  {
    var head := PutUvarint(|body|);
    assert [head, body][1..] == [body];
    ConcatOne(body);
    var s := head + (body + rest);
    assert Encoded(body) + rest == s;
    ParsePut(|body|, body + rest);
    assert s[|head|..] == body + rest;
    assert (body + rest)[..|body|] == body && (body + rest)[|body|..] == rest;
  }

  ghost function DecodeWith(c: Codec): Decoder
  {
    (s: seq<byte>) => Decode(c, s)
  }

  /** Any concatenation of written frames, each read to its end, decodes one by one and leaves the rest untouched. */
  lemma StreamRoundTrip(c: Codec, bodies: seq<seq<byte>>, rest: seq<byte>)
    requires c.Valid() && forall i :: 0 <= i < |bodies| ==> |bodies[i]| <= c.maxFrameLength
    ensures var frames := seq(|bodies|, i requires 0 <= i < |bodies| => Encoded(bodies[i]));
      DecodeMany(DecodeWith(c), Concat(frames) + rest, |bodies|) == Some((bodies, rest))
  {
    var frames := seq(|bodies|, i requires 0 <= i < |bodies| => Encoded(bodies[i]));
    forall i, left | 0 <= i < |frames| ensures DecodeWith(c)(frames[i] + left) == Some((bodies[i], left)) {
      RoundTrip(c, bodies[i], left);
    }
    FramesDecode(DecodeWith(c), frames, bodies, rest);
  }
}
