/** The length-field codec and its prepender (`codec/frame/length_field.go`, `length_field_prepender.go`). */
module LengthField {
  import opened Common
  import opened Streams


  predicate IsInt64(x: int) { -TWO_63 <= x < TWO_63 }

  /** A 64-bit signed sum, wrapping around. */
  function Add64(a: int, b: int): (r: int)
    requires IsInt64(a) && IsInt64(b)
    ensures IsInt64(r) && (r == a + b || r == a + b - TWO_64 || r == a + b + TWO_64)
  {
    if a + b >= TWO_63 then a + b - TWO_64 else if a + b < -TWO_63 then a + b + TWO_64 else a + b
  }

  datatype ByteOrder = BigEndian | LittleEndian

  datatype Config = Config(
    byteOrder: ByteOrder,
    maxFrameLength: int,
    lengthFieldOffset: int,
    lengthFieldLength: int,
    lengthAdjustment: int,
    initialBytesToStrip: int)
  {
    /** What the constructor insists on, on 64-bit integers. */
    predicate Valid()
    {
      && 0 < maxFrameLength < TWO_63
      && 0 <= lengthFieldOffset
      && 0 <= initialBytesToStrip < TWO_63
      && IsWidth(lengthFieldLength)
      && lengthFieldOffset <= maxFrameLength - lengthFieldLength
      && IsInt64(lengthAdjustment)
    }

    function EndOffset(): (e: int)
    {
      lengthFieldOffset + lengthFieldLength
    }
  }

  predicate IsWidth(w: int) { w == 1 || w == 2 || w == 4 || w == 8 }

  // ---------------------------------------------------------------- numbers in bytes

  /** 256^w. */
  function Pow256(w: nat): (p: nat)
    ensures p >= 1
  {
    if w == 0 then 1 else 256 * Pow256(w - 1)
  }

  /** The number whose least significant byte comes first. */
  function FromLittle(bs: seq<byte>): (v: nat)
    ensures v < Pow256(|bs|)
  {
    if bs == [] then 0 else bs[0] as int + 256 * FromLittle(bs[1..])
  }

  /** The low `w` bytes of `v`, least significant first. */
  function ToLittle(v: nat, w: nat): (bs: seq<byte>)
    ensures |bs| == w
    decreases w
  {
    if w == 0 then [] else [(v % 256) as byte] + ToLittle(v / 256, w - 1)
  }

  function Ordered(order: ByteOrder, bs: seq<byte>): (r: seq<byte>)
    ensures |r| == |bs|
  {
    if order.BigEndian? then Reversed(bs) else bs
  }

  /** `unpackFieldLength`: an 8-byte field is reinterpreted as a signed 64-bit number. */
  function UnpackFieldLength(order: ByteOrder, field: seq<byte>): (v: int)
    requires IsWidth(|field|)
    ensures IsInt64(v)
  {
    var u := FromLittle(Ordered(order, field));
    WidthBounds(|field|);
    if u >= TWO_63 then u - TWO_64 else u
  }

  /** The bit pattern of a signed 64-bit number as an unsigned one. */
  function Unsigned(v: int): (u: nat)
    requires IsInt64(v)
  {
    if v < 0 then v + TWO_64 else v
  }

  /** `packFieldLength`: conversions to the field's width keep the low bytes only. */
  function PackFieldLength(order: ByteOrder, width: int, dataLen: int): (field: seq<byte>)
    requires IsWidth(width) && IsInt64(dataLen)
    ensures |field| == width
  {
    Ordered(order, ToLittle(Unsigned(dataLen), width))
  }

  lemma WidthBounds(w: nat)
    requires IsWidth(w)
    ensures Pow256(w) <= TWO_64 && (w < 8 ==> Pow256(w) <= TWO_63) && (w == 8 ==> Pow256(w) == TWO_64)
  {
  }

  lemma {:induction false} LittleRoundTrip(v: nat, w: nat)
    ensures FromLittle(ToLittle(v, w)) == v % Pow256(w)
    decreases w
  {
    if w == 0 {
    } else {
      LittleRoundTrip(v / 256, w - 1);
      ModSplit(v, Pow256(w - 1));
    }
  }

  lemma ModSplit(v: nat, p: nat)
    requires p >= 1
    ensures v % (256 * p) == v % 256 + 256 * ((v / 256) % p)
  {
    var q, r := (v / 256) / p, (v / 256) % p;
    assert v / 256 == q * p + r;
    var low := v % 256 + 256 * r;
    assert v == (256 * p) * q + low by {
      assert 256 * (q * p) == (256 * p) * q;
    }
    assert 0 <= low < 256 * p;
    ModUnique(v, 256 * p, q, low);
  }

  lemma ModUnique(v: nat, d: nat, q: nat, r: nat)
    requires d >= 1 && v == d * q + r && r < d
    ensures v % d == r
  {
    var q' := v / d;
    var r' := v % d;
    assert v == d * q' + r';
    assert d * (q - q') == r' - r;
    NoMultipleBetween(d, q - q');
  }

  lemma NoMultipleBetween(d: int, x: int)
    requires d >= 1 && -d < d * x < d
    ensures x == 0
  {
  }

  /** Storing an unsigned number in `width` bytes keeps it exactly when it fits. */
  lemma LowBytes(u: nat, width: nat)
    ensures FromLittle(ToLittle(u, width)) == u <==> u < Pow256(width)
    ensures FromLittle(ToLittle(u, width)) < Pow256(width)
  {
  }

  lemma OrderedTwice(order: ByteOrder, bs: seq<byte>)
    ensures Ordered(order, Ordered(order, bs)) == bs
  {
  }

  lemma SignedBack(v: int, f: nat, pow: nat, wide: bool)
    requires IsInt64(v) && f < pow && (f == Unsigned(v) <==> Unsigned(v) < pow)
    requires if wide then pow == TWO_64 else pow <= TWO_63
    ensures (if f >= TWO_63 then f - TWO_64 else f) == v <==> wide || 0 <= v < pow
  {
  }

  /**
   A packed length reads back as itself exactly when it is non-negative and fits the field; an 8-byte field
   keeps negative values too, as their bit patterns.
   */
  lemma FieldRoundTrip(order: ByteOrder, width: int, v: int)
    requires IsWidth(width) && IsInt64(v)
    ensures UnpackFieldLength(order, PackFieldLength(order, width, v)) == v <==> (width == 8 || 0 <= v < Pow256(width))
  {
    var bs := ToLittle(Unsigned(v), width);
    OrderedTwice(order, bs);
    LowBytes(Unsigned(v), width);
    WidthBounds(width);
    SignedBack(v, FromLittle(bs), Pow256(width), width == 8);
  }

  // ---------------------------------------------------------------- acceptance

  datatype Check =
    | NegativeField
    | ShorterThanHeader
    | TooLarge
    | ShorterThanStrip
    | Accepted(frameLength: int)

  /** The checks of `HandleRead` on a complete header, in their order, with 64-bit arithmetic. */
  function CheckHeader(c: Config, header: seq<byte>): (r: Check)
    requires c.Valid() && |header| == c.EndOffset()
  {
    var field := UnpackFieldLength(c.byteOrder, header[c.lengthFieldOffset..c.EndOffset()]);
    if field < 0 then NegativeField
    else
      var frameLength := Add64(field, Add64(c.lengthAdjustment, c.EndOffset()));
      if frameLength < c.EndOffset() then ShorterThanHeader
      else if frameLength > c.maxFrameLength then TooLarge
      else if c.initialBytesToStrip > frameLength then ShorterThanStrip
      else Accepted(frameLength)
  }

  // ---------------------------------------------------------------- byte order

  /** The number the bytes of a field spell, the most significant byte first (`BigEndian`) or last. */
  ghost function Number(order: ByteOrder, field: seq<byte>): (v: nat)
  {
    if field == [] then 0
    else
      match order
      case BigEndian => 256 * Number(order, field[..|field| - 1]) + field[|field| - 1] as int
      case LittleEndian => 256 * Number(order, field[1..]) + field[0] as int
  }

  lemma {:induction false} NumberIs(order: ByteOrder, field: seq<byte>)
    ensures FromLittle(Ordered(order, field)) == Number(order, field)
    decreases |field|
  {
    if field != [] {
      match order
      case BigEndian =>
        var front := field[..|field| - 1];
        assert Reversed(field)[1..] == Reversed(front) && Reversed(field)[0] == field[|field| - 1];
        NumberIs(order, front);
      case LittleEndian =>
        NumberIs(order, field[1..]);
    }
  }

  /** `unpackFieldLength` in terms of the bytes: the number they spell, reinterpreted where it has its highest bit set. */
  lemma UnpackIs(order: ByteOrder, field: seq<byte>)
    requires IsWidth(|field|)
    ensures var u := Number(order, field); UnpackFieldLength(order, field) == if u >= TWO_63 then u - TWO_64 else u
  {
    NumberIs(order, field);
  }

  /** What that is for fields of one, two and four bytes. */
  lemma NumberOfBytes(field: seq<byte>)
    ensures |field| == 1 ==> Number(BigEndian, field) == Number(LittleEndian, field) == field[0] as int
    ensures |field| == 2 ==>
      && Number(BigEndian, field) == field[0] as int * 256 + field[1] as int
      && Number(LittleEndian, field) == field[0] as int + field[1] as int * 256
    ensures |field| == 4 ==>
      && Number(BigEndian, field)
           == field[0] as int * 0x100_0000 + field[1] as int * 0x1_0000 + field[2] as int * 0x100 + field[3] as int
      && Number(LittleEndian, field)
           == field[0] as int + field[1] as int * 0x100 + field[2] as int * 0x1_0000 + field[3] as int * 0x100_0000
  {
    NumberSnoc(field);
    if |field| == 2 {
      OneByte(field[..1]);
      OneByte(field[1..]);
    }
    if |field| == 4 {
      var high, low := field[..3], field[1..];
      NumberSnoc(high);
      NumberSnoc(low);
      NumberSnoc(high[..2]);
      NumberSnoc(low[1..]);
      OneByte(high[..2][..1]);
      OneByte(low[1..][1..]);
    }
  }

  lemma OneByte(field: seq<byte>)
    requires |field| == 1
    ensures Number(BigEndian, field) == Number(LittleEndian, field) == field[0] as int
  {
  }

  lemma NumberSnoc(field: seq<byte>)
    ensures field != [] ==>
      && Number(BigEndian, field) == 256 * Number(BigEndian, field[..|field| - 1]) + field[|field| - 1] as int
      && Number(LittleEndian, field) == 256 * Number(LittleEndian, field[1..]) + field[0] as int
    ensures field == [] ==> Number(BigEndian, field) == Number(LittleEndian, field) == 0
  {
  }

  lemma DivTwice(v: nat, p: nat)
    requires p >= 1
    ensures (v / 256) / p == v / (256 * p)
  {
    var q, r := v / (256 * p), v % (256 * p);
    assert v == 256 * (p * q) + r by { assert (256 * p) * q == 256 * (p * q); }
    var x := r / 256;
    assert v / 256 == p * q + x && 0 <= x < p;
    QuotientIs(v / 256, p, q, x);
  }

  lemma QuotientIs(v: nat, d: nat, q: nat, r: nat)
    requires d >= 1 && v == d * q + r && r < d
    ensures v / d == q
  {
    var q' := v / d;
    assert v == d * q' + v % d;
    assert d * (q - q') == v % d - r;
    NoMultipleBetween(d, q - q');
  }

  lemma {:induction false} LittleDigit(v: nat, w: nat, i: nat)
    requires i < w
    ensures ToLittle(v, w)[i] as int == (v / Pow256(i)) % 256
    decreases i
  {
    if i > 0 {
      LittleDigit(v / 256, w - 1, i - 1);
      DivTwice(v, Pow256(i - 1));
    }
  }

  /** `packFieldLength` in terms of the bytes: each is one digit of the number, most significant first for `BigEndian`;
   a negative number is packed as its bit pattern. */
  lemma PackedByte(order: ByteOrder, width: int, v: int, i: nat)
    requires IsWidth(width) && IsInt64(v) && i < width
    ensures var bits := if v < 0 then v + TWO_64 else v;
      PackFieldLength(order, width, v)[i] as int == (bits / Pow256(if order == BigEndian then width - 1 - i else i)) % 256
  {
    LittleDigit(Unsigned(v), width, i);
    LittleDigit(Unsigned(v), width, width - 1 - i);
  }

  /**
   Acceptance is sound under wrap-around: with the field as an unsigned number and the mathematical adjusted
   length, the outcome is decided by the limits alone, and a sum that wrapped is always rejected.
   */
  lemma AcceptedIffInLimits(c: Config, header: seq<byte>)
    requires c.Valid() && |header| == c.EndOffset()
    ensures var u := Number(c.byteOrder, header[c.lengthFieldOffset..c.EndOffset()]);
      var exact := u + c.lengthAdjustment + c.EndOffset();
      && (CheckHeader(c, header).Accepted? <==>
            u < TWO_63 && c.EndOffset() <= exact <= c.maxFrameLength && c.initialBytesToStrip <= exact)
      && CheckHeader(c, header) ==
           (if u >= TWO_63 then NegativeField
            else if exact < c.EndOffset() || exact >= TWO_63 then ShorterThanHeader
            else if exact > c.maxFrameLength then TooLarge
            else if exact < c.initialBytesToStrip then ShorterThanStrip
            else Accepted(exact))
  {
    hide FromLittle, Ordered, Number;
    WidthBounds(|header[c.lengthFieldOffset..c.EndOffset()]|);
    NumberIs(c.byteOrder, header[c.lengthFieldOffset..c.EndOffset()]);
  }

  // ---------------------------------------------------------------- decoding

  /** What `HandleRead` and a reader downstream that reads the frame to its end make of a whole stream. */
  function Decode(c: Config, s: seq<byte>): (r: Option<(seq<byte>, seq<byte>)>)
    requires c.Valid()
  {
    if |s| < c.EndOffset() then None
    else
      match CheckHeader(c, s[..c.EndOffset()])
      case Accepted(n) =>
        var k := Min(n, |s|);
        if c.initialBytesToStrip > k then None else Some((s[c.initialBytesToStrip..k], s[k..]))
      case _ => None
  }

  /**
   The same in terms of the bytes of the stream: when the length they announce is within the limits, the frame
   without its first bytes is cut off, shortened if the stream ends first, and the rest is left.
   */
  lemma DecodeIs(c: Config, s: seq<byte>)
    requires c.Valid()
    ensures |s| < c.EndOffset() ==> Decode(c, s) == None
    ensures |s| >= c.EndOffset() ==>
      var u := Number(c.byteOrder, s[c.lengthFieldOffset..c.EndOffset()]);
      var n := u + c.lengthAdjustment + c.EndOffset();
      if u < TWO_63 && c.EndOffset() <= n <= c.maxFrameLength && c.initialBytesToStrip <= Min(n, |s|)
      then Decode(c, s) == Some((s[..Min(n, |s|)][c.initialBytesToStrip..], s[Min(n, |s|)..]))
      else Decode(c, s) == None
  {
    hide CheckHeader, Number;
    if |s| >= c.EndOffset() {
      var header := s[..c.EndOffset()];
      AcceptedIffInLimits(c, header);
      assert header[c.lengthFieldOffset..c.EndOffset()] == s[c.lengthFieldOffset..c.EndOffset()];
    }
  }

  /** `HandleRead`: the frame posted downstream as a reader, or null for a panic. */
  method HandleRead(c: Config, reader: Reader) returns (frame: FrameReader?)
    requires c.Valid()
    modifies reader
    ensures frame != null ==> fresh(frame) && frame.src == reader
    ensures Decode(c, old(reader.rest)) == if frame == null then None else Some((frame.Content(), frame.Behind()))
  {
    ghost var s := reader.rest;
    var end := c.lengthFieldOffset + c.lengthFieldLength;
    var headerBuffer := ReadFull(reader, end);
    if |headerBuffer| != end {
      return null;
    }
    assert headerBuffer == s[..end] && reader.rest == s[end..];
    var lengthFieldBuff := headerBuffer[c.lengthFieldOffset..end];
    var frameLength := UnpackFieldLength(c.byteOrder, lengthFieldBuff);
    if frameLength < 0 {
      return null;
    }
    frameLength := Add64(frameLength, Add64(c.lengthAdjustment, end));
    if frameLength < end {
      return null;
    }
    if frameLength > c.maxFrameLength {
      return null;
    }
    if c.initialBytesToStrip > frameLength {
      return null;
    }
    frame := new FrameReader(headerBuffer, reader, frameLength - end);
    WholeFrame(s, end, frameLength);
    assert frame.Content() == s[..Min(frameLength, |s|)] && frame.Behind() == s[Min(frameLength, |s|)..];
    if c.initialBytesToStrip > 0 {
      var n := frame.Skip(c.initialBytesToStrip);
      if n != c.initialBytesToStrip {
        return null;
      }
    }
  }

  lemma WholeFrame(s: seq<byte>, end: nat, n: nat)
    requires end <= |s| && end <= n
    ensures var rest := s[end..]; var k := Min(n - end, |rest|);
      s[..end] + rest[..k] == s[..Min(n, |s|)] && rest[k..] == s[Min(n, |s|)..]
  {
  }

  // ---------------------------------------------------------------- encoding

  datatype Prepender = Prepender(byteOrder: ByteOrder, lengthFieldLength: int, lengthAdjustment: int, includesField: bool) {
    predicate Valid() { IsWidth(lengthFieldLength) && IsInt64(lengthAdjustment) }
  }

  /** The length value written for a body, with 64-bit arithmetic. */
  function LengthValue(p: Prepender, bodyLen: int): (v: int)
    requires p.Valid() && 0 <= bodyLen < TWO_63
    ensures IsInt64(v)
  {
    var length := Add64(bodyLen, p.lengthAdjustment);
    if p.includesField then Add64(length, p.lengthFieldLength) else length
  }

  /** `HandleWrite` of the prepender: header, then body. */
  function HandleWrite(p: Prepender, body: seq<byte>): (pieces: seq<seq<byte>>)
    requires p.Valid() && |body| < TWO_63
  {
    [PackFieldLength(p.byteOrder, p.lengthFieldLength, LengthValue(p, |body|)), body]
  }

  function Encoded(p: Prepender, body: seq<byte>): (w: seq<byte>)
    requires p.Valid() && |body| < TWO_63
    ensures w == HandleWrite(p, body)[0] + body && |w| == p.lengthFieldLength + |body|
  {
    var pieces := HandleWrite(p, body);
    assert pieces[1..] == [body];
    ConcatOne(body);
    Concat(pieces)
  }

  /** Encoder and decoder agree on everything but the sizes of the frames. */
  ghost predicate Matching(c: Config, p: Prepender)
  {
    && c.Valid() && p.Valid()
    && c.lengthFieldOffset == 0
    && p.byteOrder == c.byteOrder && p.lengthFieldLength == c.lengthFieldLength
    && p.lengthAdjustment + c.lengthAdjustment + (if p.includesField then p.lengthFieldLength else 0) == 0
  }

  /** The frame can be encoded and accepted. */
  ghost predicate Fitting(c: Config, p: Prepender, body: seq<byte>)
    requires p.Valid()
  {
    var v := |body| + p.lengthAdjustment + (if p.includesField then p.lengthFieldLength else 0);
    && |body| < TWO_63
    && 0 <= v < Pow256(p.lengthFieldLength) && v < TWO_63
    && p.lengthFieldLength + |body| <= c.maxFrameLength
    && c.initialBytesToStrip <= p.lengthFieldLength + |body|
  }

  lemma ValueWithoutWrap(p: Prepender, n: int)
    requires p.Valid() && 0 <= n < TWO_63
    requires var v := n + p.lengthAdjustment + (if p.includesField then p.lengthFieldLength else 0); 0 <= v < TWO_63
    ensures LengthValue(p, n) == n + p.lengthAdjustment + (if p.includesField then p.lengthFieldLength else 0)
  {
  }

  /** A length that fits the field comes out of it as the same unsigned number. */
  lemma HeaderField(order: ByteOrder, width: int, v: int)
    requires IsWidth(width) && 0 <= v < TWO_63 && v < Pow256(width)
    ensures FromLittle(Ordered(order, PackFieldLength(order, width, v))) == v
  {
    hide FromLittle, ToLittle, Ordered, Pow256, PackFieldLength;
    WidthBounds(width);
    FieldRoundTrip(order, width, v);
  }

  /** The length field is the whole header. */
  lemma WholeHeader(c: Config, p: Prepender, body: seq<byte>)
    requires Matching(c, p) && |body| < TWO_63
    ensures var header := HandleWrite(p, body)[0];
      && |header| == c.EndOffset() == p.lengthFieldLength
      && header[c.lengthFieldOffset..c.EndOffset()] == header == PackFieldLength(c.byteOrder, c.lengthFieldLength, LengthValue(p, |body|))
  {
  }

  /** The header is accepted with the frame's true length exactly when the frame fits. */
  lemma AcceptsOwnHeaderIff(c: Config, p: Prepender, body: seq<byte>)
    requires Matching(c, p) && |body| < TWO_63
    ensures var header := HandleWrite(p, body)[0];
      |header| == c.EndOffset() && (CheckHeader(c, header) == Accepted(p.lengthFieldLength + |body|) <==> Fitting(c, p, body))
  {
    hide CheckHeader, PackFieldLength, LengthValue, FromLittle, Ordered, Pow256;
    WholeHeader(c, p, body);
    if Fitting(c, p, body) {
      AcceptsOwnHeader(c, p, body);
    } else {
      NumberIs(c.byteOrder, HandleWrite(p, body)[0]);
      AcceptedIffInLimits(c, HandleWrite(p, body)[0]);
    }
  }

  /** The usual pair: the length of the body in four bytes in front, stripped again. */
  lemma UsualPair(order: ByteOrder, max: int, body: seq<byte>)
    requires 4 <= max < 0x1_0000_0000
    ensures var c, p := Config(order, max, 0, 4, 0, 4), Prepender(order, 4, 0, false);
      Matching(c, p) && (|body| <= max - 4 <==> Fitting(c, p, body))
  {
    assert Pow256(2) == 0x1_0000;
    assert Pow256(4) == 0x1_0000_0000;
  }

  lemma AcceptsOwnHeader(c: Config, p: Prepender, body: seq<byte>)
    requires Matching(c, p) && Fitting(c, p, body)
    ensures CheckHeader(c, HandleWrite(p, body)[0]) == Accepted(p.lengthFieldLength + |body|)
  {
    hide CheckHeader, PackFieldLength, LengthValue, FromLittle, Ordered, Pow256;
    ValueWithoutWrap(p, |body|);
    WholeHeader(c, p, body);
    HeaderField(c.byteOrder, c.lengthFieldLength, LengthValue(p, |body|));
    NumberIs(c.byteOrder, HandleWrite(p, body)[0]);
    AcceptedIffInLimits(c, HandleWrite(p, body)[0]);
  }

  /** A fitting frame decodes to itself, stripped, and leaves what follows. */
  lemma RoundTrip(c: Config, p: Prepender, body: seq<byte>, rest: seq<byte>)
    requires Matching(c, p) && Fitting(c, p, body)
    ensures var w := Encoded(p, body); Decode(c, w + rest) == Some((w[c.initialBytesToStrip..], rest))
  {
    var w := Encoded(p, body);
    var s := w + rest;
    AcceptsOwnHeader(c, p, body);
    assert s[..c.EndOffset()] == HandleWrite(p, body)[0];
    assert s[c.initialBytesToStrip..|w|] == w[c.initialBytesToStrip..] && s[|w|..] == rest;
  }

  ghost function DecodeWith(c: Config): Decoder
    requires c.Valid()
  {
    (s: seq<byte>) => Decode(c, s)
  }

  ghost function EncodeAll(p: Prepender, bodies: seq<seq<byte>>): seq<seq<byte>>
    requires p.Valid() && forall i :: 0 <= i < |bodies| ==> |bodies[i]| < TWO_63
  {
    seq(|bodies|, i requires 0 <= i < |bodies| => Encoded(p, bodies[i]))
  }

  /** The frames without their first `strip` bytes. */
  ghost function StripAll(frames: seq<seq<byte>>, strip: nat): seq<seq<byte>>
  {
    seq(|frames|, i requires 0 <= i < |frames| => if strip <= |frames[i]| then frames[i][strip..] else [])
  }

  /** Any concatenation of encoded frames, each read to its end, decodes one by one and leaves the rest untouched. */
  lemma StreamRoundTrip(c: Config, p: Prepender, bodies: seq<seq<byte>>, rest: seq<byte>)
    requires Matching(c, p) && forall i :: 0 <= i < |bodies| ==> |bodies[i]| < TWO_63 && Fitting(c, p, bodies[i])
    ensures var frames := EncodeAll(p, bodies);
      DecodeMany(DecodeWith(c), Concat(frames) + rest, |bodies|) == Some((StripAll(frames, c.initialBytesToStrip), rest))
  {
    var frames := EncodeAll(p, bodies);
    var messages := StripAll(frames, c.initialBytesToStrip);
    forall i, left | 0 <= i < |frames| ensures DecodeWith(c)(frames[i] + left) == Some((messages[i], left)) {
      RoundTrip(c, p, bodies[i], left);
    }
    FramesDecode(DecodeWith(c), frames, messages, rest);
  }

  /** One frame, read to its end downstream. */
  method ReadFrame(c: Config, reader: Reader) returns (message: Option<seq<byte>>)
    requires c.Valid()
    modifies reader
    ensures DecodeWith(c)(old(reader.rest)) == if message == None then None else Some((message.value, reader.rest))
  {
    hide CheckHeader;
    var frame := HandleRead(c, reader);
    if frame == null {
      return None;
    }
    var all := frame.Drain();
    return Some(all);
  }

  /** The read loop over this codec, each frame read to its end downstream. */
  method ReadMany(c: Config, reader: Reader, n: nat) returns (frames: seq<seq<byte>>, ok: bool)
    requires c.Valid()
    modifies reader
    ensures DecodeMany(DecodeWith(c), old(reader.rest), n) == if ok then Some((frames, reader.rest)) else None
  {
    hide DecodeWith;
    ghost var dec := DecodeWith(c);
    frames := [];
    PrependEnds(frames, DecodeMany(dec, reader.rest, n), reader.rest);
    for i := 0 to n
      invariant DecodeMany(dec, old(reader.rest), n) == Prepend(frames, DecodeMany(dec, reader.rest, n - i))
    {
      ghost var s := reader.rest;
      var message := ReadFrame(c, reader);
      if message == None {
        return frames, false;
      }
      DecodeStep(dec, frames, s, message.value, reader.rest, n - i);
      frames := frames + [message.value];
    }
    PrependEnds(frames, None, reader.rest);
    return frames, true;
  }
}
