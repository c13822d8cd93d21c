/** Messages as readers and as byte slices (`utils/reader.go`). */
module MessageBytes {
  import opened Common
  import opened Slices
  import opened Messages
  import opened Streams

  /**
   `append(s, p...)`: in place when the capacity allows, otherwise in a new array of at least the needed size
   (`spare` bytes more).
   */
  method Append(s: Slice, p: Slice, spare: nat) returns (r: Slice)
    requires s.Valid() && p.Valid() && (p.len > 0 && s.len + p.len <= s.cap ==> s.data != p.data)
    modifies if p.len > 0 && s.len + p.len <= s.cap then {s.data} else {}
    ensures r.Valid() && Bytes(r) == old(Bytes(s)) + old(Bytes(p))
    ensures if s.len + p.len <= s.cap then r == s.(len := s.len + p.len) else fresh(r.data)
  {
    var n := s.len + p.len;
    if n > s.cap {
      r := Grow(s, p, n + spare);
    } else if p.len > 0 {
      r := Extend(s, p);
    } else {
      r := s.(len := n);
    }
  }

  /** `p` is copied behind `s` in the array of `s`. */
  method Extend(s: Slice, p: Slice) returns (r: Slice)
    requires s.Valid() && p.Valid() && s.len + p.len <= s.cap && s.data != p.data
    modifies s.data
    ensures r == s.(len := s.len + p.len) && Bytes(r) == old(Bytes(s)) + old(Bytes(p))
  {
    r := s.(len := s.len + p.len);
    var at := s.off + s.len;
    ghost var d := s.data[..];
    CopyTo(s.data, at, p);
    Grown(d, s.data[..], s.off, at, p.len);
  }

  /** The beginning of a window that was written to behind position `at` only. */
  lemma Grown(before: seq<byte>, after: seq<byte>, off: nat, at: nat, n: nat)
    requires off <= at <= at + n <= |after| == |before| && after[..at] == before[..at]
    ensures after[off..at + n] == before[off..at] + after[at..at + n]
  {
    assert after[off..at] == after[..at][off..] && before[off..at] == before[..at][off..];
    assert after[off..at + n] == after[off..at] + after[at..at + n];
  }

  /** Both slices, one behind the other, in a new array. */
  method Grow(s: Slice, p: Slice, size: nat) returns (r: Slice)
    requires s.Valid() && p.Valid() && s.len + p.len <= size
    ensures fresh(r.data) && r.Valid() && Bytes(r) == Bytes(s) + Bytes(p)
  {
    var n := s.len + p.len;
    var a := new byte[size](_ => 0);
    CopyTo(a, 0, s);
    CopyTo(a, s.len, p);
    r := Slice(a, 0, n, size);
    assert a[0..n] == a[..s.len] + a[s.len..n];
  }

  // ---------------------------------------------------------------- ByteStealer

  /** Collects what a writer-to writes: the first slice is taken over without copying, later ones are appended. */
  class ByteStealer {
    var data: Option<Slice>
    /** The arrays this stealer has allocated itself. */
    ghost var own: set<array<byte>>

    /** A slice that is not in an array of its own has no room to grow in place. */
    ghost predicate Valid()
      reads this
    {
      data.Some? ==> data.value.Valid() && (data.value.data in own || data.value.cap == data.value.len)
    }

    ghost function Content(): seq<byte>
      requires Valid()
      reads this, if data.Some? then {data.value.data} else {}
    {
      if data.Some? then Bytes(data.value) else []
    }

    constructor ()
      ensures Valid() && data == None && own == {}
    {
      data := None;
      own := {};
    }

    /**
     `Write`, of a slice that may be nil: then `Data` stays as it is, nil or not. Nothing but the stealer's own
     arrays is ever written to, so the sources keep their bytes.
     */
    method Write(p: Option<Slice>, spare: nat)
      requires Valid() && (p.Some? ==> p.value.Valid() && p.value.data !in own)
      modifies this, own
      ensures Valid() && Content() == old(Content()) + if p.Some? then old(Bytes(p.value)) else []
      ensures old(own) <= own && forall a :: a in own ==> a in old(own) || fresh(a)
      ensures old(data) == None ==> own == old(own) && data == if p.Some? then Some(p.value.(cap := p.value.len)) else None
      ensures old(data).Some? ==>
        if p == None || p.value.len == 0 then data == old(data) else data.Some? && data.value.data in own
    {
      if data == None {
        data := if p.Some? then Some(p.value.(cap := p.value.len)) else None;
      } else if p.Some? {
        var grown := Append(data.value, p.value, spare);
        if grown.data != data.value.data {
          own := own + {grown.data};
        }
        data := Some(grown);
      }
    }
  }

  // ---------------------------------------------------------------- StealBytes

  /** `a` after `b` was written over its beginning. */
  function Over(a: seq<byte>, b: seq<byte>): (r: seq<byte>)
    ensures |r| == |a|
  {
    if |b| >= |a| then b[..|a|] else b + a[|b|..]
  }

  /**
   What is stolen from a writer-to that passes every chunk in one buffer: the first chunk was taken over, not
   copied, so the next chunk that is not empty is written over it before it is appended.
   */
  function Stolen(first: seq<byte>, rest: seq<seq<byte>>): (r: seq<byte>)
  {
    if rest == [] then first
    else if rest[0] == [] then Stolen(first, rest[1..])
    else Over(first, rest[0]) + Concat(rest)
  }

  ghost predicate AllEmpty(ps: seq<seq<byte>>)
  {
    forall i :: 0 <= i < |ps| ==> ps[i] == []
  }

  /** The first chunk and the next one that is not empty agree as far as both go. */
  ghost predicate Agree(first: seq<byte>, rest: seq<seq<byte>>)
  {
    if rest == [] then true
    else if rest[0] == [] then Agree(first, rest[1..])
    else first <= rest[0] || rest[0] <= first
  }

  lemma OverItself(a: seq<byte>, b: seq<byte>)
    ensures Over(a, b) == a <==> a <= b || b <= a
  {
  }

  lemma SameTail(a: seq<byte>, b: seq<byte>, t: seq<byte>)
    requires |a| == |b|
    ensures a + t == b + t <==> a == b
  {
    assert (a + t)[..|a|] == a && (b + t)[..|b|] == b;
  }

  /** Stealing from a reused buffer gives the written bytes exactly when those chunks agree. */
  lemma {:induction false} StolenIsWritten(first: seq<byte>, rest: seq<seq<byte>>)
    ensures Stolen(first, rest) == first + Concat(rest) <==> Agree(first, rest)
    decreases |rest|
  {
    if rest != [] {
      if rest[0] == [] {
        StolenIsWritten(first, rest[1..]);
        assert Concat(rest) == Concat(rest[1..]);
      } else {
        OverItself(first, rest[0]);
        SameTail(Over(first, rest[0]), first, Concat(rest));
      }
    }
  }

  /** Two bytes passed in one buffer are enough to lose the first of them. */
  lemma ReuseLosesBytes()
    ensures Stolen([1], [[2]]) == [2, 2] && !Agree([1], [[2]])
  {
    var one: seq<byte>, two: seq<byte> := [1], [2];
    ConcatOne(two);
    assert two[..1] == two && one[0] != two[0];
  }

  lemma {:induction false} StolenSnoc(first: seq<byte>, rest: seq<seq<byte>>, x: seq<byte>)
    ensures Stolen(first, rest + [x]) ==
      if AllEmpty(rest) then (if x == [] then first else Over(first, x) + x) else Stolen(first, rest) + x
    ensures AllEmpty(rest) ==> Stolen(first, rest) == first
    decreases |rest|
  {
    var more := rest + [x];
    if rest == [] {
      assert more == [x] && more[1..] == [];
      ConcatOne(x);
    } else {
      assert more[1..] == rest[1..] + [x] && more[0] == rest[0];
      if rest[0] == [] {
        StolenSnoc(first, rest[1..], x);
        assert AllEmpty(rest) <==> AllEmpty(rest[1..]) by {
          assert forall i :: 0 < i < |rest| ==> rest[i] == rest[1..][i - 1];
          assert forall i :: 0 <= i < |rest[1..]| ==> rest[1..][i] == rest[i + 1];
        }
      } else {
        ConcatSnoc(rest, x);
        ConcatAssoc(Over(first, rest[0]), Concat(rest), x);
      }
    }
  }

  /** A writer-to that passes slices whose bytes it leaves alone (as `bytes.Reader` and `strings.Reader` do). */
  method WriteKept(chunks: seq<Slice>, s: ByteStealer, spare: nat, ghost bs: seq<seq<byte>>) returns (n: nat)
    requires s.Valid() && s.data == None && s.own == {}
    requires AllSlices(chunks) && bs == BytesOf(chunks)
    modifies s
    ensures s.Valid() && s.Content() == Concat(bs) && n == |s.Content()|
  {
    hide Concat;
    ConcatNone();
    n := 0;
    for i := 0 to |chunks|
      invariant s.Valid() && s.Content() == Concat(bs[..i]) && n == |s.Content()|
      invariant forall a :: a in s.own ==> fresh(a)
    {
      assert Bytes(chunks[i]) == bs[i];
      assert bs[..i + 1] == bs[..i] + [bs[i]];
      ConcatSnoc(bs[..i], bs[i]);
      s.Write(Some(chunks[i]), spare);
      n := n + chunks[i].len;
    }
    assert bs[..|chunks|] == bs;
  }

  /** What `first`, the beginning of the buffer, has become when `chunk` came into it. */
  lemma RefillOver(before: seq<byte>, after: seq<byte>, first: seq<byte>, chunk: seq<byte>)
    requires |before| == |after| && |first| <= |before| && |chunk| <= |before|
    requires before[..|first|] == first
    requires after[..|chunk|] == chunk && after[|chunk|..] == before[|chunk|..]
    ensures after[..|first|] == Over(first, chunk)
  {
    forall i | 0 <= i < |first| ensures after[i] == Over(first, chunk)[i] {
      if i < |chunk| {
        assert after[i] == after[..|chunk|][i];
      } else {
        assert after[i] == after[|chunk|..][i - |chunk|] && before[i] == before[|chunk|..][i - |chunk|];
        assert first[i] == before[i];
      }
    }
  }

  /** The state of a stealer after `first` and then `done` were passed in `buf`. */
  ghost predicate Taken(s: ByteStealer, buf: array<byte>, first: seq<byte>, done: seq<seq<byte>>)
    reads s, buf, s.own
  {
    && s.Valid() && buf !in s.own && s.data.Some?
    && (if AllEmpty(done) then s.data == Some(Slice(buf, 0, |first|, |first|)) else s.data.value.data in s.own)
    && s.Content() == Stolen(first, done)
  }

  method PassChunk(buf: array<byte>, ghost first: seq<byte>, ghost done: seq<seq<byte>>, x: seq<byte>, s: ByteStealer, spare: nat)
    requires Taken(s, buf, first, done) && |x| <= buf.Length
    modifies s, s.own, buf
    ensures Taken(s, buf, first, done + [x])
    ensures forall a :: a in s.own ==> a in old(s.own) || fresh(a)
  {
    hide Stolen, Over, AllEmpty;
    StolenSnoc(first, done, x);
    SnocEmpty(done, x);
    NextChunk(buf, first, done, x, s);
    s.Write(Some(Front(buf, |x|)), spare);
  }

  /** The next chunk in the buffer changes what was stolen as long as that is still the first chunk, in the buffer. */
  method NextChunk(buf: array<byte>, ghost first: seq<byte>, ghost done: seq<seq<byte>>, x: seq<byte>, ghost s: ByteStealer)
    requires Taken(s, buf, first, done) && |x| <= buf.Length
    modifies buf
    ensures s.Valid() && buf[..|x|] == x
    ensures s.Content() == if AllEmpty(done) then (if x == [] then first else Over(first, x)) else Stolen(first, done)
  {
    hide Stolen, AllEmpty;
    ghost var before := buf[..];
    NothingStolen(first, done);
    Refill(buf, x);
    if AllEmpty(done) {
      RefillOver(before, buf[..], first, x);
    }
  }

  lemma NothingStolen(first: seq<byte>, done: seq<seq<byte>>)
    ensures AllEmpty(done) ==> Stolen(first, done) == first
  {
    StolenSnoc(first, done, []);
  }

  lemma SnocEmpty(done: seq<seq<byte>>, x: seq<byte>)
    ensures AllEmpty(done + [x]) <==> AllEmpty(done) && x == []
  {
    assert forall i :: 0 <= i < |done| ==> (done + [x])[i] == done[i];
    assert (done + [x])[|done|] == x;
  }

  /** A writer-to that passes every chunk in the same buffer. */
  method WriteReused(buf: array<byte>, chunks: seq<seq<byte>>, s: ByteStealer, spare: nat) returns (n: nat)
    requires s.Valid() && s.data == None && s.own == {}
    requires forall i :: 0 <= i < |chunks| ==> |chunks[i]| <= buf.Length
    modifies s, buf
    ensures s.Valid() && n == |s.Content()| == |Concat(chunks)|
    ensures s.Content() == if chunks == [] then [] else Stolen(chunks[0], chunks[1..])
  {
    n := 0;
    if chunks == [] {
      return;
    }
    var first, rest := chunks[0], chunks[1..];
    n := TakeFirst(buf, first, s, spare);
    var more := PassRest(buf, first, rest, s, spare);
    n := n + more;
    StolenLength(first, rest);
  }

  method PassRest(buf: array<byte>, ghost first: seq<byte>, rest: seq<seq<byte>>, s: ByteStealer, spare: nat) returns (n: nat)
    requires Taken(s, buf, first, [])
    requires forall i :: 0 <= i < |rest| ==> |rest[i]| <= buf.Length
    modifies s, s.own, buf
    ensures Taken(s, buf, first, rest) && n == |Concat(rest)|
  {
    n := 0;
    for i := 0 to |rest|
      invariant Taken(s, buf, first, rest[..i]) && n == |Concat(rest[..i])|
      invariant forall a :: a in s.own ==> a in old(s.own) || fresh(a)
    {
      assert rest[..i + 1] == rest[..i] + [rest[i]];
      ConcatSnoc(rest[..i], rest[i]);
      PassChunk(buf, first, rest[..i], rest[i], s, spare);
      n := n + |rest[i]|;
    }
    assert rest[..|rest|] == rest;
  }

  method TakeFirst(buf: array<byte>, first: seq<byte>, s: ByteStealer, spare: nat) returns (n: nat)
    requires s.Valid() && s.data == None && s.own == {} && |first| <= buf.Length
    modifies s, buf
    ensures Taken(s, buf, first, []) && n == |first| && forall a :: a in s.own ==> fresh(a)
  {
    Refill(buf, first);
    s.Write(Some(Front(buf, |first|)), spare);
    n := |first|;
  }

  lemma {:induction false} StolenLength(first: seq<byte>, rest: seq<seq<byte>>)
    ensures |Stolen(first, rest)| == |first| + |Concat(rest)|
    decreases |rest|
  {
    if rest != [] && rest[0] == [] {
      StolenLength(first, rest[1..]);
    }
  }

  /** The total that a writer-to reports must be the number of bytes stolen, and it must not fail. */
  method Checked(s: ByteStealer, reported: nat, failed: bool, n: nat) returns (r: Option<seq<byte>>)
    requires s.Valid() && n == |s.Content()|
    ensures r == if !failed && reported == n then Some(s.Content()) else None
  {
    if failed || reported != n {
      return None;
    }
    r := if s.data == None then Some([]) else Some(Bytes(s.data.value));
  }

  /** Nil slices that a writer-to passes before anything else: the next slice is still the first. */
  method PassNils(s: ByteStealer, n: nat)
    requires s.Valid() && s.data == None && s.own == {}
    modifies s
    ensures s.Valid() && s.data == None && s.own == {}
  {
    for i := 0 to n
      invariant s.Valid() && s.data == None && s.own == {}
    {
      s.Write(None, 0);
    }
  }

  /** `StealBytes` from a writer-to that keeps what it passes; `None` when it fails or reports another total. */
  method StealKept(ps: seq<Slice>, h: Habits, spare: nat, ghost bs: seq<seq<byte>>) returns (r: Option<seq<byte>>)
    requires AllSlices(ps) && bs == BytesOf(ps)
    ensures r == if !h.failed && h.reported == |Concat(bs)| then Some(Concat(bs)) else None
  {
    var s := new ByteStealer();
    PassNils(s, h.nils);
    var n := WriteKept(ps, s, spare, bs);
    r := Checked(s, h.reported, h.failed, n);
  }

  /** `StealBytes` from a writer-to that reuses its buffer. */
  method StealReused(buf: array<byte>, chunks: seq<seq<byte>>, h: Habits, spare: nat) returns (r: Option<seq<byte>>)
    requires forall i :: 0 <= i < |chunks| ==> |chunks[i]| <= buf.Length
    modifies buf
    ensures r == None <==> h.failed || h.reported != |Concat(chunks)|
    ensures r.Some? ==> r.value == if chunks == [] then [] else Stolen(chunks[0], chunks[1..])
  {
    var s := new ByteStealer();
    PassNils(s, h.nils);
    var n := WriteReused(buf, chunks, s, spare);
    r := Checked(s, h.reported, h.failed, n);
  }

  // ---------------------------------------------------------------- ToBytes

  /** The elements of a list of slices, written one after the other into a new buffer. */
  method Join(ps: seq<Slice>, ghost bs: seq<seq<byte>>) returns (buffer: seq<byte>)
    requires AllSlices(ps) && bs == BytesOf(ps)
    ensures buffer == Concat(bs)
  {
    hide Concat, BytesOf;
    ConcatNone();
    buffer := [];
    for i := 0 to |ps|
      invariant buffer == Concat(bs[..i])
    {
      assert Bytes(ps[i]) == bs[i];
      assert bs[..i + 1] == bs[..i] + [bs[i]];
      ConcatSnoc(bs[..i], bs[i]);
      buffer := buffer + Bytes(ps[i]);
    }
    assert bs[..|ps|] == bs;
  }

  /** Neither the message nor its type makes `ToBytes` fail: the total reported is the true one. */
  predicate Convertible(m: Message, total: nat)
    requires m.Valid()
  {
    match m
    case KeepingWriter(_, h) => !h.failed && h.reported == total
    case ReusingWriter(_, _, h) => !h.failed && h.reported == total
    case FromReader(r) => !r.broken
    case Unrecognized => false
    case _ => true
  }

  /** A writer-to that reuses its buffer passes chunks that agree. */
  ghost predicate Stealable(m: Message)
  {
    m.ReusingWriter? && m.chunks != [] ==> Agree(m.chunks[0], m.chunks[1..])
  }

  /** What `ToBytes` makes of a message: its bytes, but from a reused buffer whatever has become of the first chunk. */
  ghost function Made(m: Message): (r: seq<byte>)
    requires m.Valid()
    reads Arrays(m.Parts()), m.Consumed()
  {
    if m.ReusingWriter? && m.chunks != [] then Stolen(m.chunks[0], m.chunks[1..]) else m.Content()
  }

  /** The two agree exactly for the messages that can be stolen safely. */
  lemma MadeIsContent(m: Message)
    requires m.Valid()
    ensures Made(m) == m.Content() <==> Stealable(m)
  {
    if m.ReusingWriter? && m.chunks != [] {
      StolenIsWritten(m.chunks[0], m.chunks[1..]);
    }
  }

  /** The two sides count the same bytes. */
  lemma SameTotal(ps: seq<Slice>)
    requires AllSlices(ps)
    ensures Joined(ps) == Concat(BytesOf(ps))
  {
    JoinedIsConcat(ps, BytesOf(ps));
  }

  /** `ToBytes`; `None` is an error. */
  method ToBytes(m: Message, spare: nat) returns (r: Option<seq<byte>>)
    requires m.Valid()
    modifies m.Consumed()
    ensures r == if Convertible(m, |old(m.Content())|) then Some(old(Made(m))) else None
  {
    SameTotal(m.Parts());
    match m
    case ByteSlice(s) =>
      JoinedOne(s);
      r := Some(Bytes(s));
    case SliceList(ps) =>
      var all := Join(ps, BytesOf(ps));
      r := Some(all);
    case Text(bytes) =>
      r := Some(bytes);
    case Buffer(s) =>
      JoinedOne(s);
      r := Some(Bytes(s));
    case KeepingWriter(ps, h) =>
      r := StealKept(ps, h, spare, BytesOf(ps));
    case ReusingWriter(buf, chunks, h) =>
      r := StealReused(buf, chunks, h, spare);
    case FromReader(reader) =>
      r := ReadAll(reader);
    case Unrecognized =>
      r := None;
  }

  /** `io.ReadAll`. */
  method ReadAll(r: Reader) returns (all: Option<seq<byte>>)
    modifies r
    ensures all == (if r.broken then None else Some(old(r.rest))) && r.rest == []
  {
    var sofar: seq<byte> := [];
    while true
      invariant old(r.rest) == sofar + r.rest
      decreases |r.rest|
    {
      var got, eof := r.Read(512);
      sofar := sofar + got;
      if eof {
        return if r.broken then None else Some(sofar);
      }
    }
  }

  // ---------------------------------------------------------------- ToReader

  /** `io.MultiReader` over readers of slices: a stream like any other, at least one byte per read until the end. */
  class MultiReader {
    var parts: seq<seq<byte>>

    ghost function Content(): seq<byte>
      reads this
    {
      Concat(parts)
    }

    constructor (parts: seq<seq<byte>>)
      ensures this.parts == parts
    {
      this.parts := parts;
    }

    method Read(max: nat) returns (got: seq<byte>, eof: bool)
      requires max > 0
      modifies this
      ensures old(Content()) == got + Content()
      ensures eof <==> old(Content()) == []
      ensures !eof ==> 1 <= |got| <= max
    {
      while parts != [] && parts[0] == []
        invariant Content() == old(Content())
        decreases |parts|
      {
        parts := parts[1..];
      }
      if parts == [] {
        return [], true;
      }
      var first, rest := parts[0], parts[1..];
      var n := Min(max, |first|);
      got, eof := first[..n], false;
      parts := [first[n..]] + rest;
      assert parts[1..] == rest;
      assert first[..n] + first[n..] == first;
    }

    /** What a handler downstream reads in all. */
    method Drain() returns (all: seq<byte>)
      modifies this
      ensures all == old(Content()) && Content() == []
    {
      all := [];
      while true
        invariant old(Content()) == all + Content()
        decreases |Content()|
      {
        var got, eof := Read(512);
        all := all + got;
        if eof {
          return;
        }
      }
    }
  }

  /** What `ToReader` gives: a new reader, the message itself, or an error. */
  datatype Source = NewReader(r: MultiReader) | Itself(given: Message) | NotAReader

  /** A new reader that stands before all the bytes of a list of slices. */
  method ReadSlices(ps: seq<Slice>, ghost bs: seq<seq<byte>>) returns (r: MultiReader)
    requires AllSlices(ps) && bs == BytesOf(ps)
    ensures fresh(r) && r.Content() == Concat(bs)
  {
    var readers: seq<seq<byte>> := [];
    for i := 0 to |ps|
      invariant readers == bs[..i]
    {
      readers := readers + [Bytes(ps[i])];
      assert bs[..i + 1] == bs[..i] + [bs[i]];
    }
    assert bs[..|ps|] == bs;
    r := new MultiReader(readers);
  }

  /** The message is an `io.Reader`, and a new one need not be made. */
  predicate IsReader(m: Message)
  {
    m.Buffer? || m.FromReader? || (m.IsWriterTo() && m.habits.readable)
  }

  /** `ToReader`: what is a reader comes back as it is, slices and strings get a new reader of exactly their bytes. */
  method ToReader(m: Message) returns (r: Source)
    requires m.Valid()
    ensures r.Itself? <==> m.Buffer? || m.FromReader? || (m.IsWriterTo() && m.habits.readable)
    ensures r.NotAReader? <==> m.Unrecognized? || (m.IsWriterTo() && !m.habits.readable)
    ensures r.NewReader? ==> fresh(r.r) && r.r.Content() == old(m.Content())
    ensures r.Itself? ==> r.given == m
  {
    if IsReader(m) {
      r := Itself(m);
    } else if m.IsWriterTo() || m.Unrecognized? {
      r := NotAReader;
    } else if m.Text? {
      ConcatOne(m.bytes);
      var reader := new MultiReader([m.bytes]);
      r := NewReader(reader);
    } else {
      SameTotal(m.Parts());
      var reader := ReadSlices(m.Parts(), BytesOf(m.Parts()));
      r := NewReader(reader);
    }
  }
}
