/** Go slices of bytes: a window on an array, whose bytes are read, copied and joined. */
module Slices {
  import opened Common
  import opened PowersOfTwo

  /** The slice `data[off : off + len]`, which may grow in place up to `cap` bytes. */
  datatype Slice = Slice(data: array<byte>, off: nat, len: nat, cap: nat) {
    predicate Valid() { len <= cap && off + cap <= data.Length }
  }

  /** The slice `data[:len]` of a whole array. */
  function Front(data: array<byte>, len: nat): (s: Slice)
  {
    Slice(data, 0, len, data.Length)
  }

  /** A slice of a Go array, whose length is a 64-bit integer. */
  predicate IsSlice(s: Slice)
  {
    s.Valid() && s.len < 2 * HEAD_BIT
  }

  predicate AllSlices(ps: seq<Slice>)
  {
    forall i :: 0 <= i < |ps| ==> IsSlice(ps[i])
  }

  function Arrays(q: seq<Slice>): (r: set<array<byte>>)
  {
    set i | 0 <= i < |q| :: q[i].data
  }

  function Bytes(s: Slice): (r: seq<byte>)
    requires s.Valid()
    reads s.data
    ensures |r| == s.len
  {
    s.data[s.off..s.off + s.len]
  }

  /** The bytes of each slice of a list. */
  ghost function BytesOf(q: seq<Slice>): (r: seq<seq<byte>>)
    requires AllSlices(q)
    reads Arrays(q)
    ensures |r| == |q| && forall i :: 0 <= i < |q| ==> r[i] == Bytes(q[i])
  {
    if q == [] then [] else BytesOf(q[..|q| - 1]) + [Bytes(q[|q| - 1])]
  }

  /** The bytes of a list of slices, one after the other. */
  ghost function Joined(ps: seq<Slice>): (r: seq<byte>)
    requires AllSlices(ps)
    reads Arrays(ps)
  {
    if ps == [] then [] else Joined(ps[..|ps| - 1]) + Bytes(ps[|ps| - 1])
  }

  lemma {:induction false} JoinedIsConcat(ps: seq<Slice>, bs: seq<seq<byte>>)
    requires AllSlices(ps) && |ps| == |bs| && forall i :: 0 <= i < |ps| ==> Bytes(ps[i]) == bs[i]
    ensures Joined(ps) == Concat(bs)
    decreases |ps|
  {
    if ps != [] {
      var n := |ps| - 1;
      JoinedIsConcat(ps[..n], bs[..n]);
      assert bs == bs[..n] + [bs[n]];
      ConcatSnoc(bs[..n], bs[n]);
    }
  }

  lemma JoinedOne(s: Slice)
    requires IsSlice(s)
    ensures Joined([s]) == Bytes(s)
  {
  }

  /** What has been written after each piece. */
  lemma Progress(ps: seq<Slice>) returns (js: seq<seq<byte>>)
    requires AllSlices(ps)
    ensures |js| == |ps| + 1 && js[0] == [] && js[|ps|] == Joined(ps)
    ensures forall i, j :: 0 <= i < |ps| && j == i + 1 ==> js[j] == js[i] + Bytes(ps[i])
    ensures forall i :: 0 <= i <= |ps| ==> js[i] <= Joined(ps)
  {
    if ps == [] {
      js := [[]];
    } else {
      var n := |ps| - 1;
      var init := Progress(ps[..n]);
      js := init + [Joined(ps)];
    }
  }

  /** `copy` of a whole slice to position `at` of another array. */
  method CopyTo(dst: array<byte>, at: nat, p: Slice)
    requires p.Valid() && dst != p.data && at + p.len <= dst.Length
    modifies dst
    ensures dst[at..at + p.len] == Bytes(p)
    ensures dst[..at] == old(dst[..at]) && dst[at + p.len..] == old(dst[at + p.len..])
  {
    for i := 0 to p.len
      invariant dst[at..at + i] == Bytes(p)[..i]
      invariant dst[..at] == old(dst[..at]) && dst[at + p.len..] == old(dst[at + p.len..])
    {
      dst[at + i] := p.data[p.off + i];
      assert dst[at..at + i + 1] == dst[at..at + i] + [dst[at + i]];
    }
  }

  /** New bytes come into a buffer: what a reader does to the buffer it is given. */
  method Refill(buf: array<byte>, chunk: seq<byte>)
    requires |chunk| <= buf.Length
    modifies buf
    ensures buf[..|chunk|] == chunk && buf[|chunk|..] == old(buf[|chunk|..])
  {
    for i := 0 to |chunk|
      invariant buf[..i] == chunk[..i] && buf[|chunk|..] == old(buf[|chunk|..])
    {
      buf[i] := chunk[i];
    }
  }
}
