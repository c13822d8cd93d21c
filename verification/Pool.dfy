/**
 The size-class pool (`pool.Pool`) and its byte-slice form (`pbytes.Pool`). A `sync.Pool` is a bag that
 may hand out any element it holds, or nothing; the choice is the parameter `pick`.
 */
module Pools {
  import opened Common
  import opened PowersOfTwo

  // ---------------------------------------------------------------- the arithmetic of size classes

  /** The capacity `Get(c)` promises in a pool whose step is `step`. */
  ghost function SizeClass(step: int, c: int): int
    requires step >= 1
  {
    if c <= step then step else CeilPow2(c)
  }

  /** The shard a capacity belongs to. */
  function ShardOf(step: int, capacity: int): (i: int)
    requires step >= 1 && capacity >= 1
    ensures i >= 0
  {
    (capacity - 1) / step
  }

  /** The capacities `Get` can promise: the step, and the powers of two above it. */
  ghost predicate IsClass(step: int, n: int)
  {
    n == step || (n > step && IsPow2(n))
  }

  lemma SizeClassIsClass(step: int, c: int)
    requires step >= 1
    ensures IsClass(step, SizeClass(step, c)) && c <= SizeClass(step, c)
    ensures forall n :: IsClass(step, n) && c <= n ==> SizeClass(step, c) <= n
  {
    if c > step {
      CeilPow2IsLeast(c, 0);
      forall n | IsClass(step, n) && c <= n ensures SizeClass(step, c) <= n {
        var k: nat :| n == Pow2(k);
        CeilPow2IsLeast(c, k);
      }
    }
  }

  /** A class is the step times a power of two. */
  lemma ClassFactor(k: nat, n: int) returns (j: nat)
    requires IsClass(Pow2(k), n)
    ensures n == Pow2(j) * Pow2(k)
  {
    if n == Pow2(k) {
      j := 0;
    } else {
      var i: nat :| n == Pow2(i);
      if i <= k {
        if i < k { Pow2Mono(i, k); }
        assert false;
      }
      j := i - k;
      Pow2Add(j, k);
    }
  }

  /** Classes are multiples of the step, so a shard determines its class. */
  lemma ClassOfShard(k: nat, n: int)
    requires IsClass(Pow2(k), n)
    ensures n >= 1 && n == (ShardOf(Pow2(k), n) + 1) * Pow2(k)
    ensures IsPow2(ShardOf(Pow2(k), n) + 1)
  {
    var j := ClassFactor(k, n);
    BlockNumber(n, Pow2(j), Pow2(k));
  }

  lemma BlockNumber(n: int, q: int, step: int)
    requires q >= 1 && step >= 1 && n == q * step
    ensures n >= 1 && ShardOf(step, n) == q - 1
  {
    LastOfBlock(q, step);
  }

  lemma LastOfBlock(q: int, step: int)
    requires q >= 1 && step >= 1
    ensures q * step >= 1 && (q * step - 1) / step == q - 1
  {
    assert q * step - 1 == (q - 1) * step + (step - 1);
    DivUnique(q * step - 1, step, q - 1);
  }

  lemma DivUnique(x: int, d: int, q: int)
    requires d >= 1 && q * d <= x < q * d + d
    ensures x / d == q
  {
    var r := x / d;
    assert r * d <= x < r * d + d;
    assert (r - q) * d == r * d - q * d && (q - r) * d == q * d - r * d;
    FewerThanOne(r - q, d);
    FewerThanOne(q - r, d);
  }

  lemma FewerThanOne(x: int, d: int)
    requires d >= 1 && x * d < d
    ensures x < 1
  {
  }

  // ---------------------------------------------------------------- the generic pool

  datatype GetResult<T> = Panic | Got(x: Option<T>, size: int)

  class Pool<T> {
    const shards: array<seq<T>>
    const stepSize: int

    ghost predicate Valid()
    {
      shards.Length >= 1 && stepSize >= 1 && exists k: nat :: stepSize == Pow2(k)
    }

    constructor Make(shardSize: int, stepSize: int)
      requires shardSize >= 1 && stepSize >= 1 && exists k: nat :: stepSize == Pow2(k)
      ensures Valid() && fresh(shards) && shards.Length == shardSize && this.stepSize == stepSize
      ensures forall i :: 0 <= i < shards.Length ==> shards[i] == []
    {
      this.shards := new seq<T>[shardSize](_ => []);
      this.stepSize := stepSize;
    }

    /** `New`; null stands for the panic on a maximum above 2^62. Shards times step is the rounded maximum. */
    static method New(max: int) returns (p: Pool?<T>)
      requires -2 * HEAD_BIT <= max < 2 * HEAD_BIT
      ensures p == null <==> max > HEAD_BIT
      ensures p != null ==> fresh(p) && fresh(p.shards) && p.Valid() && p.shards.Length <= 64
      ensures p != null ==> var m := CeilPow2(if max < 1 then 1 else max); p.shards.Length == if m < 64 then m else 64
      ensures p != null ==> p.shards.Length * p.stepSize == CeilPow2(if max < 1 then 1 else max)
      ensures p != null ==> forall i :: 0 <= i < p.shards.Length ==> p.shards[i] == []
    {
      var maxSize := CeilToPowerOfTwo(if max < 1 then 1 else max);
      if maxSize == None {
        return null;
      }
      var m := maxSize.value;
      ghost var k := BitLen((if max < 1 then 1 else max) - 1);
      var shardSize := if m < 64 then m else 64;
      shardSize := if 1 < shardSize then shardSize else 1;
      ShardGeometry(k);
      var stepSize := CeilToPowerOfTwo(m / shardSize);
      if stepSize.value * shardSize < m {
        shardSize := shardSize + 1;
      }
      p := new Pool.Make(shardSize, stepSize.value);
    }

    /** `Get`: any element of the shard of the size class, or none. */
    method Get(size: int, pick: nat) returns (r: GetResult<T>)
      requires Valid() && -2 * HEAD_BIT <= size < 2 * HEAD_BIT
      modifies shards
      ensures r == Panic <==> size > stepSize && size > HEAD_BIT
      ensures r.Got? ==> r.size == SizeClass(stepSize, size) && r.size >= 1
      ensures r.Panic? ==> shards[..] == old(shards[..])
      ensures r.Got? && r.x == None ==> shards[..] == old(shards[..])
      ensures r.Got? && r.x.Some? ==>
        var i := ShardOf(stepSize, r.size);
        && i < shards.Length && pick < |old(shards[i])| && r.x.value == old(shards[i])[pick]
        && shards[..] == old(shards[..])[i := old(shards[i])[..pick] + old(shards[i])[pick + 1..]]
      ensures r.Got? ==> (r.x.Some? <==> ShardOf(stepSize, r.size) < shards.Length && pick < |old(shards[ShardOf(stepSize, r.size)])|)
    {
      hide Pow2, CeilPow2;
      var n := stepSize;
      if size > stepSize {
        var c := CeilToPowerOfTwo(size);
        if c == None {
          return Panic;
        }
        n := c.value;
        CeilPow2IsLeast(size, 0);
      }
      var idx := (n - 1) / stepSize;
      if idx < shards.Length {
        var held := shards[idx];
        if pick < |held| {
          shards[idx] := held[..pick] + held[pick + 1..];
          return Got(Some(held[pick]), n);
        }
      }
      return Got(None, n);
    }

    /** `Put`: kept in the shard of its size unless the size is below the step or beyond the last shard. */
    method Put(x: T, size: int)
      requires Valid()
      modifies shards
      ensures if size >= stepSize && ShardOf(stepSize, size) < shards.Length
        then shards[..] == old(shards[..])[ShardOf(stepSize, size) := old(shards[ShardOf(stepSize, size)]) + [x]]
        else shards[..] == old(shards[..])
    {
      if size < stepSize {
        return;
      }
      var idx := (size - 1) / stepSize;
      if idx < shards.Length {
        shards[idx] := shards[idx] + [x];
      }
    }

    /** The garbage collector empties any part of a bag at any time. */
    method Drop(i: nat, k: nat)
      requires Valid() && i < shards.Length && k < |shards[i]|
      modifies shards
      ensures shards[..] == old(shards[..])[i := old(shards[i])[..k] + old(shards[i])[k + 1..]]
    {
      shards[i] := shards[i][..k] + shards[i][k + 1..];
    }
  }

  lemma OverSixtyFour(q: nat)
    ensures (q * 64) / 64 == q
  {
  }

  lemma ManyShards(k: nat)
    requires k >= 6
    ensures Pow2(6) == 64 && Pow2(k) == Pow2(k - 6) * 64 && Pow2(k) / 64 == Pow2(k - 6)
  {
    assert Pow2(3) == 8;
    Pow2Add(3, 3);
    Pow2Add(k - 6, 6);
    OverSixtyFour(Pow2(k - 6));
  }

  lemma FewShards(m: int)
    requires m >= 1
    ensures m / m == 1 && CeilPow2(1) == 1 && IsPow2(1)
  {
  }

  /** With a power-of-two maximum the shards cover it exactly: no extra shard is ever needed. */
  lemma ShardGeometry(k: nat)
    requires Pow2(k) <= HEAD_BIT
    ensures var m := Pow2(k); var shards := if m < 64 then m else 64;
      && 1 <= m / shards <= HEAD_BIT && CeilPow2(m / shards) * shards == m
      && IsPow2(CeilPow2(m / shards))
  {
    ManyShards(6);
    if k < 6 {
      Pow2Mono(k, 6);
      FewShards(Pow2(k));
    } else {
      if k > 6 { Pow2Mono(6, k); }
      ManyShards(k);
      CeilOfPow2(k - 6);
    }
  }

  // ---------------------------------------------------------------- the pool of byte slices

  /** A shard holds slices of one capacity that are free, none of them twice. */
  ghost predicate ShardOk(shard: seq<array<byte>>, capacity: int, free: set<array<byte>>)
  {
    && (forall j :: 0 <= j < |shard| ==> shard[j] in free && shard[j].Length == capacity)
    && (forall j, k :: 0 <= j < k < |shard| ==> shard[j] != shard[k])
  }

  /** Taking a slice out of its shard leaves every shard in order. */
  lemma ShardsWithout(shards: seq<seq<array<byte>>>, step: int, free: set<array<byte>>, i: nat, pick: nat)
    requires step >= 1 && i < |shards| && pick < |shards[i]|
    requires forall j :: 0 <= j < |shards| ==> ShardOk(shards[j], (j + 1) * step, free)
    ensures var after := shards[i := shards[i][..pick] + shards[i][pick + 1..]];
      forall j :: 0 <= j < |after| ==> ShardOk(after[j], (j + 1) * step, free - {shards[i][pick]})
  {
  }

  /** A pooled slice is its backing array; `cap` is the array's length. */
  class BytePool {
    const pool: Pool<array<byte>>
    /** Every slice `Get` has handed out so far, and those that are back since. */
    ghost var made: set<array<byte>>
    ghost var free: set<array<byte>>

    /** Each shard holds one capacity only, of slices made by `Get` that came back, and none twice. */
    ghost predicate Valid()
      reads this, pool.shards
    {
      && pool.Valid() && free <= made
      && (forall b :: b in made ==> IsClass(pool.stepSize, b.Length))
      && (forall i :: 0 <= i < pool.shards.Length ==> ShardOk(pool.shards[i], (i + 1) * pool.stepSize, free))
    }

    constructor (p: Pool<array<byte>>)
      requires p.Valid() && forall i :: 0 <= i < p.shards.Length ==> p.shards[i] == []
      ensures Valid() && pool == p && made == free == {}
    {
      pool := p;
      made := {};
      free := {};
    }

    /**
     `Get(c)`: a slice whose capacity is exactly the size class of `c`, that nobody else has; null stands for
     the panic above 2^62.
     */
    method Get(c: int, pick: nat) returns (b: array?<byte>)
      requires Valid() && -2 * HEAD_BIT <= c < 2 * HEAD_BIT
      modifies this, pool.shards
      ensures Valid()
      ensures b == null <==> c > pool.stepSize && c > HEAD_BIT
      ensures b != null ==> b.Length == SizeClass(pool.stepSize, c) && b.Length >= c
      ensures b != null ==> made == old(made) + {b} && free == old(free) - {b} && (b in old(free) || fresh(b))
      ensures b == null ==> made == old(made) && free == old(free)
    {
      var r := pool.Get(c, pick);
      match r {
        case Panic =>
          b := null;
        case Got(x, size) =>
          SizeClassIsClass(pool.stepSize, c);
          ghost var k: nat :| pool.stepSize == Pow2(k);
          ClassOfShard(k, size);
          if x.Some? {
            b := x.value;
            ShardsWithout(old(pool.shards[..]), pool.stepSize, free, ShardOf(pool.stepSize, size), pick);
          } else {
            b := new byte[size];
          }
          made := made + {b};
          free := free - {b};
      }
    }

    /** `Put`, of a slice that `Get` made and that is not back yet. */
    method Put(b: array<byte>)
      requires Valid() && b in made && b !in free
      modifies this, pool.shards
      ensures Valid() && made == old(made) && free == old(free) + {b}
    {
      ghost var k: nat :| pool.stepSize == Pow2(k);
      ClassOfShard(k, b.Length);
      pool.Put(b, b.Length);
      free := free + {b};
    }

    method Drop(i: nat, k: nat)
      requires Valid() && i < pool.shards.Length && k < |pool.shards[i]|
      modifies pool.shards
      ensures Valid()
    {
      pool.Drop(i, k);
    }
  }

  // ---------------------------------------------------------------- slices from elsewhere

  /** What the shards hold, as capacities; `Get` is safe when no shard holds less than a class that uses it. */
  ghost predicate Promise(step: int, shards: seq<seq<int>>)
    requires step >= 1
  {
    forall i, j, n :: 0 <= i < |shards| && 0 <= j < |shards[i]| && n >= 1 && IsClass(step, n) && ShardOf(step, n) == i ==>
      n <= shards[i][j]
  }

  ghost function AfterPut(step: int, shards: seq<seq<int>>, capacity: int): seq<seq<int>>
    requires step >= 1
  {
    if capacity >= step && ShardOf(step, capacity) < |shards|
    then shards[ShardOf(step, capacity) := shards[ShardOf(step, capacity)] + [capacity]]
    else shards
  }

  /**
   `Put` does not check that a capacity is a power of two (its comment says it does). Putting back a slice of
   any capacity keeps the promise exactly when the slice is not kept, fills its shard's block, or lands in a
   shard that no size class uses.
   */
  lemma ForeignPut(k: nat, shards: seq<seq<int>>, capacity: int)
    requires Promise(Pow2(k), shards)
    ensures var step := Pow2(k);
      Promise(step, AfterPut(step, shards, capacity)) <==>
        || capacity < step
        || (capacity - 1) / step >= |shards|
        || capacity % step == 0
        || !IsPow2((capacity - 1) / step + 1)
  {
    var step := Pow2(k);
    if capacity >= step && ShardOf(step, capacity) < |shards| {
      var i := ShardOf(step, capacity);
      if IsPow2(i + 1) && capacity % step != 0 {
        ForeignPutBreaks(k, shards, capacity);
      } else {
        if capacity % step == 0 { MultipleInBlock(capacity, step); }
        ForeignPutKeeps(k, shards, capacity);
      }
    }
  }

  lemma ForeignPutBreaks(k: nat, shards: seq<seq<int>>, capacity: int)
    requires var step := Pow2(k); capacity >= step && capacity % step != 0 && ShardOf(step, capacity) < |shards|
    requires IsPow2(ShardOf(Pow2(k), capacity) + 1)
    ensures !Promise(Pow2(k), AfterPut(Pow2(k), shards, capacity))
  {
    var step := Pow2(k);
    var i := ShardOf(step, capacity);
    var after := AfterPut(step, shards, capacity);
    BlockBounds(capacity, step);
    var n := BlockIsClass(k, i);
    var j := |shards[i]|;
    assert after[i][j] == capacity;
    if capacity == (i + 1) * step {
      MultipleRemainder(i + 1, step);
      assert false;
    }
    assert !(n <= after[i][j]);
  }

  lemma MultipleRemainder(q: int, step: int)
    requires step >= 1
    ensures (q * step) % step == 0
  {
    DivUnique(q * step, step, q);
  }

  lemma BlockBounds(c: int, step: int)
    requires c >= step >= 1
    ensures ShardOf(step, c) * step < c <= (ShardOf(step, c) + 1) * step
  {
  }

  lemma MultipleInBlock(c: int, step: int)
    requires c >= step >= 1 && c % step == 0
    ensures c == (ShardOf(step, c) + 1) * step
  {
    var q := c / step;
    assert c == q * step;
    FewerThanOne(1 - q, step);
    LastOfBlock(q, step);
  }

  lemma HigherIsClass(j: nat, k: nat)
    ensures IsClass(Pow2(k), Pow2(j + k))
  {
    if j > 0 {
      Pow2Mono(k, j + k);
    }
  }

  /** The block of a power-of-two shard number is a class. */
  lemma BlockIsClass(k: nat, i: nat) returns (n: int)
    requires IsPow2(i + 1)
    ensures n == (i + 1) * Pow2(k) && IsClass(Pow2(k), n) && n >= 1 && ShardOf(Pow2(k), n) == i
  {
    var j: nat :| i + 1 == Pow2(j);
    n := Pow2(j + k);
    HigherIsClass(j, k);
    Pow2Add(j, k);
    BlockNumber(n, i + 1, Pow2(k));
  }

  lemma ForeignPutKeeps(k: nat, shards: seq<seq<int>>, capacity: int)
    requires Promise(Pow2(k), shards) && capacity >= Pow2(k)
    requires capacity == (ShardOf(Pow2(k), capacity) + 1) * Pow2(k) || !IsPow2(ShardOf(Pow2(k), capacity) + 1)
    ensures Promise(Pow2(k), AfterPut(Pow2(k), shards, capacity))
  {
    var step := Pow2(k);
    var after := AfterPut(step, shards, capacity);
    forall i, j, n | 0 <= i < |after| && 0 <= j < |after[i]| && n >= 1 && IsClass(step, n) && ShardOf(step, n) == i
      ensures n <= after[i][j]
    {
      if j < |shards[i]| {
        assert after[i][j] == shards[i][j];
      } else {
        ClassOfShard(k, n);
      }
    }
  }

  /** With a step of 1024, a slice of capacity 1500 that is put back can come out for a request of 2048. */
  lemma ForeignPutExample()
    ensures var shards: seq<seq<int>> := [[], []];
      && Promise(1024, shards) && AfterPut(1024, shards, 1500)[1] == [1500] && !Promise(1024, AfterPut(1024, shards, 1500))
      && IsClass(1024, 2048) && ShardOf(1024, 2048) == 1
  {
    var shards: seq<seq<int>> := [[], []];
    assert Pow2(5) == 32;
    assert Pow2(10) == 1024;
    assert Pow2(11) == 2048;
    assert 2 == Pow2(1);
    ForeignPut(10, shards, 1500);
  }
}
