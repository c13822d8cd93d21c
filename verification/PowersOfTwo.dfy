/** Powers of two on 64-bit signed integers, by shifting and filling bits (`pmath`). */
module PowersOfTwo {
  import opened Common

  /** 2^62, the largest power of two in a 64-bit signed integer. */
  const HEAD_BIT: int := 0x4000_0000_0000_0000

  function Pow2(k: nat): (p: nat)
    ensures p >= 1
  {
    if k == 0 then 1 else 2 * Pow2(k - 1)
  }

  ghost predicate IsPow2(p: int) { exists k: nat :: p == Pow2(k) }

  /** Logical shift right of a non-negative integer. */
  function Shr(n: nat, k: nat): (r: nat)
    decreases k
  {
    if k == 0 then n else Shr(n / 2, k - 1)
  }

  /** Bitwise or of non-negative integers. */
  function Or(a: nat, b: nat): (r: nat)
  {
    if a == 0 then b
    else if b == 0 then a
    else 2 * Or(a / 2, b / 2) + (if a % 2 == 1 || b % 2 == 1 then 1 else 0)
  }

  /** The number of binary digits of `n`. */
  ghost function BitLen(n: nat): nat
  {
    if n == 0 then 0 else 1 + BitLen(n / 2)
  }

  // ---------------------------------------------------------------- lemmas on shifts

  lemma {:induction false} Pow2Add(a: nat, b: nat)
    ensures Pow2(a + b) == Pow2(a) * Pow2(b)
  {
    if a > 0 {
      Pow2Add(a - 1, b);
      assert Pow2(a + b) == 2 * (Pow2(a - 1) * Pow2(b));
    }
  }

  lemma {:induction false} Pow2Mono(a: nat, b: nat)
    requires a < b
    ensures Pow2(a) < Pow2(b)
  {
    if a + 1 < b {
      Pow2Mono(a, b - 1);
    }
  }

  lemma {:induction false} ShrAdd(n: nat, a: nat, b: nat)
    ensures Shr(Shr(n, a), b) == Shr(n, a + b)
    decreases a
  {
    if a > 0 {
      ShrAdd(n / 2, a - 1, b);
    }
  }

  lemma {:induction false} ShrZero(k: nat)
    ensures Shr(0, k) == 0
  {
    if k > 0 {
      ShrZero(k - 1);
    }
  }

  lemma {:induction false} ShrOr(a: nat, b: nat, k: nat)
    ensures Shr(Or(a, b), k) == Or(Shr(a, k), Shr(b, k))
    decreases k
  {
    if k > 0 {
      assert Or(a, b) / 2 == Or(a / 2, b / 2);
      ShrOr(a / 2, b / 2, k - 1);
    }
  }

  /** Shifting a block of ones leaves a shorter block. */
  lemma {:induction false} ShrOnes(a: nat, b: nat)
    requires b <= a
    ensures Shr(Pow2(a) - 1, b) == Pow2(a - b) - 1
    decreases b
  {
    if b > 0 {
      assert (Pow2(a) - 1) / 2 == Pow2(a - 1) - 1;
      ShrOnes(a - 1, b - 1);
    }
  }

  /** Or with a block of ones fills the low bits. */
  lemma {:induction false} OrOnes(x: nat, m: nat)
    ensures Or(x, Pow2(m) - 1) == Shr(x, m) * Pow2(m) + Pow2(m) - 1
    decreases m
  {
    if m == 0 {
    } else {
      assert (Pow2(m) - 1) / 2 == Pow2(m - 1) - 1 && (Pow2(m) - 1) % 2 == 1;
      OrOnes(x / 2, m - 1);
      var h := Shr(x / 2, m - 1);
      assert h * Pow2(m) == 2 * (h * Pow2(m - 1));
      if x == 0 {
        ShrZero(m);
      }
    }
  }

  lemma {:induction false} BitLenBounds(n: nat)
    requires n > 0
    ensures Pow2(BitLen(n) - 1) <= n < Pow2(BitLen(n))
    ensures Shr(n, BitLen(n) - 1) == 1
  {
    if n > 1 {
      BitLenBounds(n / 2);
    }
  }

  /** The length of a number below 2^k is at most k. */
  lemma {:induction false} BitLenAtMost(n: nat, k: nat)
    requires n < Pow2(k)
    ensures BitLen(n) <= k
  {
    if n > 0 {
      BitLenAtMost(n / 2, k - 1);
    }
  }

  lemma Powers()
    ensures Pow2(62) == HEAD_BIT && Pow2(63) == 2 * HEAD_BIT
  {
    assert Pow2(4) == 16;
    Pow2Add(4, 4);
    Pow2Add(8, 8);
    Pow2Add(8, 4);
    Pow2Add(12, 2);
    assert Pow2(14) == 16384 && Pow2(16) == 65536;
    Pow2Add(16, 16);
    Pow2Add(16, 14);
    Pow2Add(32, 30);
  }

  // ---------------------------------------------------------------- fillBits

  /** The top `m` of the `len` binary digits of `n` are ones (all of them when `m >= len`). */
  ghost predicate Filled(n: nat, len: nat, m: nat)
  {
    if m < len then Shr(n, len - m) == Pow2(m) - 1 else n == Pow2(len) - 1
  }

  lemma FillShort(n: nat, len: nat, m: nat)
    requires m > 0 && 2 * m < len && Filled(n, len, m)
    ensures Filled(Or(n, Shr(n, m)), len, 2 * m)
  {
    var j, p := len - 2 * m, Pow2(m);
    ShrOr(n, Shr(n, m), j);
    ShrAdd(n, m, j);
    OrOnes(Shr(n, j), m);
    ShrAdd(n, j, m);
    Pow2Add(m, m);
    SquareOnes(p, p);
  }

  lemma FillLong(n: nat, len: nat, m: nat)
    requires m < len <= 2 * m && Filled(n, len, m)
    ensures Filled(Or(n, Shr(n, m)), len, 2 * m)
  {
    var j := len - m;
    ShrAdd(n, j, m - j);
    ShrOnes(m, m - j);
    OrOnes(n, j);
    Pow2Add(m, j);
    SquareOnes(Pow2(m), Pow2(j));
  }

  lemma FillDone(n: nat, len: nat, m: nat)
    requires m >= len && Filled(n, len, m)
    ensures Filled(Or(n, Shr(n, m)), len, 2 * m)
  {
    ShrOnes(len, len);
    ShrAdd(n, len, m - len);
    ShrZero(m - len);
  }

  lemma SquareOnes(p: nat, q: nat)
    requires p >= 1
    ensures (p - 1) * q + q - 1 == p * q - 1
  {
  }

  /** Or-ing a number with itself shifted by `m` doubles the number of leading ones. */
  lemma FillStep(n: nat, len: nat, m: nat)
    requires m > 0 && Filled(n, len, m)
    ensures Filled(Or(n, Shr(n, m)), len, 2 * m)
  {
    if m >= len {
      FillDone(n, len, m);
    } else if 2 * m < len {
      FillShort(n, len, m);
    } else {
      FillLong(n, len, m);
    }
  }

  /** `fillBits`: the number with as many digits as `n` and all of them ones. */
  method FillBits(n0: nat) returns (n: nat)
    requires n0 < 2 * HEAD_BIT
    ensures n == Pow2(BitLen(n0)) - 1
  {
    n := n0;
    ghost var len := BitLen(n0);
    Powers();
    BitLenAtMost(n0, 63);
    if n0 > 0 {
      BitLenBounds(n0);
    }
    assert Filled(n, len, 1);
    FillStep(n, len, 1);
    n := Or(n, Shr(n, 1));
    FillStep(n, len, 2);
    n := Or(n, Shr(n, 2));
    FillStep(n, len, 4);
    n := Or(n, Shr(n, 4));
    FillStep(n, len, 8);
    n := Or(n, Shr(n, 8));
    FillStep(n, len, 16);
    n := Or(n, Shr(n, 16));
    FillStep(n, len, 32);
    n := Or(n, Shr(n, 32));
  }

  /** What `FillBits` computes is the least number of the form 2^k - 1 that is not below `n`. */
  lemma FilledIsLeast(n: nat, k: nat)
    ensures n <= Pow2(BitLen(n)) - 1
    ensures n <= Pow2(k) - 1 ==> Pow2(BitLen(n)) <= Pow2(k)
  {
  }

  // ---------------------------------------------------------------- ceiling and floor

  /** The least power of two not below `n`, for positive `n`. */
  ghost function CeilPow2(n: nat): (p: nat)
    requires n >= 1
  {
    Pow2(BitLen(n - 1))
  }

  lemma CeilPow2IsLeast(n: nat, k: nat)
    requires n >= 1
    ensures n <= CeilPow2(n) && IsPow2(CeilPow2(n))
    ensures n <= Pow2(k) ==> CeilPow2(n) <= Pow2(k)
  {
    FilledIsLeast(n - 1, k);
  }

  /** A power of two is its own ceiling. */
  lemma CeilOfPow2(k: nat)
    ensures CeilPow2(Pow2(k)) == Pow2(k)
  {
    CeilPow2IsLeast(Pow2(k), k);
  }

  lemma SmallCeil()
    ensures CeilPow2(1) == 1 && CeilPow2(2) == 2
  {
    CeilOfPow2(0);
    CeilOfPow2(1);
  }

  /** `CeilToPowerOfTwo`; `None` stands for its panic. Values up to 2 come back unchanged. */
  method CeilToPowerOfTwo(n: int) returns (r: Option<int>)
    requires -2 * HEAD_BIT <= n < 2 * HEAD_BIT
    ensures r == None <==> n > HEAD_BIT
    ensures n <= 0 ==> r == Some(n)
    ensures 1 <= n <= HEAD_BIT ==> r == Some(CeilPow2(n)) && r.value <= HEAD_BIT
  {
    hide Pow2, BitLen;
    Powers();
    if n > HEAD_BIT {
      return None;
    }
    if n >= 1 {
      CeilPow2IsLeast(n, 62);
    }
    if n <= 2 {
      SmallCeil();
      return Some(n);
    }
    var f := FillBits(n - 1);
    return Some(f + 1);
  }

  /** `FloorToPowerOfTwo`: the greatest power of two not above `n`, for positive `n`. */
  method FloorToPowerOfTwo(n: int) returns (r: int)
    requires -2 * HEAD_BIT <= n < 2 * HEAD_BIT
    ensures n <= 0 ==> r == n
    ensures n >= 1 ==> IsPow2(r) && r <= n
    ensures n >= 1 ==> forall k: nat :: Pow2(k) <= n ==> Pow2(k) <= r
  {
    if n <= 2 {
      r := n;
      assert n >= 1 ==> r == Pow2(n - 1);
    } else {
      var f := FillBits(n);
      r := Shr(f, 1) + 1;
      BitLenBounds(n);
      ShrOnes(BitLen(n), 1);
      assert r == Pow2(BitLen(n) - 1);
    }
    if n >= 1 {
      forall k: nat | Pow2(k) <= n ensures Pow2(k) <= r {
        BitLenBounds(n);
        if k >= BitLen(n) {
          if k > BitLen(n) { Pow2Mono(BitLen(n), k); }
          assert false;
        }
        if k < BitLen(n) - 1 { Pow2Mono(k, BitLen(n) - 1); }
        if n <= 2 { assert BitLen(1) == 1 && BitLen(2) == 2; }
      }
    }
  }

  // ---------------------------------------------------------------- LogarithmicRange

  /** `n <<= 1` on 64-bit signed integers. */
  function Double(n: int): (r: int)
    requires -2 * HEAD_BIT <= n < 2 * HEAD_BIT
    ensures -2 * HEAD_BIT <= r < 2 * HEAD_BIT
  {
    if 2 * n >= 2 * HEAD_BIT then 2 * n - 4 * HEAD_BIT
    else if 2 * n < -2 * HEAD_BIT then 2 * n + 4 * HEAD_BIT
    else 2 * n
  }

  /** Where the loop variable is after `k` rounds. */
  ghost function Rounds(n: int, k: nat): int
    requires -2 * HEAD_BIT <= n < 2 * HEAD_BIT
    ensures -2 * HEAD_BIT <= Rounds(n, k) < 2 * HEAD_BIT
  {
    if k == 0 then n else Double(Rounds(n, k - 1))
  }

  /** The powers of two from 2^k to `max`, in increasing order. */
  ghost function PowersUpTo(k: nat, max: nat): seq<int>
    decreases if Pow2(k) <= max then max - Pow2(k) + 1 else 0
  {
    if Pow2(k) <= max then [Pow2(k)] + PowersUpTo(k + 1, max) else []
  }

  /** Where the loop starts, unless the ceiling panics: a negative `min` stays as it is. */
  ghost function Start(min: int): int
  {
    if min < 0 then min else CeilPow2(if min == 0 then 1 else min)
  }

  /** The loop variable exceeds `max` at some time. */
  ghost predicate Ends(n: int, max: int)
    requires -2 * HEAD_BIT <= n < 2 * HEAD_BIT
  {
    exists j: nat :: Rounds(n, j) > max
  }

  /** The first `k` values of the loop variable. */
  ghost function Values(n: int, k: nat): (r: seq<int>)
    requires -2 * HEAD_BIT <= n < 2 * HEAD_BIT
    ensures |r| == k && forall j :: 0 <= j < k ==> r[j] == Rounds(n, j)
  {
    seq(k, j requires 0 <= j < k => Rounds(n, j))
  }

  /** The values are those before the first one that exceeds `max`. */
  ghost predicate Visits(n: int, max: int, values: seq<int>)
    requires -2 * HEAD_BIT <= n < 2 * HEAD_BIT
  {
    values == Values(n, |values|) && Rounds(n, |values|) > max && forall j :: 0 <= j < |values| ==> values[j] <= max
  }

  lemma StartIs(min: int)
    ensures Start(min) == if min < 0 then min else CeilPow2(if min == 0 then 1 else min)
  {
  }

  lemma FirstValue(n: int)
    requires -2 * HEAD_BIT <= n < 2 * HEAD_BIT
    ensures Rounds(n, 0) == n && Values(n, 0) == []
  {
  }

  lemma NextValue(n: int, k: nat)
    requires -2 * HEAD_BIT <= n < 2 * HEAD_BIT
    ensures Values(n, k + 1) == Values(n, k) + [Rounds(n, k)] && Rounds(n, k + 1) == Double(Rounds(n, k))
  {
  }

  lemma StartInRange(min: int)
    requires -2 * HEAD_BIT <= min <= HEAD_BIT
    ensures -2 * HEAD_BIT <= Start(min) <= HEAD_BIT && (min >= 0 ==> IsPow2(Start(min)))
  {
    if min >= 0 {
      Powers();
      CeilPow2IsLeast(if min == 0 then 1 else min, 62);
    }
  }

  /** `LogarithmicRange` where its loop ends, returning the visited values; `None` stands for the panic of the ceiling. */
  method LogarithmicRange(min: int, max: int) returns (visited: Option<seq<int>>)
    requires -2 * HEAD_BIT <= min < 2 * HEAD_BIT
    requires -2 * HEAD_BIT <= Start(min) <= HEAD_BIT ==> Ends(Start(min), max)
    ensures visited == None <==> min > HEAD_BIT
    ensures min <= HEAD_BIT ==> -2 * HEAD_BIT <= Start(min) <= HEAD_BIT && Visits(Start(min), max, visited.value)
  {
    hide Pow2, CeilPow2, Rounds, Values, Start;
    var from := if min == 0 then 1 else min;
    var start := CeilToPowerOfTwo(from);
    if start == None {
      return None;
    }
    StartInRange(min);
    FirstValue(Start(min));
    StartIs(min);
    ghost var last: nat :| Rounds(Start(min), last) > max;
    var n, out := start.value, [];
    while n <= max
      invariant -2 * HEAD_BIT <= n < 2 * HEAD_BIT && n == Rounds(Start(min), |out|)
      invariant out == Values(Start(min), |out|) && forall j :: 0 <= j < |out| ==> out[j] <= max
      invariant |out| <= last
      decreases last - |out|
    {
      NextValue(Start(min), |out|);
      out := out + [n];
      n := Double(n);
    }
    return Some(out);
  }

  /** One round of doubling first. */
  lemma {:induction false} RoundsShift(n: int, j: nat)
    requires -2 * HEAD_BIT <= n < 2 * HEAD_BIT
    ensures Rounds(n, j + 1) == Rounds(Double(n), j)
  {
    if j > 0 {
      RoundsShift(n, j - 1);
    }
  }

  /** From a power of two and below 2^62, the values visited are the powers of two up to `max`. */
  lemma {:induction false} VisitsPowers(k: nat, max: int, values: seq<int>)
    requires k <= 62 && max < HEAD_BIT && Pow2(k) <= HEAD_BIT && Visits(Pow2(k), max, values)
    ensures values == if max < 0 then [] else PowersUpTo(k, max)
    decreases |values|
  {
    hide Pow2;
    if values != [] {
      assert Pow2(k) <= max by { assert values[0] == Rounds(Pow2(k), 0); }
      DoubleInRange(k);
      var rest := values[1..];
      RoundsShift(Pow2(k), |rest|);
      forall j | 0 <= j < |rest| ensures rest[j] == Rounds(Pow2(k + 1), j) {
        RoundsShift(Pow2(k), j);
      }
      if k + 1 > 62 {
        Powers();
        assert false;
      }
      VisitsPowers(k + 1, max, rest);
      assert values == [Pow2(k)] + rest;
    }
  }

  /** The range visits exactly the powers of two from the first to `max`, in increasing order. */
  lemma {:induction false} RangeIsExact(k: nat, max: nat, x: int)
    ensures x in PowersUpTo(k, max) <==> exists j: nat :: k <= j && x == Pow2(j) && x <= max
    ensures forall i, j :: 0 <= i < j < |PowersUpTo(k, max)| ==> PowersUpTo(k, max)[i] < PowersUpTo(k, max)[j]
    ensures forall i :: 0 <= i < |PowersUpTo(k, max)| ==> PowersUpTo(k, max)[i] >= Pow2(k)
    decreases if Pow2(k) > max then 0 else max - Pow2(k) + 1
  {
    if Pow2(k) > max {
      forall j: nat | k <= j ensures Pow2(j) > max {
        if k < j { Pow2Mono(k, j); }
      }
    } else {
      Pow2Mono(k, k + 1);
      RangeIsExact(k + 1, max, x);
      assert PowersUpTo(k, max) == [Pow2(k)] + PowersUpTo(k + 1, max);
      if x == Pow2(k) {
        assert k <= k && x == Pow2(k) && x <= max;
      }
    }
  }

  /** Below 2^62 doubling does not wrap. */
  lemma DoubleInRange(k: nat)
    requires Pow2(k) < HEAD_BIT
    ensures Double(Pow2(k)) == Pow2(k + 1) <= HEAD_BIT
  {
    Powers();
    if k >= 62 {
      if k > 62 { Pow2Mono(62, k); }
      assert false;
    }
    if k + 1 < 62 { Pow2Mono(k + 1, 62); }
  }

  /** The loop of `LogarithmicRange` ends exactly when `max` is below 2^62; from there on it doubles into 0 and stays. */
  lemma RangeEnds(k: nat, max: int)
    requires k <= 62 && max < 2 * HEAD_BIT
    ensures Pow2(k) <= HEAD_BIT
    ensures Ends(Pow2(k), max) <==> max < HEAD_BIT
  {
    Powers();
    if k < 62 { Pow2Mono(k, 62); }
    if max < HEAD_BIT {
      RoundsReach(k, 62 - k);
      assert Rounds(Pow2(k), 62 - k) > max;
    } else {
      forall j: nat ensures Rounds(Pow2(k), j) <= max {
        RoundsStay(k, j);
      }
    }
  }

  lemma AddMultiple(q: int, c: int, p: int, r: int, n: int)
    requires r == q * p && n == c * p
    ensures r + n == (q + c) * p && r - n == (q - c) * p
  {
  }

  lemma DoubleMultiple(r: int, q: int, p: int, c: int) returns (t: int)
    requires -2 * HEAD_BIT <= r < 2 * HEAD_BIT && r == q * p && c * (2 * p) == 4 * HEAD_BIT
    ensures Double(r) == t * (2 * p)
  {
    assert 2 * (q * p) == q * (2 * p);
    AddMultiple(q, c, 2 * p, 2 * r, 4 * HEAD_BIT);
    t := if 2 * r >= 2 * HEAD_BIT then q - c else if 2 * r < -2 * HEAD_BIT then q + c else q;
  }

  lemma NextPower(k: nat)
    ensures Pow2(k + 1) == 2 * Pow2(k) && Pow2(0) == 1
  {
  }

  lemma WordSize(j: nat)
    requires 1 <= j <= 64
    ensures Pow2(j) == 2 * Pow2(j - 1) && Pow2(64 - j) * (2 * Pow2(j - 1)) == 4 * HEAD_BIT
  {
    hide Pow2;
    NextPower(j - 1);
    NextPower(63);
    Powers();
    Pow2Add(64 - j, j);
  }

  /** After `j` rounds the low `j` bits are zero. */
  lemma {:induction false} RoundsMultiple(n: int, j: nat) returns (q: int)
    requires -2 * HEAD_BIT <= n < 2 * HEAD_BIT && j <= 64
    ensures Rounds(n, j) == q * Pow2(j)
  {
    hide Double;
    if j == 0 {
      q := n;
    } else {
      q := RoundsMultiple(n, j - 1);
      WordSize(j);
      q := DoubleMultiple(Rounds(n, j - 1), q, Pow2(j - 1), Pow2(64 - j));
    }
  }

  /** After 64 rounds nothing is left. */
  lemma {:induction false} RoundsVanish(n: int, j: nat)
    requires -2 * HEAD_BIT <= n < 2 * HEAD_BIT && j >= 64
    ensures Rounds(n, j) == 0
  {
    if j == 64 {
      var q := RoundsMultiple(n, 64);
      Powers();
      assert Pow2(64) == 4 * HEAD_BIT;
    } else {
      RoundsVanish(n, j - 1);
    }
  }

  /** Whether the loop ends, from any start: always for a negative `max`, and otherwise within 64 rounds or never. */
  lemma EndsWithin64(n: int, max: int)
    requires -2 * HEAD_BIT <= n < 2 * HEAD_BIT
    ensures Ends(n, max) <==> max < 0 || exists j: nat :: j < 64 && Rounds(n, j) > max
  {
    hide Rounds;
    RoundsVanish(n, 64);
    if max < 0 {
      assert Rounds(n, 64) > max;
    } else if Ends(n, max) {
      var j: nat :| Rounds(n, j) > max;
      if j >= 64 {
        RoundsVanish(n, j);
      }
      assert j < 64 && Rounds(n, j) > max;
    }
  }

  /** A positive number is doubled beyond 2^62 before it wraps. */
  lemma {:induction false} PositiveReaches(n: int) returns (j: nat)
    requires 0 < n < 2 * HEAD_BIT
    ensures Rounds(n, j) >= HEAD_BIT
    decreases 2 * HEAD_BIT - n
  {
    if n >= HEAD_BIT {
      j := 0;
    } else {
      j := PositiveReaches(2 * n);
      RoundsShift(n, j);
      j := j + 1;
    }
  }

  lemma HalfOfPower(m: int)
    requires m > 0 && IsPow2(2 * m)
    ensures IsPow2(m)
  {
    var k: nat :| 2 * m == Pow2(k);
    assert m == Pow2(k - 1);
  }

  /** So is a negative number after it wrapped, unless it is the negative of a power of two. */
  lemma {:induction false} NegativeReaches(m: int) returns (j: nat)
    requires 0 < m <= 2 * HEAD_BIT && !IsPow2(m)
    ensures Rounds(-m, j) >= HEAD_BIT
    decreases 2 * HEAD_BIT - m
  {
    Powers();
    if m <= HEAD_BIT {
      if IsPow2(2 * m) {
        HalfOfPower(m);
      }
      j := NegativeReaches(2 * m);
    } else {
      j := PositiveReaches(4 * HEAD_BIT - 2 * m);
    }
    RoundsShift(-m, j);
    j := j + 1;
  }

  lemma WithinWord(k: nat)
    requires k <= 63
    ensures 0 < Pow2(k) <= 2 * HEAD_BIT
  {
    Powers();
    if k < 63 {
      Pow2Mono(k, 63);
    }
  }

  lemma {:induction false} NegativePower(k: nat, j: nat)
    requires k <= 63
    ensures 0 < Pow2(k) <= 2 * HEAD_BIT
    ensures Rounds(-(Pow2(k) as int), j) == if k + j <= 63 then -(Pow2(k + j) as int) else 0
  {
    hide Pow2;
    WithinWord(k);
    if j > 0 {
      NegativePower(k, j - 1);
      if k + j <= 63 {
        NextPower(k + j - 1);
        WithinWord(k + j);
      } else {
        Powers();
      }
    }
  }

  /**
   From a negative `min` the loop ends, for `max` below 2^62, exactly when `max` is negative as well or `min` is
   not the negative of a power of two: those double into 0 and stay there.
   */
  lemma NegativeRangeEnds(min: int, max: int)
    requires -2 * HEAD_BIT <= min < 0 && max < HEAD_BIT
    ensures Start(min) == min
    ensures Ends(min, max) <==> max < 0 || !IsPow2(-min)
  {
    if !IsPow2(-min) {
      var j := NegativeReaches(-min);
    } else {
      var k: nat :| -min == Pow2(k);
      Powers();
      if k > 63 {
        Pow2Mono(63, k);
        assert false;
      }
      NegativePower(k, 64 - k);
      if max >= 0 {
        forall j: nat ensures Rounds(min, j) <= max {
          NegativePower(k, j);
        }
      }
    }
  }

  lemma {:induction false} RoundsReach(k: nat, j: nat)
    requires k + j <= 62
    ensures Pow2(k) <= HEAD_BIT && Rounds(Pow2(k), j) == Pow2(k + j)
  {
    Below(k);
    if j > 0 {
      RoundsReach(k, j - 1);
      Powers();
      Pow2Mono(k + j - 1, 62);
      DoubleInRange(k + j - 1);
    }
  }

  lemma Below(k: nat)
    requires k <= 62
    ensures Pow2(k) <= HEAD_BIT
  {
    Powers();
    if k < 62 { Pow2Mono(k, 62); }
  }

  lemma WrapsToZero()
    ensures Double(HEAD_BIT) == -2 * HEAD_BIT && Double(-2 * HEAD_BIT) == 0 && Double(0) == 0
  {
  }

  lemma {:induction false} RoundsStay(k: nat, j: nat)
    requires k <= 62
    ensures Pow2(k) <= HEAD_BIT && Rounds(Pow2(k), j) <= HEAD_BIT
    ensures k + j > 62 ==> Rounds(Pow2(k), j) == (if k + j == 63 then -2 * HEAD_BIT else 0)
  {
    Below(k);
    if k + j <= 62 {
      RoundsReach(k, j);
      Below(k + j);
    } else {
      WrapsToZero();
      RoundsStay(k, j - 1);
      if k + j == 63 {
        RoundsReach(k, j - 1);
        Powers();
        assert Rounds(Pow2(k), j - 1) == HEAD_BIT;
      }
    }
  }
}
