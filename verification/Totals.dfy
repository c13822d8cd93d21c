/**
 Sums over the threads of a system. A thread table is a sequence, a step changes one entry, and
 every whole-table quantity used by the write loop (who holds `running`, how far the batch reaches,
 how much work is left) is such a sum.
 */
module Totals {

  ghost function Total<T>(xs: seq<T>, f: T -> nat): nat
  {
    if xs == [] then 0 else f(xs[0]) + Total(xs[1..], f)
  }

  lemma {:induction false} TotalUpdate<T>(xs: seq<T>, i: nat, x: T, f: T -> nat)
    requires i < |xs|
    ensures Total(xs[i := x], f) + f(xs[i]) == Total(xs, f) + f(x)
    ensures f(xs[i]) <= Total(xs, f)
  {
    var ys := xs[i := x];
    if i == 0 {
      assert ys[1..] == xs[1..];
    } else {
      assert ys[1..] == xs[1..][i - 1 := x];
      TotalUpdate(xs[1..], i - 1, x, f);
    }
  }

  lemma {:induction false} TotalSnoc<T>(xs: seq<T>, x: T, f: T -> nat)
    ensures Total(xs + [x], f) == Total(xs, f) + f(x)
  {
    if xs == [] {
      assert [x][1..] == [];
      assert xs + [x] == [x];
    } else {
      assert (xs + [x])[1..] == xs[1..] + [x];
      TotalSnoc(xs[1..], x, f);
    }
  }

  lemma {:induction false} TotalTwo<T>(xs: seq<T>, i: nat, j: nat, f: T -> nat)
    requires i < j < |xs|
    ensures f(xs[i]) + f(xs[j]) <= Total(xs, f)
  {
    if i == 0 {
      TotalUpdate(xs[1..], j - 1, xs[j], f);
    } else {
      TotalTwo(xs[1..], i - 1, j - 1, f);
    }
  }

  lemma {:induction false} TotalZero<T(!new)>(xs: seq<T>, h: T -> nat, f: T -> nat)
    requires forall x :: h(x) == 0 ==> f(x) == 0
    requires Total(xs, h) == 0
    ensures Total(xs, f) == 0
  {
    if xs != [] {
      TotalZero(xs[1..], h, f);
    }
  }

  /** When entry `i` is the only one with weight `h`, it is the only one with weight `f`. */

  lemma {:induction false} TotalSole<T(!new)>(xs: seq<T>, i: nat, h: T -> nat, f: T -> nat)
    requires i < |xs| && Total(xs, h) == h(xs[i])
    requires forall x :: h(x) == 0 ==> f(x) == 0
    ensures Total(xs, f) == f(xs[i])
  {
    if i == 0 {
      TotalZero(xs[1..], h, f);
    } else {
      TotalUpdate(xs[1..], i - 1, xs[i], h);
      TotalSole(xs[1..], i - 1, h, f);
    }
  }

  lemma {:induction false} TotalPositive<T>(xs: seq<T>, f: T -> nat) returns (i: nat)
    requires Total(xs, f) > 0
    ensures i < |xs| && f(xs[i]) > 0
  {
    if f(xs[0]) > 0 {
      i := 0;
    } else {
      var j := TotalPositive(xs[1..], f);
      i := j + 1;
    }
  }

  lemma {:induction false} TotalBound<T>(xs: seq<T>, f: T -> nat, g: T -> nat, c: nat)
    requires forall i :: 0 <= i < |xs| ==> f(xs[i]) <= c * g(xs[i])
    ensures Total(xs, f) <= c * Total(xs, g)
  {
    if xs != [] {
      forall i | 0 <= i < |xs[1..]| ensures f(xs[1..][i]) <= c * g(xs[1..][i]) {
        assert xs[1..][i] == xs[i + 1];
      }
      TotalBound(xs[1..], f, g, c);
    }
  }
}
