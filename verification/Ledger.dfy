/**
 The simple form of a channel's asynchronous write path: a bounded queue, everything it ever accepted, and the
 flag. Both the step system and the classes are shown to do nothing but these moves.
 */
module Ledgers {
  import opened Common

  datatype Ledger = Ledger(cap: nat, queue: seq<seq<byte>>, accepted: seq<seq<byte>>, running: bool)

  datatype Move = Put(data: seq<byte>) | Take | Raise | Lower | Stay

  ghost predicate Allowed(l: Ledger, m: Move)
  {
    match m
    case Put(_) => |l.queue| < l.cap
    case Take => l.queue != []
    case Raise => !l.running
    case Lower => l.running
    case Stay => true
  }

  ghost function Do(l: Ledger, m: Move): Ledger
    requires Allowed(l, m)
  {
    match m
    case Put(data) => l.(queue := l.queue + [data], accepted := l.accepted + [data])
    case Take => l.(queue := l.queue[1..])
    case Raise => l.(running := true)
    case Lower => l.(running := false)
    case Stay => l
  }

  /** The ledger after one call: a packet was put and the flag raised. */
  ghost function Called(l: Ledger, data: seq<byte>): Ledger
    requires |l.queue| < l.cap
  {
    Do(l, Put(data)).(running := true)
  }

  lemma CalledIs(l: Ledger, m: Ledger, data: seq<byte>)
    requires Proper(l) && Proper(m) && l.cap == m.cap && m.running
    requires m.accepted == l.accepted + [data] && |m.queue| == |l.queue| + 1
    ensures m == Called(l, data)
  {
  }

  ghost predicate Legal(l: Ledger, ms: seq<Move>)
    decreases |ms|
  {
    ms == [] || (Allowed(l, ms[0]) && Legal(Do(l, ms[0]), ms[1..]))
  }

  ghost function DoAll(l: Ledger, ms: seq<Move>): Ledger
    requires Legal(l, ms)
    decreases |ms|
  {
    if ms == [] then l else DoAll(Do(l, ms[0]), ms[1..])
  }

  /** Some moves lead from one ledger to the other. */
  ghost predicate Leads(l: Ledger, m: Ledger)
  {
    exists ms: seq<Move> :: Legal(l, ms) && DoAll(l, ms) == m
  }

  /** The queue holds what was accepted last, and not more than it has room for. */
  ghost predicate Proper(l: Ledger)
  {
    0 < l.cap && |l.queue| <= l.cap && |l.queue| <= |l.accepted| && l.queue == l.accepted[|l.accepted| - |l.queue|..]
  }

  /** How many packets have left the queue. */
  ghost function Taken(l: Ledger): int { |l.accepted| - |l.queue| }

  /** Nothing accepted is forgotten or changed, and no packet comes back into the queue. */
  ghost predicate Onward(l: Ledger, m: Ledger)
  {
    l.cap == m.cap && l.accepted <= m.accepted && Taken(l) <= Taken(m)
  }

  lemma DoIsOnward(l: Ledger, m: Move)
    requires Proper(l) && Allowed(l, m)
    ensures Proper(Do(l, m)) && Onward(l, Do(l, m))
  {
  }

  lemma {:induction false} MovesAreOnward(l: Ledger, ms: seq<Move>)
    requires Proper(l) && Legal(l, ms)
    ensures Proper(DoAll(l, ms)) && Onward(l, DoAll(l, ms))
    decreases |ms|
  {
    hide Proper, Allowed, Do;
    if ms != [] {
      DoIsOnward(l, ms[0]);
      MovesAreOnward(Do(l, ms[0]), ms[1..]);
    }
  }

  lemma LeadsFirst(l: Ledger, m: Move, n: Ledger)
    requires Allowed(l, m) && Leads(Do(l, m), n)
    ensures Leads(l, n)
  {
    var ms: seq<Move> :| Legal(Do(l, m), ms) && DoAll(Do(l, m), ms) == n;
    assert ([m] + ms)[1..] == ms;
    assert Legal(l, [m] + ms) && DoAll(l, [m] + ms) == n;
  }

  lemma LeadsNowhere(l: Ledger)
    ensures Leads(l, l)
  {
    assert Legal(l, []) && DoAll(l, []) == l;
  }

  /** The next packet of `m` can be put. */
  lemma NextPut(l: Ledger, m: Ledger)
    requires Proper(l) && Onward(l, m) && l.accepted != m.accepted && |l.queue| < l.cap
    ensures |l.accepted| < |m.accepted|
    ensures var n := Do(l, Put(m.accepted[|l.accepted|])); Proper(n) && Onward(n, m) && |n.accepted| == |l.accepted| + 1
  {
    DoIsOnward(l, Put(m.accepted[|l.accepted|]));
  }

  /** Or else the next packet can be taken. */
  lemma NextTake(l: Ledger, m: Ledger)
    requires Proper(l) && Onward(l, m) && (l.accepted == m.accepted || |l.queue| == l.cap) && Taken(l) < Taken(m)
    ensures l.queue != []
    ensures var n := Do(l, Take); Proper(n) && Onward(n, m) && Taken(n) == Taken(l) + 1 && n.accepted == l.accepted
  {
    DoIsOnward(l, Take);
  }

  /** Or else only the flag can differ. */
  lemma AllMoved(l: Ledger, m: Ledger)
    requires Proper(l) && Proper(m) && Onward(l, m)
    requires (l.accepted == m.accepted || |l.queue| == l.cap) && Taken(l) >= Taken(m)
    ensures m == l.(running := m.running)
  {
    assert |l.accepted| == |m.accepted|;
  }

  lemma {:induction false} LeadsWhereOnward(l: Ledger, m: Ledger)
    requires Proper(l) && Proper(m) && Onward(l, m)
    ensures Leads(l, m)
    decreases |m.accepted| - |l.accepted|, Taken(m) - Taken(l)
  {
    hide Leads, Proper;
    if l.accepted != m.accepted && |l.queue| < l.cap {
      NextPut(l, m);
      var put := Put(m.accepted[|l.accepted|]);
      LeadsWhereOnward(Do(l, put), m);
      LeadsFirst(l, put, m);
    } else {
      AtMostFull(l);
      if Taken(l) < Taken(m) {
        NextTake(l, m);
        LeadsWhereOnward(Do(l, Take), m);
        LeadsFirst(l, Take, m);
      } else {
        AllMoved(l, m);
        LeadsNowhere(m);
        if l.running != m.running {
          LeadsFirst(l, if l.running then Lower else Raise, m);
        }
      }
    }
  }

  lemma AtMostFull(l: Ledger)
    requires Proper(l)
    ensures |l.queue| <= l.cap
  {
  }

  /** Where the moves can lead, in one look. */
  lemma LeadsIff(l: Ledger, m: Ledger)
    requires Proper(l)
    ensures Leads(l, m) <==> Proper(m) && Onward(l, m)
  {
    if Leads(l, m) {
      var ms: seq<Move> :| Legal(l, ms) && DoAll(l, ms) == m;
      MovesAreOnward(l, ms);
    }
    if Proper(m) && Onward(l, m) {
      LeadsWhereOnward(l, m);
    }
  }
}
