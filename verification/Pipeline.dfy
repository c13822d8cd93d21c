/**
 The handler pipeline (`pipeline.go`, `context.go`): a doubly linked list of contexts on the heap that
 refines a sequence of handlers, and dispatch along the list in both directions.
 */
module Pipelines {
  import opened Common
  import opened Handlers

  /** A `handlerContext`. Its capability casts are the `caps` of its handler. */
  class Context<M> {
    const handler: Handler<M>
    var prev: Context?<M>
    var next: Context?<M>

    constructor (handler: Handler<M>, prev: Context?<M>, next: Context?<M>)
      ensures this.handler == handler && this.prev == prev && this.next == next
    {
      this.handler := handler;
      this.prev := prev;
      this.next := next;
    }

    /** The search loop of every dispatch towards the tail: the next context whose handler can `cap`. */
    method FindNext(cap: Capability, ghost p: Pipeline<M>, ghost k: nat) returns (c: Context?<M>, ghost at: nat)
      requires p.Valid() && p.Stands(this, k)
      ensures k < at <= p.size && NoneCan(p.Contents(), cap, k + 1, at)
      ensures if c == null then at == p.size else p.Stands(c, at)
      ensures c != null ==> cap in c.handler.caps
    {
      var next: Context<M> := this;
      at := k;
      while true
        invariant k <= at && p.Stands(next, at) && NoneCan(p.Contents(), cap, k + 1, at + 1)
        decreases p.size - at
      {
        p.Neighbours(next, at);
        at := at + 1;
        if next.next == null {
          return null, at;
        }
        next := next.next;
        if cap in next.handler.caps {
          return next, at;
        }
      }
    }

    /** The search loop of every dispatch towards the head. */
    method FindPrev(cap: Capability, ghost p: Pipeline<M>, ghost k: nat) returns (c: Context?<M>, ghost at: nat)
      requires p.Valid() && p.Stands(this, k)
      ensures at <= k && NoneCan(p.Contents(), cap, at, k)
      ensures if c == null then at == 0 else 0 < at && p.Stands(c, at - 1)
      ensures c != null ==> cap in c.handler.caps
    {
      var prev: Context<M> := this;
      at := k;
      while true
        invariant at <= k && p.Stands(prev, at) && NoneCan(p.Contents(), cap, at, k)
        decreases at
      {
        p.Neighbours(prev, at);
        if prev.prev == null {
          return null, at;
        }
        prev := prev.prev;
        if cap in prev.handler.caps {
          return prev, at;
        }
        at := at - 1;
      }
    }

    /** The message goes to the next handler towards the tail that can read, which does with it what it does. */
    method HandleRead(m: M, ghost p: Pipeline<M>, ghost k: nat) returns (r: Action<M>, ghost visited: seq<nat>)
      requires p.Valid() && p.Stands(this, k)
      ensures r == ReadThrough(p.Contents()[k + 1..], m, k + 1).result
      ensures visited == ReadThrough(p.Contents()[k + 1..], m, k + 1).visited
      decreases p.size - k
    {
      hide ReadThrough, NoneCan, HandlersOf, Pipeline.Valid;
      var next, at := FindNext(Inbound, p, k);
      p.Sizes();
      if next != null {
        p.HandlerAt(next, at);
      }
      ReadStep(p.Contents(), k, at, m);
      if next == null {
        return Forward(m), [];
      }
      r, visited := next.handler.onRead(m), [at];
      if r.Forward? {
        ghost var rest;
        r, rest := next.HandleRead(r.m, p, at);
        visited := [at] + rest;
      }
    }

    /** The message goes to the next handler towards the head that can write. */
    method HandleWrite(m: M, ghost p: Pipeline<M>, ghost k: nat) returns (r: Action<M>, ghost visited: seq<nat>)
      requires p.Valid() && p.Stands(this, k)
      ensures r == WriteThrough(p.Contents()[..k], m).result
      ensures visited == WriteThrough(p.Contents()[..k], m).visited
      decreases k
    {
      hide WriteThrough, NoneCan, HandlersOf, Pipeline.Valid;
      var prev, at := FindPrev(Outbound, p, k);
      p.Sizes();
      if prev != null {
        p.HandlerAt(prev, at - 1);
      }
      WriteStep(p.Contents(), k, at, m);
      if prev == null {
        return Forward(m), [];
      }
      r, visited := prev.handler.onWrite(m), [at - 1];
      if r.Forward? {
        ghost var rest;
        r, rest := prev.HandleWrite(r.m, p, at - 1);
        visited := [at - 1] + rest;
      }
    }

    /** `HandleActive`, `HandleException`, `HandleInactive`, `HandleEvent`: on to the next handler that can. */
    method HandleSignal(cap: Capability, ghost p: Pipeline<M>, ghost k: nat) returns (handled: bool, ghost visited: seq<nat>)
      requires p.Valid() && p.Stands(this, k)
      ensures visited == SignalPath(p.Contents()[k + 1..], cap, k + 1)
      ensures handled <==> SomeCapable(p.Contents()[k + 1..], cap)
      decreases p.size - k
    {
      hide SignalPath, SomeCapable, NoneCan, HandlersOf, Pipeline.Valid;
      var next, at := FindNext(cap, p, k);
      p.Sizes();
      if next != null {
        p.HandlerAt(next, at);
      }
      SignalStep(p.Contents(), cap, k, at);
      if next == null {
        return false, [];
      }
      handled, visited := true, [at];
      if cap in next.handler.passes {
        ghost var rest;
        var further;
        further, rest := next.HandleSignal(cap, p, at);
        visited := [at] + rest;
      }
    }

    /** `Write` from a handler: like `HandleWrite`, but a panic becomes an exception fired at the head. */
    method Write(m: M, p: Pipeline<M>, ghost k: nat) returns (r: Action<M>, ghost visited: seq<nat>, ghost raised: seq<nat>)
      requires p.Valid() && p.Stands(this, k)
      ensures r == WriteThrough(p.Contents()[..k], m).result
      ensures visited == WriteThrough(p.Contents()[..k], m).visited
      ensures raised == if r.Panic? then SignalPath(p.Contents()[1..], Exceptional, 1) else []
      ensures r.Panic? ==> raised != []
    {
      r, visited := HandleWrite(m, p, k);
      raised := [];
      if r.Panic? {
        var handled;
        handled, raised := p.FireChannelException();
      }
    }
  }

  /** `s` with `xs` put in after position `k`. */
  function InsertAfter<T>(s: seq<T>, k: nat, xs: seq<T>): (r: seq<T>)
    requires k < |s|
  {
    if xs == [] then s else s[..k + 1] + xs + s[k + 1..]
  }

  /** The two neighbours of a new context are linked to it. */
  method Tie<M>(prev: Context<M>, next: Context<M>, node: Context<M>, ghost was: seq<Context<M>>, ghost k: nat)
    requires k + 1 < |was| && was[k] == prev && was[k + 1] == next && node !in was && LinkedBut(was, -1)
    modifies prev`next, next`prev
    ensures LinkedBut(was, k) && prev.next == node && next.prev == node
    ensures next != was[0] && prev != was[|was| - 1]
  {
    prev.next := node;
    next.prev := node;
  }

  lemma InsertedNone<T>(s: seq<T>, k: nat)
    requires k < |s|
    ensures InsertAfter(s, k, []) == s
  {
  }

  lemma InsertedAt<T>(s: seq<T>, k: nat, x: T)
    requires k < |s|
    ensures var r := InsertAfter(s, k, [x]);
      && |r| == |s| + 1 && r[k + 1] == x
      && (forall i :: 0 <= i <= k ==> r[i] == s[i])
      && (forall i :: k + 1 < i <= |s| ==> r[i] == s[i - 1])
  {
  }

  /** next and prev agree along `nodes`, but perhaps between the positions `k` and `k + 1`; no context occurs twice. */
  ghost predicate LinkedBut<M>(nodes: seq<Context<M>>, k: int)
    reads nodes
  {
    && (forall i, j :: 0 <= i < |nodes| && 0 <= j < |nodes| && j == i + 1 && i != k ==>
          nodes[i].next == nodes[j] && nodes[j].prev == nodes[i])
    && (forall i, j :: 0 <= i < j < |nodes| ==> nodes[i] != nodes[j])
  }

  /** A new context that is linked between two neighbours completes the links. */
  lemma Relinked<M>(was: seq<Context<M>>, k: nat, node: Context<M>)
    requires k + 1 < |was| && node !in was && LinkedBut(was, k)
    requires was[k].next == node && node.prev == was[k] && node.next == was[k + 1] && was[k + 1].prev == node
    ensures var r := InsertAfter(was, k, [node]);
      |r| == |was| + 1 && r[0] == was[0] && r[|was|] == was[|was| - 1] && LinkedBut(r, -1)
      && forall i :: 0 <= i < |r| ==> r[i] in was || r[i] == node
  {
    hide InsertAfter;
    InsertedAt(was, k, node);
  }

  /** The handlers of a list of contexts. */
  function HandlersOf<M>(nodes: seq<Context<M>>): (hs: seq<Handler<M>>)
    ensures |hs| == |nodes| && forall i :: 0 <= i < |nodes| ==> hs[i] == nodes[i].handler
  {
    seq(|nodes|, i requires 0 <= i < |nodes| => nodes[i].handler)
  }

  lemma HandlersInserted<M>(nodes: seq<Context<M>>, k: nat, node: Context<M>)
    requires k < |nodes|
    ensures HandlersOf(InsertAfter(nodes, k, [node])) == InsertAfter(HandlersOf(nodes), k, [node.handler])
  {
  }

  lemma SplitAt<T>(p: seq<T>, q: seq<T>)
    ensures (p + q)[..|p|] == p && (p + q)[|p|..] == q
  {
  }

  /** One more element behind those put in after `k`. */
  lemma InsertedSnoc<T>(s: seq<T>, k: nat, xs: seq<T>, x: T)
    requires k < |s|
    ensures InsertAfter(InsertAfter(s, k, xs), k + |xs|, [x]) == InsertAfter(s, k, xs + [x])
  {
  }

  /** One more element in front of those put in after `k`. */
  lemma InsertedCons<T>(s: seq<T>, k: nat, xs: seq<T>, x: T)
    requires k < |s|
    ensures InsertAfter(InsertAfter(s, k, xs), k, [x]) == InsertAfter(s, k, [x] + xs)
  {
    var front, back := s[..k + 1], s[k + 1..];
    if xs == [] {
      assert [x] + xs == [x];
    } else {
      SplitAt(front, xs + back);
      assert front + xs + back == front + (xs + back);
      assert front + [x] + (xs + back) == front + ([x] + xs) + back;
    }
  }

  class Pipeline<M> {
    var head: Context<M>
    var tail: Context<M>
    var size: int
    /** The contexts from head to tail, and the same as a set. */
    ghost var nodes: seq<Context<M>>
    ghost var repr: set<Context<M>>

    /** next and prev are inverse along `nodes`, the ends are the ends, and no context occurs twice. */
    ghost predicate Valid()
      reads this, repr
    {
      && |nodes| == size >= 2
      && nodes[0] == head && nodes[size - 1] == tail
      && (forall i :: 0 <= i < size ==> nodes[i] in repr)
      && head.prev == null && tail.next == null
      && Exceptional in tail.handler.caps
      && LinkedBut(nodes, -1)
    }

    /** The context at position `k`. */
    ghost predicate Stands(c: Context<M>, k: nat)
      reads this
    {
      k < size && k < |nodes| && nodes[k] == c
    }

    lemma Neighbours(c: Context<M>, k: nat)
      requires Valid() && Stands(c, k)
      ensures if k + 1 < size then c.next == nodes[k + 1] else c.next == null
      ensures if k > 0 then c.prev == nodes[k - 1] else c.prev == null
    {
    }

    /** The context at position `k`, which is not the tail. */
    ghost predicate IsAt(c: Context<M>, k: nat)
      reads this
    {
      k < size - 1 && k < |nodes| && nodes[k] == c
    }

    /** The handlers from head to tail. */
    ghost function Contents(): (hs: seq<Handler<M>>)
      reads this
    {
      HandlersOf(nodes)
    }

    lemma HandlerAt(c: Context<M>, k: nat)
      requires Valid() && Stands(c, k)
      ensures k < |Contents()| == size && Contents()[k] == c.handler
    {
    }

    lemma Ends()
      requires Valid()
      ensures Stands(head, 0) && Stands(tail, size - 1) && size == |Contents()| >= 2
      ensures Exceptional in Contents()[size - 1].caps
    {
    }

    lemma Sizes()
      requires Valid()
      ensures |Contents()| == size >= 2
    {
    }

    /** `NewPipeline`: head and tail only. */
    constructor ()
      ensures Valid() && fresh(repr) && Contents() == [HeadHandler(), TailHandler()]
    {
      head := new Context(HeadHandler(), null, null);
      tail := new Context(TailHandler(), null, null);
      size := 2;
      new;
      head.next := tail;
      tail.prev := head;
      nodes := [head, tail];
      repr := {head, tail};
    }

    /** The link updates that put a new context between `cur` and its successor. */
    method LinkAfter(cur: Context<M>, h: Handler<M>, ghost k: nat) returns (node: Context<M>)
      requires Valid() && k < size - 1 && nodes[k] == cur
      modifies this, repr
      ensures Valid() && fresh(repr - old(repr)) && size == old(size) + 1
      ensures head == old(head) && tail == old(tail) && node.handler == h
      ensures nodes == InsertAfter(old(nodes), k, [node])
    {
      hide InsertAfter, LinkedBut;
      ghost var was := nodes;
      var oldNext := cur.next;
      Neighbours(cur, k);
      node := new Context(h, cur, oldNext);
      Tie(cur, oldNext, node, was, k);
      Relinked(was, k, node);
      size := size + 1;
      nodes := InsertAfter(nodes, k, [node]);
      repr := repr + {node};
    }

    /** The link updates that put a new context between the tail and its predecessor. */
    method LinkLast(h: Handler<M>) returns (node: Context<M>)
      requires Valid()
      modifies this, repr
      ensures Valid() && fresh(repr - old(repr)) && size == old(size) + 1
      ensures head == old(head) && tail == old(tail) && node.handler == h
      ensures nodes == InsertAfter(old(nodes), old(size) - 2, [node])
    {
      hide InsertAfter, LinkedBut;
      ghost var k, was := size - 2, nodes;
      Neighbours(tail, k + 1);
      var oldPrev := tail.prev;
      node := new Context(h, oldPrev, tail);
      Tie(oldPrev, tail, node, was, k);
      Relinked(was, k, node);
      size := size + 1;
      nodes := InsertAfter(nodes, k, [node]);
      repr := repr + {node};
    }

    method LinkBehind(cur: Context<M>, h: Handler<M>, ghost k: nat) returns (node: Context<M>)
      requires Valid() && IsAt(cur, k)
      modifies this, repr
      ensures Valid() && fresh(repr - old(repr)) && IsAt(node, k + 1)
      ensures head == old(head) && tail == old(tail)
      ensures Contents() == InsertAfter(old(Contents()), k, [h])
    {
      ghost var before := nodes;
      node := LinkAfter(cur, h, k);
      HandlersInserted(before, k, node);
    }

    method LinkAtEnd(h: Handler<M>)
      requires Valid()
      modifies this, repr
      ensures Valid() && fresh(repr - old(repr)) && size == old(size) + 1
      ensures head == old(head) && tail == old(tail)
      ensures Contents() == InsertAfter(old(Contents()), old(size) - 2, [h])
    {
      ghost var before := nodes;
      var node := LinkLast(h);
      HandlersInserted(before, |before| - 2, node);
    }

    /** `LinkBehind` when `xs` have already been put in after position `k`, `cur` being the last of them. */
    method PutBehind(cur: Context<M>, h: Handler<M>, ghost was: seq<Handler<M>>, ghost k: nat, ghost xs: seq<Handler<M>>)
      returns (node: Context<M>)
      requires k < |was| && Valid() && IsAt(cur, k + |xs|)
      requires Contents() == InsertAfter(was, k, xs)
      modifies this, repr
      ensures Valid() && fresh(repr - old(repr)) && IsAt(node, k + |xs| + 1)
      ensures head == old(head) && tail == old(tail)
      ensures Contents() == InsertAfter(was, k, xs + [h])
    {
      hide Pipeline.Valid, InsertAfter, HandlersOf;
      InsertedSnoc(was, k, xs, h);
      node := LinkBehind(cur, h, k + |xs|);
    }

    /** `addFirst`, when `xs` have already been put in after the head. */
    method PutFirst(h: Handler<M>, ghost was: seq<Handler<M>>, ghost xs: seq<Handler<M>>)
      requires Valid() && |was| > 0 && Contents() == InsertAfter(was, 0, xs)
      modifies this, repr
      ensures Valid() && fresh(repr - old(repr)) && head == old(head) && tail == old(tail)
      ensures Contents() == InsertAfter(was, 0, [h] + xs)
    {
      InsertedCons(was, 0, xs, h);
      var _ := LinkBehind(head, h, 0);
    }

    /** `addLast`, when `xs` have already been put in after position `k`. */
    method PutLast(h: Handler<M>, ghost was: seq<Handler<M>>, ghost k: nat, ghost xs: seq<Handler<M>>)
      requires Valid() && k + |xs| == size - 2
      requires k < |was| && Contents() == InsertAfter(was, k, xs)
      modifies this, repr
      ensures Valid() && fresh(repr - old(repr)) && size == old(size) + 1
      ensures head == old(head) && tail == old(tail)
      ensures Contents() == InsertAfter(was, k, xs + [h])
    {
      hide Pipeline.Valid, InsertAfter, HandlersOf;
      InsertedSnoc(was, k, xs, h);
      LinkAtEnd(h);
    }

    /** Each handler goes right behind the head; false is the panic on an unrecognized handler. */
    method AddFirst(handlers: seq<Handler<M>>) returns (ok: bool)
      requires Valid()
      modifies this, repr
      ensures Valid() && fresh(repr - old(repr)) && head == old(head) && tail == old(tail)
      ensures ok <==> (forall i :: 0 <= i < |handlers| ==> handlers[i].caps != {})
      ensures Contents() == if ok then InsertAfter(old(Contents()), 0, Reversed(handlers)) else old(Contents())
    {
      hide Pipeline.Valid, InsertAfter, HandlersOf;
      if !Recognized(handlers) {
        return false;
      }
      ghost var was := Contents();
      Sizes();
      InsertedNone(was, 0);
      for i := 0 to |handlers|
        invariant Valid() && fresh(repr - old(repr)) && head == old(head) && tail == old(tail)
        invariant Contents() == InsertAfter(was, 0, Reversed(handlers[..i]))
      {
        ReversedSnoc(handlers[..i], handlers[i]);
        assert handlers[..i + 1] == handlers[..i] + [handlers[i]];
        PutFirst(handlers[i], was, Reversed(handlers[..i]));
      }
      assert handlers[..|handlers|] == handlers;
      return true;
    }

    /** Each handler goes right before the tail. */
    method AddLast(handlers: seq<Handler<M>>) returns (ok: bool)
      requires Valid()
      modifies this, repr
      ensures Valid() && fresh(repr - old(repr)) && head == old(head) && tail == old(tail)
      ensures ok <==> (forall i :: 0 <= i < |handlers| ==> handlers[i].caps != {})
      ensures Contents() == if ok then InsertAfter(old(Contents()), old(size) - 2, handlers) else old(Contents())
    {
      hide Pipeline.Valid, InsertAfter, HandlersOf;
      if !Recognized(handlers) {
        return false;
      }
      Sizes();
      ghost var was, k := Contents(), size - 2;
      InsertedNone(was, k);
      for i := 0 to |handlers|
        invariant Valid() && fresh(repr - old(repr)) && head == old(head) && tail == old(tail)
        invariant size == old(size) + i
        invariant Contents() == InsertAfter(was, k, handlers[..i])
      {
        assert handlers[..i + 1] == handlers[..i] + [handlers[i]];
        PutLast(handlers[i], was, k, handlers[..i]);
      }
      assert handlers[..|handlers|] == handlers;
      return true;
    }

    /** The context at a position, counted from the head; positions below 0 give the head. */
    method Walk(position: int) returns (curNode: Context<M>)
      requires Valid() && position < size
      ensures curNode == nodes[if position < 0 then 0 else position]
    {
      curNode := head;
      var i := 0;
      while i < position
        invariant 0 <= i < size && (i <= position || i == 0) && curNode == nodes[i]
      {
        assert nodes[i + 1] == curNode.next;
        curNode := curNode.next;
        i := i + 1;
      }
    }

    /** The second loop of `AddHandler`: one handler behind the other, starting behind `start`. */
    method InsertBehind(start: Context<M>, handlers: seq<Handler<M>>, ghost k: nat)
      requires Valid() && IsAt(start, k)
      modifies this, repr
      ensures Valid() && fresh(repr - old(repr)) && head == old(head) && tail == old(tail)
      ensures Contents() == InsertAfter(old(Contents()), k, handlers)
    {
      hide Pipeline.Valid;
      var curNode := start;
      ghost var was, done := Contents(), [];
      for i := 0 to |handlers|
        invariant Valid() && fresh(repr - old(repr)) && head == old(head) && tail == old(tail)
        invariant k < |was| && done == handlers[..i]
        invariant IsAt(curNode, k + |done|)
        invariant Contents() == InsertAfter(was, k, done)
      {
        curNode := PutBehind(curNode, handlers[i], was, k, done);
        done := done + [handlers[i]];
      }
      assert done == handlers;
    }

    /**
     Behind `position`; -1 and the last position mean right before the tail, other negative positions behind
     the head. False is a panic: an unrecognized handler or a position past the end.
     */
    method AddHandler(position: int, handlers: seq<Handler<M>>) returns (ok: bool)
      requires Valid()
      modifies this, repr
      ensures Valid() && fresh(repr - old(repr)) && head == old(head) && tail == old(tail)
      ensures ok <==> (forall i :: 0 <= i < |handlers| ==> handlers[i].caps != {}) && position < old(size)
      ensures Contents() ==
        if !ok then old(Contents())
        else if position == -1 || position == old(size) - 1 then InsertAfter(old(Contents()), old(size) - 2, handlers)
        else InsertAfter(old(Contents()), if position < 0 then 0 else position, handlers)
    {
      if !Recognized(handlers) || position >= size {
        return false;
      }
      if position == -1 || position == size - 1 {
        ok := AddLast(handlers);
        return;
      }
      var curNode := Walk(position);
      InsertBehind(curNode, handlers, if position < 0 then 0 else position);
      return true;
    }

    /** The first position whose handler satisfies `comp`, or -1. */
    method IndexOf(comp: Handler<M> -> bool) returns (index: int)
      requires Valid()
      ensures -1 <= index < size
      ensures index == -1 ==> forall i :: 0 <= i < size ==> !comp(Contents()[i])
      ensures index >= 0 ==> comp(Contents()[index]) && forall i :: 0 <= i < index ==> !comp(Contents()[i])
    {
      var cur := head;
      var i := 0;
      while true
        invariant 0 <= i < size && cur == nodes[i]
        invariant forall j :: 0 <= j < i ==> !comp(Contents()[j])
        decreases size - i
      {
        if comp(cur.handler) {
          return i;
        }
        assert i + 1 < size ==> nodes[i + 1] == cur.next;
        if cur.next == null {
          break;
        }
        cur := cur.next;
        i := i + 1;
      }
      return -1;
    }

    /** The last position whose handler satisfies `comp`, or -1. */
    method LastIndexOf(comp: Handler<M> -> bool) returns (index: int)
      requires Valid()
      ensures -1 <= index < size
      ensures index == -1 ==> forall i :: 0 <= i < size ==> !comp(Contents()[i])
      ensures index >= 0 ==> comp(Contents()[index]) && forall i :: index < i < size ==> !comp(Contents()[i])
    {
      var cur := tail;
      var i := size - 1;
      while true
        invariant 0 <= i < size && cur == nodes[i]
        invariant forall j :: i < j < size ==> !comp(Contents()[j])
        decreases i
      {
        if comp(cur.handler) {
          return i;
        }
        assert i > 0 ==> nodes[i - 1] == cur.prev;
        if cur.prev == null {
          break;
        }
        cur := cur.prev;
        i := i - 1;
      }
      return -1;
    }

    /** The context at a position; nil for -1 and past the end, the head for other negative positions. */
    method ContextAt(position: int) returns (c: Context?<M>)
      requires Valid()
      ensures position == -1 || position >= size ==> c == null
      ensures position < -1 ==> c == head
      ensures 0 <= position < size ==> c == nodes[position] && c.handler == Contents()[position]
    {
      if position == -1 || position >= size {
        return null;
      }
      c := Walk(position);
    }

    method FireChannelRead(m: M) returns (r: Action<M>, ghost visited: seq<nat>)
      requires Valid()
      ensures r == ReadThrough(Contents()[1..], m, 1).result
      ensures visited == ReadThrough(Contents()[1..], m, 1).visited
    {
      hide ReadThrough, Pipeline.Valid, HandlersOf;
      Ends();
      r, visited := head.HandleRead(m, this, 0);
    }

    /**
     A message written at the tail of `this` and delivered at the head of `peer`, when both hold the same
     codecs and each undoes its encoding, arrives as it was written.
     */
    method Deliver(m: M, peer: Pipeline<M>, ghost codecs: seq<Handler<M>>) returns (wire: Action<M>, got: Action<M>)
      requires Valid() && Contents() == [HeadHandler()] + codecs + [TailHandler()]
      requires peer.Valid() && peer.Contents() == Contents()
      requires AllUndo(codecs, m)
      ensures wire == Absorb(EncodeAll(codecs, m)) && got == Forward(m)
    {
      hide ReadThrough, WriteThrough, EncodeAll, AllUndo, Pipeline.Valid, HandlersOf;
      Ends();
      PipelineRoundTrip(Contents(), codecs, m);
      ghost var path;
      wire, path := FireChannelWrite(m);
      got, path := peer.FireChannelRead(wire.m);
    }

    method FireChannelWrite(m: M) returns (r: Action<M>, ghost visited: seq<nat>)
      requires Valid()
      ensures r == WriteThrough(Contents()[..size - 1], m).result
      ensures visited == WriteThrough(Contents()[..size - 1], m).visited
    {
      hide WriteThrough, Pipeline.Valid, HandlersOf;
      Ends();
      r, visited := tail.HandleWrite(m, this, size - 1);
    }

    /** An exception is always handled by somebody, at worst by the tail, which closes the channel. */
    method FireChannelException() returns (handled: bool, ghost visited: seq<nat>)
      requires Valid()
      ensures visited == SignalPath(Contents()[1..], Exceptional, 1) && visited != [] && handled
    {
      hide SignalPath, Pipeline.Valid, HandlersOf;
      Ends();
      ghost var rest := Contents()[1..];
      assert Exceptional in rest[|rest| - 1].caps;
      SignalIsHandled(rest, Exceptional, 1);
      handled, visited := head.HandleSignal(Exceptional, this, 0);
    }
  }
}
