/**
 Runs of `queue_enq` and `queue_deq` on the heap. They follow `ItemOrder.Steps`, so that what is proved of
 those runs holds of the linked list.
*/
module QueueRuns {
  import opened ItemOrder
  import opened Options
  import T = TlQueue

  /** Without a callback all items count the same. */
  ghost function Priority(priCmpCb: Option<T.QueueItem -> int>): T.QueueItem -> int {
    match priCmpCb
    case None => _ => 0
    case Some(pri) => pri
  }

  /** No item is put in while it is in the queue. */
  ghost predicate AllNew(pri: T.QueueItem -> int, r: Run<T.QueueItem>, ops: seq<Op<T.QueueItem>>)
    decreases |ops|
  {
    ops != [] ==>
      && (ops[0].Enq? ==> ops[0].x !in Items(r.queue))
      && AllNew(pri, Step(pri, r, ops[0]), ops[1..])
  }

  ghost function PutIn(ops: seq<Op<T.QueueItem>>): set<T.QueueItem> {
    set op | op in ops && op.Enq? :: op.x
  }

  /** The abstract run `r` is the heap's. */
  ghost predicate Follows(q: T.Queue, r: Run<T.QueueItem>)
    reads q, q.items`next
  {
    q.Valid() && q.items == Items(r.queue)
  }

  /** One call. */
  method Serve(q: T.Queue, op: Op<T.QueueItem>, irq: T.Irq, ghost r: Run<T.QueueItem>) returns (out: seq<T.QueueItem>)
    requires Follows(q, r) && (op.Enq? ==> op.x !in Items(r.queue))
    modifies q, T.Linked(q), irq`enabled, PutIn([op])
    ensures q.priCmpCb == old(q.priCmpCb)
    ensures Follows(q, Step(Priority(q.priCmpCb), r, op))
    ensures Items(r.taken) + out == Items(Step(Priority(q.priCmpCb), r, op).taken)
    ensures T.Linked(q) <= old(T.Linked(q)) + PutIn([op])
  {
    ghost var s, pri := q.items, Priority(q.priCmpCb);
    out := [];
    match op {
      case Enq(x) =>
        assert x in PutIn([op]) by { assert op in [op]; }
        StampsErase(pri, r.queue, Entry(x, r.count));
        AsEnqueued(q.priCmpCb, s, x);
        hide T.Queue.Chain, T.WithItem, Inserted;
        var st := T.Enq(q, x, irq);
      case Deq =>
        hide T.Queue.Chain;
        var item := T.Deq(q, irq);
        if item != null {
          out := [item];
        }
    }
  }

  lemma AsEnqueued(priCmpCb: Option<T.QueueItem -> int>, s: seq<T.QueueItem>, x: T.QueueItem)
    ensures T.WithItem(priCmpCb, s, x) == Inserted(Priority(priCmpCb), s, x)
    ensures forall y | y in T.WithItem(priCmpCb, s, x) :: y in s || y == x
  {
    if priCmpCb.None? {
      EqualPrioritiesAreFifo(Priority(priCmpCb), s, x);
    }
    InsertedContent(Priority(priCmpCb), s, x);
    forall y | y in T.WithItem(priCmpCb, s, x)
      ensures y in s || y == x
    {
      assert y in multiset(Inserted(Priority(priCmpCb), s, x));
    }
  }

  /** Any number of calls, in either mode. */
  method ServeAll(q: T.Queue, ops: seq<Op<T.QueueItem>>, irq: T.Irq, ghost r: Run<T.QueueItem>)
    returns (out: seq<T.QueueItem>)
    requires Follows(q, r) && AllNew(Priority(q.priCmpCb), r, ops)
    modifies q, T.Linked(q), irq`enabled, PutIn(ops)
    ensures q.priCmpCb == old(q.priCmpCb)
    ensures Follows(q, Steps(Priority(q.priCmpCb), r, ops))
    ensures Items(r.taken) + out == Items(Steps(Priority(q.priCmpCb), r, ops).taken)
  {
    hide Follows, Step, T.Linked;
    ghost var c, pri := r, Priority(q.priCmpCb);
    out := [];
    assert ops[0..] == ops;
    for i := 0 to |ops|
      invariant q.priCmpCb == old(q.priCmpCb) && Follows(q, c) && T.Linked(q) <= old(T.Linked(q)) + PutIn(ops)
      invariant AllNew(pri, c, ops[i..]) && Steps(pri, c, ops[i..]) == Steps(pri, r, ops)
      invariant Items(r.taken) + out == Items(c.taken)
    {
      assert ops[i..][0] == ops[i] && ops[i..][1..] == ops[i + 1..];
      assert PutIn([ops[i]]) <= PutIn(ops);
      var more := Serve(q, ops[i], irq, c);
      out := out + more;
      c := Step(pri, c, ops[i]);
    }
  }
}
