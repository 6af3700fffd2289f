/**
 The sequence that `tl_queue.c` keeps in its linked list, as a function of the operations:
 first-in first-out without a priority callback, stable priority order with one.
*/
module ItemOrder {

  /** Before the first item of a larger priority value. */
  function Inserted<T>(pri: T -> int, s: seq<T>, x: T): (r: seq<T>)
    ensures |r| == |s| + 1
  {
    if s == [] || pri(x) < pri(s[0]) then [x] + s else [s[0]] + Inserted(pri, s[1..], x)
  }

  /** Where a scan from the head stops is where the item belongs. */
  lemma {:induction false} InsertedAt<T>(pri: T -> int, s: seq<T>, x: T, k: nat)
    requires k <= |s|
    requires forall j | 0 <= j < k :: pri(s[j]) <= pri(x)
    requires k < |s| ==> pri(x) < pri(s[k])
    ensures Inserted(pri, s, x) == s[..k] + [x] + s[k..]
  {
    if k > 0 {
      InsertedAt(pri, s[1..], x, k - 1);
      assert s[..k] == [s[0]] + s[1..][..k - 1];
      assert s[k..] == s[1..][k - 1..];
    }
  }

  lemma {:induction false} InsertedContent<T>(pri: T -> int, s: seq<T>, x: T)
    ensures multiset(Inserted(pri, s, x)) == multiset(s) + multiset{x}
  {
    if s != [] && pri(s[0]) <= pri(x) {
      InsertedContent(pri, s[1..], x);
      assert s == [s[0]] + s[1..];
    }
  }

  /** With equal priorities everywhere the callback changes nothing. */
  lemma {:induction false} EqualPrioritiesAreFifo<T>(pri: T -> int, s: seq<T>, x: T)
    requires forall y | y in s :: pri(y) == pri(x)
    ensures Inserted(pri, s, x) == s + [x]
  {
    InsertedAt(pri, s, x, |s|);
  }

  // Runs

  datatype Op<T> = Enq(x: T) | Deq

  /** An item with its position in the order of all calls to `queue_enq`. */
  datatype Entry<T> = Entry(item: T, stamp: nat)

  predicate Before<T>(pri: T -> int, a: Entry<T>, b: Entry<T>) {
    pri(a.item) < pri(b.item) || (pri(a.item) == pri(b.item) && a.stamp < b.stamp)
  }

  /** The queue during a run: the entries in it, those taken out, and the number put in. */
  datatype Run<T> = Run(queue: seq<Entry<T>>, taken: seq<Entry<T>>, count: nat)

  function Items<T>(q: seq<Entry<T>>): (r: seq<T>)
    ensures |r| == |q|
  {
    seq(|q|, i requires 0 <= i < |q| => q[i].item)
  }

  function InsertedEntry<T>(pri: T -> int, q: seq<Entry<T>>, e: Entry<T>): (r: seq<Entry<T>>)
    ensures |r| == |q| + 1
  {
    if q == [] || pri(e.item) < pri(q[0].item) then [e] + q else [q[0]] + InsertedEntry(pri, q[1..], e)
  }

  /** The stamps are only bookkeeping: the items move as in the linked list. */
  lemma {:induction false} StampsErase<T>(pri: T -> int, q: seq<Entry<T>>, e: Entry<T>)
    ensures Items(InsertedEntry(pri, q, e)) == Inserted(pri, Items(q), e.item)
  {
    if q != [] && pri(e.item) >= pri(q[0].item) {
      StampsErase(pri, q[1..], e);
      assert Items(q)[1..] == Items(q[1..]);
    }
  }

  function Step<T>(pri: T -> int, r: Run<T>, op: Op<T>): Run<T> {
    match op
    case Enq(x) => Run(InsertedEntry(pri, r.queue, Entry(x, r.count)), r.taken, r.count + 1)
    case Deq => if r.queue == [] then r else Run(r.queue[1..], r.taken + [r.queue[0]], r.count)
  }

  function Steps<T>(pri: T -> int, r: Run<T>, ops: seq<Op<T>>): Run<T>
    decreases |ops|
  {
    if ops == [] then r else Steps(pri, Step(pri, r, ops[0]), ops[1..])
  }

  ghost predicate Ordered<T>(pri: T -> int, r: Run<T>) {
    && (forall i, j | 0 <= i < j < |r.queue| :: Before(pri, r.queue[i], r.queue[j]))
    && (forall i | 0 <= i < |r.queue| :: r.queue[i].stamp < r.count)
  }

  lemma {:induction false} InsertedKeepsOrder<T>(pri: T -> int, q: seq<Entry<T>>, e: Entry<T>)
    requires forall i, j | 0 <= i < j < |q| :: Before(pri, q[i], q[j])
    requires forall i | 0 <= i < |q| :: q[i].stamp < e.stamp
    ensures var r := InsertedEntry(pri, q, e);
            && multiset(r) == multiset(q) + multiset{e}
            && forall i, j | 0 <= i < j < |r| :: Before(pri, r[i], r[j])
  {
    if q == [] || pri(e.item) < pri(q[0].item) {
      FirstKeepsOrder(pri, e, q);
    } else {
      var rest := InsertedEntry(pri, q[1..], e);
      InsertedKeepsOrder(pri, q[1..], e);
      assert q == [q[0]] + q[1..];
      forall j | 0 <= j < |rest|
        ensures Before(pri, q[0], rest[j])
      {
        assert rest[j] in multiset(rest);
        assert rest[j] == e || rest[j] in q[1..];
      }
      FirstKeepsOrder(pri, q[0], rest);
    }
  }

  lemma FirstKeepsOrder<T>(pri: T -> int, e: Entry<T>, q: seq<Entry<T>>)
    requires forall i, j | 0 <= i < j < |q| :: Before(pri, q[i], q[j])
    requires forall j | 0 <= j < |q| :: Before(pri, e, q[j])
    ensures forall i, j | 0 <= i < j < |q| + 1 :: Before(pri, ([e] + q)[i], ([e] + q)[j])
  {
  }

  /** Sorted, stable, and nothing lost or made up, after every run. */
  lemma {:induction false} RunKeepsOrder<T>(pri: T -> int, r: Run<T>, ops: seq<Op<T>>)
    requires Ordered(pri, r)
    ensures Ordered(pri, Steps(pri, r, ops))
    decreases |ops|
  {
    if ops != [] {
      StepKeepsOrder(pri, r, ops[0]);
      RunKeepsOrder(pri, Step(pri, r, ops[0]), ops[1..]);
    }
  }

  lemma StepKeepsOrder<T>(pri: T -> int, r: Run<T>, op: Op<T>)
    requires Ordered(pri, r)
    ensures Ordered(pri, Step(pri, r, op))
  {
    if op.Enq? {
      var e := Entry(op.x, r.count);
      InsertedKeepsOrder(pri, r.queue, e);
      var q := InsertedEntry(pri, r.queue, e);
      forall i | 0 <= i < |q|
        ensures q[i].stamp < r.count + 1
      {
        assert q[i] in multiset(q);
        assert q[i] == e || q[i] in r.queue;
      }
    }
  }

  // The reference: an unordered bag that always gives the earliest of the most urgent

  datatype Bag<T(==)> = Bag(content: multiset<Entry<T>>, taken: seq<Entry<T>>, count: nat)

  ghost predicate Earliest<T>(pri: T -> int, e: Entry<T>, content: multiset<Entry<T>>) {
    e in content && forall f | f in content && f != e :: Before(pri, e, f)
  }

  ghost predicate Serves<T>(pri: T -> int, a: Bag<T>, op: Op<T>, b: Bag<T>) {
    match op
    case Enq(x) => b == Bag(a.content + multiset{Entry(x, a.count)}, a.taken, a.count + 1)
    case Deq =>
      if a.content == multiset{} then b == a
      else
        exists e | e in a.content ::
          Earliest(pri, e, a.content) && b == Bag(a.content - multiset{e}, a.taken + [e], a.count)
  }

  /** The bag leaves no choice. */
  lemma ServesOneWay<T>(pri: T -> int, a: Bag<T>, op: Op<T>, b: Bag<T>, c: Bag<T>)
    requires Serves(pri, a, op, b) && Serves(pri, a, op, c)
    ensures b == c
  {
    if op.Deq? && a.content != multiset{} {
      var e :| Earliest(pri, e, a.content) && b == Bag(a.content - multiset{e}, a.taken + [e], a.count);
      var f :| Earliest(pri, f, a.content) && c == Bag(a.content - multiset{f}, a.taken + [f], a.count);
      OneEarliest(pri, a.content, e, f);
    }
  }

  lemma OneEarliest<T>(pri: T -> int, content: multiset<Entry<T>>, e: Entry<T>, f: Entry<T>)
    requires e in content && f in content && Earliest(pri, e, content) && Earliest(pri, f, content)
    ensures e == f
  {
    assert e != f ==> Before(pri, e, f) && Before(pri, f, e);
  }

  function AsBag<T(==)>(r: Run<T>): Bag<T> { Bag(multiset(r.queue), r.taken, r.count) }

  lemma HeadIsEarliest<T>(pri: T -> int, r: Run<T>)
    requires Ordered(pri, r) && r.queue != []
    ensures Earliest(pri, r.queue[0], multiset(r.queue))
    ensures multiset(r.queue[1..]) == multiset(r.queue) - multiset{r.queue[0]}
  {
    var e := r.queue[0];
    assert r.queue == [e] + r.queue[1..];
    forall f | f in multiset(r.queue) && f != e
      ensures Before(pri, e, f)
    {
      var i :| 0 <= i < |r.queue| && r.queue[i] == f;
    }
  }

  lemma StepServes<T>(pri: T -> int, r: Run<T>, op: Op<T>)
    requires Ordered(pri, r)
    ensures Serves(pri, AsBag(r), op, AsBag(Step(pri, r, op)))
  {
    if op.Enq? {
      InsertedKeepsOrder(pri, r.queue, Entry(op.x, r.count));
    } else if r.queue != [] {
      hide Earliest, Ordered;
      HeadIsEarliest(pri, r);
      assert r.queue[0] in multiset(r.queue);
    }
  }

  /** Every call in every run of the priority queue is the bag's answer to it. */
  lemma {:induction false} RunServes<T>(pri: T -> int, r: Run<T>, ops: seq<Op<T>>, k: nat)
    requires Ordered(pri, r) && k < |ops|
    ensures Serves(pri, AsBag(Steps(pri, r, ops[..k])), ops[k], AsBag(Steps(pri, r, ops[..k + 1])))
    decreases k
  {
    hide Step, Serves, Ordered, AsBag;
    var n := Step(pri, r, ops[0]);
    if k == 0 {
      assert ops[..1][1..] == [];
      assert Steps(pri, r, ops[..1]) == Steps(pri, n, []) == n;
      StepServes(pri, r, ops[0]);
    } else {
      StepKeepsOrder(pri, r, ops[0]);
      RunServes(pri, n, ops[1..], k - 1);
      assert ops[..k][1..] == ops[1..][..k - 1] && ops[..k + 1][1..] == ops[1..][..k];
    }
  }

  /** The entries that the calls to `queue_enq` in a run create. */
  function Put<T(==)>(ops: seq<Op<T>>, count: nat): multiset<Entry<T>>
    decreases |ops|
  {
    if ops == [] then multiset{}
    else if ops[0].Enq? then multiset{Entry(ops[0].x, count)} + Put(ops[1..], count + 1)
    else Put(ops[1..], count)
  }

  /** Conservation: what was put in is in the queue or was taken out, once each. */
  lemma {:induction false} NothingLost<T>(pri: T -> int, r: Run<T>, ops: seq<Op<T>>)
    requires Ordered(pri, r)
    ensures var f := Steps(pri, r, ops);
            multiset(f.queue) + multiset(f.taken) == multiset(r.queue) + multiset(r.taken) + Put(ops, r.count)
    decreases |ops|
  {
    if ops != [] {
      var n := Step(pri, r, ops[0]);
      StepKeepsOrder(pri, r, ops[0]);
      StepConserves(pri, r, ops[0]);
      assert Steps(pri, r, ops) == Steps(pri, n, ops[1..]);
      assert Put(ops, r.count) ==
             (if ops[0].Enq? then multiset{Entry(ops[0].x, r.count)} else multiset{}) + Put(ops[1..], n.count);
      hide *;
      NothingLost(pri, n, ops[1..]);
    }
  }

  lemma StepConserves<T>(pri: T -> int, r: Run<T>, op: Op<T>)
    requires Ordered(pri, r)
    ensures var n := Step(pri, r, op);
            && multiset(n.queue) + multiset(n.taken) ==
               multiset(r.queue) + multiset(r.taken) + (if op.Enq? then multiset{Entry(op.x, r.count)} else multiset{})
            && n.count == r.count + if op.Enq? then 1 else 0
  {
    if op.Enq? {
      InsertedKeepsOrder(pri, r.queue, Entry(op.x, r.count));
    } else if r.queue != [] {
      assert r.queue == [r.queue[0]] + r.queue[1..];
    }
  }
}
