/**
 The intrusive linked list of `tl_queue.c`, as a heap of items with `next` pointers that
 always stands for one sequence of distinct items. Interrupts are a flag that every call
 switches off while it works and puts back on every path out.
*/
module TlQueue {
  import opened Bits
  import opened Options
  import opened ItemOrder

  datatype Status = Success | ParamInvalid | Empty | NotFound

  /** `irq_disable` returns the former state; `irq_restore` puts it back. */
  class Irq {
    var enabled: bool

    method Disable() returns (r: bool)
      modifies this`enabled
      ensures r == old(enabled) && !enabled
    {
      r := enabled;
      enabled := false;
    }

    method Restore(r: bool)
      modifies this`enabled
      ensures enabled == r
    {
      enabled := r;
    }
  }

  class QueueItem {
    var next: QueueItem?

    constructor ()
    {
      next := null;
    }
  }

  ghost predicate Distinct<T>(s: seq<T>) {
    forall i, j | 0 <= i < j < |s| :: s[i] != s[j]
  }

  lemma DistinctInsert<T>(s: seq<T>, k: nat, x: T)
    requires Distinct(s) && x !in s && k <= |s|
    ensures Distinct(s[..k] + [x] + s[k..])
  {
  }

  lemma DistinctRemove<T>(s: seq<T>, k: nat)
    requires Distinct(s) && k < |s|
    ensures Distinct(s[..k] + s[k + 1..])
  {
  }

  lemma RestOf<T>(s: seq<T>)
    requires Distinct(s) && s != []
    ensures Distinct(s[1..])
    ensures |s| > 1 ==> s[1..][0] == s[1] && s[1..][|s| - 2] == s[|s| - 1] && s[|s| - 1] != s[0]
  {
    assert |s| > 1 ==> s[0] != s[|s| - 1];
  }

  lemma OnlyAt<T>(s: seq<T>, k: nat)
    requires Distinct(s) && k < |s|
    ensures forall i | 0 <= i < |s| && i != k :: s[i] != s[k]
  {
  }

  class Queue {
    var head: QueueItem?
    var tail: QueueItem?
    var curNum: u32
    var priCmpCb: Option<QueueItem -> int>
    ghost var items: seq<QueueItem>

    /** The links from the head to the tail run through `s`. */
    ghost predicate Links(s: seq<QueueItem>)
      reads this`head, this`tail, s`next
    {
      && Distinct(s)
      && (forall i | 0 <= i < |s| - 1 :: s[i].next == s[i + 1])
      && (s == [] ==> head == null && tail == null)
      && (s != [] ==> head == s[0] && tail == s[|s| - 1] && s[|s| - 1].next == null)
    }

    /** The heap holds exactly the list `s`. */
    ghost predicate Chain(s: seq<QueueItem>)
      reads this, s`next
    {
      Links(s) && curNum == Wrap32(|s|)
    }

    ghost predicate Valid()
      reads this, items`next
    {
      Chain(items)
    }

    /** `queue_init` */
    constructor (priFunc: Option<QueueItem -> int>)
      ensures Valid() && items == [] && priCmpCb == priFunc
    {
      head, tail, curNum, priCmpCb := null, null, 0, priFunc;
      items := [];
    }
  }

  /** The list after `item` was enqueued in front of, behind or among `s`. */
  ghost function WithItem(pri: Option<QueueItem -> int>, s: seq<QueueItem>, item: QueueItem): (r: seq<QueueItem>)
    ensures |r| == |s| + 1
  {
    if pri.None? then s + [item] else Inserted(pri.value, s, item)
  }

  ghost function Linked(q: Queue?): set<QueueItem>
    reads q
  {
    if q == null then {} else set x | x in q.items
  }

  // Heaps that are no list

  /** Nothing leads out of the nodes `s`. */
  ghost predicate Enclosed(q: Queue, s: seq<QueueItem>)
    reads q`head, s`next
  {
    q.head in s && forall i | 0 <= i < |s| :: s[i].next == null || s[i].next in s
  }

  /** There are no more nodes to reach, but the count is one higher. */
  ghost predicate Overcounted(q: Queue, s: seq<QueueItem>)
    reads q`head, q`curNum, s`next
  {
    Enclosed(q, s) && q.curNum == Wrap32(|s| + 1)
  }

  /** Relinking an item of the list to an item of the list leads nowhere else. */
  lemma StaysInside(q: Queue, s: seq<QueueItem>, item: QueueItem, after: QueueItem?)
    requires q.head in s && item in s && (after == null || after in s)
    requires forall i | 0 <= i < |s| :: s[i].next == item || s[i].next == after || s[i].next == NextIn(s, i)
    ensures Enclosed(q, s)
  {
    assert forall i | 0 <= i < |s| :: NextIn(s, i) == null || NextIn(s, i) in s;
  }

  lemma {:induction false} ReachedIsEnclosed(q: Queue, s: seq<QueueItem>, t: seq<QueueItem>, i: nat)
    requires Enclosed(q, s) && q.Links(t) && i < |t|
    ensures t[i] in s
  {
    if i > 0 {
      ReachedIsEnclosed(q, s, t, i - 1);
      var j :| 0 <= j < |s| && s[j] == t[i - 1];
      assert s[j].next == t[i];
    }
  }

  lemma {:induction false} SetSize<T>(t: seq<T>)
    ensures |set x | x in t| <= |t| && (Distinct(t) ==> |set x | x in t| == |t|)
  {
    if t != [] {
      var rest := t[1..];
      SetSize(rest);
      assert (set x | x in t) == {t[0]} + set x | x in rest;
    }
  }

  lemma {:induction false} SubsetSize<T>(a: set<T>, b: set<T>)
    requires a <= b
    ensures |a| <= |b|
  {
    assert b == a + (b - a);
  }

  /** No list at all, whatever the ghost state says. */
  lemma OvercountedIsNoList(q: Queue, s: seq<QueueItem>)
    requires Overcounted(q, s) && |s| + 1 < 0x1_0000_0000
    ensures forall t :: !q.Chain(t)
  {
    forall t
      ensures !q.Chain(t)
    {
      if q.Chain(t) {
        forall i | 0 <= i < |t|
          ensures t[i] in s
        {
          ReachedIsEnclosed(q, s, t, i);
        }
        SetSize(s);
        SetSize(t);
        SubsetSize(set x | x in t, set x | x in s);
        assert false;
      }
    }
  }

  /** No list of the old items and this one. */
  lemma NoListWith(q: Queue, s: seq<QueueItem>, item: QueueItem)
    requires item in s || Enclosed(q, s)
    ensures forall t | q.Chain(t) :: multiset(t) != multiset(s) + multiset{item}
  {
    forall t | q.Chain(t) && multiset(t) == multiset(s) + multiset{item}
      ensures false
    {
      assert item in multiset(t);
      var i :| 0 <= i < |t| && t[i] == item;
      if item in s {
        OnceOnly(t, s, item);
      } else {
        ReachedIsEnclosed(q, s, t, i);
      }
    }
  }

  lemma OnceOnly<T>(t: seq<T>, s: seq<T>, x: T)
    requires Distinct(t) && x in s
    ensures multiset(t) != multiset(s) + multiset{x}
  {
    AtMostOnce(t, x);
    assert multiset(s)[x] >= 1;
  }

  lemma {:induction false} AtMostOnce<T>(t: seq<T>, x: T)
    requires Distinct(t)
    ensures multiset(t)[x] <= 1
  {
    if t != [] {
      AtMostOnce(t[1..], x);
      assert t == [t[0]] + t[1..];
      assert t[0] !in t[1..];
    }
  }

  /** The list as far as the item. */
  ghost function Upto<T>(s: seq<T>, x: T): seq<T>
    requires x in s
  {
    s[..Position(s, x) + 1]
  }

  /**
   The heap after `queue_enq` found the list `s`. An item that is in the list already leaves no list; in
   a FIFO what stood behind the item is cut off.
  */
  ghost predicate Enqueued(q: Queue, s: seq<QueueItem>, item: QueueItem)
    reads q, q.items`next, s`next
  {
    if item !in s then q.Valid() && q.items == WithItem(q.priCmpCb, s, item)
    else
      && q.items == s && !q.Valid() && Overcounted(q, s)
      && (q.priCmpCb == None ==> q.Links(Upto(s, item)))
  }

  /** `queue_enq` */
  method Enq(q: Queue?, item: QueueItem?, irq: Irq) returns (st: Status)
    requires q != null ==> q.Valid()
    modifies q, item, Linked(q), irq`enabled
    ensures irq.enabled == old(irq.enabled)
    ensures st == if q == null || item == null then ParamInvalid else Success
    ensures q != null ==> q.priCmpCb == old(q.priCmpCb)
    ensures q != null && item == null ==> q.Valid() && q.items == old(q.items)
    ensures st == Success ==> Enqueued(q, old(q.items), item)
    ensures st == Success && item in old(q.items) && |old(q.items)| + 1 < 0x1_0000_0000 ==> forall s :: !q.Chain(s)
  {
    if q == null || item == null {
      return ParamInvalid;
    }
    hide Queue.Chain, Enqueued;
    ghost var s := q.items;
    var r := irq.Disable();
    EnqDisabled(q, item);
    irq.Restore(r);
    if item in s && |s| + 1 < 0x1_0000_0000 {
      DuplicateIsNoList(q, s, item);
    }
    st := Success;
  }

  /** A duplicate leaves no list at all. */
  lemma DuplicateIsNoList(q: Queue, s: seq<QueueItem>, item: QueueItem)
    requires Enqueued(q, s, item) && item in s && |s| + 1 < 0x1_0000_0000
    ensures forall t :: !q.Chain(t)
  {
    OvercountedIsNoList(q, s);
  }

  /** The part of `queue_enq` between disabling and restoring the interrupts. */
  method EnqDisabled(q: Queue, item: QueueItem)
    requires q.Valid()
    modifies q, item, Linked(q)
    ensures q.priCmpCb == old(q.priCmpCb) && Enqueued(q, old(q.items), item)
  {
    hide *;
    ghost var s := q.items;
    CountUp(|s|);
    LinkItem(q, item);
    q.curNum := Wrap32(q.curNum + 1);
    CountedIn(q, s, item);
  }

  /** All but the count of `Enqueued`. */
  ghost predicate LinkedIn(q: Queue, s: seq<QueueItem>, item: QueueItem)
    reads q`head, q`tail, q`items, q`priCmpCb, q.items`next, s`next
  {
    if item !in s then q.items == WithItem(q.priCmpCb, s, item) && q.Links(q.items)
    else q.items == s && Enclosed(q, s) && (q.priCmpCb == None ==> q.Links(Upto(s, item)))
  }

  lemma CountedIn(q: Queue, s: seq<QueueItem>, item: QueueItem)
    requires LinkedIn(q, s, item) && q.curNum == Wrap32(|s| + 1)
    ensures Enqueued(q, s, item)
  {
    CountUp(|s|);
    hide Queue.Links, Enclosed, Upto, WithItem, Wrap32;
    if item in s {
      assert q.items == s && q.curNum != Wrap32(|s|);
    } else {
      assert |q.items| == |s| + 1;
    }
  }

  method LinkItem(q: Queue, item: QueueItem)
    requires q.Valid()
    modifies q, item, Linked(q)
    ensures LinkedIn(q, old(q.items), item)
    ensures q.priCmpCb == old(q.priCmpCb) && q.curNum == old(q.curNum) == Wrap32(|old(q.items)|)
  {
    Ends(q);
    hide Queue.Links, Enclosed, Upto;
    if q.head == null {
      StartList(q, item);
      assert q.items == [] + [item];
    } else if q.priCmpCb == None {
      AppendItem(q, item);
    } else {
      InsertByPriority(q, item);
    }
  }

  lemma CountUp(n: nat)
    ensures Wrap32(Wrap32(n) + 1) == Wrap32(n + 1)
    ensures n > 0 ==> Wrap32(Wrap32(n) - 1) == Wrap32(n - 1)
    ensures Wrap32(n + 1) != Wrap32(n)
  {
    var turns := n / 0x1_0000_0000;
    Turns(n + 1, 0x1_0000_0000, -turns);
    Turns(n - 1, 0x1_0000_0000, -turns);
  }

  /** All of `Chain` but the count, which the callers update last. */
  twostate predicate Relinked(q: Queue, s: seq<QueueItem>)
    reads q, s`next
  {
    && s != [] && q.items == s && q.Links(s)
    && q.curNum == old(q.curNum) && q.priCmpCb == old(q.priCmpCb)
  }

  /** The links stay inside the list; the count and the specification are as they were. */
  twostate predicate Miscounted(q: Queue)
    reads q, q.items`next
  {
    && q.items == old(q.items) && q.curNum == old(q.curNum) && q.priCmpCb == old(q.priCmpCb)
    && Enclosed(q, q.items)
  }

  method StartList(q: Queue, item: QueueItem)
    requires q.Valid() && q.items == []
    modifies q, item
    ensures Relinked(q, [item])
  {
    q.head := item;
    q.tail := item;
    item.next := null;
    q.items := [item];
  }

  /** No callback: at the end. */
  method AppendItem(q: Queue, item: QueueItem)
    requires q.Valid() && q.items != []
    modifies q, item, Linked(q)
    ensures item !in old(q.items) ==> Relinked(q, old(q.items) + [item])
    ensures item in old(q.items) ==> Miscounted(q) && q.Links(Upto(old(q.items), item))
  {
    ghost var s := q.items;
    if item !in s {
      DistinctInsert(s, |s|, item);
    }
    OnlyAt(s, |s| - 1);
    hide Distinct, Position;
    assert s[..|s|] + [item] + s[|s|..] == s + [item];
    q.tail.next := item;
    item.next := null;
    q.tail := item;
    if item in s {
      CutOff(q, s, item);
    } else {
      q.items := s + [item];
    }
  }

  /** The item becomes the last one where it stands. */
  lemma CutOff(q: Queue, s: seq<QueueItem>, item: QueueItem)
    requires Distinct(s) && item in s && q.head == s[0] && q.tail == item && item.next == null
    requires forall i | 0 <= i < |s| - 1 && s[i] != item :: s[i].next == s[i + 1]
    requires s[|s| - 1] != item ==> s[|s| - 1].next == item
    ensures q.Links(Upto(s, item)) && Enclosed(q, s)
  {
    var n := Upto(s, item);
    OnlyAt(s, Position(s, item));
    forall i | 0 <= i < |n| - 1
      ensures n[i].next == n[i + 1]
    {
      assert n[i] == s[i] && n[i + 1] == s[i + 1];
    }
    assert Distinct(n);
    StaysInside(q, s, item, null);
  }

  /** With a callback: before the first item of a larger value. */
  method InsertByPriority(q: Queue, item: QueueItem)
    requires q.Valid() && q.items != [] && q.priCmpCb.Some?
    modifies q, item, Linked(q)
    ensures item !in old(q.items) ==> Relinked(q, Inserted(old(q.priCmpCb.value), old(q.items), item))
    ensures item in old(q.items) ==> Miscounted(q)
  {
    var previous, current, k := FindPlace(q, item);
    InsertedAt(q.priCmpCb.value, q.items, item, k);
    hide Inserted, Relinked;
    LinkBetween(q, item, previous, current, k);
  }

  /** The four stores of the insertion in front of entry `k`. */
  method LinkBetween(q: Queue, item: QueueItem, previous: QueueItem?, current: QueueItem?, ghost k: nat)
    requires q.Valid() && q.items != [] && k <= |q.items|
    requires previous == if k > 0 then q.items[k - 1] else null
    requires current == if k < |q.items| then q.items[k] else null
    modifies q, item, previous
    ensures item !in old(q.items) ==> Relinked(q, old(q.items[..k] + [item] + q.items[k..]))
    ensures item in old(q.items) ==> Miscounted(q)
  {
    ghost var s := q.items;
    if item !in s {
      DistinctInsert(s, k, item);
    }
    if k > 0 {
      OnlyAt(s, k - 1);
    }
    hide Distinct;
    if previous == null {
      q.head := item;
    } else {
      previous.next := item;
    }
    item.next := current;
    if current == null {
      q.tail := item;
    }
    if item !in s {
      q.items := s[..k] + [item] + s[k..];
      Spliced(s, k, item);
    } else {
      StaysInside(q, s, item, current);
    }
  }

  /** The new item sits between its neighbours, the other links are as they were. */
  lemma Spliced(s: seq<QueueItem>, k: nat, item: QueueItem)
    requires k <= |s| && s != []
    requires forall i | 0 <= i < |s| - 1 && i != k - 1 :: s[i].next == s[i + 1]
    requires k > 0 ==> s[k - 1].next == item
    requires if k < |s| then item.next == s[k] && s[|s| - 1].next == null else item.next == null
    ensures var n := s[..k] + [item] + s[k..];
            && (forall i | 0 <= i < |n| - 1 :: n[i].next == n[i + 1])
            && n[|n| - 1].next == null
  {
    var n := s[..k] + [item] + s[k..];
    forall i | 0 <= i < |n| - 1
      ensures n[i].next == n[i + 1]
    {
      if i < k {
        assert n[i] == s[i];
        assert n[i + 1] == if i == k - 1 then item else s[i + 1];
      } else if i > k {
        var j := i - 1;
        assert n[i] == s[j] && n[i + 1] == s[j + 1];
      }
    }
  }

  /** The loop of `queue_enq`: the place in front of the first larger value, or behind the tail. */
  method FindPlace(q: Queue, item: QueueItem) returns (previous: QueueItem?, current: QueueItem?, ghost k: nat)
    requires q.Valid() && q.items != [] && q.priCmpCb.Some?
    ensures k <= |q.items|
    ensures current == if k < |q.items| then q.items[k] else null
    ensures previous == if k > 0 then q.items[k - 1] else null
    ensures forall j | 0 <= j < k :: q.priCmpCb.value(q.items[j]) <= q.priCmpCb.value(item)
    ensures k < |q.items| ==> q.priCmpCb.value(item) < q.priCmpCb.value(q.items[k])
  {
    hide Distinct, Wrap32;
    k := 0;
    previous := null;
    current := q.head;
    while current != null
      invariant 0 <= k <= |q.items|
      invariant current == if k < |q.items| then q.items[k] else null
      invariant previous == if k > 0 then q.items[k - 1] else null
      invariant forall j | 0 <= j < k :: q.priCmpCb.value(q.items[j]) <= q.priCmpCb.value(item)
      decreases |q.items| - k
    {
      if q.priCmpCb.value(item) < q.priCmpCb.value(current) {
        break;
      } else {
        previous := current;
        current := current.next;
        k := k + 1;
      }
    }
  }

  /** `queue_deq` */
  method Deq(q: Queue, irq: Irq) returns (item: QueueItem?)
    requires q.Valid()
    modifies q, irq`enabled
    ensures irq.enabled == old(irq.enabled)
    ensures q.Valid() && q.priCmpCb == old(q.priCmpCb)
    ensures old(q.items) == [] ==> item == null && q.items == []
    ensures old(q.items) != [] ==> item == old(q.items)[0] && q.items == old(q.items)[1..]
  {
    Ends(q);
    hide Queue.Chain;
    var r := irq.Disable();
    item := q.head;
    if item != null {
      DropHead(q, item);
    }
    irq.Restore(r);
  }

  /** What `queue_deq` does to a list that is not empty. */
  method DropHead(q: Queue, item: QueueItem)
    requires q.Valid() && q.items != [] && q.items[0] == item
    modifies q
    ensures q.Valid() && q.priCmpCb == old(q.priCmpCb) && q.items == old(q.items)[1..]
  {
    CountUp(|q.items|);
    hide Distinct, Wrap32;
    q.head := item.next;
    if q.head == null {
      q.tail := null;
    }
    q.curNum := Wrap32(q.curNum - 1);
    ghost var s, n := q.items, q.items[1..];
    q.items := n;
    RestOf(s);
    forall i | 0 <= i < |n| - 1
      ensures n[i].next == n[i + 1]
    {
      assert n[i] == s[i + 1] && n[i + 1] == s[i + 2];
    }
  }

  ghost function Position<T>(s: seq<T>, x: T): (k: nat)
    requires x in s
    ensures k < |s| && s[k] == x
  {
    if s[0] == x then 0 else 1 + Position(s[1..], x)
  }

  ghost function Without<T>(s: seq<T>, x: T): (r: seq<T>)
    requires x in s
    ensures forall i | 0 <= i < |r| :: r[i] in s
  {
    s[..Position(s, x)] + s[Position(s, x) + 1..]
  }

  ghost function InsertedAfter<T>(s: seq<T>, x: T, prev: T): seq<T>
    requires prev in s
  {
    s[..Position(s, prev) + 1] + [x] + s[Position(s, prev) + 1..]
  }

  /** A predecessor that is not in the list. */
  ghost predicate Foreign(s: seq<QueueItem>, prev: QueueItem?) {
    s != [] && prev != null && prev !in s
  }

  /** What `queue_insert` needs: a new item, and a place in the list. */
  ghost predicate Insertable(s: seq<QueueItem>, item: QueueItem, prev: QueueItem?) {
    item !in s && !Foreign(s, prev)
  }

  /** The list after `queue_insert`: at or behind the tail it falls back to `queue_enq`. */
  ghost function AfterInsert(pri: Option<QueueItem -> int>, s: seq<QueueItem>, item: QueueItem, prev: QueueItem?)
      : seq<QueueItem>
    requires Insertable(s, item, prev)
  {
    if s == [] || prev == s[|s| - 1] then WithItem(pri, s, item)
    else if prev == null then [item] + s
    else InsertedAfter(s, item, prev)
  }

  /**
   The heap after `queue_insert` found the list `s`. A new item behind a foreign predecessor is not in the
   list, which keeps all its links, but it is counted.
  */
  ghost predicate Placed(q: Queue, s: seq<QueueItem>, item: QueueItem, prev: QueueItem?)
    reads q, q.items`next, s`next
  {
    if Insertable(s, item, prev) then q.Valid() && q.items == AfterInsert(q.priCmpCb, s, item, prev)
    else
      && q.items == s && !q.Valid()
      && (item !in s || !Foreign(s, prev) ==> Overcounted(q, s))
      && (item !in s ==> q.Links(s))
  }

  /** The item hangs behind the foreign `prev`, and takes along what hung there before. */
  twostate predicate Strayed(q: Queue, s: seq<QueueItem>, item: QueueItem, prev: QueueItem)
    reads q`head, q`tail, q`curNum, s`next, item, prev
  {
    && q.head == old(q.head) && q.tail == old(q.tail) && q.curNum == Wrap32(old(q.curNum) + 1)
    && prev.next == item && (prev != item ==> item.next == old(prev.next))
    && forall i | 0 <= i < |s| && s[i] != item :: s[i].next == old(s[i].next)
  }

  /**
   `queue_insert`: afterwards there is a list of the old items and this one exactly for `Insertable`. After
   one fault alone there is no list of any kind; `InsertStray` shows one after both.
  */
  method Insert(q: Queue?, item: QueueItem?, prev: QueueItem?, irq: Irq) returns (st: Status)
    requires q != null ==> q.Valid()
    modifies q, item, prev, Linked(q), irq`enabled
    ensures irq.enabled == old(irq.enabled)
    ensures st == if q == null || item == null then ParamInvalid else Success
    ensures q != null ==> q.priCmpCb == old(q.priCmpCb)
    ensures q != null && item == null ==> q.Valid() && q.items == old(q.items)
    ensures st == Success ==> Placed(q, old(q.items), item, prev)
    ensures st == Success && Foreign(old(q.items), prev) ==> Strayed(q, old(q.items), item, prev)
    ensures st == Success && |old(q.items)| + 1 < 0x1_0000_0000 ==>
              (item in old(q.items) <==> !Foreign(old(q.items), prev)) ==> forall s :: !q.Chain(s)
    ensures st == Success ==>
              ((exists s :: q.Chain(s) && multiset(s) == multiset(old(q.items)) + multiset{item})
               <==> Insertable(old(q.items), item, prev))
  {
    if q == null || item == null {
      return ParamInvalid;
    }
    ghost var s := q.items;
    Foreigner(q, prev);
    hide Queue.Chain, Placed, Strayed, Foreign, Insertable, Linked, Distinct;
    InsertGuarded(q, item, prev, irq);
    ListExactly(q, s, item, prev);
    if (item in s <==> !Foreign(s, prev)) && |s| + 1 < 0x1_0000_0000 {
      OneFaultNoList(q, s, item, prev);
    }
    st := Success;
  }

  /** The part of `queue_insert` behind the checks of its arguments. */
  method InsertGuarded(q: Queue, item: QueueItem, prev: QueueItem?, irq: Irq)
    requires q.Valid()
    modifies q, item, prev, Linked(q), irq`enabled
    ensures irq.enabled == old(irq.enabled) && q.priCmpCb == old(q.priCmpCb)
    ensures Placed(q, old(q.items), item, prev)
    ensures Foreign(old(q.items), prev) ==> Strayed(q, old(q.items), item, prev)
  {
    Foreigner(q, prev);
    hide Queue.Chain, Placed, Strayed, Foreign, Linked;
    var r := irq.Disable();
    InsertDisabled(q, item, prev, irq);
    irq.Restore(r);
  }

  lemma Foreigner(q: Queue, prev: QueueItem?)
    requires q.Valid()
    ensures Distinct(q.items)
    ensures Foreign(q.items, prev) ==> q.items != [] && prev != null && prev != q.tail
  {
  }

  /** Only an `Insertable` item ends up in a list with the old ones. */
  lemma ListExactly(q: Queue, s: seq<QueueItem>, item: QueueItem, prev: QueueItem?)
    requires Placed(q, s, item, prev)
    ensures (exists t :: q.Chain(t) && multiset(t) == multiset(s) + multiset{item}) <==> Insertable(s, item, prev)
  {
    hide Queue.Links, Enclosed, WithItem, InsertedAfter;
    if Insertable(s, item, prev) {
      ContentAfterInsert(q.priCmpCb, s, item, prev);
      assert q.Chain(q.items);
    } else {
      NoListWith(q, s, item);
    }
  }

  lemma ContentAfterInsert(pri: Option<QueueItem -> int>, s: seq<QueueItem>, item: QueueItem, prev: QueueItem?)
    requires Insertable(s, item, prev)
    ensures multiset(AfterInsert(pri, s, item, prev)) == multiset(s) + multiset{item}
  {
    if s == [] || prev == s[|s| - 1] {
      if pri.Some? {
        InsertedContent(pri.value, s, item);
      }
    } else if prev != null {
      var k := Position(s, prev) + 1;
      assert s == s[..k] + s[k..];
    }
  }

  /**
   Where the item is afterwards: in front of all for a null predecessor, behind the tail of a FIFO for the tail,
   else next to its predecessor; the other items keep their order.
  */
  lemma PlaceOfInserted(pri: Option<QueueItem -> int>, s: seq<QueueItem>, item: QueueItem, prev: QueueItem?)
    requires Insertable(s, item, prev) && Distinct(s)
    ensures var r := AfterInsert(pri, s, item, prev);
            && (s != [] && prev == null ==> r[0] == item && r[1..] == s)
            && (pri == None && (s == [] || prev == s[|s| - 1]) ==> r[|s|] == item && r[..|s|] == s)
            && (forall k | 0 <= k < |s| - 1 && s[k] == prev ::
                  |r| == |s| + 1 && r[..k + 1] == s[..k + 1] && r[k + 1] == item && r[k + 2..] == s[k + 1..])
  {
    forall k | 0 <= k < |s| - 1 && s[k] == prev
      ensures Position(s, prev) == k && prev != s[|s| - 1]
    {
      OnlyAt(s, k);
    }
    hide Distinct, Position, WithItem;
    if pri == None {
      FifoPlace(s, item);
    }
  }

  lemma FifoPlace(s: seq<QueueItem>, item: QueueItem)
    ensures WithItem(None, s, item) == s + [item]
  {
  }

  /** Exactly the item is missing; the others keep their order. */
  lemma PlaceOfRemoved(s: seq<QueueItem>, k: nat)
    requires Distinct(s) && k < |s|
    ensures Without(s, s[k]) == s[..k] + s[k + 1..] && s[k] !in Without(s, s[k])
  {
    OnlyAt(s, k);
  }

  /** A single fault leaves no list of any kind. */
  lemma OneFaultNoList(q: Queue, s: seq<QueueItem>, item: QueueItem, prev: QueueItem?)
    requires Placed(q, s, item, prev) && (item in s <==> !Foreign(s, prev))
    requires |s| + 1 < 0x1_0000_0000
    ensures forall t :: !q.Chain(t)
  {
    OvercountedIsNoList(q, s);
  }

  /** The three branches of `queue_insert`; the nested call handles the interrupts itself. */
  method InsertDisabled(q: Queue, item: QueueItem, prev: QueueItem?, irq: Irq)
    requires q.Valid()
    modifies q, item, prev, Linked(q), irq`enabled
    ensures q.priCmpCb == old(q.priCmpCb) && Placed(q, old(q.items), item, prev)
    ensures Foreign(old(q.items), prev) ==> Strayed(q, old(q.items), item, prev)
  {
    Ends(q);
    Foreigner(q, prev);
    hide Queue.Chain, Queue.Links, WithItem, Position, InsertedAfter, Overcounted, Strayed;
    if q.head == null || prev == q.tail {
      var nested := Enq(q, item, irq);
    } else if prev == null {
      InsertFirst(q, item);
    } else {
      InsertBehind(q, item, prev);
    }
  }

  lemma Ends(q: Queue)
    requires q.Valid()
    ensures if q.items == [] then q.head == null else q.head == q.items[0] && q.tail == q.items[|q.items| - 1]
  {
  }

  method InsertFirst(q: Queue, item: QueueItem)
    requires q.Valid()
    modifies q, item
    ensures q.priCmpCb == old(q.priCmpCb) && (q.Valid() <==> item !in old(q.items))
    ensures q.items == if item in old(q.items) then old(q.items) else [item] + old(q.items)
    ensures item in old(q.items) ==> Overcounted(q, old(q.items))
  {
    hide Distinct, Wrap32;
    ghost var s := q.items;
    CountUp(|s|);
    if item !in s {
      DistinctInsert(s, 0, item);
      assert s[..0] + [item] + s[0..] == [item] + s;
    }
    item.next := q.head;
    if q.head == null {
      q.tail := item;
    }
    q.head := item;
    q.curNum := Wrap32(q.curNum + 1);
    if item !in s {
      q.items := [item] + s;
    } else {
      StaysInside(q, s, item, s[0]);
    }
  }

  method InsertBehind(q: Queue, item: QueueItem, prev: QueueItem)
    requires q.Valid() && q.items != [] && prev != q.tail
    modifies q, item, prev
    ensures q.priCmpCb == old(q.priCmpCb) && (q.Valid() <==> Insertable(old(q.items), item, prev))
    ensures q.items == if Insertable(old(q.items), item, prev) then InsertedAfter(old(q.items), item, prev)
                       else old(q.items)
    ensures item in old(q.items) && prev in old(q.items) ==> Overcounted(q, old(q.items))
    ensures prev !in old(q.items) ==> Strayed(q, old(q.items), item, prev)
    ensures item !in old(q.items) && prev !in old(q.items) ==> q.Links(old(q.items)) && Overcounted(q, old(q.items))
  {
    ghost var s, after := q.items, prev.next;
    CountUp(|s|);
    HangBehind(q, item, prev);
    hide Hung, Strayed, Queue.Links, Overcounted, Position, InsertedAfter, Wrap32;
    assert q.curNum == Wrap32(|s| + 1) != Wrap32(|s|);
    if item !in s && prev in s {
      HungInList(q, s, item, prev, after);
      q.items := InsertedAfter(s, item, prev);
    } else if item in s && prev in s {
      HungInside(q, s, item, prev, after);
    } else if item !in s {
      HungAside(q, s, item, prev, after);
    }
  }

  /** The three stores in the middle of the list. */
  method HangBehind(q: Queue, item: QueueItem, prev: QueueItem)
    requires q.Valid() && q.items != [] && prev != q.tail
    modifies q`curNum, item, prev
    ensures Hung(q, q.items, item, prev, old(prev.next)) && q.curNum == Wrap32(|q.items| + 1)
    ensures prev !in q.items ==> Strayed(q, q.items, item, prev)
  {
    CountUp(|q.items|);
    if prev in q.items {
      OnlyAt(q.items, Position(q.items, prev));
    }
    hide Distinct, Wrap32, Position;
    item.next := prev.next;
    prev.next := item;
    q.curNum := Wrap32(q.curNum + 1);
  }

  /** The heap that these stores leave where they found the list `s`; `after` was the successor of `prev`. */
  ghost predicate Hung(q: Queue, s: seq<QueueItem>, item: QueueItem, prev: QueueItem, after: QueueItem?)
    reads q, s`next, item, prev
  {
    && s != [] && Distinct(s) && q.head == s[0] && q.tail == s[|s| - 1] != prev
    && prev.next == item && (prev != item ==> item.next == after)
    && (prev in s ==> after == NextIn(s, Position(s, prev)))
    && forall i | 0 <= i < |s| && s[i] != item && s[i] != prev :: s[i].next == NextIn(s, i)
  }

  lemma HungInList(q: Queue, s: seq<QueueItem>, item: QueueItem, prev: QueueItem, after: QueueItem?)
    requires Hung(q, s, item, prev, after) && item !in s && prev in s
    ensures q.Links(InsertedAfter(s, item, prev)) && |InsertedAfter(s, item, prev)| == |s| + 1
  {
    var k := Position(s, prev);
    OnlyAt(s, k);
    DistinctInsert(s, k + 1, item);
    hide Distinct, Position;
    Spliced(s, k + 1, item);
  }

  lemma HungInside(q: Queue, s: seq<QueueItem>, item: QueueItem, prev: QueueItem, after: QueueItem?)
    requires Hung(q, s, item, prev, after) && item in s && prev in s && q.curNum == Wrap32(|s| + 1)
    ensures Overcounted(q, s)
  {
    hide Distinct, Position;
    StaysInside(q, s, item, after);
  }

  lemma HungAside(q: Queue, s: seq<QueueItem>, item: QueueItem, prev: QueueItem, after: QueueItem?)
    requires Hung(q, s, item, prev, after) && item !in s && prev !in s && q.curNum == Wrap32(|s| + 1)
    ensures q.Links(s) && Overcounted(q, s)
  {
    hide Distinct;
    StaysInside(q, s, s[0], null);
  }

  /** The predecessor that `queue_remove` needs: the true one, or any for a head that is not alone. */
  ghost predicate RightPredecessor(s: seq<QueueItem>, item: QueueItem, prev: QueueItem?) {
    item in s &&
    var k := Position(s, item);
    if k == 0 then |s| > 1 || prev == null else prev == s[k - 1]
  }

  /**
   The item is unlinked exactly when `prev` is the right predecessor; else the list without it is not
   what the heap holds.
  */
  ghost predicate Removed(q: Queue, s: seq<QueueItem>, item: QueueItem, prev: QueueItem?, after: QueueItem?)
    reads q, s`next
  {
    hide Without, Position, RemoveBody;
    && RemoveBody(q, s, item, prev, after)
    && if RightPredecessor(s, item, prev) then q.items == Without(s, item) && q.Chain(q.items)
       else q.items == s && !q.Chain(if item in s then Without(s, item) else s)
  }

  /** `queue_remove` trusts `prev`. */
  method Remove(q: Queue?, item: QueueItem?, prev: QueueItem?, irq: Irq) returns (st: Status)
    requires q != null ==> q.Valid()
    modifies q, prev, irq`enabled
    ensures irq.enabled == old(irq.enabled)
    ensures st == if q == null || old(q.head) == null || item == null then ParamInvalid else Success
    ensures q != null ==> q.priCmpCb == old(q.priCmpCb)
    ensures st == ParamInvalid && q != null ==> q.Valid() && q.items == old(q.items)
    ensures st == Success ==> Removed(q, old(q.items), item, prev, old(item.next))
  {
    if q == null || q.head == null || item == null {
      return ParamInvalid;
    }
    Ends(q);
    hide Queue.Chain, Removed;
    var r := irq.Disable();
    RemoveDisabled(q, item, prev);
    irq.Restore(r);
    st := Success;
  }

  function NextIn(s: seq<QueueItem>, i: nat): QueueItem?
    requires i < |s|
  {
    if i + 1 < |s| then s[i + 1] else null
  }

  /**
   The heap that the body of `queue_remove` leaves where it found the list `s`; `after` was the successor
   of the item.
  */
  ghost predicate RemoveBody(q: Queue, s: seq<QueueItem>, item: QueueItem, prev: QueueItem?, after: QueueItem?)
    reads q`head, q`tail, q`curNum, s`next
  {
    && s != [] && Distinct(s)
    && (forall i | 0 <= i < |s| && s[i] == item :: after == NextIn(s, i))
    && q.head == (if s[0] == item then after else s[0])
    && q.tail == (if s[|s| - 1] == item then prev else s[|s| - 1])
    && q.curNum == Wrap32(|s| - 1)
    && forall i | 0 <= i < |s| :: s[i].next == if s[0] != item && s[i] == prev then after else NextIn(s, i)
  }

  /** The statements of `queue_remove`. */
  method RemoveTrusting(q: Queue, item: QueueItem, prev: QueueItem?)
    requires q.Valid() && q.items != []
    modifies q, prev
    ensures RemoveBody(q, old(q.items), item, prev, old(item.next))
    ensures q.items == old(q.items) && q.priCmpCb == old(q.priCmpCb)
  {
    CountUp(|q.items|);
    hide Distinct, Wrap32;
    if q.head == item {
      q.head := item.next;
    } else if prev != null {
      prev.next := item.next;
    }
    if q.tail == item {
      q.tail := prev;
    }
    q.curNum := Wrap32(q.curNum - 1);
  }

  method RemoveDisabled(q: Queue, item: QueueItem, prev: QueueItem?)
    requires q.Valid() && q.items != []
    modifies q, prev
    ensures q.priCmpCb == old(q.priCmpCb) && Removed(q, old(q.items), item, prev, old(item.next))
  {
    ghost var s, after := q.items, item.next;
    RemoveTrusting(q, item, prev);
    hide Queue.Chain, RightPredecessor, Without, RemoveBody, Position;
    if RightPredecessor(s, item, prev) {
      RightRemoval(q, s, item, prev, after);
      q.items := Without(s, item);
    } else {
      WrongRemoval(q, s, item, prev, after);
    }
  }

  lemma RightRemoval(q: Queue, s: seq<QueueItem>, item: QueueItem, prev: QueueItem?, after: QueueItem?)
    requires RemoveBody(q, s, item, prev, after) && RightPredecessor(s, item, prev)
    ensures item in s && q.Chain(Without(s, item))
  {
    var k, rest := Position(s, item), Without(s, item);
    DistinctRemove(s, k);
    OnlyAt(s, k);
    OnlyAt(s, 0);
    if k > 0 {
      OnlyAt(s, k - 1);
    }
    hide Distinct, Wrap32, Position;
    Unlinked(s, k);
    assert rest == s[..k] + s[k + 1..];
    assert rest != [] ==> rest[0] == if k == 0 then s[1] else s[0];
    assert rest != [] ==> rest[|rest| - 1] == if k == |s| - 1 then s[k - 1] else s[|s| - 1];
  }

  /** The item in front of the one at `k` leads to the one behind it, the other links are as they were. */
  lemma Unlinked(s: seq<QueueItem>, k: nat)
    requires k < |s|
    requires forall i | 0 <= i < |s| && i != k :: s[i].next == if i + 1 == k then NextIn(s, k) else NextIn(s, i)
    ensures var n := s[..k] + s[k + 1..];
            && (forall i | 0 <= i < |n| - 1 :: n[i].next == n[i + 1])
            && (n != [] ==> n[|n| - 1].next == null)
  {
    var n := s[..k] + s[k + 1..];
    forall i | 0 <= i < |n|
      ensures n[i].next == NextIn(n, i)
    {
      var j := if i < k then i else i + 1;
      assert n[i] == s[j];
      assert i + 1 < |n| ==> n[i + 1] == if i + 1 < k then s[i + 1] else s[i + 2];
    }
  }

  lemma WrongRemoval(q: Queue, s: seq<QueueItem>, item: QueueItem, prev: QueueItem?, after: QueueItem?)
    requires RemoveBody(q, s, item, prev, after) && !RightPredecessor(s, item, prev)
    ensures item !in s ==> !q.Chain(s)
    ensures item in s ==> !q.Chain(Without(s, item))
  {
    CountUp(|s|);
    if item in s {
      var k, rest := Position(s, item), Without(s, item);
      if k > 0 {
        OnlyAt(s, 0);
        assert s[k - 1].next == item;
        assert rest[k - 1] == s[k - 1];
        assert k < |rest| ==> rest[k] == s[k + 1];
      }
    }
  }

  /** `queue_delete` */
  method Delete(q: Queue?, item: QueueItem?, irq: Irq) returns (st: Status)
    requires q != null ==> q.Valid()
    modifies q, Linked(q), irq`enabled
    ensures irq.enabled == old(irq.enabled)
    ensures q != null ==> q.Valid() && q.priCmpCb == old(q.priCmpCb)
    ensures st == ParamInvalid <==> q == null || item == null
    ensures st == Empty <==> q != null && item != null && old(q.items) == []
    ensures st == Success <==> q != null && item != null && item in old(q.items)
    ensures q != null ==> q.items == if st == Success then Without(old(q.items), item) else old(q.items)
  {
    if q == null || item == null {
      return ParamInvalid;
    }
    var r := irq.Disable();
    if q.head == null {
      irq.Restore(r);
      return Empty;
    }
    st := DeleteDisabled(q, item);
    irq.Restore(r);
  }

  method DeleteDisabled(q: Queue, item: QueueItem) returns (st: Status)
    requires q.Valid() && q.items != []
    modifies q, Linked(q)
    ensures q.Valid() && q.priCmpCb == old(q.priCmpCb)
    ensures st == if item in old(q.items) then Success else NotFound
    ensures q.items == if st == Success then Without(old(q.items), item) else old(q.items)
  {
    ghost var s := q.items;
    Ends(q);
    hide Queue.Chain, Position;
    if q.head == item {
      FoundAt(s, item, 0);
      UnlinkFirst(q, item);
      return Success;
    }
    var previous, current, k := Search(q, item);
    if current == item {
      FoundAt(s, item, k);
      UnlinkBehind(q, previous, current, k);
      return Success;
    } else {
      return NotFound;
    }
  }

  method UnlinkFirst(q: Queue, item: QueueItem)
    requires q.Valid() && q.items != [] && q.items[0] == item
    modifies q
    ensures q.Valid() && q.priCmpCb == old(q.priCmpCb) && q.items == old(q.items)[1..]
  {
    CountUp(|q.items|);
    hide Distinct, Wrap32;
    q.head := item.next;
    if q.tail == item {
      q.tail := null;
    }
    q.curNum := Wrap32(q.curNum - 1);
    ghost var s, n := q.items, q.items[1..];
    q.items := n;
    RestOf(s);
    forall i | 0 <= i < |n| - 1
      ensures n[i].next == n[i + 1]
    {
      assert n[i] == s[i + 1] && n[i + 1] == s[i + 2];
    }
  }

  /** The loop of `queue_delete`: walks up to the item, or through the whole list. */
  method Search(q: Queue, item: QueueItem) returns (previous: QueueItem?, current: QueueItem?, ghost k: nat)
    requires q.Valid() && q.items != [] && q.head != item
    ensures k <= |q.items| && item !in q.items[..k]
    ensures if k < |q.items| then current == q.items[k] == item else current == null
    ensures k > 0 && previous == q.items[k - 1]
  {
    hide Distinct, Wrap32;
    k := 0;
    previous := null;
    current := q.head;
    while current != null && current != item
      invariant 0 <= k <= |q.items|
      invariant current == if k < |q.items| then q.items[k] else null
      invariant previous == if k > 0 then q.items[k - 1] else null
      invariant item !in q.items[..k]
      decreases |q.items| - k
    {
      previous := current;
      current := current.next;
      k := k + 1;
    }
  }

  method UnlinkBehind(q: Queue, previous: QueueItem, current: QueueItem, ghost k: nat)
    requires q.Valid() && 0 < k < |q.items| && q.items[k - 1] == previous && q.items[k] == current
    modifies q, previous
    ensures q.Valid() && q.priCmpCb == old(q.priCmpCb)
    ensures q.items == old(q.items[..k] + q.items[k + 1..])
  {
    ghost var s, after := q.items, current.next;
    OnlyAt(s, k);
    assert Position(s, current) == k;
    SkipItem(q, previous, current, k);
    hide Distinct, RemoveBody, Position;
    RightRemoval(q, s, current, previous, after);
    q.items := Without(s, current);
  }

  /** The stores of `queue_delete` behind the head. */
  method SkipItem(q: Queue, previous: QueueItem, current: QueueItem, ghost k: nat)
    requires q.Valid() && 0 < k < |q.items| && q.items[k - 1] == previous && q.items[k] == current
    modifies q, previous
    ensures RemoveBody(q, q.items, current, previous, old(current.next))
    ensures q.items == old(q.items) && q.priCmpCb == old(q.priCmpCb)
  {
    CountUp(|q.items|);
    OnlyAt(q.items, k);
    OnlyAt(q.items, k - 1);
    hide Distinct, Wrap32;
    previous.next := current.next;
    if q.tail == current {
      q.tail := previous;
    }
    q.curNum := Wrap32(q.curNum - 1);
  }

  lemma {:induction false} FoundAt<T>(s: seq<T>, x: T, k: nat)
    requires k < |s| && s[k] == x && x !in s[..k]
    ensures Position(s, x) == k
  {
    if k > 0 {
      assert s[..k] == [s[0]] + s[1..][..k - 1];
      FoundAt(s[1..], x, k - 1);
    }
  }

  /** `queue_isempty` and `queue_count` */
  method IsEmpty(q: Queue, irq: Irq) returns (empty: bool)
    requires q.Valid()
    modifies irq`enabled
    ensures irq.enabled == old(irq.enabled) && (empty <==> q.items == [])
  {
    var r := irq.Disable();
    empty := q.head == null;
    irq.Restore(r);
  }

  method Count(q: Queue, irq: Irq) returns (n: u32)
    requires q.Valid()
    modifies irq`enabled
    ensures irq.enabled == old(irq.enabled) && n == Wrap32(|q.items|)
  {
    var r := irq.Disable();
    n := q.curNum;
    irq.Restore(r);
  }

  // Runs in which a call breaks the list

  /** Two items in a FIFO, the first one again: the second is lost, and counted. */
  method EnqueueTwice(a: QueueItem, b: QueueItem, irq: Irq) returns (q: Queue)
    requires a != b
    modifies a, b, irq`enabled
    ensures q.Links([a]) && q.curNum == 3
    ensures forall s :: !q.Chain(s)
  {
    q := TwoItems(a, b, irq);
    hide Queue.Chain, Queue.Links;
    var st := Enq(q, a, irq);
    assert Upto([a, b], a) == [a];
  }

  method TwoItems(a: QueueItem, b: QueueItem, irq: Irq) returns (q: Queue)
    requires a != b
    modifies a, b, irq`enabled
    ensures fresh(q) && q.Valid() && q.items == [a, b] && q.priCmpCb == None
  {
    q := new Queue(None);
    var st := Enq(q, a, irq);
    assert q.items == [a];
    hide Queue.Chain;
    st := Enq(q, b, irq);
    assert q.items == [a, b];
  }

  /**
   Both faults of `queue_insert` at once: `f` left the queue long ago, but its links still lead to the
   tail. The list is one again, with an item that came back unasked.
  */
  method InsertStray(f: QueueItem, g: QueueItem, b: QueueItem, a: QueueItem, irq: Irq) returns (q: Queue)
    requires f != g && f != b && f != a && g != b && g != a && b != a
    modifies f, g, b, a, irq`enabled
    ensures q.Chain([a, g, b])
  {
    q := LastOfThree(f, g, b, irq);
    PutInFront(q, b, a, irq);
    hide Placed;
    var st := Insert(q, a, f, irq);
    assert [a, b][0] == a && [a, b][1] == b;
    assert Distinct([a, g, b]);
  }

  method PutInFront(q: Queue, b: QueueItem, a: QueueItem, irq: Irq)
    requires q.Valid() && q.items == [b] && a != b
    modifies q, a, b, irq`enabled
    ensures q.Valid() && q.items == [a, b]
  {
    hide Queue.Chain, Strayed;
    var st := Insert(q, a, null, irq);
    assert q.items == [a, b];
  }

  /** Three items go in and two come out, which keep their links. */
  method LastOfThree(f: QueueItem, g: QueueItem, b: QueueItem, irq: Irq) returns (q: Queue)
    requires f != g && f != b && g != b
    modifies f, g, b, irq`enabled
    ensures fresh(q) && q.Valid() && q.items == [b] && q.priCmpCb == None
    ensures f.next == g && g.next == b
  {
    q := TwoItems(f, g, irq);
    var st := Enq(q, b, irq);
    ghost var s := q.items;
    assert s == [f, g, b] && s[0].next == s[1] && s[1].next == s[2];
    hide Queue.Chain, Enqueued;
    var gone := Deq(q, irq);
    gone := Deq(q, irq);
  }

  /** The last item removed without its predecessor: the tail is null while the head still leads to it. */
  method RemoveWithoutPredecessor(a: QueueItem, b: QueueItem, irq: Irq) returns (q: Queue)
    requires a != b
    modifies a, b, irq`enabled
    ensures q.head == a && a.next == b && q.tail == null && q.curNum == 1
    ensures forall s :: !q.Chain(s)
  {
    q := TwoItems(a, b, irq);
    var st := Remove(q, b, null, irq);
    assert [a, b][0] == a && [a, b][1] == b;
  }
}
