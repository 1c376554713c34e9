/**
  The sorted-list priority queue of `dijkstra.js`: a sequence of
  `{ element, priority }` slots kept in ascending priority order, with
  insertion before the first strictly greater priority (so equal
  priorities keep their insertion order) and removal at the head.
 */
module PriorityQueue {
  import opened Wrappers

  /** One queue slot, the JavaScript object `{ element, priority }`. */
  datatype Entry<T> = Entry(element: T, priority: int)

  /** Priorities never decrease from the head towards the tail. */
  predicate Sorted<T>(q: seq<Entry<T>>) {
    forall i, j :: 0 <= i < j < |q| ==> q[i].priority <= q[j].priority
  }

  /** The index at which `enqueue` splices a slot of priority `p`: the first
      slot whose priority is strictly greater, or the end of the list. */
  function InsertPos<T>(q: seq<Entry<T>>, p: int): (i: nat)
    ensures i <= |q|
    ensures forall k :: 0 <= k < i ==> q[k].priority <= p
    ensures i < |q| ==> p < q[i].priority
  {
    if |q| == 0 then 0
    else if p < q[0].priority then 0
    else 1 + InsertPos(q[1..], p)
  }

  /** `enqueue(element, priority)`. */
  function Enqueue<T>(q: seq<Entry<T>>, element: T, priority: int): (r: seq<Entry<T>>)
    ensures |r| == |q| + 1
    ensures multiset(r) == multiset(q) + multiset{Entry(element, priority)}
    ensures Sorted(q) ==> Sorted(r)
  {
    var i := InsertPos(q, priority);
    SpliceFacts(q, i, Entry(element, priority));
    q[..i] + [Entry(element, priority)] + q[i..]
  }

  lemma SpliceFacts<T>(q: seq<Entry<T>>, i: nat, x: Entry<T>)
    requires i <= |q|
    requires forall k :: 0 <= k < i ==> q[k].priority <= x.priority
    requires i < |q| ==> x.priority < q[i].priority
    ensures var r := q[..i] + [x] + q[i..];
            && multiset(r) == multiset(q) + multiset{x}
            && (Sorted(q) ==> Sorted(r))
  {
    SpliceMultiset(q, i, x);
    if Sorted(q) {
      SpliceSorted(q, i, x);
    }
  }

  lemma SpliceMultiset<T>(q: seq<Entry<T>>, i: nat, x: Entry<T>)
    requires i <= |q|
    ensures multiset(q[..i] + [x] + q[i..]) == multiset(q) + multiset{x}
  {
    assert q == q[..i] + q[i..];
  }

  lemma SpliceSorted<T>(q: seq<Entry<T>>, i: nat, x: Entry<T>)
    requires i <= |q|
    requires Sorted(q)
    requires forall k :: 0 <= k < i ==> q[k].priority <= x.priority
    requires i < |q| ==> x.priority < q[i].priority
    ensures Sorted(q[..i] + [x] + q[i..])
  {
  }

  /** `dequeue()`: the head slot and the remaining queue, or `None`
      (JavaScript's `undefined`) when the queue is empty. */
  function Dequeue<T>(q: seq<Entry<T>>): (r: Option<(Entry<T>, seq<Entry<T>>)>)
    ensures r.None? <==> |q| == 0
    ensures r.Some? ==> [r.value.0] + r.value.1 == q
    ensures r.Some? && Sorted(q) ==>
              Sorted(r.value.1) &&
              forall k :: 0 <= k < |r.value.1| ==> r.value.0.priority <= r.value.1[k].priority
  {
    if |q| == 0 then None else Some((q[0], q[1..]))
  }

  /** `isEmpty()`: exactly when `dequeue` has nothing to hand out. */
  predicate IsEmpty<T>(q: seq<Entry<T>>)
    ensures IsEmpty(q) <==> Dequeue(q).None?
  {
    |q| == 0
  }

  /** Stability: on a sorted queue the new slot lands after every slot of
      priority at most its own and before every strictly greater one, and
      removing it gives back the old queue. */
  lemma EnqueueStable<T>(q: seq<Entry<T>>, element: T, priority: int)
    requires Sorted(q)
    ensures var r := Enqueue(q, element, priority);
            var i := InsertPos(q, priority);
            && i < |r| && r[i] == Entry(element, priority)
            && r[..i] + r[i + 1..] == q
            && (forall k :: 0 <= k < i ==> r[k].priority <= priority)
            && (forall k :: i < k < |r| ==> priority < r[k].priority)
  {
    var x := Entry(element, priority);
    var i := InsertPos(q, priority);
    assert Enqueue(q, element, priority) == q[..i] + [x] + q[i..];
    SpliceStable(q, i, x);
  }

  lemma SpliceStable<T>(q: seq<Entry<T>>, i: nat, x: Entry<T>)
    requires Sorted(q) && i <= |q|
    requires forall k :: 0 <= k < i ==> q[k].priority <= x.priority
    requires i < |q| ==> x.priority < q[i].priority
    ensures var r := q[..i] + [x] + q[i..];
            && r[i] == x && r[..i] + r[i + 1..] == q
            && (forall k :: 0 <= k < i ==> r[k].priority <= x.priority)
            && (forall k :: i < k < |r| ==> x.priority < r[k].priority)
  {
  }

  /** Successive `enqueue` calls, in order, starting from `q`. */
  function EnqueueAll<T>(q: seq<Entry<T>>, items: seq<Entry<T>>): seq<Entry<T>>
  {
    if |items| == 0 then q
    else Enqueue(EnqueueAll(q, items[..|items| - 1]), items[|items| - 1].element, items[|items| - 1].priority)
  }

  /** The priorities handed out by `dequeue` until the queue is empty. */
  function Drain<T>(q: seq<Entry<T>>): seq<int>
    decreases |q|
  {
    match Dequeue(q)
    case None => []
    case Some((head, rest)) => [head.priority] + Drain(rest)
  }

  predicate NonDecreasing(s: seq<int>) {
    forall i, j :: 0 <= i < j < |s| ==> s[i] <= s[j]
  }

  lemma {:induction false} DrainLength<T>(q: seq<Entry<T>>)
    ensures |Drain(q)| == |q|
    decreases |q|
  {
    if |q| > 0 {
      DrainLength(q[1..]);
    }
  }

  lemma {:induction false} DrainSorted<T>(q: seq<Entry<T>>)
    requires Sorted(q)
    ensures NonDecreasing(Drain(q))
    ensures |Drain(q)| == |q|
    ensures forall k :: 0 <= k < |q| ==> Drain(q)[k] == q[k].priority
    decreases |q|
  {
    if |q| > 0 {
      DrainSorted(q[1..]);
    }
  }

  /** Successive `enqueue` calls on the empty queue keep it sorted. */
  lemma {:induction false} EnqueueAllSorted<T>(items: seq<Entry<T>>)
    ensures Sorted(EnqueueAll([], items))
  {
    if |items| > 0 {
      EnqueueAllSorted(items[..|items| - 1]);
    }
  }

  /** Successive `enqueue` calls on the empty queue hold exactly the
      enqueued slots. */
  lemma {:induction false} EnqueueAllMultiset<T>(items: seq<Entry<T>>)
    ensures multiset(EnqueueAll([], items)) == multiset(items)
  {
    if |items| > 0 {
      var init, last := items[..|items| - 1], items[|items| - 1];
      EnqueueAllMultiset(init);
      assert EnqueueAll([], items) == Enqueue(EnqueueAll([], init), last.element, last.priority);
      LastMultiset(items);
    }
  }

  lemma LastMultiset<T>(items: seq<T>)
    requires |items| > 0
    ensures multiset(items) == multiset(items[..|items| - 1]) + multiset{items[|items| - 1]}
  {
    assert items == items[..|items| - 1] + [items[|items| - 1]];
  }

  /** Whatever the order of the `enqueue` calls, successive `dequeue` calls
      on the resulting queue hand out exactly the enqueued priorities, in
      non-decreasing order. */
  lemma DequeueOrder<T>(items: seq<Entry<T>>)
    ensures Sorted(EnqueueAll([], items))
    ensures NonDecreasing(Drain(EnqueueAll([], items)))
    ensures multiset(EnqueueAll([], items)) == multiset(items)
    ensures |Drain(EnqueueAll([], items))| == |items|
  {
    EnqueueAllSorted(items);
    EnqueueAllMultiset(items);
    DrainSorted(EnqueueAll([], items));
  }
}
