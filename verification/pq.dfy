/**
 * An addressable min-priority queue: a binary min-heap of records kept in a
 * growable slice, plus a lookup map from each enqueued value to the slot of
 * its record, so that membership is a map query and a priority update can
 * re-heapify from the record's own slot.
 *
 * The record's `index` field and the lookup map's reference to the record are
 * one piece of information (the slot a value sits in); here it is held once,
 * in `lookup`, and every swap rewrites the two entries it disturbs.
 */
module PQ {
  import opened Errors

  /** One enqueued element: the caller's value and its priority (smaller pops first). */
  datatype Item<T> = Item(value: T, priority: int)

  /** The parent slot of a non-root slot of the binary heap. */
  function Parent(k: nat): (p: nat)
    requires k > 0
    ensures p < k
  {
    (k - 1) / 2
  }

  /** The children of slot e are exactly slots 2e+1 and 2e+2. */
  lemma ParentChild(k: nat, e: nat)
    requires k > 0
    ensures Parent(k) == e <==> (k == 2 * e + 1 || k == 2 * e + 2)
  {
  }

  // ---------------------------------------------------------------------------
  // The two invariants and the abstract contents
  // ---------------------------------------------------------------------------

  /** Index consistency: the keys of `lookup` are exactly the values in the
      array, and each value's entry is the slot its record occupies. */
  ghost predicate IndexConsistent<T>(h: seq<Item<T>>, lookup: map<T, nat>)
  {
    && (forall i :: 0 <= i < |h| ==> h[i].value in lookup && lookup[h[i].value] == i)
    && (forall v :: v in lookup ==> lookup[v] < |h| && h[lookup[v]].value == v)
  }

  /** Heap order over the first n slots: no record has a smaller priority than its parent. */
  ghost predicate HeapOrdered<T>(h: seq<Item<T>>, n: nat)
  {
    n <= |h| && forall k :: 0 < k < n ==> h[Parent(k)].priority <= h[k].priority
  }

  /** Heap order over the first n slots, except possibly between slot e and its parent. */
  ghost predicate OrderedExcept<T>(h: seq<Item<T>>, n: nat, e: nat)
  {
    n <= |h| && forall k :: 0 < k < n && k != e ==> h[Parent(k)].priority <= h[k].priority
  }

  /** Heap order over the first n slots on every parent link that does not touch slot e. */
  ghost predicate OrderedOffSlot<T>(h: seq<Item<T>>, n: nat, e: nat)
  {
    n <= |h| && forall k :: 0 < k < n && k != e && Parent(k) != e ==> h[Parent(k)].priority <= h[k].priority
  }

  /** The parent of slot e is no larger than the children of slot e, so e may trade
      places with either of them. */
  ghost predicate GrandparentBelowChildren<T>(h: seq<Item<T>>, n: nat, e: nat)
  {
    && n <= |h|
    && (0 < e && 2 * e + 1 < n ==> h[Parent(e)].priority <= h[2 * e + 1].priority)
    && (0 < e && 2 * e + 2 < n ==> h[Parent(e)].priority <= h[2 * e + 2].priority)
  }

  /** No child of slot e, among the first n slots, has a smaller priority than e. */
  ghost predicate ChildrenNoSmaller<T>(h: seq<Item<T>>, n: nat, e: nat)
  {
    && n <= |h|
    && (2 * e + 1 < n ==> h[e].priority <= h[2 * e + 1].priority)
    && (2 * e + 2 < n ==> h[e].priority <= h[2 * e + 2].priority)
  }

  /** Slot j is the child of slot e that sifting down picks: a child within the first
      n slots whose priority is no larger than that of e's other child. */
  ghost predicate SmallerChildOf<T>(h: seq<Item<T>>, n: nat, e: nat, j: nat)
  {
    && n <= |h| && j < n && (j == 2 * e + 1 || j == 2 * e + 2)
    && (2 * e + 1 < n ==> h[j].priority <= h[2 * e + 1].priority)
    && (2 * e + 2 < n ==> h[j].priority <= h[2 * e + 2].priority)
  }

  /** What the queue holds: each enqueued value with its priority. */
  ghost function Elements<T>(h: seq<Item<T>>, lookup: map<T, nat>): map<T, int>
    requires IndexConsistent(h, lookup)
  {
    map v | v in lookup :: h[lookup[v]].priority
  }

  // ---------------------------------------------------------------------------
  // Facts about the invariants
  // ---------------------------------------------------------------------------

  /** In a heap-ordered array the root has the least priority of all. */
  lemma {:induction false} RootIsMinimal<T>(h: seq<Item<T>>, k: nat)
    requires HeapOrdered(h, |h|) && k < |h|
    ensures h[0].priority <= h[k].priority
    decreases k
  {
    if k > 0 {
      RootIsMinimal(h, Parent(k));
    }
  }

  /** Dropping the last slot, together with its lookup entry, keeps the index consistent
      and removes exactly that value from the contents. */
  lemma DropLast<T>(h: seq<Item<T>>, lookup: map<T, nat>)
    requires IndexConsistent(h, lookup) && |h| > 0
    ensures IndexConsistent(h[..|h| - 1], lookup - {h[|h| - 1].value})
    ensures Elements(h[..|h| - 1], lookup - {h[|h| - 1].value}) == Elements(h, lookup) - {h[|h| - 1].value}
  {
  }

  /** The index has exactly one entry per slot, so the queue's length is its number of values. */
  lemma {:induction false} IndexSize<T>(h: seq<Item<T>>, lookup: map<T, nat>)
    requires IndexConsistent(h, lookup)
    ensures |lookup| == |h| && |Elements(h, lookup)| == |h|
    decreases |h|
  {
    assert Elements(h, lookup).Keys == lookup.Keys;
    if |h| == 0 {
      assert lookup == map[];
    } else {
      var x := h[|h| - 1].value;
      DropLast(h, lookup);
      IndexSize(h[..|h| - 1], lookup - {x});
      assert lookup.Keys == (lookup - {x}).Keys + {x};
    }
  }

  /** Exchanging two slots and rewriting both of their lookup entries keeps the index
      consistent and the contents unchanged. */
  lemma SwapKeepsIndex<T>(h: seq<Item<T>>, lookup: map<T, nat>, x: nat, y: nat)
    requires IndexConsistent(h, lookup) && x < |h| && y < |h|
    ensures var h' := h[x := h[y]][y := h[x]];
            var lookup' := lookup[h[y].value := x][h[x].value := y];
            IndexConsistent(h', lookup') && Elements(h', lookup') == Elements(h, lookup)
  {
  }

  /** One step of sifting up: swapping a record with a larger parent moves the
      possible disorder one level towards the root. */
  lemma UpStep<T>(h: seq<Item<T>>, n: nat, j: nat)
    requires 0 < j < n && OrderedExcept(h, n, j) && GrandparentBelowChildren(h, n, j)
    requires h[j].priority < h[Parent(j)].priority
    ensures var i := Parent(j);
            var h' := h[i := h[j]][j := h[i]];
            OrderedExcept(h', n, i) && GrandparentBelowChildren(h', n, i)
  {
    var i := Parent(j);
    var h' := h[i := h[j]][j := h[i]];
    forall k | 0 < k < n && k != i
      ensures h'[Parent(k)].priority <= h'[k].priority
    {
      if k != j && Parent(k) == j {
        ParentChild(k, j);
      }
    }
    if 0 < i {
      ParentChild(j, i);
      ParentChild(2 * i + 1, i);
      ParentChild(2 * i + 2, i);
      assert h[Parent(i)].priority <= h[i].priority;
    }
  }

  /** One step of sifting down: swapping a record with its smaller child, when that
      child is smaller than the record, moves the possible disorder one level
      towards the leaves. */
  lemma DownStep<T>(h: seq<Item<T>>, n: nat, i: nat, j: nat)
    requires SmallerChildOf(h, n, i, j) && h[j].priority < h[i].priority
    requires OrderedOffSlot(h, n, i) && GrandparentBelowChildren(h, n, i)
    ensures j > 0 && Parent(j) == i
    ensures var h' := h[i := h[j]][j := h[i]];
            OrderedOffSlot(h', n, j) && GrandparentBelowChildren(h', n, j) && h'[i].priority <= h'[j].priority
  {
    ParentChild(j, i);
    DownStepAround(h, n, i, j);
    ParentChild(2 * j + 1, j);
    ParentChild(2 * j + 2, j);
  }

  /** The links that the swap of DownStep does not leave to later steps are in order. */
  lemma DownStepAround<T>(h: seq<Item<T>>, n: nat, i: nat, j: nat)
    requires SmallerChildOf(h, n, i, j) && h[j].priority < h[i].priority
    requires OrderedOffSlot(h, n, i) && GrandparentBelowChildren(h, n, i) && Parent(j) == i
    ensures OrderedOffSlot(h[i := h[j]][j := h[i]], n, j)
  {
  }

  /** Where sifting down stops, the heap is in order; if it stopped where it started,
      only the link above the starting slot may still be out of order. */
  lemma SettledAt<T>(h: seq<Item<T>>, n: nat, i0: nat, i: nat)
    requires OrderedOffSlot(h, n, i) && ChildrenNoSmaller(h, n, i)
    requires i0 <= i && (i > i0 ==> i < n && h[Parent(i)].priority <= h[i].priority)
    ensures i > i0 ==> HeapOrdered(h, n)
    ensures OrderedExcept(h, n, i0)
  {
  }

  /** Changing the priority in slot i of a heap leaves every other link in order and
      keeps the parent of i no larger than the children of i. */
  lemma ChangePriority<T>(h: seq<Item<T>>, i: nat, p: int)
    requires HeapOrdered(h, |h|) && i < |h|
    ensures OrderedOffSlot(h[i := h[i].(priority := p)], |h|, i)
    ensures GrandparentBelowChildren(h[i := h[i].(priority := p)], |h|, i)
  {
    if 0 < i {
      ParentChild(2 * i + 1, i);
      ParentChild(2 * i + 2, i);
      assert h[Parent(i)].priority <= h[i].priority;
    }
  }

  /** pops lists values in an order in which successive pops may return them from a
      queue holding c: each is one of least priority among those not yet popped. */
  ghost predicate IsPopOrder<T>(c: map<T, int>, pops: seq<T>)
    decreases |pops|
  {
    |pops| == 0 ||
    (&& pops[0] in c
     && (forall v :: v in c ==> c[pops[0]] <= c[v])
     && IsPopOrder(c - {pops[0]}, pops[1..]))
  }

  /** Values popped in pop order are distinct values of the queue, and their
      priorities never decrease. */
  lemma {:induction false} PopOrderSorted<T>(c: map<T, int>, pops: seq<T>)
    requires IsPopOrder(c, pops)
    ensures forall i :: 0 <= i < |pops| ==> pops[i] in c
    ensures forall i, j :: 0 <= i < j < |pops| ==> pops[i] != pops[j] && c[pops[i]] <= c[pops[j]]
    decreases |pops|
  {
    if |pops| > 0 {
      var rest := c - {pops[0]};
      PopOrderSorted(rest, pops[1..]);
      forall i, j | 0 <= i < j < |pops|
        ensures pops[i] != pops[j] && c[pops[i]] <= c[pops[j]]
      {
        assert pops[j] == pops[1..][j - 1];
        if i > 0 {
          assert pops[i] == pops[1..][i - 1];
        }
      }
    }
  }

  /** A pop order can be extended by a value of least priority among those not yet popped. */
  lemma {:induction false} PopOrderExtend<T>(c: map<T, int>, pops: seq<T>, v: T)
    requires IsPopOrder(c, pops)
    requires v in c && v !in pops
    requires forall u :: u in c && u !in pops ==> c[v] <= c[u]
    ensures IsPopOrder(c, pops + [v])
    decreases |pops|
  {
    if |pops| > 0 {
      var rest := c - {pops[0]};
      assert (pops + [v])[1..] == pops[1..] + [v];
      assert pops == [pops[0]] + pops[1..];
      PopOrderExtend(rest, pops[1..], v);
    }
  }

  // ---------------------------------------------------------------------------
  // The queue
  // ---------------------------------------------------------------------------

  class PriorityQueue<T(==)> {
    /** The backing slice of records, kept as a binary min-heap on priority. */
    var heap: seq<Item<T>>
    /** Each enqueued value's current slot in `heap`. */
    var lookup: map<T, nat>
    /** The public view: each enqueued value with its priority. */
    ghost var Contents: map<T, int>

    /** Both invariants of the structure, and the public view they represent. */
    ghost predicate Valid()
      reads this
    {
      IndexConsistent(heap, lookup) && HeapOrdered(heap, |heap|) && Contents == Elements(heap, lookup)
    }

    /** An empty queue. */
    constructor New()
      ensures Valid() && Contents == map[]
    {
      heap := [];
      lookup := map[];
      Contents := map[];
    }

    /** The number of enqueued values. */
    function Len(): (n: nat)
      reads this
      requires Valid()
      ensures n == |Contents|
    {
      IndexSize(heap, lookup);
      |heap|
    }

    /** Membership, answered from the lookup map alone; it agrees with a scan of the array. */
    function Contains(value: T): (b: bool)
      reads this
      requires Valid()
      ensures b <==> value in Contents
      ensures b <==> exists i :: 0 <= i < |heap| && heap[i].value == value
    {
      assert value in lookup ==> heap[lookup[value]].value == value;
      value in lookup
    }

    /** Whether slot x holds a strictly smaller priority than slot y. */
    predicate Less(x: nat, y: nat)
      reads this
      requires x < |heap| && y < |heap|
    {
      heap[x].priority < heap[y].priority
    }

    /** Exchanges the records in slots x and y and rewrites both slot entries. */
    method Swap(x: nat, y: nat)
      requires IndexConsistent(heap, lookup) && x < |heap| && y < |heap|
      modifies this`heap, this`lookup
      ensures heap == old(heap)[x := old(heap)[y]][y := old(heap)[x]]
      ensures forall k :: 0 <= k < |heap| && k != x && k != y ==> heap[k] == old(heap)[k]
      ensures lookup == old(lookup)[old(heap)[y].value := x][old(heap)[x].value := y]
      ensures IndexConsistent(heap, lookup)
      ensures Elements(heap, lookup) == old(Elements(heap, lookup))
    {
      var a, b := heap[x], heap[y];
      SwapKeepsIndex(heap, lookup, x, y);
      heap := heap[x := b][y := a];
      lookup := lookup[b.value := x][a.value := y];
    }

    /** Appends a record in a fresh last slot and records that slot for its value. */
    method PushItem(it: Item<T>)
      requires IndexConsistent(heap, lookup) && it.value !in lookup
      modifies this`heap, this`lookup
      ensures heap == old(heap) + [it]
      ensures lookup == old(lookup)[it.value := |old(heap)|]
      ensures IndexConsistent(heap, lookup)
      ensures Elements(heap, lookup) == old(Elements(heap, lookup))[it.value := it.priority]
    {
      lookup := lookup[it.value := |heap|];
      heap := heap + [it];
    }

    /** Removes and returns the record in the last slot; its slot entry is left to the caller. */
    method PopItem() returns (it: Item<T>)
      requires |heap| > 0
      modifies this`heap
      ensures it == old(heap)[|old(heap)| - 1]
      ensures heap == old(heap)[..|old(heap)| - 1]
    {
      it := heap[|heap| - 1];
      heap := heap[..|heap| - 1];
    }

    /** Sifts the record in slot j0 towards the root while it is smaller than its parent. */
    method Up(j0: nat)
      requires IndexConsistent(heap, lookup) && j0 < |heap|
      requires OrderedExcept(heap, |heap|, j0) && GrandparentBelowChildren(heap, |heap|, j0)
      modifies this`heap, this`lookup
      ensures IndexConsistent(heap, lookup) && HeapOrdered(heap, |heap|)
      ensures |heap| == |old(heap)|
      ensures Elements(heap, lookup) == old(Elements(heap, lookup))
    {
      var j: nat := j0;
      while j > 0 && Less(j, Parent(j))
        invariant j < |heap| == |old(heap)|
        invariant IndexConsistent(heap, lookup)
        invariant Elements(heap, lookup) == old(Elements(heap, lookup))
        invariant OrderedExcept(heap, |heap|, j) && GrandparentBelowChildren(heap, |heap|, j)
        decreases j
      {
        var i := Parent(j);
        UpStep(heap, |heap|, j);
        Swap(i, j);
        j := i;
      }
    }

    /** One round of sifting down at slot i, within the first n slots: if the smaller
        child of i (the left one unless the right one is strictly smaller) has a
        smaller priority than i, the two trade places and the sift continues from
        that child; otherwise the sift is done. */
    method DownOnce(i: nat, n: nat) returns (done: bool, next: nat)
      requires IndexConsistent(heap, lookup) && i <= n <= |heap|
      requires OrderedOffSlot(heap, n, i) && GrandparentBelowChildren(heap, n, i)
      modifies this`heap, this`lookup
      ensures IndexConsistent(heap, lookup) && |heap| == |old(heap)|
      ensures Elements(heap, lookup) == old(Elements(heap, lookup))
      ensures forall k :: n <= k < |heap| ==> heap[k] == old(heap)[k]
      ensures OrderedOffSlot(heap, n, next) && GrandparentBelowChildren(heap, n, next)
      ensures done ==> next == i && heap == old(heap) && lookup == old(lookup) && ChildrenNoSmaller(heap, n, i)
      ensures !done ==> i < next < n && Parent(next) == i
                        && heap[Parent(next)].priority <= heap[next].priority
      ensures !done ==> && SmallerChildOf(old(heap), n, i, next)
                        && old(heap)[next].priority < old(heap)[i].priority
                        && heap == old(heap)[i := old(heap)[next]][next := old(heap)[i]]
    {
      var j1 := 2 * i + 1;
      if j1 >= n {
        return true, i;
      }
      var j := j1;
      var j2 := j1 + 1;
      if j2 < n && Less(j2, j1) {
        j := j2;  // the right child is the smaller one
      }
      if !Less(j, i) {
        return true, i;
      }
      DownStep(heap, n, i, j);
      Swap(i, j);
      return false, j;
    }

    /** Sifts the record in slot i0 towards the leaves, within the first n slots, while
        it is larger than its smaller child; reports whether it moved. */
    method Down(i0: nat, n: nat) returns (moved: bool)
      requires IndexConsistent(heap, lookup) && i0 <= n <= |heap|
      requires OrderedOffSlot(heap, n, i0) && GrandparentBelowChildren(heap, n, i0)
      modifies this`heap, this`lookup
      ensures IndexConsistent(heap, lookup) && |heap| == |old(heap)|
      ensures Elements(heap, lookup) == old(Elements(heap, lookup))
      ensures forall k :: n <= k < |heap| ==> heap[k] == old(heap)[k]
      ensures moved ==> i0 < n && HeapOrdered(heap, n) && heap[i0].priority < old(heap)[i0].priority
      ensures !moved ==> heap == old(heap) && lookup == old(lookup)
      ensures !moved ==> OrderedExcept(heap, n, i0) && GrandparentBelowChildren(heap, n, i0)
    {
      var i := i0;
      var done := false;
      while !done
        invariant i0 <= i <= n && (i > i0 ==> i < n)
        invariant IndexConsistent(heap, lookup) && |heap| == |old(heap)|
        invariant Elements(heap, lookup) == old(Elements(heap, lookup))
        invariant forall k :: n <= k < |heap| ==> heap[k] == old(heap)[k]
        invariant OrderedOffSlot(heap, n, i) && GrandparentBelowChildren(heap, n, i)
        invariant i > i0 ==> heap[Parent(i)].priority <= heap[i].priority
        invariant i > i0 ==> heap[i0].priority < old(heap)[i0].priority
        invariant i == i0 ==> heap == old(heap) && lookup == old(lookup)
        invariant done ==> ChildrenNoSmaller(heap, n, i)
        decreases n - i, !done
      {
        done, i := DownOnce(i, n);
      }
      SettledAt(heap, n, i0, i);
      moved := i > i0;
    }

    /** Restores heap order after the priority in slot i changed: sift down, and
        sift up if sifting down did not move the record. */
    method Fix(i: nat)
      requires IndexConsistent(heap, lookup) && i < |heap|
      requires OrderedOffSlot(heap, |heap|, i) && GrandparentBelowChildren(heap, |heap|, i)
      modifies this`heap, this`lookup
      ensures IndexConsistent(heap, lookup) && HeapOrdered(heap, |heap|)
      ensures |heap| == |old(heap)|
      ensures Elements(heap, lookup) == old(Elements(heap, lookup))
    {
      var moved := Down(i, |heap|);
      if !moved {
        Up(i);
      }
    }

    /** Adds a record at the end of the heap and sifts it up. */
    method HeapPush(it: Item<T>)
      requires IndexConsistent(heap, lookup) && HeapOrdered(heap, |heap|) && it.value !in lookup
      modifies this`heap, this`lookup
      ensures IndexConsistent(heap, lookup) && HeapOrdered(heap, |heap|) && |heap| == |old(heap)| + 1
      ensures Elements(heap, lookup) == old(Elements(heap, lookup))[it.value := it.priority]
    {
      PushItem(it);
      Up(|heap| - 1);
    }

    /** Moves the root to the last slot, sifts the new root down over the other slots,
        and removes and returns the last slot: the record of least priority. */
    method HeapPop() returns (it: Item<T>)
      requires IndexConsistent(heap, lookup) && HeapOrdered(heap, |heap|) && |heap| > 0
      modifies this`heap, this`lookup
      ensures it == old(heap)[0]
      ensures forall k :: 0 <= k < |old(heap)| ==> it.priority <= old(heap)[k].priority
      ensures |heap| == |old(heap)| - 1
      ensures it.value in lookup && lookup[it.value] == |heap|
      ensures IndexConsistent(heap, lookup - {it.value}) && HeapOrdered(heap, |heap|)
      ensures Elements(heap, lookup - {it.value}) == old(Elements(heap, lookup)) - {it.value}
    {
      forall k | 0 <= k < |heap|
        ensures heap[0].priority <= heap[k].priority
      {
        RootIsMinimal(heap, k);
      }
      var n := |heap| - 1;
      Swap(0, n);
      var _ := Down(0, n);
      assert heap[n] == old(heap)[0];
      DropLast(heap, lookup);
      it := PopItem();
    }

    /** Enqueues value with the given priority, unless value is already enqueued. */
    method Push(value: T, priority: int) returns (err: Outcome)
      requires Valid()
      modifies this
      ensures Valid()
      ensures value in old(Contents) ==> err == Fail(ItemExists) && unchanged(this)
      ensures value !in old(Contents) ==>
                && err == Pass
                && Contents == old(Contents)[value := priority]
                && Len() == old(Len()) + 1
                && Contains(value)
    {
      if value in lookup {
        return Fail(ItemExists);
      }
      HeapPush(Item(value, priority));
      Contents := Contents[value := priority];
      return Pass;
    }

    /** Dequeues a value of least priority, or reports that the queue is empty. */
    method Pop() returns (r: Result<T>)
      requires Valid()
      modifies this
      ensures Valid()
      ensures old(Len()) == 0 ==> r == Failure(QueueEmpty) && unchanged(this)
      ensures old(Len()) > 0 ==>
                && r.Success?
                && r.value in old(Contents)
                && (forall v :: v in old(Contents) ==> old(Contents)[r.value] <= old(Contents)[v])
                && Contents == old(Contents) - {r.value}
                && Len() == old(Len()) - 1
    {
      if |heap| == 0 {
        return Failure(QueueEmpty);
      }
      var it := HeapPop();
      lookup := lookup - {it.value};
      Contents := Contents - {it.value};
      return Success(it.value);
    }

    /** Gives an enqueued value a new priority and restores heap order from its slot,
        or reports that the value is not enqueued. */
    method Update(value: T, newPriority: int) returns (err: Outcome)
      requires Valid()
      modifies this
      ensures Valid()
      ensures value !in old(Contents) ==> err == Fail(ItemNotFound) && unchanged(this)
      ensures value in old(Contents) ==>
                && err == Pass
                && Contents == old(Contents)[value := newPriority]
                && Len() == old(Len())
    {
      if value !in lookup {
        return Fail(ItemNotFound);
      }
      var i := lookup[value];
      ChangePriority(heap, i, newPriority);
      heap := heap[i := heap[i].(priority := newPriority)];
      assert Elements(heap, lookup) == old(Elements(heap, lookup))[value := newPriority];
      Fix(i);
      Contents := Contents[value := newPriority];
      return Pass;
    }
  }
}
