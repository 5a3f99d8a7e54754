/**
 * The queue's documented behaviour on small concrete queues, derived from the
 * contracts of PQ.PriorityQueue alone. Priorities are the test suite's
 * priorities scaled by ten (1.0 becomes 10, 0.5 becomes 5).
 */
module PQScenarios {
  import opened Errors
  import opened PQ

  /** An empty queue has length 0; after two distinct pushes it has length 2. */
  method LenAfterTwoPushes() returns (empty: nat, two: nat)
    ensures empty == 0 && two == 2
  {
    var q := new PriorityQueue<int>.New();
    empty := q.Len();
    var e1 := q.Push(1, 10);
    var e2 := q.Push(2, 20);
    two := q.Len();
  }

  /** Pushing a value that is already enqueued fails with ItemExists and the length stays 1. */
  method PushDuplicate() returns (err: Outcome, len: nat)
    ensures err == Fail(ItemExists) && len == 1
  {
    var q := new PriorityQueue<int>.New();
    var e1 := q.Push(1, 10);
    err := q.Push(1, 20);
    len := q.Len();
  }

  /** Pushing 2 at priority 20 onto a queue holding 1 at priority 10 gives length 2,
      and 2 is popped second, after 1. */
  method LargerPriorityPopsSecond() returns (len: nat, first: Result<int>, second: Result<int>)
    ensures len == 2 && first == Success(1) && second == Success(2)
  {
    var q := new PriorityQueue<int>.New();
    var e1 := q.Push(1, 10);
    var e2 := q.Push(2, 20);
    len := q.Len();
    first := q.Pop();
    ghost var rest := q.Contents;
    assert rest == map[2 := 20];
    second := q.Pop();
  }

  /** A value pushed with a strictly smaller priority than the one already enqueued is
      popped first; this covers zero and negative priorities. */
  method SmallerPriorityPopsFirst(existing: int, pushed: int) returns (first: Result<int>)
    requires pushed < existing
    ensures first == Success(3)
  {
    var q := new PriorityQueue<int>.New();
    var e1 := q.Push(1, existing);
    var e2 := q.Push(3, pushed);
    first := q.Pop();
  }

  /** Popping an empty queue fails with QueueEmpty and leaves it empty; popping a queue
      that holds one value returns that value and leaves the queue empty. */
  method PopEmptyThenSingle() returns (r1: Result<int>, len1: nat, r2: Result<int>, len2: nat)
    ensures r1 == Failure(QueueEmpty) && len1 == 0
    ensures r2 == Success(1) && len2 == 0
  {
    var q := new PriorityQueue<int>.New();
    r1 := q.Pop();
    len1 := q.Len();
    var e := q.Push(1, 10);
    r2 := q.Pop();
    len2 := q.Len();
  }

  /** Updating a value that was never pushed fails with ItemNotFound and changes nothing. */
  method UpdateUnknown() returns (err: Outcome, len: nat)
    ensures err == Fail(ItemNotFound) && len == 0
  {
    var q := new PriorityQueue<int>.New();
    err := q.Update(99, 10);
    len := q.Len();
  }

  /** A fresh queue into which 1, 2, 3 were pushed at priorities p1, p2, p3. */
  method ThreeValues(p1: int, p2: int, p3: int) returns (q: PriorityQueue<int>)
    ensures fresh(q) && q.Valid() && q.Contents == map[1 := p1, 2 := p2, 3 := p3]
  {
    q := new PriorityQueue<int>.New();
    var e1 := q.Push(1, p1);
    var e2 := q.Push(2, p2);
    var e3 := q.Push(3, p3);
  }

  /** Updating the only enqueued value to any priority (greater, zero or negative)
      succeeds, and that value is popped first. */
  method UpdateSingle(p: int) returns (err: Outcome, first: Result<int>)
    ensures err == Pass && first == Success(1)
  {
    var q := new PriorityQueue<int>.New();
    var e := q.Push(1, 10);
    err := q.Update(1, p);
    ghost var held := q.Contents;
    assert held == map[1 := p];
    first := q.Pop();
  }

  /** With 1, 2, 3 at priorities 10, 20, 30, lowering the priority of 2 to 5 makes
      2 the next value popped. */
  method UpdateMovesToFront() returns (err: Outcome, first: Result<int>)
    ensures err == Pass && first == Success(2)
  {
    var q := ThreeValues(10, 20, 30);
    err := q.Update(2, 5);
    ghost var held := q.Contents;
    assert held == map[1 := 10, 2 := 5, 3 := 30];
    first := q.Pop();
    assert first.value in held && held[first.value] <= held[2];
  }

  /** Contains is false on an empty queue and true for a pushed value. */
  method ContainsAfterPush() returns (before: bool, after: bool)
    ensures !before && after
  {
    var q := new PriorityQueue<int>.New();
    before := q.Contains(1);
    var e := q.Push(1, 10);
    after := q.Contains(1);
  }

  /** Pops the queue until it is empty, as the test suite's position check does: the
      values come out in a pop order of the original contents, each exactly once. */
  method DrainAll<T(==)>(q: PriorityQueue<T>) returns (pops: seq<T>)
    requires q.Valid()
    modifies q
    ensures q.Valid() && q.Contents == map[]
    ensures IsPopOrder(old(q.Contents), pops) && |pops| == |old(q.Contents)|
  {
    ghost var c0 := q.Contents;
    var n := q.Len();
    pops := [];
    var i := 0;
    while i < n
      invariant 0 <= i <= n && |pops| == i
      invariant q.Valid() && q.Len() == n - i
      invariant IsPopOrder(c0, pops)
      invariant forall v :: v in q.Contents <==> v in c0 && v !in pops
      invariant forall v :: v in q.Contents ==> q.Contents[v] == c0[v]
    {
      var r := q.Pop();
      PopOrderExtend(c0, pops, r.value);
      pops := pops + [r.value];
      i := i + 1;
    }
    assert q.Contents == map[];
  }

  /** Three pushes followed by popping everything return the three values, each once,
      in an order of non-decreasing priority. */
  method ExtractionOrder(p1: int, p2: int, p3: int) returns (pops: seq<int>)
    ensures |pops| == 3
    ensures forall i :: 0 <= i < 3 ==> 1 <= pops[i] <= 3
    ensures var prio := map[1 := p1, 2 := p2, 3 := p3];
            forall i, j :: 0 <= i < j < 3 ==> pops[i] != pops[j] && prio[pops[i]] <= prio[pops[j]]
  {
    var q := ThreeValues(p1, p2, p3);
    ghost var held := q.Contents;
    pops := DrainAll(q);
    PopOrderSorted(held, pops);
  }
}
