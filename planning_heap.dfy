/** The planning heap (planningHeap/planning_heap.go): a slice of planning
    nodes with the five methods of Go's heap.Interface. The planner calls Push
    and Pop on it directly, never through container/heap, so nothing ever
    restores a heap order: Push appends, Pop takes the last element, and the
    container is a stack. Less is defined but never consulted. */
module PlanningHeaps {

  class PlanningHeap<T> {
    /** The slice, front to back. */
    var items: seq<T>

    /** The zero value: an empty slice. */
    constructor ()
      ensures items == []
    {
      items := [];
    }

    /** Len: the length of the slice. */
    function Len(): (n: nat)
      reads this
      ensures n == |items|
      ensures n == 0 <==> items == []
    {
      |items|
    }

    /** Less(i, j): the element at i costs strictly less than the one at j. */
    predicate Less(cost: T -> real, i: int, j: int): (b: bool)
      reads this
      requires 0 <= i < |items| && 0 <= j < |items|
      ensures b ==> i != j && items[i] != items[j]
      ensures b ==> !(cost(items[j]) < cost(items[i]))
    {
      cost(items[i]) < cost(items[j])
    }

    /** Less is a strict order on positions: irreflexive, asymmetric and
        transitive. */
    lemma LessIsStrictOrder(cost: T -> real, i: int, j: int, k: int)
      requires 0 <= i < |items| && 0 <= j < |items| && 0 <= k < |items|
      ensures !Less(cost, i, i)
      ensures Less(cost, i, j) ==> !Less(cost, j, i)
      ensures Less(cost, i, j) && Less(cost, j, k) ==> Less(cost, i, k)
    {
    }

    /** Swap(i, j): exchanges the elements at i and j in place. */
    method Swap(i: int, j: int)
      requires 0 <= i < |items| && 0 <= j < |items|
      modifies this
      ensures |items| == |old(items)|
      ensures items[i] == old(items[j]) && items[j] == old(items[i])
      ensures forall k :: 0 <= k < |items| && k != i && k != j ==> items[k] == old(items[k])
      ensures multiset(items) == multiset(old(items))
    {
      items := items[i := items[j]][j := items[i]];
    }

    /** Push(x): appends x at the end of the slice. */
    method Push(x: T)
      modifies this
      ensures items == old(items) + [x]
    {
      items := items + [x];
    }

    /** Pop(): removes and returns the last element of the slice; an empty
        slice would make the source index out of range. */
    method Pop() returns (x: T)
      requires items != []
      modifies this
      ensures x == old(items[|items| - 1])
      ensures items == old(items[..|items| - 1])
      ensures old(items) == items + [x]
    {
      x := items[|items| - 1];
      items := items[..|items| - 1];
    }
  }

  /** The frontier is last in, first out: a Pop right after a Push returns
      the pushed element and leaves the frontier as it was. */
  method PushThenPop<T>(heap: PlanningHeap<T>, x: T) returns (y: T)
    modifies heap
    ensures y == x
    ensures heap.items == old(heap.items)
  {
    heap.Push(x);
    y := heap.Pop();
  }
}
