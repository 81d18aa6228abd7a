/** ResettableArrayListIterator.kt: an ArrayList wrapped as an iterable that is its own iterator, so
    every `for` loop and every `take` over it shares (and advances) the same position, which `reset`
    moves back to the start. */
module Iterators {
  import opened Errors

  /** The test `hasNext` declares, at position `index`: `index < arr.size - 1`. */
  function DeclaredHasNext<T>(arr: seq<T>, index: nat): bool
  {
    index < |arr| - 1
  }

  /** The test the ResettableIterable interface documents for `hasNext`: an element is left. */
  function DocumentedHasNext<T>(arr: seq<T>, index: nat): bool
  {
    index < |arr|
  }

  /** The elements a Kotlin `for` loop visits from position `index` when its `hasNext` is the
      declared test. */
  function VisitedAsWritten<T>(arr: seq<T>, index: nat): seq<T>
    decreases |arr| - index
  {
    if DeclaredHasNext(arr, index) then [arr[index]] + VisitedAsWritten(arr, index + 1) else []
  }

  /** The elements a `for` loop visits from position `index` when `hasNext` is the documented test. */
  function Visited<T>(arr: seq<T>, index: nat): seq<T>
    decreases |arr| - index
  {
    if DocumentedHasNext(arr, index) then [arr[index]] + Visited(arr, index + 1) else []
  }

  /** With the declared `hasNext`, a loop started anywhere before the end never reaches the last element. */
  lemma {:induction false} ForLoopAsWrittenDropsLast<T>(arr: seq<T>, index: nat)
    requires index < |arr|
    ensures VisitedAsWritten(arr, index) == arr[index..|arr| - 1]
    decreases |arr| - index
  {
    if index < |arr| - 1 {
      ForLoopAsWrittenDropsLast(arr, index + 1);
    }
  }

  /** Concrete instance: over a one-element list the declared `hasNext` lets a loop visit nothing. */
  lemma ForLoopAsWrittenSkipsSingleton(x: int)
    ensures VisitedAsWritten([x], 0) == []
    ensures Visited([x], 0) == [x]
  {
  }

  /** With the corrected `hasNext`, a loop from `index` visits exactly the rest of the list. */
  lemma {:induction false} ForLoopVisitsRest<T>(arr: seq<T>, index: nat)
    requires index <= |arr|
    ensures Visited(arr, index) == arr[index..]
    decreases |arr| - index
  {
    if index < |arr| {
      ForLoopVisitsRest(arr, index + 1);
    }
  }

  /** What Kotlin's `Iterable.take(count)` returns from position `index`: up to `count` further elements. */
  function Slice<T>(arr: seq<T>, index: nat, count: nat): (r: seq<T>)
    ensures index <= |arr| ==> |r| == if index + count <= |arr| then count else |arr| - index
    ensures forall k :: 0 <= k < |r| ==> index + k < |arr| && r[k] == arr[index + k]
  {
    if index >= |arr| then []
    else if index + count <= |arr| then arr[index..index + count]
    else arr[index..]
  }

  /** The elements left from position `index` on: none once the position is past the end. */
  function Remaining<T>(arr: seq<T>, index: nat): (r: seq<T>)
    ensures |r| <= |arr|
    ensures index <= |arr| ==> r == arr[index..]
    ensures index > |arr| ==> r == []
  {
    if index <= |arr| then arr[index..] else []
  }

  class ResettableArrayListIterator<T> {
    const arr: seq<T>
    var index: nat

    constructor (arr: seq<T>)
      ensures this.arr == arr && index == 0
    {
      this.arr := arr;
      index := 0;
    }

    /** Moves back to the first element. */
    method Reset()
      modifies this
      ensures index == 0
    {
      index := 0;
    }

    function Size(): nat
    {
      |arr|
    }

    /** `hasNext` as declared: true only while at least two elements are left. */
    function HasNextAsWritten(): (r: bool)
      reads this
      ensures r <==> index + 2 <= |arr|
      ensures r ==> index + 1 < |arr|
    {
      DeclaredHasNext(arr, index)
    }

    /** `hasNext` as the ResettableIterable interface documents it: an element is left. */
    function HasNext(): (r: bool)
      reads this
      ensures r <==> index < |arr|
      ensures r ==> Slice(arr, index, 1) == [arr[index]]
    {
      DocumentedHasNext(arr, index)
    }

    /** `arr[index++]`: the position advances even when the access fails. */
    method Next() returns (r: Result<T>)
      modifies this
      ensures index == old(index) + 1
      ensures old(index) < |arr| ==> r == Ok(arr[old(index)])
      ensures old(index) >= |arr| ==> r == Err(IndexOutOfBounds)
    {
      if index < |arr| {
        r := Ok(arr[index]);
      } else {
        r := Err(IndexOutOfBounds);
      }
      index := index + 1;
    }

    /** `iterator()` returns the object itself. */
    function Iterator(): ResettableArrayListIterator<T>
    {
      this
    }

    /** Kotlin's `take(count)` over this iterable: a negative count is an IllegalArgumentException,
        zero takes nothing, otherwise the loop takes elements until `count` are taken or none is left. */
    method Take(count: int) returns (r: Result<seq<T>>)
      modifies this
      ensures count < 0 ==> r == Err(IllegalArgument) && index == old(index)
      ensures count >= 0 ==> r == Ok(Slice(arr, old(index), count))
      ensures count >= 0 && old(index) <= |arr| ==> index == old(index) + |r.value|
      ensures count >= 0 && old(index) > |arr| ==> index == old(index)
    {
      if count < 0 {
        return Err(IllegalArgument);
      }
      if count == 0 {
        assert |Slice(arr, index, 0)| == 0;
        return Ok([]);
      }
      var taken := 0;
      var list: seq<T> := [];
      var it := Iterator();
      while it.HasNext()
        invariant it == this
        invariant old(index) <= index && taken == index - old(index) && taken < count
        invariant old(index) <= |arr| ==> index <= |arr| && list == arr[old(index)..index]
        invariant old(index) > |arr| ==> index == old(index) && list == []
        decreases |arr| - index
      {
        var item := it.Next();
        list := list + [item.value];
        taken := taken + 1;
        if taken == count {
          break;
        }
      }
      if old(index) <= |arr| {
        if old(index) + count <= |arr| {
          assert list == arr[old(index)..old(index) + count];
        } else {
          assert list == arr[old(index)..];
        }
      }
      assert list == Slice(arr, old(index), count);
      r := Ok(list);
    }

    /** Kotlin's `toList()` over this iterable: every element left, leaving the position at the end. */
    method ToList() returns (r: seq<T>)
      modifies this
      ensures r == Remaining(arr, old(index))
      ensures index == if old(index) <= |arr| then |arr| else old(index)
    {
      r := [];
      var it := Iterator();
      while it.HasNext()
        invariant it == this
        invariant old(index) <= index
        invariant old(index) <= |arr| ==> index <= |arr| && r == arr[old(index)..index]
        invariant old(index) > |arr| ==> r == [] && index == old(index)
        decreases |arr| - index
      {
        var item := it.Next();
        r := r + [item.value];
      }
    }
  }
}
