/** The alignment vocabulary shared by every aligner (AlignmentAlgorithm.kt): the four alignment
    elements, how many frames of each video an alignment consumes, and the process-wide flag that
    lets a running difference computation be cancelled. */
module Alignment {
  import opened Errors

  /** MATCH pairs two frames that differ, PERFECT pairs two identical frames, INSERTION takes a frame
      of the current video only, DELETION a frame of the reference video only. */
  datatype AlignmentElement = Match | Insertion | Deletion | Perfect

  /** Number of occurrences of `e` in `s`. */
  function Count(s: seq<AlignmentElement>, e: AlignmentElement): (c: nat)
    ensures c <= |s|
  {
    if s == [] then 0 else (if s[0] == e then 1 else 0) + Count(s[1..], e)
  }

  /** Frames of the reference video consumed by `s`: every element except INSERTION takes one. */
  function ConsumedFirst(s: seq<AlignmentElement>): (c: nat)
    ensures c <= |s|
  {
    if s == [] then 0 else (if s[0] != Insertion then 1 else 0) + ConsumedFirst(s[1..])
  }

  /** Frames of the current video consumed by `s`: every element except DELETION takes one. */
  function ConsumedSecond(s: seq<AlignmentElement>): (c: nat)
    ensures c <= |s|
  {
    if s == [] then 0 else (if s[0] != Deletion then 1 else 0) + ConsumedSecond(s[1..])
  }

  /** The reference video gets a frame for every element but the INSERTIONs, the current video for
      every element but the DELETIONs. */
  lemma {:induction false} ConsumedCounts(s: seq<AlignmentElement>)
    ensures ConsumedFirst(s) == |s| - Count(s, Insertion)
    ensures ConsumedFirst(s) == Count(s, Match) + Count(s, Perfect) + Count(s, Deletion)
    ensures ConsumedSecond(s) == |s| - Count(s, Deletion)
    ensures ConsumedSecond(s) == Count(s, Match) + Count(s, Perfect) + Count(s, Insertion)
  {
    if s != [] {
      ConsumedCounts(s[1..]);
    }
  }

  /** `Count` is the multiplicity of `e` in the multiset of the elements of `s`. */
  lemma {:induction false} CountMultiset(s: seq<AlignmentElement>, e: AlignmentElement)
    ensures Count(s, e) == multiset(s)[e]
  {
    if s != [] {
      CountMultiset(s[1..], e);
      assert s == [s[0]] + s[1..];
      assert multiset(s) == multiset([s[0]]) + multiset(s[1..]);
    }
  }

  lemma {:induction false} ConsumedAppend(s: seq<AlignmentElement>, t: seq<AlignmentElement>)
    ensures ConsumedFirst(s + t) == ConsumedFirst(s) + ConsumedFirst(t)
    ensures ConsumedSecond(s + t) == ConsumedSecond(s) + ConsumedSecond(t)
  {
    if s == [] {
      assert s + t == t;
    } else {
      assert (s + t)[1..] == s[1..] + t;
      ConsumedAppend(s[1..], t);
    }
  }

  lemma {:induction false} CountAppend(s: seq<AlignmentElement>, t: seq<AlignmentElement>, e: AlignmentElement)
    ensures Count(s + t, e) == Count(s, e) + Count(t, e)
  {
    if s == [] {
      assert s + t == t;
    } else {
      assert (s + t)[1..] == s[1..] + t;
      CountAppend(s[1..], t, e);
    }
  }

  /** `n` copies of `e`. */
  function Repeat(e: AlignmentElement, n: nat): (r: seq<AlignmentElement>)
    ensures |r| == n && forall k :: 0 <= k < n ==> r[k] == e
  {
    seq(n, _ => e)
  }

  lemma {:induction false} CountRepeat(e: AlignmentElement, n: nat, f: AlignmentElement)
    ensures Count(Repeat(e, n), f) == if e == f then n else 0
  {
    if n > 0 {
      assert Repeat(e, n)[1..] == Repeat(e, n - 1);
      CountRepeat(e, n - 1, f);
    }
  }

  /** The elements of `s` in the opposite order (ArrayList.reverse). */
  function Reverse<X>(s: seq<X>): (r: seq<X>)
    ensures |r| == |s| && forall k :: 0 <= k < |s| ==> r[k] == s[|s| - 1 - k]
  {
    seq(|s|, k requires 0 <= k < |s| => s[|s| - 1 - k])
  }

  /** Reversing a non-empty sequence puts its first element last. */
  lemma ReverseCons<X>(s: seq<X>)
    requires s != []
    ensures Reverse(s) == Reverse(s[1..]) + [s[0]]
  {
    var r, r' := Reverse(s), Reverse(s[1..]) + [s[0]];
    assert |r| == |r'|;
    forall k | 0 <= k < |r|
      ensures r[k] == r'[k]
    {
      if k < |s| - 1 {
        assert r'[k] == Reverse(s[1..])[k] == s[1..][|s| - 2 - k];
      }
    }
  }

  lemma {:induction false} ConsumedReverse(s: seq<AlignmentElement>)
    ensures ConsumedFirst(Reverse(s)) == ConsumedFirst(s)
    ensures ConsumedSecond(Reverse(s)) == ConsumedSecond(s)
  {
    if s != [] {
      ReverseCons(s);
      ConsumedReverse(s[1..]);
      ConsumedAppend(Reverse(s[1..]), [s[0]]);
    }
  }

  lemma {:induction false} CountReverse(s: seq<AlignmentElement>, e: AlignmentElement)
    ensures Count(Reverse(s), e) == Count(s, e)
  {
    if s != [] {
      ReverseCons(s);
      CountReverse(s[1..], e);
      CountAppend(Reverse(s[1..]), [s[0]], e);
    }
  }

  /** The singleton AlgorithmExecutionState: a flag saying whether the running computation may go on. */
  class AlgorithmExecutionState {
    var alive: bool

    constructor ()
      ensures alive
    {
      alive := true;
    }

    /** Allows the next computation to run. */
    method Reset()
      modifies this
      ensures alive
    {
      alive := true;
    }

    /** Asks the running computation to stop at its next check. */
    method Stop()
      modifies this
      ensures !alive
    {
      alive := false;
    }
  }

  /** The companion object holding the one AlgorithmExecutionState of the process. */
  class ExecutionStateHolder {
    var instance: AlgorithmExecutionState?

    constructor ()
      ensures instance == null
    {
      instance := null;
    }

    /** Creates the state on first use and returns the same object on every later call. */
    method GetInstance() returns (s: AlgorithmExecutionState)
      modifies this
      ensures old(instance) != null ==> s == old(instance)
      ensures old(instance) == null ==> fresh(s) && s.alive
      ensures instance == s
    {
      if instance == null {
        instance := new AlgorithmExecutionState();
      }
      s := instance;
    }
  }

  /** AlignmentAlgorithm.isAlive: returns normally while the flag is set and throws
      DifferenceGeneratorStoppedException once it has been cleared. */
  function CheckAlive(state: AlgorithmExecutionState): (r: Outcome)
    reads state
    ensures r == Pass <==> state.alive
    ensures r != Pass ==> r == Fail(Stopped)
  {
    if !state.alive then Fail(Stopped) else Pass
  }
}
