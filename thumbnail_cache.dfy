/** ThumbnailCache.kt: the thumbnails of the timeline, kept for the `maxCacheSize` most recently used
    diff indices. The loader `getImages` is a function of the index; the indices it was called for are
    recorded in `loads`, so that what the cache saves is visible. */
module ThumbnailCache {
  import opened Errors

  /** No index occurs twice. */
  predicate Distinct(s: seq<int>)
  {
    forall i, j :: 0 <= i < |s| && 0 <= j < |s| && i != j ==> s[i] != s[j]
  }

  /** `MutableList.remove(element)`: drops the first occurrence of `x`, if any. */
  function RemoveFirst(s: seq<int>, x: int): (r: seq<int>)
    ensures x !in s ==> r == s
    ensures x in s ==> |r| == |s| - 1
  {
    if s == [] then []
    else if s[0] == x then s[1..]
    else [s[0]] + RemoveFirst(s[1..], x)
  }

  lemma DistinctTail(s: seq<int>)
    requires s != [] && Distinct(s)
    ensures Distinct(s[1..]) && s[0] !in s[1..]
  {
    assert forall i :: 0 <= i < |s[1..]| ==> s[1..][i] == s[i + 1];
  }

  lemma DistinctCons(x: int, t: seq<int>)
    requires Distinct(t) && x !in t
    ensures Distinct([x] + t)
  {
    assert forall i :: 1 <= i <= |t| ==> ([x] + t)[i] == t[i - 1];
  }

  /** Removing `x` from a list without repetitions leaves exactly the other entries, still without
      repetitions. */
  lemma {:induction false} RemoveFirstDistinct(s: seq<int>, x: int)
    requires Distinct(s)
    ensures Distinct(RemoveFirst(s, x))
    ensures forall y :: y in RemoveFirst(s, x) <==> y in s && y != x
  {
    if s != [] {
      DistinctTail(s);
      if s[0] != x {
        RemoveFirstDistinct(s[1..], x);
        var t := RemoveFirst(s[1..], x);
        assert s == [s[0]] + s[1..];
        DistinctCons(s[0], t);
      }
    }
  }

  /** The oldest remaining entry is the oldest old one, or the second oldest when `x` was the oldest. */
  lemma RemoveFirstHead(s: seq<int>, x: int)
    requires |s| > 0
    ensures s[0] != x ==> RemoveFirst(s, x)[0] == s[0]
    ensures |s| > 1 && s[0] == x ==> RemoveFirst(s, x)[0] == s[1]
  {
  }

  /** The access order after `get(index)`: `index` taken out, the oldest entry dropped when the list
      is still full, and `index` appended as the most recent. When the list is empty and yet counts as
      full (a capacity of 0 or less) `removeAt(0)` throws, and the list stays as it is. */
  function NextRecentlyUsed(recent: seq<int>, index: int, maxCacheSize: int): seq<int>
  {
    var rest := RemoveFirst(recent, index);
    if |rest| >= maxCacheSize then (if rest == [] then rest else rest[1..] + [index])
    else rest + [index]
  }

  /** The index whose thumbnails `get(index)` evicts: the oldest other entry, when the list is full. */
  function Evicted(recent: seq<int>, index: int, maxCacheSize: int): set<int>
  {
    var rest := RemoveFirst(recent, index);
    if |rest| >= maxCacheSize && rest != [] then {rest[0]} else {}
  }

  /** With a positive capacity, `get(index)` makes `index` the most recent entry and keeps the entries
      distinct and within the capacity; the entries before it are the newest of the other old ones, in
      their old order. */
  lemma TouchKeepsOrder(recent: seq<int>, index: int, maxCacheSize: int)
    requires maxCacheSize > 0 && Distinct(recent) && |recent| <= maxCacheSize
    ensures var next := NextRecentlyUsed(recent, index, maxCacheSize);
            var rest := RemoveFirst(recent, index);
            |next| > 0 && next[|next| - 1] == index && Distinct(next) && |next| <= maxCacheSize
            && |next| - 1 <= |rest| && next[..|next| - 1] == rest[|rest| - (|next| - 1)..]
  {
    RemoveFirstDistinct(recent, index);
    var rest := RemoveFirst(recent, index);
    var kept := if |rest| >= maxCacheSize then rest[1..] else rest;
    if |rest| >= maxCacheSize {
      DistinctTail(rest);
    }
    assert index !in kept;
    DistinctSnoc(kept, index);
    assert (kept + [index])[..|kept|] == kept;
  }

  lemma DistinctSnoc(t: seq<int>, x: int)
    requires Distinct(t) && x !in t
    ensures Distinct(t + [x])
  {
    assert forall i :: 0 <= i < |t| ==> (t + [x])[i] == t[i];
  }

  /** An index already in the list evicts nothing; a new index evicts exactly when the list is at its
      capacity, and then the least recently used entry. */
  lemma EvictsLeastRecentlyUsed(recent: seq<int>, index: int, maxCacheSize: int)
    requires maxCacheSize > 0 && Distinct(recent) && |recent| <= maxCacheSize
    ensures index in recent ==> Evicted(recent, index, maxCacheSize) == {}
    ensures index !in recent ==>
            (Evicted(recent, index, maxCacheSize) != {} <==> |recent| == maxCacheSize)
    ensures index !in recent && |recent| == maxCacheSize ==> Evicted(recent, index, maxCacheSize) == {recent[0]}
  {
  }

  /** The entries after `get(index)`: the old ones and `index`, less the evicted one. */
  lemma TouchContents(recent: seq<int>, index: int, maxCacheSize: int)
    requires maxCacheSize > 0 && Distinct(recent) && |recent| <= maxCacheSize
    ensures forall k :: k in NextRecentlyUsed(recent, index, maxCacheSize) <==>
                        (k in recent || k == index) && k !in Evicted(recent, index, maxCacheSize)
  {
    RemoveFirstDistinct(recent, index);
    var rest := RemoveFirst(recent, index);
    if |rest| >= maxCacheSize && rest != [] {
      DistinctTail(rest);
      assert rest == [rest[0]] + rest[1..];
    }
  }

  class ThumbnailCache<T> {
    const maxCacheSize: int
    const getImages: int -> T
    var cache: map<int, T>
    /** The cached indices, least recently used first. */
    var recentlyUsed: seq<int>
    /** The indices `getImages` was called for, in order. */
    var loads: seq<int>

    /** The cache holds the loader's thumbnails for at most `maxCacheSize` distinct indices, which are
        exactly the listed ones. A capacity of 0 or less never lists an index (every `get` throws),
        while the entries stored before the throw stay in the map. */
    ghost predicate Valid()
      reads this
    {
      && Distinct(recentlyUsed)
      && (forall k :: k in recentlyUsed ==> k in cache)
      && (forall k :: k in cache ==> cache[k] == getImages(k))
      && (maxCacheSize > 0 ==> (forall k :: k in cache ==> k in recentlyUsed) && |recentlyUsed| <= maxCacheSize)
      && (maxCacheSize <= 0 ==> recentlyUsed == [])
    }

    constructor (maxCacheSize: int, getImages: int -> T)
      ensures Valid()
      ensures this.maxCacheSize == maxCacheSize && this.getImages == getImages
      ensures cache == map[] && recentlyUsed == [] && loads == []
    {
      this.maxCacheSize, this.getImages := maxCacheSize, getImages;
      cache, recentlyUsed, loads := map[], [], [];
    }

    /** `get(index)`: the loader's thumbnails for `index`, loaded only when they are not cached; the
        index becomes the most recently used and, when the cache is full, the least recently used
        other index is evicted. With a capacity of 0 or less the eviction finds an empty list and
        throws, after the thumbnails were stored. */
    method Get(index: int) returns (r: Result<T>)
      requires Valid()
      modifies this
      ensures Valid()
      ensures r.Err? <==> maxCacheSize <= 0
      ensures r.Err? ==> r.error == IndexOutOfBounds
      ensures r.Ok? ==> r.value == getImages(index)
      ensures loads == old(loads) + (if index in old(cache) then [] else [index])
      ensures recentlyUsed == NextRecentlyUsed(old(recentlyUsed), index, maxCacheSize)
      ensures cache == old(cache)[index := getImages(index)] - Evicted(old(recentlyUsed), index, maxCacheSize)
    {
      ghost var recent := recentlyUsed;
      RemoveFirstDistinct(recentlyUsed, index);
      recentlyUsed := RemoveFirst(recentlyUsed, index);
      if index !in cache {
        cache := cache[index := getImages(index)];
        loads := loads + [index];
      }
      if |recentlyUsed| >= maxCacheSize {
        if recentlyUsed == [] {
          return Err(IndexOutOfBounds);
        }
        var evicted := recentlyUsed[0];
        recentlyUsed := recentlyUsed[1..];
        cache := cache - {evicted};
      }
      recentlyUsed := recentlyUsed + [index];
      TouchKeepsOrder(recent, index, maxCacheSize);
      TouchContents(recent, index, maxCacheSize);
      r := Ok(cache[index]);
    }
  }
}
