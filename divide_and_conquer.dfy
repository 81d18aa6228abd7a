/** DivideAndConquerAligner.kt: frames whose hashes agree exactly split both videos into segments,
    each matched pair becomes one MATCH, and the segments between matches are handed to the
    wrapped aligner (Gotoh). */
module DivideAndConquer {
  import opened Errors
  import opened Alignment
  import opened Iterators
  import opened Gotoh

  /** A frame hash (a byte array; the empty array marks a frame excluded from matching). */
  type Hash = seq<bv8>

  /** A pair of frame indices, one per video, whose hashes agree (Kotlin's `Pair<Int, Int>`). */
  datatype MatchPair = MatchPair(first: nat, second: nat)

  /** The hash of every frame, in order, as ObjectHasher.getHashes returns them. */
  function Hashes<T>(frames: seq<T>, hasher: T -> Hash): (r: seq<Hash>)
    ensures |r| == |frames|
  {
    seq(|frames|, k requires 0 <= k < |frames| => hasher(frames[k]))
  }

  /** The smallest index `j >= from` with `h[j] == x`, or -1 when there is none. */
  function FirstEqual(h: seq<Hash>, x: Hash, from: nat): (r: int)
    ensures r == -1 || (from <= r < |h| && h[r] == x)
    ensures forall j :: from <= j < |h| && (r == -1 || j < r) ==> h[j] != x
    decreases |h| - from
  {
    if from >= |h| then -1
    else if h[from] == x then from
    else FirstEqual(h, x, from + 1)
  }

  /** Matched pairs lie inside videos of `size1` and `size2` frames. */
  predicate InRange(ms: seq<MatchPair>, size1: nat, size2: nat)
  {
    forall k :: 0 <= k < |ms| ==> ms[k].first < size1 && ms[k].second < size2
  }

  /** The first indices strictly increase, so each frame of the first video is matched at most once. */
  predicate FirstsIncrease(ms: seq<MatchPair>)
  {
    forall k, l :: 0 <= k < l < |ms| ==> ms[k].first < ms[l].first
  }

  /** The second indices strictly increase. */
  predicate SecondsIncrease(ms: seq<MatchPair>)
  {
    forall k, l :: 0 <= k < l < |ms| ==> ms[k].second < ms[l].second
  }

  /** The pairs `findMatches` collects while its outer loop has looked at the first `i` hashes. */
  function MatchesUpTo(h1: seq<Hash>, h2: seq<Hash>, i: nat): (r: seq<MatchPair>)
    requires i <= |h1|
    ensures InRange(r, i, |h2|) && FirstsIncrease(r)
    decreases i
  {
    if i == 0 then []
    else
      var earlier := MatchesUpTo(h1, h2, i - 1);
      var j := FirstEqual(h2, h1[i - 1], 0);
      if h1[i - 1] != [] && j >= 0 then earlier + [MatchPair(i - 1, j as nat)] else earlier
  }

  /** The value of `findMatches()` for the hash arrays `h1` and `h2`. */
  function Matches(h1: seq<Hash>, h2: seq<Hash>): (r: seq<MatchPair>)
    ensures InRange(r, |h1|, |h2|) && FirstsIncrease(r)
  {
    MatchesUpTo(h1, h2, |h1|)
  }

  /** The hash at `k` occurs at some other index too. */
  predicate Repeated(h: seq<Hash>, k: nat)
    requires k < |h|
  {
    exists l :: 0 <= l < |h| && l != k && h[l] == h[k]
  }

  /** What `markDuplicates` documents: every repeated hash becomes the empty array, the rest stay. */
  function Marked(h: seq<Hash>): (r: seq<Hash>)
    ensures |r| == |h|
    ensures forall k :: 0 <= k < |h| ==> r[k] == if Repeated(h, k) then [] else h[k]
  {
    seq(|h|, k requires 0 <= k < |h| => if Repeated(h, k) then [] else h[k])
  }

  /** `(i, j)` is an exact match: a non-empty hash of the first video at `i` equals the hash at `j`,
      and no earlier hash of the second video does. */
  predicate IsMatch(h1: seq<Hash>, h2: seq<Hash>, i: nat, j: nat)
  {
    i < |h1| && j < |h2| && h1[i] != [] && h2[j] == h1[i] &&
    forall j' :: 0 <= j' < j ==> h2[j'] != h1[i]
  }

  /** Every collected pair is an exact match, and every non-empty hash of the first video that
      occurs in the second is matched. */
  lemma {:induction false} MatchesUpToExact(h1: seq<Hash>, h2: seq<Hash>, i: nat)
    requires i <= |h1|
    ensures forall k :: 0 <= k < |MatchesUpTo(h1, h2, i)| ==>
              IsMatch(h1, h2, MatchesUpTo(h1, h2, i)[k].first, MatchesUpTo(h1, h2, i)[k].second)
    ensures forall x, y :: 0 <= x < i && 0 <= y < |h2| && h1[x] != [] && h2[y] == h1[x] ==>
              exists k :: 0 <= k < |MatchesUpTo(h1, h2, i)| && MatchesUpTo(h1, h2, i)[k].first == x
    decreases i
  {
    if i > 0 {
      MatchesUpToExact(h1, h2, i - 1);
      var earlier := MatchesUpTo(h1, h2, i - 1);
      var r := MatchesUpTo(h1, h2, i);
      assert forall k :: 0 <= k < |earlier| ==> r[k] == earlier[k];
      forall x, y | 0 <= x < i && 0 <= y < |h2| && h1[x] != [] && h2[y] == h1[x]
        ensures exists k :: 0 <= k < |r| && r[k].first == x
      {
        if x < i - 1 {
          var k :| 0 <= k < |earlier| && earlier[k].first == x;
          assert r[k].first == x;
        } else {
          assert r[|r| - 1].first == x;
        }
      }
    }
  }

  /** findMatches' guarantees: pairs ordered by strictly increasing first index (so no frame twice),
      empty hashes skipped, each second index the first equal hash, and no matchable frame missed. */
  lemma MatchesExact(h1: seq<Hash>, h2: seq<Hash>)
    ensures FirstsIncrease(Matches(h1, h2))
    ensures forall k :: 0 <= k < |Matches(h1, h2)| ==>
              IsMatch(h1, h2, Matches(h1, h2)[k].first, Matches(h1, h2)[k].second)
    ensures forall x, y :: 0 <= x < |h1| && 0 <= y < |h2| && h1[x] != [] && h2[y] == h1[x] ==>
              exists k :: 0 <= k < |Matches(h1, h2)| && Matches(h1, h2)[k].first == x
  {
    MatchesUpToExact(h1, h2, |h1|);
  }

  /** With duplicates marked, `findMatches` pairs only frames whose hash is unique in both videos,
      and no frame of the second video is matched twice. */
  lemma MarkedMatchesUnique(h1: seq<Hash>, h2: seq<Hash>)
    ensures forall k :: 0 <= k < |Matches(Marked(h1), Marked(h2))| ==>
              !Repeated(h1, Matches(Marked(h1), Marked(h2))[k].first) &&
              !Repeated(h2, Matches(Marked(h1), Marked(h2))[k].second)
    ensures forall k, l :: 0 <= k < l < |Matches(Marked(h1), Marked(h2))| ==>
              Matches(Marked(h1), Marked(h2))[k].second != Matches(Marked(h1), Marked(h2))[l].second
  {
    var m1, m2 := Marked(h1), Marked(h2);
    var ms := Matches(m1, m2);
    MatchesExact(m1, m2);
    forall k, l | 0 <= k < l < |ms|
      ensures ms[k].second != ms[l].second
    {
      assert IsMatch(m1, m2, ms[k].first, ms[k].second) && IsMatch(m1, m2, ms[l].first, ms[l].second);
    }
  }

  /** The wrapped aligner's `run` on two lists of frames. */
  type Aligner<!T> = (seq<T>, seq<T>) -> seq<AlignmentElement>

  /** The alignment `r` pairs up or skips every frame of `s1` and of `s2`. */
  predicate Consumes<T>(r: seq<AlignmentElement>, s1: seq<T>, s2: seq<T>)
  {
    ConsumedFirst(r) == |s1| && ConsumedSecond(r) == |s2|
  }

  /** An aligner pairs up or skips every frame of both lists it is given. */
  ghost predicate AlignsAll<T(!new)>(run: Aligner<T>)
  {
    forall s1, s2 :: Consumes(run(s1, s2), s1, s2)
  }

  /** The Gotoh aligner `g` as the aligner that divide and conquer wraps; it consumes both lists. */
  function GotohAligner<T(!new)>(g: Gotoh<T>): (run: Aligner<T>)
    ensures AlignsAll(run)
    ensures forall s1, s2 :: run(s1, s2) == Align(g.ProblemFor(s1, s2))
  {
    (s1, s2) => Align(g.ProblemFor(s1, s2))
  }

  /** What `getSubAlignment(slice1, slice2)` returns with the wrapped aligner `run`: shortcuts when
      a slice is empty, otherwise `run` on the two slices. */
  function SubAlignment<T(!new)>(run: Aligner<T>, slice1: seq<T>, slice2: seq<T>): (r: seq<AlignmentElement>)
    requires AlignsAll(run)
    ensures ConsumedFirst(r) == |slice1| && ConsumedSecond(r) == |slice2|
    ensures slice1 != [] && slice2 != [] ==> r == run(slice1, slice2)
  {
    if slice1 == [] && slice2 == [] then []
    else if slice1 == [] then
      ConsumedCounts(Repeat(Insertion, |slice2|));
      CountRepeat(Insertion, |slice2|, Insertion);
      CountRepeat(Insertion, |slice2|, Deletion);
      Repeat(Insertion, |slice2|)
    else if slice2 == [] then
      ConsumedCounts(Repeat(Deletion, |slice1|));
      CountRepeat(Deletion, |slice1|, Insertion);
      CountRepeat(Deletion, |slice1|, Deletion);
      Repeat(Deletion, |slice1|)
    else run(slice1, slice2)
  }

  /** An alignment prefixed to a result that may be an exception. */
  function Then(prefix: seq<AlignmentElement>, r: Result<seq<AlignmentElement>>): (t: Result<seq<AlignmentElement>>)
    ensures t.Ok? <==> r.Ok?
    ensures t.Ok? ==> t.value == prefix + r.value
    ensures t.Err? ==> t.error == r.error
  {
    match r
    case Ok(rest) => Ok(prefix + rest)
    case Err(e) => Err(e)
  }

  /** Nothing prefixed leaves a result as it is. */
  lemma ThenEmpty(r: Result<seq<AlignmentElement>>)
    ensures Then([], r) == r
  {
    if r.Ok? {
      assert [] + r.value == r.value;
    }
  }

  /** The alignment `run` assembles with the wrapped aligner `run` from the matches `ms[k..]`, once the
      frames before `last1` and `last2` are aligned: per pair, the segments up to it and one MATCH;
      then the tails. A pair whose second index lies before `last2` makes `take` receive a negative
      count. A successful result uses every remaining frame of both videos exactly once. */
  function Assemble<T(!new)>(run: Aligner<T>, a: seq<T>, b: seq<T>,
                      ms: seq<MatchPair>, k: nat, last1: nat, last2: nat): (r: Result<seq<AlignmentElement>>)
    requires AlignsAll(run)
    requires k <= |ms| && last1 <= |a| && last2 <= |b|
    requires InRange(ms, |a|, |b|) && FirstsIncrease(ms)
    requires k < |ms| ==> last1 <= ms[k].first
    decreases |ms| - k
  {
    if k == |ms| then Ok(SubAlignment(run, a[last1..], b[last2..]))
    else if ms[k].second < last2 then Err(IllegalArgument)
    else
      var segment := SubAlignment(run, a[last1..ms[k].first], b[last2..ms[k].second]);
      var rest := Assemble(run, a, b, ms, k + 1, ms[k].first + 1, ms[k].second + 1);
      Then(segment + [Match], rest)
  }

  /** One pair of `ms`, seen from an alignment built so far: either `take` fails, or the segments up to
      the pair and its MATCH move from the rest onto the prefix. */
  lemma AssembleStep<T(!new)>(run: Aligner<T>, a: seq<T>, b: seq<T>, ms: seq<MatchPair>, k: nat, last1: nat, last2: nat,
                        prefix: seq<AlignmentElement>)
    requires AlignsAll(run)
    requires k < |ms| && last1 <= |a| && last2 <= |b|
    requires InRange(ms, |a|, |b|) && FirstsIncrease(ms)
    requires last1 <= ms[k].first
    ensures ms[k].second < last2 ==> Then(prefix, Assemble(run, a, b, ms, k, last1, last2)) == Err(IllegalArgument)
    ensures last2 <= ms[k].second ==>
              Then(prefix, Assemble(run, a, b, ms, k, last1, last2)) ==
              Then(prefix + SubAlignment(run, a[last1..ms[k].first], b[last2..ms[k].second]) + [Match],
                   Assemble(run, a, b, ms, k + 1, ms[k].first + 1, ms[k].second + 1))
  {
    if last2 <= ms[k].second {
      var segment := SubAlignment(run, a[last1..ms[k].first], b[last2..ms[k].second]);
      var rest := Assemble(run, a, b, ms, k + 1, ms[k].first + 1, ms[k].second + 1);
      if rest.Ok? {
        assert prefix + (segment + [Match] + rest.value) == prefix + segment + [Match] + rest.value;
      }
    }
  }

  /** AssembleStep once the prefix has been extended by the segment and the MATCH. */
  lemma AssembleAdvances<T(!new)>(run: Aligner<T>, a: seq<T>, b: seq<T>, ms: seq<MatchPair>, k: nat, last1: nat, last2: nat,
                            prefix: seq<AlignmentElement>, next: seq<AlignmentElement>)
    requires AlignsAll(run)
    requires k < |ms| && last1 <= |a| && last2 <= |b|
    requires InRange(ms, |a|, |b|) && FirstsIncrease(ms)
    requires last1 <= ms[k].first && last2 <= ms[k].second
    requires next == prefix + SubAlignment(run, a[last1..ms[k].first], b[last2..ms[k].second]) + [Match]
    ensures Then(next, Assemble(run, a, b, ms, k + 1, ms[k].first + 1, ms[k].second + 1)) ==
            Then(prefix, Assemble(run, a, b, ms, k, last1, last2))
  {
    AssembleStep(run, a, b, ms, k, last1, last2, prefix);
  }

  /** The state of `run`'s loop before pair `k`: `built` is the alignment so far, and with what the
      matches from `k` on contribute it gives the whole result. */
  ghost predicate Building<T(!new)>(run: Aligner<T>, a: seq<T>, b: seq<T>, ms: seq<MatchPair>, k: nat, last1: nat, last2: nat,
                              built: seq<AlignmentElement>, whole: Result<seq<AlignmentElement>>)
  {
    AlignsAll(run) && k <= |ms| && last1 <= |a| && last2 <= |b| && InRange(ms, |a|, |b|) && FirstsIncrease(ms) &&
    (k < |ms| ==> last1 <= ms[k].first) &&
    whole == Then(built, Assemble(run, a, b, ms, k, last1, last2))
  }

  /** Before the first pair nothing is built. */
  lemma BuildingStarts<T(!new)>(run: Aligner<T>, a: seq<T>, b: seq<T>, ms: seq<MatchPair>)
    requires AlignsAll(run)
    requires InRange(ms, |a|, |b|) && FirstsIncrease(ms)
    ensures Building(run, a, b, ms, 0, 0, 0, [], Assemble(run, a, b, ms, 0, 0, 0))
  {
    ThenEmpty(Assemble(run, a, b, ms, 0, 0, 0));
  }

  /** Pair `k` either makes `take` fail, and then so does the whole run, or it extends what is built
      by the segments up to it and the MATCH. */
  lemma BuildingAdvances<T(!new)>(run: Aligner<T>, a: seq<T>, b: seq<T>, ms: seq<MatchPair>, k: nat, last1: nat, last2: nat,
                            built: seq<AlignmentElement>, whole: Result<seq<AlignmentElement>>)
    requires AlignsAll(run)
    requires Building(run, a, b, ms, k, last1, last2, built, whole) && k < |ms|
    ensures ms[k].second < last2 ==> whole == Err(IllegalArgument)
    ensures last2 <= ms[k].second ==>
              Building(run, a, b, ms, k + 1, ms[k].first + 1, ms[k].second + 1,
                       built + SubAlignment(run, a[last1..ms[k].first], b[last2..ms[k].second]) + [Match], whole)
  {
    if last2 <= ms[k].second {
      AssembleAdvances(run, a, b, ms, k, last1, last2, built,
                       built + SubAlignment(run, a[last1..ms[k].first], b[last2..ms[k].second]) + [Match]);
    } else {
      AssembleStep(run, a, b, ms, k, last1, last2, built);
    }
  }

  /** After the last pair only the tails are left. */
  lemma BuildingEnds<T(!new)>(run: Aligner<T>, a: seq<T>, b: seq<T>, ms: seq<MatchPair>, k: nat, last1: nat, last2: nat,
                        built: seq<AlignmentElement>, whole: Result<seq<AlignmentElement>>)
    requires Building(run, a, b, ms, k, last1, last2, built, whole) && k >= |ms|
    ensures whole == Ok(built + SubAlignment(run, a[last1..], b[last2..]))
  {
  }

  /** The second indices of `ms[k..]` strictly increase. */
  predicate SecondsIncreaseFrom(ms: seq<MatchPair>, k: nat)
  {
    forall i, j :: k <= i < j < |ms| ==> ms[i].second < ms[j].second
  }

  /** `run` returns normally exactly when the matched second indices strictly increase from `last2`
      on; otherwise `take` is called with a negative count. */
  lemma {:induction false} AssembleSucceedsIff<T(!new)>(run: Aligner<T>, a: seq<T>, b: seq<T>,
                                                 ms: seq<MatchPair>, k: nat, last1: nat, last2: nat)
    requires AlignsAll(run)
    requires k <= |ms| && last1 <= |a| && last2 <= |b|
    requires InRange(ms, |a|, |b|) && FirstsIncrease(ms)
    requires k < |ms| ==> last1 <= ms[k].first
    ensures Assemble(run, a, b, ms, k, last1, last2).Ok? <==>
              SecondsIncreaseFrom(ms, k) && (k < |ms| ==> last2 <= ms[k].second)
    ensures Assemble(run, a, b, ms, k, last1, last2).Err? ==> Assemble(run, a, b, ms, k, last1, last2).error == IllegalArgument
    decreases |ms| - k
  {
    if k < |ms| && ms[k].second >= last2 {
      AssembleSucceedsIff(run, a, b, ms, k + 1, ms[k].first + 1, ms[k].second + 1);
      if !SecondsIncreaseFrom(ms, k) && SecondsIncreaseFrom(ms, k + 1) && (k + 1 < |ms| ==> ms[k].second + 1 <= ms[k + 1].second) {
        forall i, j | k <= i < j < |ms| ensures ms[i].second < ms[j].second {
          if i == k && j > k + 1 {
            assert ms[k + 1].second < ms[j].second;
          }
        }
        assert false;
      }
    }
  }

  /** Position `p` of the alignment `r` is a MATCH pairing frame `first` of the reference video with
      frame `second` of the current one: before it, `r` consumes exactly the frames preceding them. */
  predicate PairedAt(r: seq<AlignmentElement>, p: nat, first: nat, second: nat)
  {
    p < |r| && r[p] == Match && ConsumedFirst(r[..p]) == first && ConsumedSecond(r[..p]) == second
  }

  /** A MATCH found in an alignment stays where it is when more elements are appended. */
  lemma PairedKept(built: seq<AlignmentElement>, more: seq<AlignmentElement>, r: seq<AlignmentElement>,
                   p: nat, first: nat, second: nat)
    requires r == built + more && PairedAt(built, p, first, second)
    ensures PairedAt(r, p, first, second)
  {
    assert r[..p] == built[..p];
  }

  /** The MATCH appended after a segment pairs the frames that follow it. */
  lemma PairedAfter(built: seq<AlignmentElement>, segment: seq<AlignmentElement>, r: seq<AlignmentElement>,
                    first: nat, second: nat)
    requires r == built + segment + [Match]
    requires ConsumedFirst(built) + ConsumedFirst(segment) == first
    requires ConsumedSecond(built) + ConsumedSecond(segment) == second
    ensures PairedAt(r, |built| + |segment|, first, second)
  {
    assert r[..|built| + |segment|] == built + segment;
    ConsumedAppend(built, segment);
  }

  /** What `run`'s loop has built before pair `k` of `ms`: an alignment consuming the frames before
      `last1` and `last2`, with the MATCH of every earlier pair `x` at `positions[x]`. */
  ghost predicate PairsFound(built: seq<AlignmentElement>, positions: seq<nat>, ms: seq<MatchPair>,
                             k: nat, last1: nat, last2: nat)
  {
    k <= |ms| && |positions| == k && ConsumedFirst(built) == last1 && ConsumedSecond(built) == last2 &&
    forall x :: 0 <= x < k ==> PairedAt(built, positions[x], ms[x].first, ms[x].second)
  }

  /** Appending the segments up to pair `k` and its MATCH places that MATCH right after them. */
  lemma PairsFoundExtend(built: seq<AlignmentElement>, positions: seq<nat>, ms: seq<MatchPair>,
                         k: nat, last1: nat, last2: nat, segment: seq<AlignmentElement>,
                         built': seq<AlignmentElement>, next1: nat, next2: nat) returns (positions': seq<nat>)
    requires PairsFound(built, positions, ms, k, last1, last2) && k < |ms|
    requires last1 + ConsumedFirst(segment) == ms[k].first && last2 + ConsumedSecond(segment) == ms[k].second
    requires built' == built + segment + [Match] && next1 == ms[k].first + 1 && next2 == ms[k].second + 1
    ensures PairsFound(built', positions', ms, k + 1, next1, next2)
  {
    positions' := positions + [|built| + |segment|];
    ConsumedAppend(built, segment);
    ConsumedAppend(built + segment, [Match]);
    assert built' == built + (segment + [Match]);
    forall x | 0 <= x < k
      ensures PairedAt(built', positions'[x], ms[x].first, ms[x].second)
    {
      assert positions'[x] == positions[x];
      PairedKept(built, segment + [Match], built', positions[x], ms[x].first, ms[x].second);
    }
    PairedAfter(built, segment, built', ms[k].first, ms[k].second);
    assert positions'[k] == |built| + |segment|;
  }

  /** Building depends on its arguments only. */
  lemma BuildingMoved<T(!new)>(run: Aligner<T>, a: seq<T>, b: seq<T>, ms: seq<MatchPair>, k: nat, last1: nat, last2: nat,
                               k': nat, last1': nat, last2': nat, built: seq<AlignmentElement>, built': seq<AlignmentElement>,
                               whole: Result<seq<AlignmentElement>>)
    requires Building(run, a, b, ms, k, last1, last2, built, whole)
    requires k' == k && last1' == last1 && last2' == last2 && built' == built
    ensures Building(run, a, b, ms, k', last1', last2', built', whole)
  {
  }

  /** BuildingAdvances when `take` does not fail, with the grown alignment returned as a value. */
  lemma BuildingGrows<T(!new)>(run: Aligner<T>, a: seq<T>, b: seq<T>, ms: seq<MatchPair>, k: nat, last1: nat, last2: nat,
                               built: seq<AlignmentElement>, whole: Result<seq<AlignmentElement>>)
    returns (built': seq<AlignmentElement>)
    requires Building(run, a, b, ms, k, last1, last2, built, whole) && k < |ms| && last2 <= ms[k].second
    ensures built' == built + SubAlignment(run, a[last1..ms[k].first], b[last2..ms[k].second]) + [Match]
    ensures Building(run, a, b, ms, k + 1, ms[k].first + 1, ms[k].second + 1, built', whole)
  {
    built' := built + SubAlignment(run, a[last1..ms[k].first], b[last2..ms[k].second]) + [Match];
    BuildingAdvances(run, a, b, ms, k, last1, last2, built, whole);
  }

  /** BuildingGrows with the next loop state returned as values. */
  lemma BuildingNext<T(!new)>(run: Aligner<T>, a: seq<T>, b: seq<T>, ms: seq<MatchPair>, k: nat, last1: nat, last2: nat,
                              built: seq<AlignmentElement>, whole: Result<seq<AlignmentElement>>)
    returns (k': nat, next1: nat, next2: nat, built': seq<AlignmentElement>)
    requires Building(run, a, b, ms, k, last1, last2, built, whole) && k < |ms| && last2 <= ms[k].second
    ensures k' == k + 1 && next1 == ms[k].first + 1 && next2 == ms[k].second + 1
    ensures built' == built + SubAlignment(run, a[last1..ms[k].first], b[last2..ms[k].second]) + [Match]
    ensures Building(run, a, b, ms, k', next1, next2, built', whole)
  {
    built' := BuildingGrows(run, a, b, ms, k, last1, last2, built, whole);
    k', next1, next2 := k + 1, ms[k].first + 1, ms[k].second + 1;
  }

  /** Pair `k` before `last2` makes `take` fail, and the whole run with it. */
  lemma BuildingFails<T(!new)>(run: Aligner<T>, a: seq<T>, b: seq<T>, ms: seq<MatchPair>, k: nat, last1: nat, last2: nat,
                               built: seq<AlignmentElement>, whole: Result<seq<AlignmentElement>>)
    requires Building(run, a, b, ms, k, last1, last2, built, whole) && k < |ms| && ms[k].second < last2
    ensures whole == Err(IllegalArgument)
  {
    BuildingAdvances(run, a, b, ms, k, last1, last2, built, whole);
  }

  /** In a successful run no pair makes `take` fail. */
  lemma BuildingPasses<T(!new)>(run: Aligner<T>, a: seq<T>, b: seq<T>, ms: seq<MatchPair>, k: nat, last1: nat, last2: nat,
                                built: seq<AlignmentElement>, r: seq<AlignmentElement>)
    requires Building(run, a, b, ms, k, last1, last2, built, Ok(r)) && k < |ms|
    ensures last2 <= ms[k].second
  {
    BuildingAdvances(run, a, b, ms, k, last1, last2, built, Ok(r));
  }

  /** The MATCH of pair `k` is found right after the alignment built before it and its segments. */
  lemma PairsNext<T(!new)>(run: Aligner<T>, a: seq<T>, b: seq<T>, ms: seq<MatchPair>, k: nat, last1: nat, last2: nat,
                           built: seq<AlignmentElement>, positions: seq<nat>,
                           k': nat, next1: nat, next2: nat, built': seq<AlignmentElement>) returns (positions': seq<nat>)
    requires AlignsAll(run) && InRange(ms, |a|, |b|) && k < |ms| && k' == k + 1
    requires last1 <= ms[k].first && last2 <= ms[k].second
    requires PairsFound(built, positions, ms, k, last1, last2)
    requires built' == built + SubAlignment(run, a[last1..ms[k].first], b[last2..ms[k].second]) + [Match]
    requires next1 == ms[k].first + 1 && next2 == ms[k].second + 1
    ensures PairsFound(built', positions', ms, k', next1, next2)
  {
    var segment := SubAlignment(run, a[last1..ms[k].first], b[last2..ms[k].second]);
    positions' := PairsFoundExtend(built, positions, ms, k, last1, last2, segment, built', next1, next2);
  }

  /** After the last pair the tails are appended, and every MATCH found stays in place. */
  lemma PairsEnd<T(!new)>(run: Aligner<T>, a: seq<T>, b: seq<T>, ms: seq<MatchPair>, k: nat, last1: nat, last2: nat,
                          built: seq<AlignmentElement>, positions: seq<nat>, r: seq<AlignmentElement>)
    requires Building(run, a, b, ms, k, last1, last2, built, Ok(r)) && k >= |ms|
    requires PairsFound(built, positions, ms, k, last1, last2)
    ensures ConsumedFirst(r) == |a| && ConsumedSecond(r) == |b|
    ensures |positions| == |ms|
    ensures forall x :: 0 <= x < |ms| ==> PairedAt(r, positions[x], ms[x].first, ms[x].second)
  {
    BuildingEnds(run, a, b, ms, k, last1, last2, built, Ok(r));
    var tail := SubAlignment(run, a[last1..], b[last2..]);
    ConsumedAppend(built, tail);
    forall x | 0 <= x < |ms|
      ensures PairedAt(r, positions[x], ms[x].first, ms[x].second)
    {
      PairedKept(built, tail, r, positions[x], ms[x].first, ms[x].second);
    }
  }

  /** Every matched pair is aligned with itself: a successful result has, for each pair of `ms`, a MATCH
      before which exactly the frames preceding the pair's two frames are consumed. */
  lemma AssembleAlignsPairs<T(!new)>(run: Aligner<T>, a: seq<T>, b: seq<T>, ms: seq<MatchPair>,
                                     r: seq<AlignmentElement>) returns (positions: seq<nat>)
    requires AlignsAll(run)
    requires InRange(ms, |a|, |b|) && FirstsIncrease(ms)
    requires Assemble(run, a, b, ms, 0, 0, 0) == Ok(r)
    ensures ConsumedFirst(r) == |a| && ConsumedSecond(r) == |b|
    ensures |positions| == |ms|
    ensures forall x :: 0 <= x < |ms| ==> PairedAt(r, positions[x], ms[x].first, ms[x].second)
  {
    BuildingStarts(run, a, b, ms);
    var built: seq<AlignmentElement>, k: nat, last1: nat, last2: nat := [], 0, 0, 0;
    positions := [];
    while k < |ms|
      invariant Building(run, a, b, ms, k, last1, last2, built, Ok(r))
      invariant PairsFound(built, positions, ms, k, last1, last2)
      decreases |ms| - k
    {
      BuildingPasses(run, a, b, ms, k, last1, last2, built, r);
      var k', next1, next2, built' := BuildingNext(run, a, b, ms, k, last1, last2, built, Ok(r));
      positions := PairsNext(run, a, b, ms, k, last1, last2, built, positions, k', next1, next2, built');
      k, last1, last2, built := k', next1, next2, built';
    }
    PairsEnd(run, a, b, ms, k, last1, last2, built, positions, r);
  }

  /** With `markDuplicates` marking nothing, a frame repeated in the first video that also occurs in
      the second is matched twice to the same frame, and the run throws. */
  lemma RepeatedFrameThrows(run: Aligner<int>, x: Hash)
    requires AlignsAll(run)
    requires x != []
    ensures Matches([x, x], [x]) == [MatchPair(0, 0), MatchPair(1, 0)]
    ensures Assemble(run, [1, 2], [3], Matches([x, x], [x]), 0, 0, 0) == Err(IllegalArgument)
  {
    assert FirstEqual([x], x, 0) == 0;
    assert MatchesUpTo([x, x], [x], 1) == [MatchPair(0, 0)];
  }

  /** With duplicates marked, the repeated frame of RepeatedFrameThrows is not matched at all. */
  lemma RepeatedFrameUnmatched(x: Hash)
    requires x != []
    ensures Marked([x, x]) == [[], []]
    ensures Matches(Marked([x, x]), Marked([x])) == []
  {
    var h: seq<Hash> := [x, x];
    assert h[1] == h[0];
    assert Repeated(h, 0) && Repeated(h, 1);
    var m := Marked(h);
    assert m[0] == [] && m[1] == [];
    assert m == [[], []];
    assert MatchesUpTo(m, Marked([x]), 1) == [];
    assert MatchesUpTo(m, Marked([x]), 2) == [];
  }

  /** Two frames matched in opposite orders make the run throw as well. */
  lemma CrossingMatchesThrow(run: Aligner<int>, x: Hash, y: Hash)
    requires AlignsAll(run)
    requires x != [] && y != [] && x != y
    ensures Matches([x, y], [y, x]) == [MatchPair(0, 1), MatchPair(1, 0)]
    ensures Assemble(run, [1, 2], [3, 4], Matches([x, y], [y, x]), 0, 0, 0) == Err(IllegalArgument)
  {
    assert FirstEqual([y, x], x, 0) == 1;
    assert FirstEqual([y, x], y, 0) == 0;
    assert MatchesUpTo([x, y], [y, x], 1) == [MatchPair(0, 1)];
  }

  /** `markDuplicates`' loops have compared (p, q), p < q, once the outer index passed p, or is at p
      with the inner index past q. */
  predicate Compared(i: nat, j: nat, p: nat, q: nat)
  {
    p < q && (p < i || (p == i && q < j))
  }

  /** Some compared pair holding `k` has two equal hashes. */
  predicate SeenRepeated(h: seq<Hash>, i: nat, j: nat, k: nat)
    requires k < |h|
  {
    exists l :: 0 <= l < |h| && h[l] == h[k] && (Compared(i, j, k, l) || Compared(i, j, l, k))
  }

  /** Comparing (i, j) adds exactly i and j when their hashes agree. */
  lemma SeenStep(h: seq<Hash>, i: nat, j: nat)
    requires i < j < |h|
    ensures forall k :: 0 <= k < |h| ==>
              (SeenRepeated(h, i, j + 1, k) <==> SeenRepeated(h, i, j, k) || (h[i] == h[j] && (k == i || k == j)))
  {
    forall k | 0 <= k < |h|
      ensures SeenRepeated(h, i, j + 1, k) ==> SeenRepeated(h, i, j, k) || (h[i] == h[j] && (k == i || k == j))
    {
      if SeenRepeated(h, i, j + 1, k) {
        var l :| 0 <= l < |h| && h[l] == h[k] && (Compared(i, j + 1, k, l) || Compared(i, j + 1, l, k));
        if !(Compared(i, j, k, l) || Compared(i, j, l, k)) {
          assert (k == i && l == j) || (l == i && k == j);
        }
      }
    }
    if h[i] == h[j] {
      assert Compared(i, j + 1, i, j);
      assert SeenRepeated(h, i, j + 1, i) && SeenRepeated(h, i, j + 1, j);
    }
  }

  /** After the inner loop of row i, the pairs compared are those with p <= i. */
  lemma SeenRowDone(h: seq<Hash>, i: nat)
    requires i < |h|
    ensures forall k :: 0 <= k < |h| ==>
              (SeenRepeated(h, i, |h|, k) <==> SeenRepeated(h, i + 1, 0, k))
    ensures forall k :: 0 <= k < |h| ==> (SeenRepeated(h, i, 0, k) <==> SeenRepeated(h, i, i + 1, k))
  {
  }

  /** Once every row is done, a hash was seen repeated exactly when it is Repeated. */
  lemma SeenAll(h: seq<Hash>)
    ensures forall k :: 0 <= k < |h| ==> (SeenRepeated(h, |h|, 0, k) <==> Repeated(h, k))
  {
    forall k | 0 <= k < |h| && Repeated(h, k)
      ensures SeenRepeated(h, |h|, 0, k)
    {
      var l :| 0 <= l < |h| && l != k && h[l] == h[k];
      assert Compared(|h|, 0, k, l) || Compared(|h|, 0, l, k);
    }
  }

  class DivideAndConquerAligner<T(!new)> {
    const algorithm: Gotoh<T>
    const hasher: T -> Hash
    var hashes1: seq<Hash>
    var hashes2: seq<Hash>
    var alignment: seq<AlignmentElement>

    constructor (algorithm: Gotoh<T>, hasher: T -> Hash)
      ensures this.algorithm == algorithm && this.hasher == hasher
      ensures hashes1 == [] && hashes2 == [] && alignment == []
    {
      this.algorithm := algorithm;
      this.hasher := hasher;
      hashes1, hashes2, alignment := [], [], [];
    }

    /** `hasher.getHashes(it)`: a `for` loop over the iterable hashes every frame from its current
        position to the end. */
    method GetHashes(it: ResettableArrayListIterator<T>) returns (r: seq<Hash>)
      modifies it
      ensures r == Hashes(Remaining(it.arr, old(it.index)), hasher)
      ensures it.index == if old(it.index) <= |it.arr| then |it.arr| else old(it.index)
    {
      var frames := it.ToList();
      r := Hashes(frames, hasher);
    }

    /** `markDuplicates` as written: `duplicates.plus(..)` builds a new set and drops it, so the set
        stays empty and every hash is returned unchanged. */
    method MarkDuplicatesAsWritten(hashArray: seq<Hash>) returns (r: seq<Hash>)
      ensures r == hashArray
    {
      var duplicates: set<nat> := {};
      for i := 0 to |hashArray|
        invariant duplicates == {}
      {
        for j := i + 1 to |hashArray|
          invariant duplicates == {}
        {
          if hashArray[i] == hashArray[j] {
            var withSecond := duplicates + {j};
            var withFirst := duplicates + {i};
          }
        }
      }
      r := seq(|hashArray|, k requires 0 <= k < |hashArray| => if k in duplicates then [] else hashArray[k]);
    }

    /** `markDuplicates` with the set kept: both indices of every equal pair go into `duplicates`,
        and those hashes become empty. */
    method MarkDuplicates(hashArray: seq<Hash>) returns (r: seq<Hash>)
      ensures r == Marked(hashArray)
    {
      var duplicates: set<nat> := {};
      for i := 0 to |hashArray|
        invariant forall k :: 0 <= k < |hashArray| ==> (k in duplicates <==> SeenRepeated(hashArray, i, 0, k))
        invariant forall k :: k in duplicates ==> k < |hashArray|
      {
        for j := i + 1 to |hashArray|
          invariant forall k :: 0 <= k < |hashArray| ==> (k in duplicates <==> SeenRepeated(hashArray, i, j, k))
          invariant forall k :: k in duplicates ==> k < |hashArray|
        {
          SeenStep(hashArray, i, j);
          if hashArray[i] == hashArray[j] {
            duplicates := duplicates + {j};
            duplicates := duplicates + {i};
          }
        }
        SeenRowDone(hashArray, i);
      }
      SeenAll(hashArray);
      r := seq(|hashArray|, k requires 0 <= k < |hashArray| => if k in duplicates then [] else hashArray[k]);
    }

    /** `findMatches()`: for each non-empty hash of the first video, the first equal hash of the second. */
    method FindMatches() returns (r: seq<MatchPair>)
      ensures r == Matches(hashes1, hashes2)
    {
      r := [];
      for i := 0 to |hashes1|
        invariant r == MatchesUpTo(hashes1, hashes2, i)
      {
        if hashes1[i] == [] {
          continue;
        }
        for j := 0 to |hashes2|
          invariant r == MatchesUpTo(hashes1, hashes2, i)
          invariant forall j' :: 0 <= j' < j ==> hashes2[j'] != hashes1[i]
        {
          if hashes1[i] == hashes2[j] {
            assert FirstEqual(hashes2, hashes1[i], 0) == j;
            r := r + [MatchPair(i, j)];
            break;
          }
        }
      }
    }

    /** `getSubAlignment(slice1, slice2)`; only the last branch runs the wrapped aligner. */
    method GetSubAlignment(slice1: seq<T>, slice2: seq<T>) returns (r: seq<AlignmentElement>)
      modifies algorithm
      ensures r == SubAlignment(GotohAligner(algorithm), slice1, slice2)
    {
      if slice1 == [] && slice2 == [] {
        r := [];
      } else if slice1 == [] {
        r := Repeat(Insertion, |slice2|);
      } else if slice2 == [] {
        r := Repeat(Deletion, |slice1|);
      } else {
        r := algorithm.Run(slice1, slice2);
      }
    }

    /** One round of `run`'s loop over the matches: takes both segments up to the pair, aligns them,
        adds the MATCH and skips the matched frames. */
    method Round(a: ResettableArrayListIterator<T>, b: ResettableArrayListIterator<T>,
                 pair: MatchPair, last1: nat, last2: nat) returns (r: Outcome)
      requires a != b && pair.first < |a.arr| && pair.second < |b.arr|
      requires a.index == last1 <= pair.first && b.index == last2 <= |b.arr|
      modifies this`alignment, algorithm, a, b
      ensures r == Pass <==> last2 <= pair.second
      ensures r != Pass ==> r == Fail(IllegalArgument) && alignment == old(alignment)
      ensures r == Pass ==> alignment == old(alignment) + SubAlignment(GotohAligner(algorithm), a.arr[last1..pair.first], b.arr[last2..pair.second]) + [Match]
      ensures r == Pass ==> a.index == pair.first + 1 && b.index == pair.second + 1
    {
      var slice1 := a.Take(pair.first - last1);
      var slice2 := b.Take(pair.second - last2);
      if slice2.Err? {
        return Fail(slice2.error);
      }
      assert slice1.value == a.arr[last1..pair.first];
      assert slice2.value == b.arr[last2..pair.second];
      var sub := GetSubAlignment(slice1.value, slice2.value);
      alignment := alignment + sub + [Match];
      var skipped1 := a.Next();
      var skipped2 := b.Next();
      r := Pass;
    }

    /** Round `k` of `run`'s loop, seen against the whole result the loop is building. */
    method Advance(a: ResettableArrayListIterator<T>, b: ResettableArrayListIterator<T>, equals: seq<MatchPair>, k: nat,
                   last1: nat, last2: nat, ghost whole: Result<seq<AlignmentElement>>)
      returns (r: Outcome, k': nat, next1: nat, next2: nat)
      requires a != b && k < |equals| && a.index == last1 && b.index == last2
      requires Building(GotohAligner(algorithm), a.arr, b.arr, equals, k, last1, last2, alignment, whole)
      modifies this`alignment, algorithm, a, b
      ensures r.Fail? ==> r == Fail(IllegalArgument) && whole == Err(IllegalArgument)
      ensures k' == k + 1 && (r == Pass ==> a.index == next1 && b.index == next2)
      ensures r == Pass ==> Building(GotohAligner(algorithm), a.arr, b.arr, equals, k', next1, next2, alignment, whole)
    {
      ghost var before := alignment;
      r := Round(a, b, equals[k], last1, last2);
      k', next1, next2 := k + 1, equals[k].first + 1, equals[k].second + 1;
      if r == Pass {
        ghost var k1, n1, n2, grown := BuildingNext(GotohAligner(algorithm), a.arr, b.arr, equals, k, last1, last2, before, whole);
        BuildingMoved(GotohAligner(algorithm), a.arr, b.arr, equals, k1, n1, n2, k', next1, next2, grown, alignment, whole);
      } else {
        BuildingFails(GotohAligner(algorithm), a.arr, b.arr, equals, k, last1, last2, before, whole);
      }
    }

    /** `run(a, b)` over two iterables: hashes both from their current positions, finds the matches,
        rewinds both and aligns segment by segment. The old contents of `alignment` are cleared first,
        so they never reach the result. */
    method Run(a: ResettableArrayListIterator<T>, b: ResettableArrayListIterator<T>)
      returns (r: Result<seq<AlignmentElement>>)
      requires a != b
      modifies this, algorithm, a, b
      ensures hashes1 == Marked(Hashes(Remaining(a.arr, old(a.index)), hasher))
      ensures hashes2 == Marked(Hashes(Remaining(b.arr, old(b.index)), hasher))
      ensures r == Assemble(GotohAligner(algorithm), a.arr, b.arr, Matches(hashes1, hashes2), 0, 0, 0)
      ensures r.Ok? ==> alignment == r.value
    {
      var h1 := GetHashes(a);
      hashes1 := MarkDuplicates(h1);
      var h2 := GetHashes(b);
      hashes2 := MarkDuplicates(h2);
      var equals := FindMatches();
      a.Reset();
      b.Reset();
      assert InRange(equals, |a.arr|, |b.arr|);
      r := AlignSegments(a, b, equals);
    }

    /** The tails after the last match: `take` of every frame left in each video, then aligned. */
    method AlignTails(a: ResettableArrayListIterator<T>, b: ResettableArrayListIterator<T>, last1: nat, last2: nat)
      returns (r: seq<AlignmentElement>)
      requires a != b && a.index == last1 <= |a.arr| && b.index == last2 <= |b.arr|
      modifies algorithm, a, b
      ensures r == SubAlignment(GotohAligner(algorithm), a.arr[last1..], b.arr[last2..])
    {
      var tail1 := a.Take(a.Size() - last1);
      var tail2 := b.Take(b.Size() - last2);
      assert tail1.value == a.arr[last1..];
      assert tail2.value == b.arr[last2..];
      r := GetSubAlignment(tail1.value, tail2.value);
    }

    /** The second half of `run`: from the start of both videos, segment by segment along the matches
        `equals`, then the tails. */
    method AlignSegments(a: ResettableArrayListIterator<T>, b: ResettableArrayListIterator<T>, equals: seq<MatchPair>)
      returns (r: Result<seq<AlignmentElement>>)
      requires a != b && a.index == 0 && b.index == 0
      requires InRange(equals, |a.arr|, |b.arr|) && FirstsIncrease(equals)
      modifies this`alignment, algorithm, a, b
      ensures r == Assemble(GotohAligner(algorithm), a.arr, b.arr, equals, 0, 0, 0)
      ensures r.Ok? ==> alignment == r.value
    {
      alignment := [];
      ghost var whole := Assemble(GotohAligner(algorithm), a.arr, b.arr, equals, 0, 0, 0);
      BuildingStarts(GotohAligner(algorithm), a.arr, b.arr, equals);
      var k: nat, last1: nat, last2: nat := 0, 0, 0;
      while k < |equals|
        invariant a.index == last1 && b.index == last2
        invariant Building(GotohAligner(algorithm), a.arr, b.arr, equals, k, last1, last2, alignment, whole)
        decreases |equals| - k
      {
        var round, k', next1, next2 := Advance(a, b, equals, k, last1, last2, whole);
        if round.Fail? {
          return Err(round.error);
        }
        k, last1, last2 := k', next1, next2;
      }
      BuildingEnds(GotohAligner(algorithm), a.arr, b.arr, equals, k, last1, last2, alignment, whole);
      var tail := AlignTails(a, b, last1, last2);
      alignment := alignment + tail;
      r := Ok(alignment);
    }

    /** `run(ArrayList, ArrayList)`: wraps both lists in fresh iterators. */
    method RunList(a: seq<T>, b: seq<T>) returns (r: Result<seq<AlignmentElement>>)
      modifies this, algorithm
      ensures r == Assemble(GotohAligner(algorithm), a, b, Matches(Marked(Hashes(a, hasher)), Marked(Hashes(b, hasher))), 0, 0, 0)
    {
      var ia := new ResettableArrayListIterator(a);
      var ib := new ResettableArrayListIterator(b);
      r := Run(ia, ib);
    }

    /** AlignmentAlgorithm's `run(Array, Array)`, inherited: the arrays' elements in order. */
    method RunArray(a: array<T>, b: array<T>) returns (r: Result<seq<AlignmentElement>>)
      modifies this, algorithm
      ensures r == Assemble(GotohAligner(algorithm), a[..], b[..], Matches(Marked(Hashes(a[..], hasher)), Marked(Hashes(b[..], hasher))), 0, 0, 0)
    {
      r := RunList(a[..], b[..]);
    }
  }
}
