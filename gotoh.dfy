/** Gotoh.kt: global alignment with affine gap costs over three score matrices, followed by a
    traceback that turns the matrices into a sequence of alignment elements.

    The recurrences are stated once, as the functions `Cell` and `Collect`; the class `Gotoh` fills
    its matrices with the source's loops and is proved to compute exactly those functions. Scores
    are exact reals: Double.NEGATIVE_INFINITY is the constructor `NegInf`. */
module Gotoh {
  import opened Errors
  import opened Alignment
  import opened Iterators
  import Doubles

  datatype Score = NegInf | Fin(v: real)

  /** `s + x` in IEEE arithmetic, where negative infinity absorbs every finite summand. */
  function Add(s: Score, x: real): Score
  {
    match s
    case NegInf => NegInf
    case Fin(v) => Fin(v + x)
  }

  predicate AtMost(s: Score, t: Score)
  {
    s.NegInf? || (t.Fin? && s.v <= t.v)
  }

  /** `maxOf(s, t)`. */
  function Max(s: Score, t: Score): Score
  {
    if AtMost(s, t) then t else s
  }

  /** `maxOf(s, t, u)`. */
  function Max3(s: Score, t: Score, u: Score): Score
  {
    Max(s, Max(t, u))
  }

  /** The inputs of one alignment: the two sequences, the distance metric and the two penalties
      (a gap's first element scores `open`, each further element `ext`). */
  datatype Problem<!T> = Problem(a: seq<T>, b: seq<T>, metric: (T, T) -> real, open: real, ext: real)

  /** `similarityM[i][j]`: one minus the distance of a[i] and b[j]; the matrix has one row and one
      column more than there are pairs, and those stay 0.0. */
  function Sim<T>(p: Problem<T>, i: nat, j: nat): real
  {
    if i < |p.a| && j < |p.b| then 1.0 - p.metric(p.a[i], p.b[j]) else 0.0
  }

  /** The score of a leading gap of `len` elements, as `initialize` writes it into the first column
      and the first row: `open` for the first element and `ext` for each further one. */
  function LeadingGap(open: real, ext: real, len: nat): real
  {
    open + (len - 1) as real * ext
  }

  /** A leading gap one element longer scores `ext` more, so the first column and the first row obey
      the gap-extension recurrence of the interior. */
  lemma LeadingGapExtends(open: real, ext: real, len: nat)
    requires len >= 2
    ensures LeadingGap(open, ext, len) == LeadingGap(open, ext, len - 1) + ext
  {
    var k := (len - 2) as real;
    assert (len - 1) as real == k + 1.0;
    assert (k + 1.0) * ext == k * ext + ext;
  }

  /** The three matrices at one cell. */
  datatype Cells = Cells(score: Score, gapA: Score, gapB: Score)

  /** The cell (i, j) of the score, gapA and gapB matrices that `initialize` and `execute` compute. */
  function Cell<T>(p: Problem<T>, i: nat, j: nat): Cells
    decreases i + j
  {
    if i == 0 && j == 0 then
      Cells(Fin(0.0), Fin(0.0), Fin(0.0))
    else if j == 0 then
      Cells(NegInf, Fin(LeadingGap(p.open, p.ext, i)), NegInf)
    else if i == 0 then
      Cells(NegInf, NegInf, Fin(LeadingGap(p.open, p.ext, j)))
    else
      var up := Cell(p, i - 1, j);
      var left := Cell(p, i, j - 1);
      var diag := Cell(p, i - 1, j - 1);
      var s := Sim(p, i - 1, j - 1);
      Cells(Max3(Add(diag.score, s), Add(diag.gapA, s), Add(diag.gapB, s)),
            Max3(Add(up.score, p.open), Add(up.gapA, p.ext), Add(up.gapB, p.ext)),
            Max3(Add(left.score, p.open), Add(left.gapA, p.ext), Add(left.gapB, p.ext)))
  }

  /** The origin the traceback starts from: the matrix holding the best final score, preferring
      score, then gapA. */
  function StartOrigin<T>(p: Problem<T>): AlignmentElement
  {
    var c := Cell(p, |p.a|, |p.b|);
    var finalScore := Max3(c.score, c.gapA, c.gapB);
    if finalScore == c.score then Match else if finalScore == c.gapA then Deletion else Insertion
  }

  /** The origin of the cell (i-1, j-1) that a MATCH at (i, j) came from. */
  function NextAfterMatch<T>(p: Problem<T>, i: nat, j: nat): AlignmentElement
    requires i >= 1 && j >= 1
  {
    var c := Cell(p, i, j);
    var diag := Cell(p, i - 1, j - 1);
    var s := Sim(p, i - 1, j - 1);
    if c.score == Add(diag.score, s) then Match
    else if c.score == Add(diag.gapA, s) then Deletion
    else Insertion
  }

  /** The origin of the cell (i-1, j) that a DELETION at (i, j) came from. */
  function NextAfterDeletion<T>(p: Problem<T>, i: nat, j: nat): AlignmentElement
    requires i >= 1
  {
    var c := Cell(p, i, j);
    var up := Cell(p, i - 1, j);
    if c.gapA == Add(up.gapA, p.ext) then Deletion
    else if c.gapA == Add(up.gapB, p.ext) then Insertion
    else Match
  }

  /** The origin of the cell (i, j-1) that an INSERTION at (i, j) came from. */
  function NextAfterInsertion<T>(p: Problem<T>, i: nat, j: nat): AlignmentElement
    requires j >= 1
  {
    var c := Cell(p, i, j);
    var left := Cell(p, i, j - 1);
    if c.gapB == Add(left.gapA, p.ext) then Deletion
    else if c.gapB == Add(left.gapB, p.ext) then Insertion
    else Match
  }

  /** The traceback's choice of the next origin, at every position where the source makes one. */
  function NextOrigin<T>(p: Problem<T>, i: nat, j: nat, origin: AlignmentElement): AlignmentElement
  {
    match origin
    case Match => if i >= 1 && j >= 1 then NextAfterMatch(p, i, j) else origin
    case Deletion => if i >= 1 then NextAfterDeletion(p, i, j) else origin
    case Insertion => if j >= 1 then NextAfterInsertion(p, i, j) else origin
    case Perfect => origin
  }

  /** The traceback loop for any choice rule `next` and any test `perfect` of the similarity entry
      at (i, j): the elements it appends, in the order it appends them; Err where the loop would index
      outside the matrices or meets an origin it has no rule for. */
  function Trace(next: (nat, nat, AlignmentElement) -> AlignmentElement, perfect: (nat, nat) -> bool,
                 i: nat, j: nat, origin: AlignmentElement): Result<seq<AlignmentElement>>
    decreases i + j
  {
    if i == 0 && j == 0 then Ok([])
    else
      var e := if origin == Match && perfect(i, j) then Perfect else origin;
      match origin
      case Match =>
        if i == 0 || j == 0 then Err(IndexOutOfBounds)
        else Prepend(e, Trace(next, perfect, i - 1, j - 1, next(i, j, origin)))
      case Deletion =>
        if i == 0 then Err(IndexOutOfBounds)
        else Prepend(e, Trace(next, perfect, i - 1, j, next(i, j, origin)))
      case Insertion =>
        if j == 0 then Err(IndexOutOfBounds)
        else Prepend(e, Trace(next, perfect, i, j - 1, next(i, j, origin)))
      case Perfect => Err(InvalidAlignmentElement)
  }

  /** One step of `Trace` from a position other than (0, 0) where it succeeds: the element the
      loop appends there, followed by the rest of the walk from the position it moves to and the
      origin `after` that the rule `next` chooses. */
  lemma TraceAdvance(next: (nat, nat, AlignmentElement) -> AlignmentElement, perfect: (nat, nat) -> bool,
                     i: nat, j: nat, origin: AlignmentElement, e: AlignmentElement, i': nat, j': nat,
                     after: AlignmentElement)
    requires (i > 0 || j > 0) && Trace(next, perfect, i, j, origin).Ok?
    requires after == next(i, j, origin)
    requires e == if origin == Match && perfect(i, j) then Perfect else origin
    requires origin == Match ==> i' == i - 1 && j' == j - 1
    requires origin == Deletion ==> i' == i - 1 && j' == j
    requires origin == Insertion ==> i' == i && j' == j - 1
    ensures Trace(next, perfect, i, j, origin) == Prepend(e, Trace(next, perfect, i', j', after))
  {
  }

  function Prepend(e: AlignmentElement, r: Result<seq<AlignmentElement>>): Result<seq<AlignmentElement>>
  {
    if r.Ok? then Ok([e] + r.value) else r
  }

  function NextOf<T>(p: Problem<T>): (nat, nat, AlignmentElement) -> AlignmentElement
  {
    (i: nat, j: nat, o: AlignmentElement) => NextOrigin(p, i, j, o)
  }

  /** A MATCH at (i, j) is reported as PERFECT when the similarity entry at (i, j) is exactly 1.0. */
  function PerfectOf<T>(p: Problem<T>): (nat, nat) -> bool
  {
    (i: nat, j: nat) => Sim(p, i, j) == 1.0
  }

  /** The Gotoh traceback from (i, j) coming from `origin`. */
  function Collect<T>(p: Problem<T>, i: nat, j: nat, origin: AlignmentElement): Result<seq<AlignmentElement>>
  {
    Trace(NextOf(p), PerfectOf(p), i, j, origin)
  }

  /** `run(a, b)`: the traceback's list, reversed into alignment order. */
  function GotohAlignment<T>(p: Problem<T>): Result<seq<AlignmentElement>>
  {
    var t := Collect(p, |p.a|, |p.b|, StartOrigin(p));
    if t.Ok? then Ok(Reverse(t.value)) else t
  }

  /** The positions from which the traceback can go on: inside the matrices any origin, on the top
      row only INSERTION, in the left column only DELETION. */
  predicate Consistent(i: nat, j: nat, origin: AlignmentElement)
  {
    origin != Perfect &&
    ((i == 0 && j == 0) || (i >= 1 && j >= 1) ||
     (i >= 1 && j == 0 && origin == Deletion) || (i == 0 && j >= 1 && origin == Insertion))
  }

  /** A choice rule that never picks PERFECT and keeps the traceback on the top row and the left
      column the way the boundary cells dictate. */
  ghost predicate Steers(next: (nat, nat, AlignmentElement) -> AlignmentElement)
  {
    (forall i: nat, j: nat, o: AlignmentElement :: o != Perfect ==> next(i, j, o) != Perfect) &&
    (forall j: nat :: j >= 2 ==> next(1, j, Match) == Insertion) &&
    (forall i: nat :: i >= 2 ==> next(i, 1, Match) == Deletion) &&
    (forall j: nat :: j >= 1 ==> next(1, j, Deletion) == Insertion) &&
    (forall i: nat :: i >= 2 ==> next(i, 0, Deletion) == Deletion) &&
    (forall i: nat :: i >= 1 ==> next(i, 1, Insertion) == Deletion) &&
    (forall j: nat :: j >= 2 ==> next(0, j, Insertion) == Insertion)
  }

  /** With a steering rule the traceback never leaves the matrices from a consistent position. */
  lemma {:induction false} TraceSucceeds(next: (nat, nat, AlignmentElement) -> AlignmentElement,
                                         perfect: (nat, nat) -> bool, i: nat, j: nat, origin: AlignmentElement)
    requires Steers(next) && Consistent(i, j, origin)
    ensures Trace(next, perfect, i, j, origin).Ok?
    decreases i + j
  {
    if i == 0 && j == 0 {
    } else {
      match origin
      case Match =>
        TraceSucceeds(next, perfect, i - 1, j - 1, next(i, j, origin));
      case Deletion =>
        TraceSucceeds(next, perfect, i - 1, j, next(i, j, origin));
      case Insertion =>
        TraceSucceeds(next, perfect, i, j - 1, next(i, j, origin));
    }
  }

  /** A traceback that ends normally at (0, 0) has consumed exactly i elements of `a` and j of `b`. */
  lemma {:induction false} TraceConsumes(next: (nat, nat, AlignmentElement) -> AlignmentElement,
                                         perfect: (nat, nat) -> bool, i: nat, j: nat, origin: AlignmentElement)
    requires Trace(next, perfect, i, j, origin).Ok?
    ensures ConsumedFirst(Trace(next, perfect, i, j, origin).value) == i
    ensures ConsumedSecond(Trace(next, perfect, i, j, origin).value) == j
    decreases i + j
  {
    if i == 0 && j == 0 {
    } else {
      var t := Trace(next, perfect, i, j, origin).value;
      match origin
      case Match =>
        TraceConsumes(next, perfect, i - 1, j - 1, next(i, j, origin));
        assert t[1..] == Trace(next, perfect, i - 1, j - 1, next(i, j, origin)).value;
      case Deletion =>
        TraceConsumes(next, perfect, i - 1, j, next(i, j, origin));
        assert t[1..] == Trace(next, perfect, i - 1, j, next(i, j, origin)).value;
      case Insertion =>
        TraceConsumes(next, perfect, i, j - 1, next(i, j, origin));
        assert t[1..] == Trace(next, perfect, i, j - 1, next(i, j, origin)).value;
    }
  }

  /** A MATCH reaching the top row came from gapB there: the traceback continues with INSERTION. */
  lemma MatchIntoTopRow<T>(p: Problem<T>, j: nat)
    requires j >= 2
    ensures NextAfterMatch(p, 1, j) == Insertion
  {
    var diag := Cell(p, 0, j - 1);
    assert diag.score == NegInf && diag.gapA == NegInf && diag.gapB.Fin?;
    assert Cell(p, 1, j).score.Fin?;
  }

  /** A MATCH reaching the left column came from gapA there: the traceback continues with DELETION. */
  lemma MatchIntoLeftColumn<T>(p: Problem<T>, i: nat)
    requires i >= 2
    ensures NextAfterMatch(p, i, 1) == Deletion
  {
    var diag := Cell(p, i - 1, 0);
    assert diag.score == NegInf && diag.gapA.Fin? && diag.gapB == NegInf;
    assert Cell(p, i, 1).score == Add(diag.gapA, Sim(p, i - 1, 0));
  }

  /** A DELETION reaching the top row came from gapB there. */
  lemma DeletionIntoTopRow<T>(p: Problem<T>, j: nat)
    requires j >= 1
    ensures NextAfterDeletion(p, 1, j) == Insertion
  {
    var up := Cell(p, 0, j);
    assert up.score == NegInf && up.gapA == NegInf && up.gapB.Fin?;
    assert Cell(p, 1, j).gapA == Add(up.gapB, p.ext);
  }

  /** Along the left column gapA grows by one extension per row, so a DELETION stays a DELETION. */
  lemma DeletionAlongLeftColumn<T>(p: Problem<T>, i: nat)
    requires i >= 2
    ensures NextAfterDeletion(p, i, 0) == Deletion
  {
  }

  /** An INSERTION reaching the left column came from gapA there. */
  lemma InsertionIntoLeftColumn<T>(p: Problem<T>, i: nat)
    requires i >= 1
    ensures NextAfterInsertion(p, i, 1) == Deletion
  {
    var left := Cell(p, i, 0);
    assert left.score == NegInf && left.gapA.Fin? && left.gapB == NegInf;
    assert Cell(p, i, 1).gapB == Add(left.gapA, p.ext);
  }

  /** Along the top row gapB grows by one extension per column, so an INSERTION stays an INSERTION. */
  lemma InsertionAlongTopRow<T>(p: Problem<T>, j: nat)
    requires j >= 2
    ensures NextAfterInsertion(p, 0, j) == Insertion
  {
  }

  /** Gotoh's boundary cells make its choice rule a steering one. */
  lemma GotohSteers<T>(p: Problem<T>)
    ensures Steers(NextOf(p))
  {
    var next := NextOf(p);
    forall j: nat | j >= 2 ensures next(1, j, Match) == Insertion {
      MatchIntoTopRow(p, j);
    }
    forall i: nat | i >= 2 ensures next(i, 1, Match) == Deletion {
      MatchIntoLeftColumn(p, i);
    }
    forall j: nat | j >= 1 ensures next(1, j, Deletion) == Insertion {
      DeletionIntoTopRow(p, j);
    }
    forall i: nat | i >= 2 ensures next(i, 0, Deletion) == Deletion {
      DeletionAlongLeftColumn(p, i);
    }
    forall i: nat | i >= 1 ensures next(i, 1, Insertion) == Deletion {
      InsertionIntoLeftColumn(p, i);
    }
    forall j: nat | j >= 2 ensures next(0, j, Insertion) == Insertion {
      InsertionAlongTopRow(p, j);
    }
  }

  /** The start origin is consistent with the bottom-right corner. */
  lemma StartConsistent<T>(p: Problem<T>)
    ensures Consistent(|p.a|, |p.b|, StartOrigin(p))
  {
    var m, n := |p.a|, |p.b|;
    var c := Cell(p, m, n);
    if m == 0 && n >= 1 {
      assert c.score == NegInf && c.gapA == NegInf;
    } else if m >= 1 && n == 0 {
      assert c.score == NegInf && c.gapA.Fin?;
    }
  }

  /** Gotoh's traceback never leaves its matrices, so `run` never throws. */
  lemma GotohAlignmentSucceeds<T>(p: Problem<T>)
    ensures GotohAlignment(p).Ok?
  {
    StartConsistent(p);
    GotohSteers(p);
    TraceSucceeds(NextOf(p), PerfectOf(p), |p.a|, |p.b|, StartOrigin(p));
  }

  /** The alignment `run(a, b)` returns: it always exists and pairs up or skips every element of both. */
  function Align<T>(p: Problem<T>): (r: seq<AlignmentElement>)
    ensures GotohAlignment(p) == Ok(r)
    ensures ConsumedFirst(r) == |p.a| && ConsumedSecond(r) == |p.b|
  {
    GotohAlignmentSucceeds(p);
    var t := Collect(p, |p.a|, |p.b|, StartOrigin(p)).value;
    TraceConsumes(NextOf(p), PerfectOf(p), |p.a|, |p.b|, StartOrigin(p));
    ConsumedReverse(t);
    Reverse(t)
  }

  /** The alignment's last element is never PERFECT: the traceback's first step reads the similarity
      entry one past the last pair, which is 0.0. */
  lemma LastNeverPerfect<T>(p: Problem<T>)
    requires |p.a| + |p.b| > 0
    ensures |Align(p)| > 0 && Align(p)[|Align(p)| - 1] != Perfect
  {
    GotohAlignmentSucceeds(p);
    var t := Collect(p, |p.a|, |p.b|, StartOrigin(p)).value;
    assert Sim(p, |p.a|, |p.b|) == 0.0;
    assert t[0] != Perfect;
  }

  /** With the default penalties, two identical one-element inputs align as one MATCH (not PERFECT:
      see LastNeverPerfect). */
  lemma SingletonIsMatch(x: int, metric: (int, int) -> real)
    requires metric(x, x) == 0.0
    ensures Align(Problem([x], [x], metric, 0.2, -0.8)) == [Match]
  {
    var p := Problem([x], [x], metric, 0.2, -0.8);
    var c := Cell(p, 1, 1);
    assert Cell(p, 0, 0) == Cells(Fin(0.0), Fin(0.0), Fin(0.0));
    assert c.score == Fin(1.0);
    assert StartOrigin(p) == Match;
    assert NextOf(p)(1, 1, Match) == Match;
    assert !PerfectOf(p)(1, 1);
    var next, perfect := NextOf(p), PerfectOf(p);
    assert Trace(next, perfect, 0, 0, Match) == Ok([]);
    assert Trace(next, perfect, 1, 1, Match) == Prepend(Match, Trace(next, perfect, 0, 0, Match));
    assert [Match] + [] == [Match];
    assert Collect(p, 1, 1, Match) == Ok([Match]);
  }

  /** The k-th element the traceback appends is PERFECT only if `perfect` holds at the cell where it
      was appended, which is (i, j) less what the elements before it consumed. */
  lemma {:induction false} TracePerfect(next: (nat, nat, AlignmentElement) -> AlignmentElement,
                                        perfect: (nat, nat) -> bool, i: nat, j: nat, origin: AlignmentElement, k: nat)
    requires Trace(next, perfect, i, j, origin).Ok?
    requires k < |Trace(next, perfect, i, j, origin).value|
    requires Trace(next, perfect, i, j, origin).value[k] == Perfect
    ensures var t := Trace(next, perfect, i, j, origin).value;
            ConsumedFirst(t[..k]) <= i && ConsumedSecond(t[..k]) <= j &&
            perfect(i - ConsumedFirst(t[..k]), j - ConsumedSecond(t[..k]))
    decreases i + j
  {
    var t := Trace(next, perfect, i, j, origin).value;
    if k == 0 {
      assert t[..0] == [];
    } else {
      var i', j' := if origin == Insertion then i else i - 1, if origin == Deletion then j else j - 1;
      var e := if origin == Match && perfect(i, j) then Perfect else origin;
      var after := next(i, j, origin);
      TraceAdvance(next, perfect, i, j, origin, e, i', j', after);
      var rest := Trace(next, perfect, i', j', after).value;
      assert t == [e] + rest;
      TracePerfect(next, perfect, i', j', after, k - 1);
      PerfectAfterHead(t, e, rest, k, i, j, i', j', perfect);
    }
  }

  /** TracePerfect's step: a PERFECT found `k - 1` elements into `rest` from position (`i'`, `j'`) is
      found `k` elements into `[e] + rest` from the position before `e`. */
  lemma PerfectAfterHead(t: seq<AlignmentElement>, e: AlignmentElement, rest: seq<AlignmentElement>, k: nat,
                         i: nat, j: nat, i': nat, j': nat, perfect: (nat, nat) -> bool)
    requires t == [e] + rest && 1 <= k <= |rest|
    requires i' + (if e != Insertion then 1 else 0) == i && j' + (if e != Deletion then 1 else 0) == j
    requires ConsumedFirst(rest[..k - 1]) <= i' && ConsumedSecond(rest[..k - 1]) <= j'
    requires perfect(i' - ConsumedFirst(rest[..k - 1]), j' - ConsumedSecond(rest[..k - 1]))
    ensures ConsumedFirst(t[..k]) <= i && ConsumedSecond(t[..k]) <= j
    ensures perfect(i - ConsumedFirst(t[..k]), j - ConsumedSecond(t[..k]))
  {
    ConsumedCons(e, rest, k);
  }

  /** What a prefix of `[e] + rest` consumes: what `e` consumes plus what the shorter prefix of
      `rest` consumes. */
  lemma ConsumedCons(e: AlignmentElement, rest: seq<AlignmentElement>, k: nat)
    requires 1 <= k <= |rest| + 1
    ensures ConsumedFirst(([e] + rest)[..k]) == (if e != Insertion then 1 else 0) + ConsumedFirst(rest[..k - 1])
    ensures ConsumedSecond(([e] + rest)[..k]) == (if e != Deletion then 1 else 0) + ConsumedSecond(rest[..k - 1])
    ensures k <= |rest| ==> ([e] + rest)[k] == rest[k - 1]
  {
    assert ([e] + rest)[..k][1..] == rest[..k - 1];
  }

  /** The same, counted on the reversed walk: the q-th element of the reversed traceback is PERFECT
      only if `perfect` holds where the first q+1 elements of the reversed walk have taken it. */
  lemma PerfectInReversedTrace(next: (nat, nat, AlignmentElement) -> AlignmentElement,
                               perfect: (nat, nat) -> bool, i: nat, j: nat, origin: AlignmentElement, q: nat)
    requires Trace(next, perfect, i, j, origin).Ok?
    requires q < |Trace(next, perfect, i, j, origin).value|
    requires Reverse(Trace(next, perfect, i, j, origin).value)[q] == Perfect
    ensures var r := Reverse(Trace(next, perfect, i, j, origin).value);
            perfect(ConsumedFirst(r[..q + 1]), ConsumedSecond(r[..q + 1]))
  {
    var t := Trace(next, perfect, i, j, origin).value;
    var k := |t| - 1 - q;
    assert t[k] == Perfect;
    TracePerfect(next, perfect, i, j, origin, k);
    TraceConsumes(next, perfect, i, j, origin);
    ReversedPerfect(t, q, i, j, perfect);
  }

  /** PerfectInReversedTrace on the trace `t` itself: the pair a PERFECT at position `|t| - 1 - q` of
      `t` marks is the pair at the prefix of the reversed trace that ends at position `q`. */
  lemma ReversedPerfect(t: seq<AlignmentElement>, q: nat, i: nat, j: nat, perfect: (nat, nat) -> bool)
    requires q < |t| && ConsumedFirst(t) == i && ConsumedSecond(t) == j
    requires ConsumedFirst(t[..|t| - 1 - q]) <= i && ConsumedSecond(t[..|t| - 1 - q]) <= j
    requires perfect(i - ConsumedFirst(t[..|t| - 1 - q]), j - ConsumedSecond(t[..|t| - 1 - q]))
    ensures perfect(ConsumedFirst(Reverse(t)[..q + 1]), ConsumedSecond(Reverse(t)[..q + 1]))
  {
    ReversedPrefixConsumed(t, q);
  }

  /** A PERFECT element says nothing about its own pair: it marks that the pair aligned right after
      it, at the positions its prefix has consumed, is at distance 0. */
  lemma PerfectMarksIdenticalSuccessor<T>(p: Problem<T>, q: nat)
    requires q < |Align(p)| && Align(p)[q] == Perfect
    ensures var x, y := ConsumedFirst(Align(p)[..q + 1]), ConsumedSecond(Align(p)[..q + 1]);
            x < |p.a| && y < |p.b| && p.metric(p.a[x], p.b[y]) == 0.0
  {
    var r := Align(p);
    var next, perfect := NextOf(p), PerfectOf(p);
    assert r == Reverse(Trace(next, perfect, |p.a|, |p.b|, StartOrigin(p)).value);
    PerfectInReversedTrace(next, perfect, |p.a|, |p.b|, StartOrigin(p), q);
    var x, y := ConsumedFirst(r[..q + 1]), ConsumedSecond(r[..q + 1]);
    assert perfect(x, y);
    assert Sim(p, x, y) == 1.0;
  }

  /** What the first q+1 elements of a reversed sequence consume is what the sequence consumes
      less its first |t| - 1 - q elements. */
  lemma ReversedPrefixConsumed(t: seq<AlignmentElement>, q: nat)
    requires q < |t|
    ensures ConsumedFirst(Reverse(t)[..q + 1]) == ConsumedFirst(t) - ConsumedFirst(t[..|t| - 1 - q])
    ensures ConsumedSecond(Reverse(t)[..q + 1]) == ConsumedSecond(t) - ConsumedSecond(t[..|t| - 1 - q])
  {
    var k := |t| - 1 - q;
    ReversePrefix(t, q);
    ConsumedReverse(t[k..]);
    SplitConsumed(t, k);
  }

  lemma SplitConsumed(t: seq<AlignmentElement>, k: nat)
    requires k <= |t|
    ensures ConsumedFirst(t) == ConsumedFirst(t[..k]) + ConsumedFirst(t[k..])
    ensures ConsumedSecond(t) == ConsumedSecond(t[..k]) + ConsumedSecond(t[k..])
  {
    assert t == t[..k] + t[k..];
    ConsumedAppend(t[..k], t[k..]);
  }

  lemma ReversePrefix<X>(t: seq<X>, q: nat)
    requires q < |t|
    ensures Reverse(t)[..q + 1] == Reverse(t[|t| - 1 - q..])
  {
    var u := t[|t| - 1 - q..];
    assert |Reverse(t)[..q + 1]| == |Reverse(u)|;
    forall k | 0 <= k < q + 1
      ensures Reverse(t)[..q + 1][k] == Reverse(u)[k]
    {
      assert Reverse(u)[k] == u[q - k] == t[|t| - 1 - k];
    }
  }

  /** Gotoh.kt's class: the metric and the penalties are fixed at construction; every run sizes the
      matrices to its inputs, fills them, and reads the alignment back from them. */
  class Gotoh<T> {
    const metric: (T, T) -> real
    const gapOpenPenalty: real
    const gapExtensionPenalty: real
    var m: int
    var n: int
    var score: array2<Score>
    var gapA: array2<Score>
    var gapB: array2<Score>
    var similarityM: array2<real>

    constructor (metric: (T, T) -> real, gapOpenPenalty: real := 0.2, gapExtensionPenalty: real := -0.8)
      ensures this.metric == metric && this.gapOpenPenalty == gapOpenPenalty
      ensures this.gapExtensionPenalty == gapExtensionPenalty
      ensures m == -1 && n == -1
    {
      this.metric := metric;
      this.gapOpenPenalty := gapOpenPenalty;
      this.gapExtensionPenalty := gapExtensionPenalty;
      m, n := -1, -1;
      score := new Score[0, 0];
      gapA := new Score[0, 0];
      gapB := new Score[0, 0];
      similarityM := new real[0, 0];
    }

    /** The alignment problem this object solves for `a` and `b`. */
    function ProblemFor(a: seq<T>, b: seq<T>): Problem<T>
    {
      Problem(a, b, metric, gapOpenPenalty, gapExtensionPenalty)
    }

    /** The four matrices exist, are distinct and have m+1 rows and n+1 columns. */
    ghost predicate Shaped()
      reads this
    {
      m >= 0 && n >= 0 &&
      score.Length0 == m + 1 && score.Length1 == n + 1 &&
      gapA.Length0 == m + 1 && gapA.Length1 == n + 1 &&
      gapB.Length0 == m + 1 && gapB.Length1 == n + 1 &&
      similarityM.Length0 == m + 1 && similarityM.Length1 == n + 1 &&
      score != gapA && score != gapB && gapA != gapB
    }

    /** Cell (x, y) of the three matrices holds the recurrences' value for `p`. */
    ghost predicate CellDone(p: Problem<T>, x: nat, y: nat)
      requires Shaped() && x <= m && y <= n
      reads this, score, gapA, gapB
    {
      Cells(score[x, y], gapA[x, y], gapB[x, y]) == Cell(p, x, y)
    }

    /** The matrices hold the recurrences' values for `a` and `b`. */
    ghost predicate Filled(a: seq<T>, b: seq<T>)
      reads this, score, gapA, gapB, similarityM
    {
      Shaped() && m == |a| && n == |b| &&
      (forall x, y :: 0 <= x <= m && 0 <= y <= n ==> CellDone(ProblemFor(a, b), x, y)) &&
      (forall x, y :: 0 <= x <= m && 0 <= y <= n ==> similarityM[x, y] == Sim(ProblemFor(a, b), x, y))
    }

    /** `initialize`: fresh zero matrices whose first column and first row hold the gap costs. */
    method Initialize()
      requires m >= 0 && n >= 0
      modifies this
      ensures m == old(m) && n == old(n)
      ensures Shaped() && fresh(score) && fresh(gapA) && fresh(gapB) && fresh(similarityM)
      ensures score[0, 0] == Fin(0.0) && gapA[0, 0] == Fin(0.0) && gapB[0, 0] == Fin(0.0)
      ensures forall x :: 1 <= x <= m ==>
                score[x, 0] == NegInf && gapA[x, 0] == Fin(LeadingGap(gapOpenPenalty, gapExtensionPenalty, x)) &&
                gapB[x, 0] == NegInf
      ensures forall y :: 1 <= y <= n ==>
                score[0, y] == NegInf && gapA[0, y] == NegInf &&
                gapB[0, y] == Fin(LeadingGap(gapOpenPenalty, gapExtensionPenalty, y))
      ensures forall x, y :: 0 <= x <= m && 0 <= y <= n ==> similarityM[x, y] == 0.0
    {
      var sc := new Score[m + 1, n + 1]((_, _) => Fin(0.0));
      var ga := new Score[m + 1, n + 1]((_, _) => Fin(0.0));
      var gb := new Score[m + 1, n + 1]((_, _) => Fin(0.0));
      similarityM := new real[m + 1, n + 1]((_, _) => 0.0);
      sc[0, 0] := Fin(0.0);
      ga[0, 0] := Fin(0.0);
      gb[0, 0] := Fin(0.0);
      FirstColumn(sc, ga, gb, gapOpenPenalty, gapExtensionPenalty);
      FirstRow(sc, ga, gb, gapOpenPenalty, gapExtensionPenalty);
      score, gapA, gapB := sc, ga, gb;
    }

    /** The first loop of `initialize`: the first column below the corner. */
    static method FirstColumn(sc: array2<Score>, ga: array2<Score>, gb: array2<Score>, open: real, ext: real)
      requires sc != ga && sc != gb && ga != gb
      requires ga.Length0 == sc.Length0 && gb.Length0 == sc.Length0
      requires sc.Length0 >= 1 && sc.Length1 >= 1 && ga.Length1 >= 1 && gb.Length1 >= 1
      modifies sc, ga, gb
      ensures forall x :: 1 <= x < sc.Length0 ==>
                sc[x, 0] == NegInf && ga[x, 0] == Fin(LeadingGap(open, ext, x)) && gb[x, 0] == NegInf
      ensures sc[0, 0] == old(sc[0, 0]) && ga[0, 0] == old(ga[0, 0]) && gb[0, 0] == old(gb[0, 0])
    {
      for i := 1 to sc.Length0
        invariant sc[0, 0] == old(sc[0, 0]) && ga[0, 0] == old(ga[0, 0]) && gb[0, 0] == old(gb[0, 0])
        invariant forall x :: 1 <= x < i ==>
                    sc[x, 0] == NegInf && ga[x, 0] == Fin(LeadingGap(open, ext, x)) && gb[x, 0] == NegInf
      {
        sc[i, 0] := NegInf;
        ga[i, 0] := Fin(LeadingGap(open, ext, i));
        gb[i, 0] := NegInf;
      }
    }

    /** The second loop of `initialize`: the first row right of the corner; the first column stays. */
    static method FirstRow(sc: array2<Score>, ga: array2<Score>, gb: array2<Score>, open: real, ext: real)
      requires sc != ga && sc != gb && ga != gb
      requires ga.Length1 == sc.Length1 && gb.Length1 == sc.Length1
      requires sc.Length1 >= 1 && sc.Length0 >= 1 && ga.Length0 >= 1 && gb.Length0 >= 1
      modifies sc, ga, gb
      ensures forall y :: 1 <= y < sc.Length1 ==>
                sc[0, y] == NegInf && ga[0, y] == NegInf && gb[0, y] == Fin(LeadingGap(open, ext, y))
      ensures forall x :: 0 <= x < sc.Length0 ==> sc[x, 0] == old(sc[x, 0])
      ensures forall x :: 0 <= x < ga.Length0 ==> ga[x, 0] == old(ga[x, 0])
      ensures forall x :: 0 <= x < gb.Length0 ==> gb[x, 0] == old(gb[x, 0])
    {
      for j := 1 to sc.Length1
        invariant forall x :: 0 <= x < sc.Length0 ==> sc[x, 0] == old(sc[x, 0])
        invariant forall x :: 0 <= x < ga.Length0 ==> ga[x, 0] == old(ga[x, 0])
        invariant forall x :: 0 <= x < gb.Length0 ==> gb[x, 0] == old(gb[x, 0])
        invariant forall y :: 1 <= y < j ==>
                    sc[0, y] == NegInf && ga[0, y] == NegInf && gb[0, y] == Fin(LeadingGap(open, ext, y))
      {
        sc[0, j] := NegInf;
        ga[0, j] := NegInf;
        gb[0, j] := Fin(LeadingGap(open, ext, j));
      }
    }


    /** `execute`: fills the similarity matrix, then every inner cell from its three neighbours. */
    method Execute(a: seq<T>, b: seq<T>)
      requires Shaped() && m == |a| && n == |b|
      requires score[0, 0] == Fin(0.0) && gapA[0, 0] == Fin(0.0) && gapB[0, 0] == Fin(0.0)
      requires forall x :: 1 <= x <= m ==>
                 score[x, 0] == NegInf && gapA[x, 0] == Fin(LeadingGap(gapOpenPenalty, gapExtensionPenalty, x)) &&
                 gapB[x, 0] == NegInf
      requires forall y :: 1 <= y <= n ==>
                 score[0, y] == NegInf && gapA[0, y] == NegInf &&
                 gapB[0, y] == Fin(LeadingGap(gapOpenPenalty, gapExtensionPenalty, y))
      requires forall x, y :: 0 <= x <= m && 0 <= y <= n ==> similarityM[x, y] == 0.0
      modifies score, gapA, gapB, similarityM
      ensures Filled(a, b)
    {
      ghost var p := ProblemFor(a, b);
      FillSimilarity(a, b);
      BordersDone(p);
      FillCells(p);
    }

    /** What `initialize` leaves in the first row and the first column is the recurrences' value there. */
    lemma BordersDone(p: Problem<T>)
      requires Shaped() && m == |p.a| && n == |p.b|
      requires p.open == gapOpenPenalty && p.ext == gapExtensionPenalty
      requires score[0, 0] == Fin(0.0) && gapA[0, 0] == Fin(0.0) && gapB[0, 0] == Fin(0.0)
      requires forall x :: 1 <= x <= m ==>
                 score[x, 0] == NegInf && gapA[x, 0] == Fin(LeadingGap(gapOpenPenalty, gapExtensionPenalty, x)) &&
                 gapB[x, 0] == NegInf
      requires forall y :: 1 <= y <= n ==>
                 score[0, y] == NegInf && gapA[0, y] == NegInf &&
                 gapB[0, y] == Fin(LeadingGap(gapOpenPenalty, gapExtensionPenalty, y))
      ensures forall x, y :: 0 <= x <= m && 0 <= y <= n && (x == 0 || y == 0) ==> CellDone(p, x, y)
    {
    }

    /** The first loop of `execute`: `similarityM[i - 1][j - 1] = 1 - distance(a[i - 1], b[j - 1])`.
        The source runs the rows in parallel; each row writes its own cells, so the order is immaterial. */
    method FillSimilarity(a: seq<T>, b: seq<T>)
      requires Shaped() && m == |a| && n == |b|
      requires forall x, y :: 0 <= x <= m && 0 <= y <= n ==> similarityM[x, y] == 0.0
      modifies similarityM
      ensures forall x, y :: 0 <= x <= m && 0 <= y <= n ==> similarityM[x, y] == Sim(ProblemFor(a, b), x, y)
    {
      ghost var p := ProblemFor(a, b);
      for i := 1 to m + 1
        invariant forall x, y :: 0 <= x <= m && 0 <= y <= n ==>
                    similarityM[x, y] == if x < i - 1 then Sim(p, x, y) else 0.0
      {
        for j := 1 to n + 1
          invariant forall x, y :: 0 <= x <= m && 0 <= y <= n ==>
                      similarityM[x, y] == if x < i - 1 || (x == i - 1 && y < j - 1) then Sim(p, x, y) else 0.0
        {
          similarityM[i - 1, j - 1] := 1.0 - metric(a[i - 1], b[j - 1]);
        }
      }
    }

    /** The main loop of `execute`: row by row, every inner cell from the cells above, left and
        diagonally above-left of it. */
    method FillCells(ghost p: Problem<T>)
      requires Shaped() && m == |p.a| && n == |p.b|
      requires forall x, y :: 0 <= x <= m && 0 <= y <= n ==> similarityM[x, y] == Sim(p, x, y)
      requires p.open == gapOpenPenalty && p.ext == gapExtensionPenalty
      requires forall x, y :: 0 <= x <= m && 0 <= y <= n && (x == 0 || y == 0) ==> CellDone(p, x, y)
      modifies score, gapA, gapB
      ensures forall x, y :: 0 <= x <= m && 0 <= y <= n ==> CellDone(p, x, y)
    {
      for i := 1 to m + 1
        invariant forall x, y :: 0 <= x <= m && 0 <= y <= n && (x < i || y == 0) ==> CellDone(p, x, y)
      {
        for j := 1 to n + 1
          invariant forall x, y :: 0 <= x <= m && 0 <= y <= n && (x < i || y == 0 || (x == i && y < j)) ==>
                      CellDone(p, x, y)
        {
          label before:
          ComputeCell(p, i, j);
          forall x, y | 0 <= x <= m && 0 <= y <= n && (x < i || y == 0 || (x == i && y <= j))
            ensures CellDone(p, x, y)
          {
            if x != i || y != j {
              assert old@before(CellDone(p, x, y));
            }
          }
        }
      }
    }

    /** The body of the main loop of `execute` for the inner cell (i, j); no other cell changes. */
    method ComputeCell(ghost p: Problem<T>, i: nat, j: nat)
      requires Shaped() && 1 <= i <= m && 1 <= j <= n
      requires similarityM[i - 1, j - 1] == Sim(p, i - 1, j - 1)
      requires p.open == gapOpenPenalty && p.ext == gapExtensionPenalty
      requires CellDone(p, i - 1, j) && CellDone(p, i, j - 1) && CellDone(p, i - 1, j - 1)
      modifies score, gapA, gapB
      ensures CellDone(p, i, j)
      ensures forall x, y :: 0 <= x <= m && 0 <= y <= n && (x != i || y != j) ==>
                score[x, y] == old(score[x, y]) && gapA[x, y] == old(gapA[x, y]) && gapB[x, y] == old(gapB[x, y])
    {
      gapA[i, j] := Max3(Add(score[i - 1, j], gapOpenPenalty), Add(gapA[i - 1, j], gapExtensionPenalty),
                         Add(gapB[i - 1, j], gapExtensionPenalty));
      gapB[i, j] := Max3(Add(score[i, j - 1], gapOpenPenalty), Add(gapA[i, j - 1], gapExtensionPenalty),
                         Add(gapB[i, j - 1], gapExtensionPenalty));
      var similarity := similarityM[i - 1, j - 1];
      var matchScore := Add(score[i - 1, j - 1], similarity);
      var gapAScore := Add(gapA[i - 1, j - 1], similarity);
      var gapBScore := Add(gapB[i - 1, j - 1], similarity);
      score[i, j] := Max3(matchScore, gapAScore, gapBScore);
    }

    /** `traceback`: walks back from the bottom-right corner to (0, 0) and returns the elements it
        collected in reverse, i.e. in alignment order. */
    method Traceback(ghost a: seq<T>, ghost b: seq<T>) returns (r: seq<AlignmentElement>)
      requires Filled(a, b)
      ensures r == Align(ProblemFor(a, b))
    {
      ghost var p := ProblemFor(a, b);
      ghost var next, perfect := NextOf(p), PerfectOf(p);
      var origin := FinalOrigin(a, b);
      var traceback: seq<AlignmentElement> := [];
      var i, j := m, n;
      ghost var whole := Align(p);
      ghost var collected := Trace(next, perfect, m, n, origin).value;
      assert whole == Reverse(collected);
      while i > 0 || j > 0
        invariant 0 <= i <= m && 0 <= j <= n
        invariant Trace(next, perfect, i, j, origin).Ok?
        invariant collected == traceback + Trace(next, perfect, i, j, origin).value
        decreases i + j
      {
        ghost var rest := Trace(next, perfect, i, j, origin).value;
        var e;
        e, i, j, origin := TraceStep(a, b, i, j, origin);
        ghost var rest' := Trace(next, perfect, i, j, origin).value;
        assert rest == [e] + rest';
        assert traceback + rest == (traceback + [e]) + rest';
        traceback := traceback + [e];
      }
      assert Trace(next, perfect, i, j, origin) == Ok([]);
      assert traceback == collected;
      r := Reverse(traceback);
    }

    /** The start of `traceback`: the matrix holding the final score, preferring score, then gapA. */
    method FinalOrigin(ghost a: seq<T>, ghost b: seq<T>) returns (origin: AlignmentElement)
      requires Filled(a, b)
      ensures origin == StartOrigin(ProblemFor(a, b))
    {
      assert CellDone(ProblemFor(a, b), m, n);
      var finalScore := Max3(score[m, n], gapA[m, n], gapB[m, n]);
      origin := if finalScore == score[m, n] then Match
                else if finalScore == gapA[m, n] then Deletion
                else Insertion;
    }

    /** One iteration of the traceback loop at (i, j) coming from `origin`: the element it appends
        (PERFECT for a MATCH whose similarity entry is 1.0), and the position and origin it moves to. */
    method TraceStep(ghost a: seq<T>, ghost b: seq<T>, i: nat, j: nat, origin: AlignmentElement)
      returns (e: AlignmentElement, i': nat, j': nat, origin': AlignmentElement)
      requires Filled(a, b) && i <= m && j <= n && (i > 0 || j > 0)
      requires Trace(NextOf(ProblemFor(a, b)), PerfectOf(ProblemFor(a, b)), i, j, origin).Ok?
      ensures i' <= i && j' <= j && i' + j' < i + j
      ensures Trace(NextOf(ProblemFor(a, b)), PerfectOf(ProblemFor(a, b)), i, j, origin) ==
              Prepend(e, Trace(NextOf(ProblemFor(a, b)), PerfectOf(ProblemFor(a, b)), i', j', origin'))
    {
      ghost var p := ProblemFor(a, b);
      ghost var next, perfect := NextOf(p), PerfectOf(p);
      assert similarityM[i, j] == Sim(p, i, j);
      if origin == Match && similarityM[i, j] == 1.0 {
        e := Perfect;
      } else {
        e := origin;
      }
      assert perfect(i, j) == (Sim(p, i, j) == 1.0);
      assert CellDone(p, i, j);
      match origin {
        case Match =>
          assert CellDone(p, i - 1, j - 1);
          var similarity := similarityM[i - 1, j - 1];
          origin' := if score[i, j] == Add(score[i - 1, j - 1], similarity) then Match
                     else if score[i, j] == Add(gapA[i - 1, j - 1], similarity) then Deletion
                     else Insertion;
          i', j' := i - 1, j - 1;
          assert origin' == next(i, j, origin);
        case Deletion =>
          assert CellDone(p, i - 1, j);
          origin' := if gapA[i, j] == Add(gapA[i - 1, j], gapExtensionPenalty) then Deletion
                     else if gapA[i, j] == Add(gapB[i - 1, j], gapExtensionPenalty) then Insertion
                     else Match;
          i', j' := i - 1, j;
          assert origin' == next(i, j, origin);
        case Insertion =>
          assert CellDone(p, i, j - 1);
          origin' := if gapB[i, j] == Add(gapA[i, j - 1], gapExtensionPenalty) then Deletion
                     else if gapB[i, j] == Add(gapB[i, j - 1], gapExtensionPenalty) then Insertion
                     else Match;
          i', j' := i, j - 1;
          assert origin' == next(i, j, origin);
        case Perfect =>
          assert false;
      }
      TraceAdvance(next, perfect, i, j, origin, e, i', j', origin');
    }

    /** `run(a, b)`: sizes the matrices to the inputs, fills them and reads the alignment back. */
    method Run(a: seq<T>, b: seq<T>) returns (r: seq<AlignmentElement>)
      modifies this
      ensures m == |a| && n == |b|
      ensures r == Align(ProblemFor(a, b))
    {
      m := |a|;
      n := |b|;
      Initialize();
      Execute(a, b);
      r := Traceback(a, b);
    }

    /** AlignmentAlgorithm's `run(Array, Array)`: copies both arrays, element by element and in
        order, into lists and aligns those. */
    method RunArray(a: array<T>, b: array<T>) returns (r: seq<AlignmentElement>)
      modifies this
      ensures r == Align(ProblemFor(a[..], b[..]))
    {
      r := Run(a[..], b[..]);
    }

    /** `run(ResettableIterable, ResettableIterable)` as written: each iterable is turned into a
        list and cast to ArrayList, the first before the second is read. */
    method RunIterableAsWritten(a: ResettableArrayListIterator<T>, b: ResettableArrayListIterator<T>)
      returns (r: Result<seq<AlignmentElement>>)
      modifies this, a, b
      ensures var la, lb := Remaining(a.arr, old(a.index)), Remaining(b.arr, old(b.index));
              (r.Ok? <==> |la| >= 2 && a != b && |lb| >= 2) &&
              (r.Ok? ==> r.value == Align(ProblemFor(la, lb))) &&
              (r.Err? ==> r.error == ClassCast)
    {
      var la := a.ToList();
      var ca := CastToArrayList(la);
      if ca.Err? {
        return Err(ca.error);
      }
      var lb := b.ToList();
      var cb := CastToArrayList(lb);
      if cb.Err? {
        return Err(cb.error);
      }
      var alignment := Run(ca.value, cb.value);
      r := Ok(alignment);
    }

    /** `run(ResettableIterable, ResettableIterable)` with the lists copied into new ArrayLists
        instead of cast: every pair of iterables is aligned from their current positions on. */
    method RunIterable(a: ResettableArrayListIterator<T>, b: ResettableArrayListIterator<T>)
      returns (r: seq<AlignmentElement>)
      modifies this, a, b
      ensures a != b ==> r == Align(ProblemFor(Remaining(a.arr, old(a.index)), Remaining(b.arr, old(b.index))))
      ensures a == b ==> r == Align(ProblemFor(Remaining(a.arr, old(a.index)), []))
    {
      var la := a.ToList();
      var lb := b.ToList();
      r := Run(la, lb);
    }
  }

  // `run(a, [])` in binary64. With no current frames there is no inner cell and the similarity
  // matrix holds only zeros, so the first column and the traceback make up the whole program, and
  // the arithmetic the traceback compares can be modelled exactly.

  /** `s + x` with `add` the machine's addition of finite values; negative infinity absorbs. */
  function AddWith(add: (real, real) -> real, s: Score, x: real): Score
  {
    match s
    case NegInf => NegInf
    case Fin(v) => Fin(add(v, x))
  }

  /** Cell (i, 0) of the three matrices when `initialize` has written `border(i)` into gapA below the
      corner. */
  function ColumnCell(border: nat -> real, i: nat): Cells
  {
    if i == 0 then Cells(Fin(0.0), Fin(0.0), Fin(0.0)) else Cells(NegInf, Fin(border(i)), NegInf)
  }

  /** The start of `traceback` at (m, 0): the matrix holding the final score, preferring score, then gapA. */
  function ColumnStart(border: nat -> real, m: nat): AlignmentElement
  {
    var c := ColumnCell(border, m);
    var finalScore := Max3(c.score, c.gapA, c.gapB);
    if finalScore == c.score then Match else if finalScore == c.gapA then Deletion else Insertion
  }

  /** The choice after a DELETION at (i, 0): gapA there against gapA and then gapB one row up, plus
      the extension penalty, with `add` the machine's addition. A one-column walk leaves the matrices
      at any other origin before it chooses again. */
  function ColumnNext(border: nat -> real, add: (real, real) -> real, ext: real): (nat, nat, AlignmentElement) -> AlignmentElement
  {
    (i: nat, j: nat, o: AlignmentElement) =>
      if o == Deletion && i >= 1 then
        var c, up := ColumnCell(border, i), ColumnCell(border, i - 1);
        if c.gapA == AddWith(add, up.gapA, ext) then Deletion
        else if c.gapA == AddWith(add, up.gapB, ext) then Insertion
        else Match
      else o
  }

  /** `run(a, [])` for `m` frames in `a`, with `border` the first column `initialize` wrote and `add`
      the addition the traceback compares with. The similarity entries are all 0.0, so nothing is
      PERFECT. */
  function RunAgainstNone(border: nat -> real, add: (real, real) -> real, ext: real, m: nat): Result<seq<AlignmentElement>>
  {
    var t := Trace(ColumnNext(border, add, ext), (i: nat, j: nat) => false, m, 0, ColumnStart(border, m));
    if t.Ok? then Ok(Reverse(t.value)) else t
  }

  /** The first column as `initialize` writes it, `gapOpenPenalty + (i - 1) * gapExtensionPenalty`,
      in binary64: the product and the sum are each rounded. */
  function RoundedBorder(open: real, ext: real): nat -> real
  {
    (i: nat) => Doubles.DAdd(open, Doubles.DMul((i - 1) as real, ext))
  }

  /** As written, `Gotoh(metric).run(a, [])` throws for seven frames in `a`. At the default penalties
      0.2 and -0.8, gapA[7][0] = 0.2 + 6 * (-0.8) rounds to -4.6000000000000005 while gapA[6][0] + (-0.8)
      rounds to -4.6, so the DELETION test at (7, 0) fails, the walk turns to MATCH at (6, 0), and the
      next step reads column -1. With exact sums the same run aligns seven DELETIONs. */
  lemma RoundedBorderThrows()
    ensures var open, ext := Doubles.ToDouble(0.2), Doubles.ToDouble(-0.8);
            Doubles.DAdd(RoundedBorder(open, ext)(6), ext) != RoundedBorder(open, ext)(7) &&
            RunAgainstNone(RoundedBorder(open, ext), Doubles.DAdd, ext, 7) == Err(IndexOutOfBounds)
  {
    var open, ext := Doubles.ToDouble(0.2), Doubles.ToDouble(-0.8);
    OpenPenaltyRounds();
    ExtensionPenaltyRounds();
    FiveExtensionsRound();
    SixExtensionsRound();
    RowSixRounds();
    RowSevenRounds();
    RowSixExtendedRounds();
    var border := RoundedBorder(open, ext);
    assert border(6) == -4278419646001971.0 / 1125899906842624.0;
    assert border(7) == -5179139571476071.0 / 1125899906842624.0;
    SeventhRowThrows(border, Doubles.DAdd, ext);
  }

  /** For any first column and addition: when gapA[6][0] + gapExtensionPenalty is not gapA[7][0],
      `run` against no current frames throws for seven frames. */
  lemma SeventhRowThrows(border: nat -> real, add: (real, real) -> real, ext: real)
    requires add(border(6), ext) != border(7)
    ensures RunAgainstNone(border, add, ext, 7) == Err(IndexOutOfBounds)
  {
    var next, perfect := ColumnNext(border, add, ext), (i: nat, j: nat) => false;
    assert ColumnStart(border, 7) == Deletion;
    assert next(7, 0, Deletion) == Match;
    assert Trace(next, perfect, 6, 0, Match) == Err(IndexOutOfBounds);
    assert Trace(next, perfect, 7, 0, Deletion) == Err(IndexOutOfBounds);
  }

  /** The binary64 values of RoundedBorderThrows, each the nearest multiple of the spacing in its
      binade: the default open penalty 0.2, */
  lemma OpenPenaltyRounds()
    ensures Doubles.ToDouble(0.2) == 3602879701896397.0 / 18014398509481984.0
  {
    RoundsTo(0.2, -3, 3602879701896397.0 / 18014398509481984.0);
  }

  /** the default extension penalty -0.8, */
  lemma ExtensionPenaltyRounds()
    ensures Doubles.ToDouble(-0.8) == -3602879701896397.0 / 4503599627370496.0
  {
    RoundsTo(-0.8, -1, -3602879701896397.0 / 4503599627370496.0);
  }

  /** (6 - 1) * gapExtensionPenalty, */
  lemma FiveExtensionsRound()
    ensures Doubles.DMul(5.0, -3602879701896397.0 / 4503599627370496.0) == -4.0
  {
    RoundsTo(5.0 * (-3602879701896397.0 / 4503599627370496.0), 2, -4.0);
  }

  /** (7 - 1) * gapExtensionPenalty, */
  lemma SixExtensionsRound()
    ensures Doubles.DMul(6.0, -3602879701896397.0 / 4503599627370496.0) == -1351079888211149.0 / 281474976710656.0
  {
    RoundsTo(6.0 * (-3602879701896397.0 / 4503599627370496.0), 2, -1351079888211149.0 / 281474976710656.0);
  }

  /** gapA[6][0], */
  lemma RowSixRounds()
    ensures Doubles.DAdd(3602879701896397.0 / 18014398509481984.0, -4.0) == -4278419646001971.0 / 1125899906842624.0
  {
    RoundsTo(3602879701896397.0 / 18014398509481984.0 + -4.0, 1, -4278419646001971.0 / 1125899906842624.0);
  }

  /** gapA[7][0], */
  lemma RowSevenRounds()
    ensures Doubles.DAdd(3602879701896397.0 / 18014398509481984.0, -1351079888211149.0 / 281474976710656.0) == -5179139571476071.0 / 1125899906842624.0
  {
    RoundsTo(3602879701896397.0 / 18014398509481984.0 + -1351079888211149.0 / 281474976710656.0, 2, -5179139571476071.0 / 1125899906842624.0);
  }

  /** and gapA[6][0] + gapExtensionPenalty, which the test at (7, 0) compares with gapA[7][0]. */
  lemma RowSixExtendedRounds()
    ensures Doubles.DAdd(-4278419646001971.0 / 1125899906842624.0, -3602879701896397.0 / 4503599627370496.0) == -2589569785738035.0 / 562949953421312.0
  {
    RoundsTo(-4278419646001971.0 / 1125899906842624.0 + -3602879701896397.0 / 4503599627370496.0, 2, -2589569785738035.0 / 562949953421312.0);
  }

  /** `x` lies in the binade of exponent `e`, in [-3, 3], and `d` is its nearest multiple of that
      binade's spacing. */
  lemma RoundsTo(x: real, e: int, d: real)
    requires -3 <= e <= 3 && x != 0.0
    requires Doubles.Pow2(e) <= Doubles.Abs(x) < Doubles.Pow2(e + 1)
    requires d == Doubles.RoundToMultiple(x, Doubles.Pow2(e) / 4503599627370496.0)
    ensures Doubles.ToDouble(x) == d
  {
    Doubles.ExponentIs(Doubles.Abs(x), e);
  }

  /** The first column written by accumulation instead, `gapA[1][0] = gapOpenPenalty` and
      `gapA[i][0] = gapA[i - 1][0] + gapExtensionPenalty`, with `add` the machine's addition. */
  function AccumulatedGap(add: (real, real) -> real, open: real, ext: real, len: nat): real
  {
    if len <= 1 then open else add(AccumulatedGap(add, open, ext, len - 1), ext)
  }

  function AccumulatedBorder(add: (real, real) -> real, open: real, ext: real): nat -> real
  {
    (i: nat) => AccumulatedGap(add, open, ext, i)
  }

  /** Exact addition, under which the two ways of writing the first column agree. */
  function ExactAdd(x: real, y: real): real
  {
    x + y
  }

  /** With exact sums the accumulated first column is the closed form the class writes, so the
      exact model of the class is the accumulated program. */
  lemma {:induction false} AccumulatedGapExact(open: real, ext: real, len: nat)
    requires len >= 1
    ensures AccumulatedGap(ExactAdd, open, ext, len) == LeadingGap(open, ext, len)
  {
    if len >= 2 {
      AccumulatedGapExact(open, ext, len - 1);
      LeadingGapExtends(open, ext, len);
    }
  }

  /** With the first column accumulated, the DELETION test along column 0 compares a value with the
      very sum it was written from, in any arithmetic: `run(a, [])` returns one DELETION per frame. */
  lemma AccumulatedBorderAligns(add: (real, real) -> real, open: real, ext: real, m: nat)
    ensures RunAgainstNone(AccumulatedBorder(add, open, ext), add, ext, m) == Ok(Repeat(Deletion, m))
  {
    var border := AccumulatedBorder(add, open, ext);
    if m >= 1 {
      assert ColumnStart(border, m) == Deletion;
      AccumulatedColumnWalk(add, open, ext, m);
    } else {
      assert ColumnStart(border, 0) == Match;
    }
    assert Reverse(Repeat(Deletion, m)) == Repeat(Deletion, m);
  }

  /** AccumulatedBorderAligns's walk: from (i, 0) as DELETION, i DELETIONs down to the corner. */
  lemma AccumulatedColumnWalk(add: (real, real) -> real, open: real, ext: real, i: nat)
    requires i >= 1
    ensures Trace(ColumnNext(AccumulatedBorder(add, open, ext), add, ext), (i: nat, j: nat) => false, i, 0, Deletion)
            == Ok(Repeat(Deletion, i))
  {
    var next := ColumnNext(AccumulatedBorder(add, open, ext), add, ext);
    forall k: nat | 2 <= k <= i
      ensures next(k, 0, Deletion) == Deletion
    {
      AccumulatedStaysDeletion(add, open, ext, k);
    }
    DeletionColumn(next, (i: nat, j: nat) => false, i);
  }

  /** Below the first row, the accumulated first column passes the DELETION test at every row. */
  lemma AccumulatedStaysDeletion(add: (real, real) -> real, open: real, ext: real, k: nat)
    requires k >= 2
    ensures ColumnNext(AccumulatedBorder(add, open, ext), add, ext)(k, 0, Deletion) == Deletion
  {
    var border := AccumulatedBorder(add, open, ext);
    assert border(k) == add(border(k - 1), ext);
    assert ColumnCell(border, k).gapA == AddWith(add, ColumnCell(border, k - 1).gapA, ext);
  }

  /** A walk down column 0 that stays DELETION at every row below the first ends at the corner with
      one DELETION per row. */
  lemma {:induction false} DeletionColumn(next: (nat, nat, AlignmentElement) -> AlignmentElement,
                                          perfect: (nat, nat) -> bool, i: nat)
    requires i >= 1
    requires forall k: nat :: 2 <= k <= i ==> next(k, 0, Deletion) == Deletion
    ensures Trace(next, perfect, i, 0, Deletion) == Ok(Repeat(Deletion, i))
  {
    if i == 1 {
      assert Trace(next, perfect, 0, 0, next(1, 0, Deletion)) == Ok([]);
      assert Trace(next, perfect, 1, 0, Deletion) == Prepend(Deletion, Ok([]));
      assert [Deletion] + [] == Repeat(Deletion, 1);
    } else {
      DeletionColumn(next, perfect, i - 1);
      assert [Deletion] + Repeat(Deletion, i - 1) == Repeat(Deletion, i);
    }
  }

  /** The exact model agrees: Gotoh's alignment against no current frames is one DELETION per frame. */
  lemma AlignAgainstNone<T>(a: seq<T>, metric: (T, T) -> real, open: real, ext: real)
    ensures Align(Problem(a, [], metric, open, ext)) == Repeat(Deletion, |a|)
  {
    var r := Align(Problem(a, [], metric, open, ext));
    ConsumedCounts(r);
    AllOfOne(r, Deletion);
  }

  lemma {:induction false} AllOfOne(s: seq<AlignmentElement>, e: AlignmentElement)
    requires Count(s, e) == |s|
    ensures s == Repeat(e, |s|)
  {
    if s != [] {
      AllOfOne(s[1..], e);
      assert s == [s[0]] + s[1..];
    }
  }

  /** `list as ArrayList<T>` applied to what Kotlin's `Iterable.toList()` returns for an iterable that
      is not a Collection: an ArrayList for two or more elements, but the shared empty list for none
      and a singleton list for one, neither of which is an ArrayList. */
  function CastToArrayList<T>(l: seq<T>): (r: Result<seq<T>>)
    ensures r.Ok? <==> |l| >= 2
    ensures r.Ok? ==> r.value == l
    ensures r.Err? ==> r.error == ClassCast
  {
    if |l| >= 2 then Ok(l) else Err(ClassCast)
  }

  /** The cast rejects a one-frame video: `run` over iterables throws where the list-based `run` aligns. */
  lemma SingleFrameCastFails<T>(x: T, metric: (T, T) -> real)
    ensures CastToArrayList([x]) == Err(ClassCast)
    ensures CastToArrayList<T>([]) == Err(ClassCast)
    ensures ConsumedFirst(Align(Problem([x], [x], metric, 0.2, -0.8))) == 1
  {
  }
}
