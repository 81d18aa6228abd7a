/** LevenshteinDistance.kt: the edit distance between two alignments, used by the generated-case test
    to compare an expected alignment with the one the algorithm computed. The recurrence is stated
    once as `Dist`; the class fills its table with the source's loops and is proved to hold `Dist`
    in every cell. */
module LevenshteinDistance {
  import opened Alignment

  function Min3(x: int, y: int, z: int): (r: int)
    ensures r <= x && r <= y && r <= z && (r == x || r == y || r == z)
  {
    if x <= y && x <= z then x else if y <= z then y else z
  }

  /** Cell (i, j) of the table: the distance between the first `i` elements of `a` and the first `j`
      elements of `b`. Equal elements cost nothing; otherwise the cheapest of deleting, inserting and
      substituting, plus one. */
  function Dist(a: seq<AlignmentElement>, b: seq<AlignmentElement>, i: nat, j: nat): nat
    requires i <= |a| && j <= |b|
    decreases i + j
  {
    if j == 0 then i
    else if i == 0 then j
    else if a[i - 1] == b[j - 1] then Dist(a, b, i - 1, j - 1)
    else 1 + Min3(Dist(a, b, i - 1, j), Dist(a, b, i, j - 1), Dist(a, b, i - 1, j - 1))
  }

  /** The distance is at least the difference of the lengths and at most the longer length. */
  lemma {:induction false} DistBounds(a: seq<AlignmentElement>, b: seq<AlignmentElement>, i: nat, j: nat)
    requires i <= |a| && j <= |b|
    ensures i - j <= Dist(a, b, i, j) && j - i <= Dist(a, b, i, j)
    ensures Dist(a, b, i, j) <= if i <= j then j else i
    decreases i + j
  {
    if i > 0 && j > 0 {
      DistBounds(a, b, i - 1, j - 1);
      if a[i - 1] != b[j - 1] {
        DistBounds(a, b, i - 1, j);
        DistBounds(a, b, i, j - 1);
      }
    }
  }

  /** The distance is 0 exactly when the two prefixes are equal. */
  lemma {:induction false} DistZeroIffEqual(a: seq<AlignmentElement>, b: seq<AlignmentElement>, i: nat, j: nat)
    requires i <= |a| && j <= |b|
    ensures Dist(a, b, i, j) == 0 <==> i == j && a[..i] == b[..j]
    decreases i + j
  {
    if i > 0 && j > 0 {
      DistZeroIffEqual(a, b, i - 1, j - 1);
      assert a[..i] == a[..i - 1] + [a[i - 1]];
      assert b[..j] == b[..j - 1] + [b[j - 1]];
      if a[i - 1] == b[j - 1] {
        if i == j && a[..i] == b[..j] {
          assert a[..i - 1] == a[..i][..i - 1];
          assert b[..j - 1] == b[..j][..j - 1];
        }
      } else {
        assert a[..i][i - 1] != b[..j][j - 1];
      }
    }
  }

  /** The distance does not depend on which alignment comes first. */
  lemma {:induction false} DistSymmetric(a: seq<AlignmentElement>, b: seq<AlignmentElement>, i: nat, j: nat)
    requires i <= |a| && j <= |b|
    ensures Dist(a, b, i, j) == Dist(b, a, j, i)
    decreases i + j
  {
    if i > 0 && j > 0 {
      DistSymmetric(a, b, i - 1, j - 1);
      if a[i - 1] != b[j - 1] {
        DistSymmetric(a, b, i - 1, j);
        DistSymmetric(a, b, i, j - 1);
      }
    }
  }

  /** The distance between whole alignments, with the facts the test relies on: an alignment is at
      distance 0 from itself and from nothing else, and the distance lies between the difference of
      the lengths and the longer length. */
  function Distance(a: seq<AlignmentElement>, b: seq<AlignmentElement>): (d: nat)
    ensures d == 0 <==> a == b
    ensures |a| - |b| <= d && |b| - |a| <= d
    ensures d <= if |a| <= |b| then |b| else |a|
  {
    DistBounds(a, b, |a|, |b|);
    DistZeroIffEqual(a, b, |a|, |b|);
    assert a[..|a|] == a && b[..|b|] == b;
    Dist(a, b, |a|, |b|)
  }

  lemma DistanceSymmetric(a: seq<AlignmentElement>, b: seq<AlignmentElement>)
    ensures Distance(a, b) == Distance(b, a)
  {
    DistSymmetric(a, b, |a|, |b|);
  }

  class LevenshteinDistance {
    const m: nat
    const n: nat
    const d: array2<int>
    const distance: int

    /** `init` fills the (m+1) x (n+1) table; `distance` is its bottom-right cell. */
    constructor (a: seq<AlignmentElement>, b: seq<AlignmentElement>)
      ensures m == |a| && n == |b| && d.Length0 == m + 1 && d.Length1 == n + 1
      ensures forall x, y :: 0 <= x <= m && 0 <= y <= n ==> d[x, y] == Dist(a, b, x, y)
      ensures distance == Distance(a, b)
    {
      var table := Table(a, b);
      m, n, d := |a|, |b|, table;
      distance := table[|a|, |b|];
    }
  }

  ghost predicate CellDone(d: array2<int>, a: seq<AlignmentElement>, b: seq<AlignmentElement>, x: nat, y: nat)
    requires x <= |a| && y <= |b| && x < d.Length0 && y < d.Length1
    reads d
  {
    d[x, y] == Dist(a, b, x, y)
  }

  /** The three loops of `init` on a fresh table. */
  method Table(a: seq<AlignmentElement>, b: seq<AlignmentElement>) returns (d: array2<int>)
    ensures fresh(d) && d.Length0 == |a| + 1 && d.Length1 == |b| + 1
    ensures forall x, y :: 0 <= x <= |a| && 0 <= y <= |b| ==> d[x, y] == Dist(a, b, x, y)
  {
    var m, n := |a|, |b|;
    d := new int[m + 1, n + 1];
    for i := 0 to m + 1
      invariant forall x :: 0 <= x < i ==> d[x, 0] == x
    {
      d[i, 0] := i;
    }
    for j := 0 to n + 1
      invariant forall x :: 0 <= x <= m ==> d[x, 0] == x
      invariant forall y :: 0 <= y < j ==> d[0, y] == y
    {
      d[0, j] := j;
    }
    forall x, y | 0 <= x <= m && 0 <= y <= n && (x == 0 || y == 0)
      ensures CellDone(d, a, b, x, y)
    {
    }
    FillTable(d, a, b);
    forall x, y | 0 <= x <= |a| && 0 <= y <= |b|
      ensures d[x, y] == Dist(a, b, x, y)
    {
      assert CellDone(d, a, b, x, y);
    }
  }

  /** The nested loops of `init`: column by column, every inner cell from its left, upper and
      upper-left neighbours. */
  method FillTable(d: array2<int>, a: seq<AlignmentElement>, b: seq<AlignmentElement>)
    requires d.Length0 == |a| + 1 && d.Length1 == |b| + 1
    requires forall x, y :: 0 <= x <= |a| && 0 <= y <= |b| && (x == 0 || y == 0) ==> CellDone(d, a, b, x, y)
    modifies d
    ensures forall x, y :: 0 <= x <= |a| && 0 <= y <= |b| ==> CellDone(d, a, b, x, y)
  {
    var m, n := |a|, |b|;
    for j := 1 to n + 1
      invariant forall x, y :: 0 <= x <= m && 0 <= y <= n && (y < j || x == 0) ==> CellDone(d, a, b, x, y)
    {
      for i := 1 to m + 1
        invariant forall x, y :: 0 <= x <= m && 0 <= y <= n && (y < j || x == 0 || (y == j && x < i)) ==>
                    CellDone(d, a, b, x, y)
      {
        label before:
        FillCell(d, a, b, i, j);
        forall x, y | 0 <= x <= m && 0 <= y <= n && (y < j || x == 0 || (y == j && x <= i))
          ensures CellDone(d, a, b, x, y)
        {
          if x != i || y != j {
            assert old@before(CellDone(d, a, b, x, y));
          }
        }
      }
    }
  }

  /** The loop body for the inner cell (i, j); no other cell changes. */
  method FillCell(d: array2<int>, a: seq<AlignmentElement>, b: seq<AlignmentElement>, i: nat, j: nat)
    requires d.Length0 == |a| + 1 && d.Length1 == |b| + 1 && 1 <= i <= |a| && 1 <= j <= |b|
    requires CellDone(d, a, b, i - 1, j) && CellDone(d, a, b, i, j - 1) && CellDone(d, a, b, i - 1, j - 1)
    modifies d
    ensures CellDone(d, a, b, i, j)
    ensures forall x, y :: 0 <= x < d.Length0 && 0 <= y < d.Length1 && (x != i || y != j) ==> d[x, y] == old(d[x, y])
  {
    if a[i - 1] == b[j - 1] {
      d[i, j] := d[i - 1, j - 1];
    } else {
      d[i, j] := Min3(d[i - 1, j] + 1, d[i, j - 1] + 1, d[i - 1, j - 1] + 1);
    }
  }
}
