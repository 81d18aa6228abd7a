/** DiffSequenceInfo.kt: counts over a difference sequence (an alignment), shown by the GUI. */
module DiffSequenceInfo {
  import opened Alignment

  /** getInsertions: how many elements of the sequence are INSERTION, i.e. the multiplicity of
      INSERTION among them. */
  function Insertions(s: seq<AlignmentElement>): (r: nat)
    ensures r == multiset(s)[Insertion]
  {
    CountMultiset(s, Insertion);
    Count(s, Insertion)
  }

  /** getDeletions: the multiplicity of DELETION. */
  function Deletions(s: seq<AlignmentElement>): (r: nat)
    ensures r == multiset(s)[Deletion]
  {
    CountMultiset(s, Deletion);
    Count(s, Deletion)
  }

  /** getFramesWithPixelDifferences: the multiplicity of MATCH, the pairs whose frames differ. */
  function FramesWithPixelDifferences(s: seq<AlignmentElement>): (r: nat)
    ensures r == multiset(s)[Match]
  {
    CountMultiset(s, Match);
    Count(s, Match)
  }

  /** getSizeOfVideoReference: every element but an INSERTION shows a reference frame, so this is the
      number of reference frames the alignment consumes. */
  function SizeOfVideoReference(s: seq<AlignmentElement>): (r: int)
    ensures r == ConsumedFirst(s) && r >= 0
  {
    ConsumedCounts(s);
    |s| - Insertions(s)
  }

  /** getSizeOfVideoCurrent: the number of current frames the alignment consumes. */
  function SizeOfVideoCurrent(s: seq<AlignmentElement>): (r: int)
    ensures r == ConsumedSecond(s) && r >= 0
  {
    ConsumedCounts(s);
    |s| - Deletions(s)
  }

  /** getSizeOfDiff: one difference-video frame per element. Each element is one of the four kinds,
      so the size splits into the three counts and the PERFECT frames, and it exceeds the reference
      frames consumed by the insertions and the current frames consumed by the deletions. */
  function SizeOfDiff(s: seq<AlignmentElement>): (r: nat)
    ensures r == Insertions(s) + Deletions(s) + FramesWithPixelDifferences(s) + multiset(s)[Perfect]
    ensures r == ConsumedFirst(s) + Insertions(s) && r == ConsumedSecond(s) + Deletions(s)
  {
    ConsumedCounts(s);
    CountMultiset(s, Perfect);
    |s|
  }

  /** Every element is one of the four kinds, so the three counts leave the PERFECT frames over. */
  lemma CountsPartition(s: seq<AlignmentElement>)
    ensures Insertions(s) + Deletions(s) + FramesWithPixelDifferences(s) + Count(s, Perfect) == SizeOfDiff(s)
    ensures Insertions(s) + Deletions(s) + FramesWithPixelDifferences(s) <= SizeOfDiff(s)
  {
    ConsumedCounts(s);
  }

  /** An alignment produced for two videos consumes each of them completely, so the sizes reported
      are the lengths of the two videos. */
  lemma SizesOfAlignedVideos(s: seq<AlignmentElement>, referenceLength: nat, currentLength: nat)
    requires ConsumedFirst(s) == referenceLength && ConsumedSecond(s) == currentLength
    ensures SizeOfVideoReference(s) == referenceLength && SizeOfVideoCurrent(s) == currentLength
    ensures SizeOfDiff(s) == referenceLength + Insertions(s) && SizeOfDiff(s) == currentLength + Deletions(s)
  {
  }
}
