/** FrameGrabber.kt: for every position of the difference sequence, which frame of the reference and
    of the current video the GUI shows there (-1 where a video has no frame), and the images shown at
    a position. Reading frames from the video files is not modelled: an image is named by the frame it
    shows. */
module FrameGrabber {
  import opened Errors
  import opened Alignment
  import DiffSequenceInfo

  /** The frame list of one video: `skip` is the element that gives this video no frame (INSERTION for
      the reference video, DELETION for the current one); every other element takes the next frame. */
  function FrameIndices(s: seq<AlignmentElement>, skip: AlignmentElement): (r: seq<int>)
    ensures |r| == |s|
  {
    if s == [] then []
    else
      var init := s[..|s| - 1];
      FrameIndices(init, skip) + [if s[|s| - 1] == skip then -1 else |init| - Count(init, skip)]
  }

  /** The entries that name a frame, in order. */
  function Frames(l: seq<int>): seq<int>
  {
    if l == [] then [] else Frames(l[..|l| - 1]) + (if l[|l| - 1] == -1 then [] else [l[|l| - 1]])
  }

  /** 0, 1, ..., n - 1. */
  function Range(n: nat): (r: seq<int>)
    ensures |r| == n && forall k :: 0 <= k < n ==> r[k] == k
  {
    seq(n, k => k)
  }

  lemma CountLast(s: seq<AlignmentElement>, e: AlignmentElement)
    requires s != []
    ensures Count(s, e) == Count(s[..|s| - 1], e) + (if s[|s| - 1] == e then 1 else 0)
  {
    assert s == s[..|s| - 1] + [s[|s| - 1]];
    CountAppend(s[..|s| - 1], [s[|s| - 1]], e);
  }

  /** Entry k is -1 exactly when element k is the skipped kind, and otherwise the number of frames the
      elements before it took. */
  lemma {:induction false} FrameIndicesAt(s: seq<AlignmentElement>, skip: AlignmentElement, k: nat)
    requires k < |s|
    ensures FrameIndices(s, skip)[k] == -1 <==> s[k] == skip
    ensures s[k] != skip ==> FrameIndices(s, skip)[k] == k - Count(s[..k], skip)
  {
    var init := s[..|s| - 1];
    if k < |s| - 1 {
      FrameIndicesAt(init, skip, k);
      assert init[k] == s[k] && init[..k] == s[..k];
    } else {
      assert init == s[..k];
      CountBound(init, skip);
    }
  }

  lemma CountBound(s: seq<AlignmentElement>, e: AlignmentElement)
    ensures Count(s, e) <= |s|
  {
  }

  /** The entries that are not -1 are exactly 0, 1, 2, ... in order, one per frame the alignment takes
      from the video. */
  lemma {:induction false} FramesAreConsecutive(s: seq<AlignmentElement>, skip: AlignmentElement)
    ensures Frames(FrameIndices(s, skip)) == Range(|s| - Count(s, skip))
  {
    if s != [] {
      var init := s[..|s| - 1];
      var l := FrameIndices(s, skip);
      FramesAreConsecutive(init, skip);
      assert l[..|l| - 1] == FrameIndices(init, skip);
      CountLast(s, skip);
      CountBound(init, skip);
      if s[|s| - 1] != skip {
        assert Range(|s| - Count(s, skip)) == Range(|init| - Count(init, skip)) + [|init| - Count(init, skip)];
      }
    }
  }

  /** Hence the reference list names ConsumedFirst frames and the current list ConsumedSecond frames:
      as many as DiffSequenceInfo reports for each video. */
  lemma FramesMatchVideoSizes(s: seq<AlignmentElement>)
    ensures |Frames(FrameIndices(s, Insertion))| == DiffSequenceInfo.SizeOfVideoReference(s)
    ensures |Frames(FrameIndices(s, Deletion))| == DiffSequenceInfo.SizeOfVideoCurrent(s)
  {
    FramesAreConsecutive(s, Insertion);
    FramesAreConsecutive(s, Deletion);
  }

  /** The number of -1 entries of a frame list: the positions where the video shows a placeholder. */
  function Placeholders(l: seq<int>): nat
  {
    if l == [] then 0 else Placeholders(l[..|l| - 1]) + (if l[|l| - 1] == -1 then 1 else 0)
  }

  /** A frame list has a placeholder for each element of the skipped kind and for no other. */
  lemma {:induction false} PlaceholdersAreSkipped(s: seq<AlignmentElement>, skip: AlignmentElement)
    ensures Placeholders(FrameIndices(s, skip)) == Count(s, skip)
  {
    if s != [] {
      var init := s[..|s| - 1];
      var l := FrameIndices(s, skip);
      PlaceholdersAreSkipped(init, skip);
      assert l[..|l| - 1] == FrameIndices(init, skip);
      CountLast(s, skip);
      CountBound(init, skip);
    }
  }

  /** An image on the diff screen: the placeholder of an inserted or deleted frame, or a frame of one
      of the two videos. */
  datatype Bitmap = InsertionPlaceholder | DeletionPlaceholder | ReferenceFrame(index: nat) | CurrentFrame(index: nat)

  class FrameGrabber {
    const diffSequence: seq<AlignmentElement>
    var videoReferenceFrames: seq<int>
    var videoCurrentFrames: seq<int>

    /** `init`: the frame lists are generated from the difference sequence. */
    constructor (diffSequence: seq<AlignmentElement>)
      ensures this.diffSequence == diffSequence
      ensures videoReferenceFrames == FrameIndices(diffSequence, Insertion)
      ensures videoCurrentFrames == FrameIndices(diffSequence, Deletion)
    {
      this.diffSequence := diffSequence;
      videoReferenceFrames, videoCurrentFrames := [], [];
      new;
      GenerateSequences();
    }

    /** generateSequences: one pass over the difference sequence with a running frame counter per
        video, appending the frame used at each position or -1. */
    method GenerateSequences()
      requires videoReferenceFrames == [] && videoCurrentFrames == []
      modifies this
      ensures videoReferenceFrames == FrameIndices(diffSequence, Insertion)
      ensures videoCurrentFrames == FrameIndices(diffSequence, Deletion)
    {
      var videoReferenceIndex, videoCurrentIndex := 0, 0;
      for k := 0 to |diffSequence|
        invariant videoReferenceFrames == FrameIndices(diffSequence[..k], Insertion)
        invariant videoCurrentFrames == FrameIndices(diffSequence[..k], Deletion)
        invariant videoReferenceIndex == k - Count(diffSequence[..k], Insertion)
        invariant videoCurrentIndex == k - Count(diffSequence[..k], Deletion)
      {
        var prefix := diffSequence[..k + 1];
        assert prefix[..k] == diffSequence[..k];
        CountLast(prefix, Insertion);
        CountLast(prefix, Deletion);
        match diffSequence[k] {
          case Match =>
            videoReferenceFrames := videoReferenceFrames + [videoReferenceIndex];
            videoReferenceIndex := videoReferenceIndex + 1;
            videoCurrentFrames := videoCurrentFrames + [videoCurrentIndex];
            videoCurrentIndex := videoCurrentIndex + 1;
          case Insertion =>
            videoReferenceFrames := videoReferenceFrames + [-1];
            videoCurrentFrames := videoCurrentFrames + [videoCurrentIndex];
            videoCurrentIndex := videoCurrentIndex + 1;
          case Deletion =>
            videoReferenceFrames := videoReferenceFrames + [videoReferenceIndex];
            videoReferenceIndex := videoReferenceIndex + 1;
            videoCurrentFrames := videoCurrentFrames + [-1];
          case Perfect =>
            videoReferenceFrames := videoReferenceFrames + [videoReferenceIndex];
            videoReferenceIndex := videoReferenceIndex + 1;
            videoCurrentFrames := videoCurrentFrames + [videoCurrentIndex];
            videoCurrentIndex := videoCurrentIndex + 1;
        }
      }
      assert diffSequence[..|diffSequence|] == diffSequence;
    }

    /** getImagesAtDiff: [reference image, current image] at a position, with the insertion placeholder
        where the reference video has no frame and the deletion placeholder where the current video has
        none. A position outside the lists throws. */
    function GetImagesAtDiff(diffIndex: int): (r: Result<seq<Bitmap>>)
      reads this
      requires videoReferenceFrames == FrameIndices(diffSequence, Insertion)
      requires videoCurrentFrames == FrameIndices(diffSequence, Deletion)
      ensures r.Err? <==> !(0 <= diffIndex < |diffSequence|)
      ensures r.Err? ==> r.error == IndexOutOfBounds
      ensures r.Ok? ==> |r.value| == 2
      ensures r.Ok? ==> (r.value[0] == InsertionPlaceholder <==> diffSequence[diffIndex] == Insertion)
      ensures r.Ok? ==> (r.value[1] == DeletionPlaceholder <==> diffSequence[diffIndex] == Deletion)
      ensures r.Ok? && diffSequence[diffIndex] != Insertion ==>
              r.value[0] == ReferenceFrame(ConsumedFirst(diffSequence[..diffIndex]))
      ensures r.Ok? && diffSequence[diffIndex] != Deletion ==>
              r.value[1] == CurrentFrame(ConsumedSecond(diffSequence[..diffIndex]))
    {
      if !(0 <= diffIndex < |videoReferenceFrames|) then Err(IndexOutOfBounds)
      else
        var videoReferenceIndex := videoReferenceFrames[diffIndex];
        var videoCurrentIndex := videoCurrentFrames[diffIndex];
        FrameIndicesAt(diffSequence, Insertion, diffIndex);
        FrameIndicesAt(diffSequence, Deletion, diffIndex);
        ConsumedCounts(diffSequence[..diffIndex]);
        var reference := if videoReferenceIndex == -1 then InsertionPlaceholder else ReferenceFrame(videoReferenceIndex);
        var current := if videoCurrentIndex == -1 then DeletionPlaceholder else CurrentFrame(videoCurrentIndex);
        Ok([reference, current])
    }

    /** getSizeOfDiff and the three counts, which are DiffSequenceInfo's. */
    function GetSizeOfDiff(): (r: nat)
      reads this
      ensures r == |videoReferenceFrames| == |videoCurrentFrames|
      requires videoReferenceFrames == FrameIndices(diffSequence, Insertion)
      requires videoCurrentFrames == FrameIndices(diffSequence, Deletion)
    {
      DiffSequenceInfo.SizeOfDiff(diffSequence)
    }

    /** getInsertions, DiffSequenceInfo's count: also the number of placeholders in the reference
        frame list, which has one wherever the current video alone has a frame. */
    function GetInsertions(): (r: nat)
      reads this
      ensures r == multiset(diffSequence)[Insertion]
      ensures videoReferenceFrames == FrameIndices(diffSequence, Insertion) ==> r == Placeholders(videoReferenceFrames)
    {
      PlaceholdersAreSkipped(diffSequence, Insertion);
      DiffSequenceInfo.Insertions(diffSequence)
    }

    /** getDeletions: also the number of placeholders in the current frame list. */
    function GetDeletions(): (r: nat)
      reads this
      ensures r == multiset(diffSequence)[Deletion]
      ensures videoCurrentFrames == FrameIndices(diffSequence, Deletion) ==> r == Placeholders(videoCurrentFrames)
    {
      PlaceholdersAreSkipped(diffSequence, Deletion);
      DiffSequenceInfo.Deletions(diffSequence)
    }

    /** getFramesWithPixelDifferences: the number of MATCH elements, the positions whose two frames differ. */
    function GetFramesWithPixelDifferences(): (r: nat)
      reads this
      ensures r == multiset(diffSequence)[Match]
    {
      DiffSequenceInfo.FramesWithPixelDifferences(diffSequence)
    }
  }
}
