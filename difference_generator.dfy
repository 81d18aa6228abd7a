/** DifferenceGenerator.kt: the checks made when a generator is built, the difference image of two
    frames, and the walk over an alignment that records one output frame per alignment element. */
module DifferenceGenerator {
  import opened Errors
  import opened Alignment
  import opened PixelCountMetric

  /** The MATCH colour of ColorEncoding (red 255, green 239, blue 115) in BGR byte order. */
  const MatchBgr: seq<bv8> := [115, 239, 255]
  const BlackBgr: seq<bv8> := [0, 0, 0]

  /** The three bytes written for pixel `k`: the MATCH colour where the frames differ, black elsewhere. */
  function DiffPixel(data1: seq<bv8>, data2: seq<bv8>, k: nat): seq<bv8>
    requires 3 * k + 2 < |data1| && 3 * k + 2 < |data2|
  {
    if PixelDiffers(data1, data2, k) then MatchBgr else BlackBgr
  }

  /** The difference image of the first `n` pixels, pixel by pixel. */
  function DiffBuffer(data1: seq<bv8>, data2: seq<bv8>, n: nat): (r: seq<bv8>)
    requires Holds(data1, data2, n)
    ensures |r| == 3 * n
  {
    if n == 0 then [] else DiffBuffer(data1, data2, n - 1) + DiffPixel(data1, data2, n - 1)
  }

  /** Pixel `k` of the difference image is the MATCH colour if the frames differ there and black if
      they agree. */
  lemma {:induction false} DiffBufferPixel(data1: seq<bv8>, data2: seq<bv8>, n: nat, k: nat)
    requires Holds(data1, data2, n) && k < n
    ensures DiffBuffer(data1, data2, n)[3 * k..3 * k + 3] == if PixelDiffers(data1, data2, k) then MatchBgr else BlackBgr
  {
    if k < n - 1 {
      DiffBufferPixel(data1, data2, n - 1, k);
      var prefix := DiffBuffer(data1, data2, n - 1);
      assert DiffBuffer(data1, data2, n)[3 * k..3 * k + 3] == prefix[3 * k..3 * k + 3];
    }
  }

  /** `n` black pixels. */
  function Blank(n: nat): (r: seq<bv8>)
    ensures |r| == 3 * n
  {
    seq(3 * n, _ => 0)
  }

  /** DifferingPixels only looks at the pixels it counts. */
  lemma {:induction false} DifferingPixelsPrefix(data1: seq<bv8>, data2: seq<bv8>, e1: seq<bv8>, e2: seq<bv8>, n: nat)
    requires Holds(data1, data2, n) && Holds(e1, e2, n)
    requires data1[..3 * n] == e1[..3 * n] && data2[..3 * n] == e2[..3 * n]
    ensures DifferingPixels(data1, data2, n) == DifferingPixels(e1, e2, n)
  {
    if n > 0 {
      assert data1[..3 * (n - 1)] == data1[..3 * n][..3 * (n - 1)];
      assert e1[..3 * (n - 1)] == e1[..3 * n][..3 * (n - 1)];
      assert data2[..3 * (n - 1)] == data2[..3 * n][..3 * (n - 1)];
      assert e2[..3 * (n - 1)] == e2[..3 * n][..3 * (n - 1)];
      DifferingPixelsPrefix(data1, data2, e1, e2, n - 1);
      var k := n - 1;
      assert data1[3 * k] == data1[..3 * n][3 * k] && e1[3 * k] == e1[..3 * n][3 * k];
      assert data1[3 * k + 1] == data1[..3 * n][3 * k + 1] && e1[3 * k + 1] == e1[..3 * n][3 * k + 1];
      assert data1[3 * k + 2] == data1[..3 * n][3 * k + 2] && e1[3 * k + 2] == e1[..3 * n][3 * k + 2];
      assert data2[3 * k] == data2[..3 * n][3 * k] && e2[3 * k] == e2[..3 * n][3 * k];
      assert data2[3 * k + 1] == data2[..3 * n][3 * k + 1] && e2[3 * k + 1] == e2[..3 * n][3 * k + 1];
      assert data2[3 * k + 2] == data2[..3 * n][3 * k + 2] && e2[3 * k + 2] == e2[..3 * n][3 * k + 2];
    }
  }

  /** Measuring the difference image against a black image counts exactly the pixels in which the two
      frames differ: the difference image marks every differing pixel and no other. */
  lemma {:induction false} DiffBufferCountsDifferences(data1: seq<bv8>, data2: seq<bv8>, n: nat)
    requires Holds(data1, data2, n)
    ensures DifferingPixels(DiffBuffer(data1, data2, n), Blank(n), n) == DifferingPixels(data1, data2, n)
  {
    if n > 0 {
      var k := n - 1;
      var d, b := DiffBuffer(data1, data2, n), Blank(n);
      var d', b' := DiffBuffer(data1, data2, k), Blank(k);
      DiffBufferCountsDifferences(data1, data2, k);
      assert d[..3 * k] == d';
      assert b[..3 * k] == b';
      DifferingPixelsPrefix(d, b, d' + [0, 0, 0], b' + [0, 0, 0], k);
      assert d'[..3 * k] == (d' + [0, 0, 0])[..3 * k];
      assert b'[..3 * k] == (b' + [0, 0, 0])[..3 * k];
      DifferingPixelsPrefix(d', b', d' + [0, 0, 0], b' + [0, 0, 0], k);
      assert d[3 * k..3 * k + 3] == DiffPixel(data1, data2, k);
      assert PixelDiffers(d, b, k) == PixelDiffers(data1, data2, k);
    }
  }

  /** The three stores of one loop iteration: blue, green and red of one pixel. */
  method WritePixel(differences: array<bv8>, index: nat, blue: bv8, green: bv8, red: bv8)
    requires index + 3 <= differences.Length
    modifies differences
    ensures differences[..index + 3] == old(differences[..index]) + [blue, green, red]
  {
    differences[index] := blue;
    differences[index + 1] := green;
    differences[index + 2] := red;
  }

  /** The channel comparison of one loop iteration: the bytes to write for the pixel at byte `index`. */
  method ComparePixel(data1: array<bv8>, data2: array<bv8>, index: nat, ghost pixel: nat)
    returns (differenceBlue: bv8, differenceGreen: bv8, differenceRed: bv8)
    requires index == 3 * pixel && index + 2 < data1.Length && index + 2 < data2.Length
    ensures if PixelDiffers(data1[..], data2[..], pixel)
            then differenceBlue == 115 && differenceGreen == 239 && differenceRed == 255
            else differenceBlue == 0 && differenceGreen == 0 && differenceRed == 0
  {
    var blue1, green1, red1 := Masked(data1[index]), Masked(data1[index + 1]), Masked(data1[index + 2]);
    var blue2, green2, red2 := Masked(data2[index]), Masked(data2[index + 1]), Masked(data2[index + 2]);
    differenceRed, differenceGreen, differenceBlue := 0, 0, 0;
    if blue1 != blue2 || green1 != green2 || red1 != red2 {
      differenceRed, differenceGreen, differenceBlue := MatchBgr[2], MatchBgr[1], MatchBgr[0];
    }
  }

  /** A byte index below `3 * n` that starts a pixel leaves room for that whole pixel. */
  lemma NextPixelFits(pixel: nat, n: nat)
    requires 3 * pixel < n * 3
    ensures pixel + 1 <= n && 3 * pixel + 3 <= 3 * n
  {
  }

  /** One iteration appends the bytes of the next pixel to the difference image built so far. */
  lemma DiffStep(s1: seq<bv8>, s2: seq<bv8>, pixel: nat, prefix: seq<bv8>, blue: bv8, green: bv8, red: bv8)
    requires Holds(s1, s2, pixel + 1) && prefix == DiffBuffer(s1, s2, pixel)
    requires if PixelDiffers(s1, s2, pixel) then blue == 115 && green == 239 && red == 255
             else blue == 0 && green == 0 && red == 0
    ensures prefix + [blue, green, red] == DiffBuffer(s1, s2, pixel + 1)
  {
  }

  /** getDifferencesBetweenBufferedImages: a new image of `width * height` pixels, first painted in the
      MATCH colour, is overwritten pixel by pixel with the difference of the two frames. The frames are
      only read; a frame buffer too short for the pixels makes the loop throw. */
  method GetDifferencesBetweenBufferedImages(width: nat, height: nat, data1: array<bv8>, data2: array<bv8>)
    returns (r: Result<array<bv8>>)
    ensures r.Err? <==> !Holds(data1[..], data2[..], width * height)
    ensures r.Err? ==> r.error == IndexOutOfBounds
    ensures r.Ok? ==> fresh(r.value) && r.value[..] == DiffBuffer(data1[..], data2[..], width * height)
  {
    var n := width * height;
    var differences := new bv8[3 * n](i => if i % 3 == 0 then 115 else if i % 3 == 1 then 239 else 255);
    var completed := WriteDifferences(differences, data1, data2, n);
    if !completed {
      return Err(IndexOutOfBounds);
    }
    return Ok(differences);
  }

  /** The loop of getDifferencesBetweenBufferedImages over the `n` pixels: it stops early (returning
      false, where the Kotlin code throws) when a frame buffer ends before the pixels do. */
  method WriteDifferences(differences: array<bv8>, data1: array<bv8>, data2: array<bv8>, n: nat)
    returns (completed: bool)
    requires differences.Length == 3 * n && differences != data1 && differences != data2
    modifies differences
    ensures completed <==> Holds(data1[..], data2[..], n)
    ensures completed ==> differences[..] == DiffBuffer(data1[..], data2[..], n)
  {
    ghost var s1, s2 := data1[..], data2[..];
    var index: nat := 0;
    ghost var pixel: nat := 0;
    while index < n * 3
      invariant index == 3 * pixel && pixel <= n
      invariant data1[..] == s1 && data2[..] == s2
      invariant Holds(s1, s2, pixel)
      invariant differences[..index] == DiffBuffer(s1, s2, pixel)
      decreases n * 3 - index
    {
      if index + 2 >= data1.Length || index + 2 >= data2.Length {
        return false;
      }
      NextPixelFits(pixel, n);
      var differenceBlue, differenceGreen, differenceRed := ComparePixel(data1, data2, index, pixel);
      ghost var prefix := differences[..index];
      WritePixel(differences, index, differenceBlue, differenceGreen, differenceRed);
      DiffStep(s1, s2, pixel, prefix, differenceBlue, differenceGreen, differenceRed);
      index := index + 3;
      pixel := pixel + 1;
    }
    assert differences[..] == differences[..index];
    return true;
  }

  /** A frame given to the encoder: the difference image of reference frame `reference` and current
      frame `current`, or the single-coloured frame of a non-MATCH element. */
  datatype Recorded = DiffOf(reference: nat, current: nat) | Colored(element: AlignmentElement)

  /** The frame recorded for element `k`: a MATCH diffs the next frame of each video, which are the
      frames the elements before it have not consumed yet. */
  function RecordAt(alignment: seq<AlignmentElement>, k: nat): (r: Recorded)
    requires k < |alignment|
    ensures r.DiffOf? <==> alignment[k] == Match
    ensures r.Colored? ==> r.element == alignment[k]
  {
    if alignment[k] == Match then DiffOf(ConsumedFirst(alignment[..k]), ConsumedSecond(alignment[..k]))
    else Colored(alignment[k])
  }

  lemma ConsumedStep(alignment: seq<AlignmentElement>, k: nat)
    requires k < |alignment|
    ensures ConsumedFirst(alignment[..k + 1]) == ConsumedFirst(alignment[..k]) + (if alignment[k] != Insertion then 1 else 0)
    ensures ConsumedSecond(alignment[..k + 1]) == ConsumedSecond(alignment[..k]) + (if alignment[k] != Deletion then 1 else 0)
  {
    assert alignment[..k + 1] == alignment[..k] + [alignment[k]];
    ConsumedAppend(alignment[..k], [alignment[k]]);
  }

  /** A prefix of an alignment consumes no more frames than a longer prefix. */
  lemma ConsumedMonotone(alignment: seq<AlignmentElement>, i: nat, j: nat)
    requires i <= j <= |alignment|
    ensures ConsumedFirst(alignment[..i]) <= ConsumedFirst(alignment[..j])
    ensures ConsumedSecond(alignment[..i]) <= ConsumedSecond(alignment[..j])
  {
    assert alignment[..j] == alignment[..i] + alignment[i..j];
    ConsumedAppend(alignment[..i], alignment[i..j]);
  }

  /** Every reference and current frame is diffed at most once, and in video order: two MATCHes at
      positions `k < k'` diff strictly later frames of both videos at `k'`; and the frames diffed are
      frames the alignment consumes. */
  lemma DiffFramesIncrease(alignment: seq<AlignmentElement>, k: nat, k': nat)
    requires k < k' < |alignment| && alignment[k] == Match && alignment[k'] == Match
    ensures RecordAt(alignment, k).reference < RecordAt(alignment, k').reference
    ensures RecordAt(alignment, k).current < RecordAt(alignment, k').current
  {
    ConsumedStep(alignment, k);
    ConsumedMonotone(alignment, k + 1, k');
  }

  lemma DiffFramesConsumed(alignment: seq<AlignmentElement>, k: nat)
    requires k < |alignment| && alignment[k] == Match
    ensures RecordAt(alignment, k).reference < ConsumedFirst(alignment)
    ensures RecordAt(alignment, k).current < ConsumedSecond(alignment)
  {
    ConsumedStep(alignment, k);
    ConsumedMonotone(alignment, k + 1, |alignment|);
    assert alignment[..|alignment|] == alignment;
  }

  /** The alignment walk of generateDifference. `aligned` is what the algorithm's `run` returned for the
      two grabbers, which hold `referenceFrames` and `currentFrames` frames. MATCH and PERFECT take the
      next frame of both videos, INSERTION of the current video only and DELETION of the reference video
      only; taking a frame from an exhausted grabber throws (the `image!!` of IterableFrameGrabber.next).
      After the walk the algorithm's stop flag is checked once more. */
  method GenerateDifference(aligned: Result<seq<AlignmentElement>>, referenceFrames: nat, currentFrames: nat,
                            state: AlgorithmExecutionState)
    returns (r: Result<seq<Recorded>>)
    ensures aligned.Err? ==> r == Err(aligned.error)
    ensures aligned.Ok? && (ConsumedFirst(aligned.value) > referenceFrames || ConsumedSecond(aligned.value) > currentFrames)
            ==> r == Err(NullPointer)
    ensures (aligned.Ok? && ConsumedFirst(aligned.value) <= referenceFrames && ConsumedSecond(aligned.value) <= currentFrames
             && !state.alive) ==> r == Err(Stopped)
    ensures r.Ok? ==> aligned.Ok? && state.alive
    ensures r.Ok? ==> ConsumedFirst(aligned.value) <= referenceFrames && ConsumedSecond(aligned.value) <= currentFrames
    ensures r.Ok? ==> |r.value| == |aligned.value| && forall k :: 0 <= k < |r.value| ==> r.value[k] == RecordAt(aligned.value, k)
  {
    if aligned.Err? {
      return Err(aligned.error);
    }
    var alignment := aligned.value;
    var reference: nat, current: nat := 0, 0;
    var recorded: seq<Recorded> := [];
    for k := 0 to |alignment|
      invariant reference == ConsumedFirst(alignment[..k]) <= referenceFrames
      invariant current == ConsumedSecond(alignment[..k]) <= currentFrames
      invariant |recorded| == k && forall x :: 0 <= x < k ==> recorded[x] == RecordAt(alignment, x)
    {
      ConsumedStep(alignment, k);
      var el := alignment[k];
      if (el != Insertion && reference == referenceFrames) || (el != Deletion && current == currentFrames) {
        ConsumedMonotone(alignment, k + 1, |alignment|);
        assert alignment[..|alignment|] == alignment;
        return Err(NullPointer);
      }
      match el {
        case Match =>
          recorded := recorded + [DiffOf(reference, current)];
          reference, current := reference + 1, current + 1;
        case Insertion =>
          current := current + 1;
        case Deletion =>
          reference := reference + 1;
        case Perfect =>
          reference, current := reference + 1, current + 1;
      }
      if el != Match {
        recorded := recorded + [Colored(el)];
      }
    }
    assert alignment[..|alignment|] == alignment;
    var alive := CheckAlive(state);
    if alive.Fail? {
      return Err(alive.error);
    }
    r := Ok(recorded);
  }

  /** Width and height of a video. */
  datatype Dimensions = Dimensions(width: nat, height: nat)

  /** The checks of DifferenceGenerator's `init`, in their order: the reference video must use a
      lossless codec, then the current video, then both must have the same width and height; the
      generator then takes the reference video's dimensions. */
  function ValidateVideos(referenceLossless: bool, currentLossless: bool, reference: Dimensions, current: Dimensions)
    : (r: Result<Dimensions>)
    ensures r == Err(Codec(true)) <==> !referenceLossless
    ensures r == Err(Codec(false)) <==> referenceLossless && !currentLossless
    ensures r == Err(Dimension) <==> referenceLossless && currentLossless && reference != current
    ensures r.Ok? <==> referenceLossless && currentLossless && reference == current
    ensures r.Ok? ==> r.value == reference
  {
    if !referenceLossless then Err(Codec(true))
    else if !currentLossless then Err(Codec(false))
    else if reference.width != current.width || reference.height != current.height then Err(Dimension)
    else Ok(reference)
  }
}
