/** VideoGeneratorImpl.kt: turns ARGB pixel buffers into BGR frames and records them, creating the
    recorder on the first frame. The recorder itself (an FFmpeg encoder writing a file) is reduced to
    its settings and the list of frames it has been given. */
module VideoGenerator {
  import opened Errors

  /** Blue, green and red of an ARGB pixel, as `loadFrame` extracts them: the low byte, the byte above
      it and the byte above that. */
  function Blue(p: bv32): bv8 { (p & 0xff) as bv8 }
  function Green(p: bv32): bv8 { ((p >> 8) & 0xff) as bv8 }
  function Red(p: bv32): bv8 { ((p >> 16) & 0xff) as bv8 }

  /** The BGR bytes of the first `n` pixels, three per pixel. */
  function Bgr(pixels: seq<bv32>, n: nat): (r: seq<bv8>)
    requires n <= |pixels|
    ensures |r| == 3 * n
  {
    if n == 0 then [] else Bgr(pixels, n - 1) + [Blue(pixels[n - 1]), Green(pixels[n - 1]), Red(pixels[n - 1])]
  }

  /** Byte 3k of the frame is the blue channel of pixel k, byte 3k+1 its green and byte 3k+2 its red. */
  lemma {:induction false} BgrChannels(pixels: seq<bv32>, n: nat, k: nat)
    requires n <= |pixels| && k < n
    ensures Bgr(pixels, n)[3 * k] == Blue(pixels[k])
    ensures Bgr(pixels, n)[3 * k + 1] == Green(pixels[k])
    ensures Bgr(pixels, n)[3 * k + 2] == Red(pixels[k])
  {
    if k < n - 1 {
      BgrChannels(pixels, n - 1, k);
    }
  }

  /** Reassembling the three bytes gives the pixel back without its alpha byte: the conversion keeps
      exactly the colour and drops only the transparency. */
  lemma ChannelsKeepColour(p: bv32)
    ensures ((Red(p) as bv32) << 16) | ((Green(p) as bv32) << 8) | (Blue(p) as bv32) == p & 0x00ff_ffff
  {
  }

  /** The target index of pixel `i`: `(i / width * width + i % width) * 3`, which is `3 * i`. */
  function TargetIndex(i: nat, width: nat): (r: nat)
    requires width > 0
    ensures r == 3 * i
  {
    (i / width * width + i % width) * 3
  }

  /** The state of the recorder field: not yet created (`lateinit` and unset), recording frames of the
      given size, or stopped and released by `save`. */
  datatype Recorder = Uninitialized | Started(width: nat, height: nat) | Released(width: nat, height: nat)

  /** Only an empty image has a zero width; every pixel index is below a positive width times height. */
  lemma PixelsNeedWidth(width: nat, height: nat)
    ensures width * height > 0 ==> width > 0
    ensures width * height == 0 ==> width == 0 || height == 0
  {
  }

  class VideoGeneratorImpl {
    var recorder: Recorder
    /** The frames given to the recorder, in order. */
    var frames: seq<seq<bv8>>

    constructor ()
      ensures recorder == Uninitialized && frames == []
    {
      recorder := Uninitialized;
      frames := [];
    }

    /** `loadFrame(pixels, width, height)`: creates and starts the recorder with this frame's size if
        there is none yet, converts the first `width * height` pixels to BGR and records the frame. A
        pixel buffer shorter than that makes the conversion loop throw, after the recorder was created. */
    method LoadFrame(pixels: array<bv32>, width: nat, height: nat) returns (r: Outcome)
      modifies this
      ensures old(recorder) == Uninitialized ==> recorder == Started(width, height)
      ensures old(recorder) != Uninitialized ==> recorder == old(recorder)
      ensures r == Pass <==> width * height <= pixels.Length
      ensures r != Pass ==> r == Fail(IndexOutOfBounds) && frames == old(frames)
      ensures r == Pass ==> frames == old(frames) + [Bgr(pixels[..], width * height)]
    {
      if recorder == Uninitialized {
        recorder := Started(width, height);
      }
      var n := width * height;
      PixelsNeedWidth(width, height);
      var frameData := new bv8[n * 3];
      var completed := Convert(frameData, pixels, width, n);
      if !completed {
        return Fail(IndexOutOfBounds);
      }
      frames := frames + [frameData[..]];
      r := Pass;
    }

    /** `save()`: stops and releases the recorder; without one there is no video to finish. */
    method Save() returns (r: Outcome)
      modifies this
      ensures old(recorder) == Uninitialized <==> r == Fail(RecorderNotInitialized)
      ensures old(recorder) == Uninitialized ==> recorder == Uninitialized
      ensures old(recorder) != Uninitialized ==> r == Pass && recorder == Released(old(recorder).width, old(recorder).height)
      ensures frames == old(frames)
    {
      if recorder == Uninitialized {
        return Fail(RecorderNotInitialized);
      }
      recorder := Released(recorder.width, recorder.height);
      r := Pass;
    }
  }

  /** The conversion loop of `loadFrame` over `n` pixels: returns false where the Kotlin code throws
      because the pixel buffer ends early. */
  method Convert(frameData: array<bv8>, pixels: array<bv32>, width: nat, n: nat) returns (completed: bool)
    requires frameData.Length == 3 * n && (n > 0 ==> width > 0)
    modifies frameData
    ensures completed <==> n <= pixels.Length
    ensures completed ==> frameData[..] == Bgr(pixels[..], n)
  {
    for i := 0 to n
      invariant i <= pixels.Length
      invariant frameData[..3 * i] == Bgr(pixels[..], i)
    {
      if i >= pixels.Length {
        return false;
      }
      var fiIndex := TargetIndex(i, width);
      ghost var prefix := frameData[..3 * i];
      var p := pixels[i];
      frameData[fiIndex] := Blue(p);
      frameData[fiIndex + 1] := Green(p);
      frameData[fiIndex + 2] := Red(p);
      assert frameData[..3 * (i + 1)] == prefix + [Blue(p), Green(p), Red(p)];
    }
    assert frameData[..] == frameData[..3 * n];
    return true;
  }
}
