/**
 * The video decoder as the conversion sees it (the OpenCV `VideoCapture`
 * handle of app.py lines 173-182, 216-217, 239 and 275). Pixel data are not
 * modelled: a decoded frame is identified by its size and its index in the
 * source stream, and whether the read at an index succeeds is an input.
 */
module Decoder {
  /** A pixel dimension of a decoded frame. */
  type Dim = x: int | x >= 1 witness 1

  /**
   * What the decoder finds in one file: whether it opens, the reported frame
   * rate and frame count (the count already passed through `int()`), the frame
   * size, and for each index whether seeking there and reading succeeds.
   */
  datatype Video = Video(opens: bool, fps: real, frameCount: int,
                         width: Dim, height: Dim, readable: seq<bool>)
  {
    predicate ReadOk(i: int) {
      0 <= i < |readable| && readable[i]
    }
  }

  /** A frame held in memory: its pixel size and the source index it was read from. */
  datatype Frame = Frame(width: int, height: int, index: nat)

  /** An open decoder handle. `readCount` counts calls to `read()`, `releases` calls to `release()`. */
  class Capture {
    const video: Video
    var isOpen: bool
    var position: int
    ghost var readCount: nat
    ghost var releases: nat

    constructor (v: Video)
      ensures video == v && isOpen == v.opens && position == 0 && readCount == 0 && releases == 0
    {
      video := v;
      isOpen := v.opens;
      position := 0;
      readCount := 0;
      releases := 0;
    }

    /** `cap.set(CAP_PROP_POS_FRAMES, i)`. */
    method Seek(i: int)
      modifies this`position
      ensures position == i
    {
      position := i;
    }

    /** `cap.read()`: fails on a released handle or an unreadable index; a success advances the cursor. */
    method Read() returns (ok: bool, frame: Frame)
      modifies this`position, this`readCount
      ensures readCount == old(readCount) + 1
      ensures ok == (isOpen && video.ReadOk(old(position)))
      ensures ok ==> frame == Frame(video.width, video.height, old(position))
      ensures position == if ok then old(position) + 1 else old(position)
    {
      ok := isOpen && video.ReadOk(position);
      readCount := readCount + 1;
      if ok {
        frame := Frame(video.width, video.height, position);
        position := position + 1;
      } else {
        frame := Frame(video.width, video.height, 0);
      }
    }

    /** `cap.release()`. */
    method Release()
      modifies this`isOpen, this`releases
      ensures !isOpen && releases == old(releases) + 1
    {
      isOpen := false;
      releases := releases + 1;
    }
  }
}
