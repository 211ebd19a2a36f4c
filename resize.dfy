/**
 * The target size of `resize_frame` (app.py lines 279-290) and the guard that
 * decides whether it runs (line 223). Width mode fixes the width and scales the
 * height; every other `size_type` fixes the height and scales the width. The
 * scaled side is `int(side * (pixel_size / other_side))`, computed here exactly.
 */
module Resize {
  import opened Common
  import opened Decoder

  /** `settings['size_type'] and settings['pixel_size']`: a null or empty size type is the empty string. */
  predicate ShouldResize(sizeType: string, pixelSize: int) {
    sizeType != "" && pixelSize != 0
  }

  function ResizeDims(w: int, h: int, sizeType: string, pixelSize: int): (d: (int, int))
    requires w > 0 && h > 0
    ensures sizeType == "width" ==> d.0 == pixelSize
    ensures sizeType != "width" ==> d.1 == pixelSize
  {
    if sizeType == "width" then (pixelSize, TruncDiv(h * pixelSize, w))
    else (TruncDiv(w * pixelSize, h), pixelSize)
  }

  /**
   * The scaled side is the proportional size rounded toward zero, and a
   * negative target makes both sides non-positive.
   */
  lemma ResizeDimsScaled(w: int, h: int, sizeType: string, pixelSize: int)
    requires w > 0 && h > 0
    ensures var d := ResizeDims(w, h, sizeType, pixelSize);
      (sizeType == "width" && pixelSize >= 0 ==> d.1 * w <= h * pixelSize < d.1 * w + w) &&
      (sizeType != "width" && pixelSize >= 0 ==> d.0 * h <= w * pixelSize < d.0 * h + h) &&
      (pixelSize < 0 ==> d.0 <= 0 && d.1 <= 0)
  {
    if sizeType == "width" {
      TruncDivSpec(h * pixelSize, w);
      if pixelSize < 0 {
        MulMono(pixelSize, 0, h);
      }
    } else {
      TruncDivSpec(w * pixelSize, h);
      if pixelSize < 0 {
        MulMono(pixelSize, 0, w);
      }
    }
  }

  /** `cv2.resize` refuses a target with a side that is not positive. */
  function ResizeFrame(f: Frame, sizeType: string, pixelSize: int): (r: Option<Frame>)
    requires f.width > 0 && f.height > 0
    ensures r.Some? <==> ResizeDims(f.width, f.height, sizeType, pixelSize).0 > 0 &&
                         ResizeDims(f.width, f.height, sizeType, pixelSize).1 > 0
    ensures r.Some? ==> r.value.index == f.index &&
                        (r.value.width, r.value.height) == ResizeDims(f.width, f.height, sizeType, pixelSize)
  {
    var d := ResizeDims(f.width, f.height, sizeType, pixelSize);
    if d.0 > 0 && d.1 > 0 then Some(Frame(d.0, d.1, f.index)) else None
  }

  /** When the scaled side comes out whole, the aspect ratio is kept exactly. */
  lemma {:induction false} AspectPreservedWhenExact(w: int, h: int, sizeType: string, pixelSize: int)
    requires w > 0 && h > 0 && pixelSize >= 0
    ensures sizeType == "width" && (h * pixelSize) % w == 0 ==>
              ResizeDims(w, h, sizeType, pixelSize).1 * w == h * pixelSize
    ensures sizeType != "width" && (w * pixelSize) % h == 0 ==>
              ResizeDims(w, h, sizeType, pixelSize).0 * h == w * pixelSize
  {
    var d := ResizeDims(w, h, sizeType, pixelSize);
    if sizeType == "width" && (h * pixelSize) % w == 0 {
      var k := (h * pixelSize) / w;
      assert k * w == h * pixelSize;
      TruncDivUnique(h * pixelSize, w, k);
    }
    if sizeType != "width" && (w * pixelSize) % h == 0 {
      var k := (w * pixelSize) / h;
      assert k * h == w * pixelSize;
      TruncDivUnique(w * pixelSize, h, k);
    }
  }

  /** A positive target gives a usable frame exactly when the scaled side does not truncate to zero. */
  lemma {:induction false} ResizeSucceedsIff(w: int, h: int, sizeType: string, pixelSize: int)
    requires w > 0 && h > 0 && pixelSize > 0
    ensures sizeType == "width" ==>
              (ResizeDims(w, h, sizeType, pixelSize).1 > 0 <==> h * pixelSize >= w)
    ensures sizeType != "width" ==>
              (ResizeDims(w, h, sizeType, pixelSize).0 > 0 <==> w * pixelSize >= h)
  {
    if sizeType == "width" {
      TruncDivPositive(h * pixelSize, w);
    } else {
      TruncDivPositive(w * pixelSize, h);
    }
  }

  /** 640x480 scaled to width 320 becomes 320x240; to height 240 it becomes 320x240 too. */
  lemma ResizeExamples()
    ensures ResizeDims(640, 480, "width", 320) == (320, 240)
    ensures ResizeDims(640, 480, "height", 240) == (320, 240)
    ensures ResizeDims(640, 480, "", 240) == (320, 240)
  {
  }
}
