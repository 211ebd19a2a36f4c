/**
 * Frame sampling (app.py lines 185-190, 209-237 and 246): the validity check on
 * the reported timing, the stride between sampled frames, the frames the
 * sampling loop keeps, the advisory memory checkpoints and the per-frame display time.
 */
module Sampling {
  import opened Common
  import opened Decoder

  /** Line 185: a video whose frame count or frame rate is not positive is rejected. */
  predicate ValidTiming(v: Video) {
    v.frameCount > 0 && v.fps > 0.0
  }

  /** Line 190: `max(1, int(original_fps / target_fps))`. */
  function FrameInterval(fps: real, targetFps: real): Dim
    requires targetFps != 0.0
  {
    var n := TruncReal(fps / targetFps);
    if n < 1 then 1 else n
  }

  /**
   * A source at less than twice the target rate keeps every frame; otherwise
   * the stride is the rate ratio rounded down.
   */
  lemma FrameIntervalSpec(fps: real, targetFps: real)
    requires targetFps != 0.0
    ensures var k := FrameInterval(fps, targetFps);
      (fps / targetFps < 2.0 ==> k == 1) &&
      (fps / targetFps >= 1.0 ==> k as real <= fps / targetFps < k as real + 1.0)
  {
    TruncRealSpec(fps / targetFps);
  }

  /**
   * Line 246: `int(1000 / target_fps)`, the display time of one frame: the
   * frame period in whole milliseconds, rounded toward zero.
   */
  function FrameDuration(targetFps: real): int
    requires targetFps != 0.0
  {
    TruncReal(1000.0 / targetFps)
  }

  lemma FrameDurationSpec(targetFps: real)
    requires targetFps != 0.0
    ensures var ms := FrameDuration(targetFps);
      (targetFps > 0.0 ==> 0 <= ms && ms as real <= 1000.0 / targetFps < ms as real + 1.0) &&
      (targetFps < 0.0 ==> ms <= 0)
  {
    TruncRealSpec(1000.0 / targetFps);
  }

  /** The indices the sampling loop visits among the first `upTo`: the multiples of the stride. */
  function Selected(upTo: nat, k: Dim): (r: seq<nat>)
    ensures forall j :: 0 <= j < |r| ==> r[j] < upTo && r[j] % k == 0
    ensures forall i :: 0 <= i < upTo && i % k == 0 ==> i in r
    ensures forall j1, j2 :: 0 <= j1 < j2 < |r| ==> r[j1] < r[j2]
  {
    if upTo == 0 then []
    else Selected(upTo - 1, k) + (if (upTo - 1) % k == 0 then [upTo - 1] else [])
  }

  /**
   * The frames the loop has kept after visiting the first `upTo` indices:
   * every selected index whose read succeeds, in index order, each of size w x h.
   */
  function Sampled(v: Video, upTo: nat, k: Dim, w: int, h: int): seq<Frame>
  {
    if upTo == 0 then []
    else
      var i := upTo - 1;
      Sampled(v, i, k, w, h) + (if i % k == 0 && v.ReadOk(i) then [Frame(w, h, i)] else [])
  }

  /**
   * Every kept frame has size w x h and comes from a visited index whose read
   * succeeds; every such index yields a kept frame; the frames are in index order.
   */
  lemma {:induction false} SampledShape(v: Video, upTo: nat, k: Dim, w: int, h: int)
    ensures SampledAsSpecified(v, upTo, k, w, h, Sampled(v, upTo, k, w, h))
  {
    if upTo > 0 {
      var i := upTo - 1;
      assert Sampled(v, upTo, k, w, h) ==
             Sampled(v, i, k, w, h) + (if i % k == 0 && v.ReadOk(i) then [Frame(w, h, i)] else []);
      hide *;
      SampledShape(v, i, k, w, h);
      SampledStep(v, i, k, w, h, Sampled(v, i, k, w, h));
    }
  }

  /** `r` holds one w x h frame per visited index below `upTo` whose read succeeds, in index order. */
  predicate SampledAsSpecified(v: Video, upTo: nat, k: Dim, w: int, h: int, r: seq<Frame>) {
    (forall j :: 0 <= j < |r| ==>
       r[j] == Frame(w, h, r[j].index) && r[j].index < upTo && r[j].index % k == 0 && v.ReadOk(r[j].index)) &&
    (forall i :: 0 <= i < upTo && i % k == 0 && v.ReadOk(i) ==> Frame(w, h, i) in r) &&
    (forall j1, j2 :: 0 <= j1 < j2 < |r| ==> r[j1].index < r[j2].index)
  }

  lemma SampledStep(v: Video, i: nat, k: Dim, w: int, h: int, r: seq<Frame>)
    requires SampledAsSpecified(v, i, k, w, h, r)
    ensures SampledAsSpecified(v, i + 1, k, w, h, r + (if i % k == 0 && v.ReadOk(i) then [Frame(w, h, i)] else []))
  {
    var r' := r + (if i % k == 0 && v.ReadOk(i) then [Frame(w, h, i)] else []);
    forall j | 0 <= j < |r|
      ensures r'[j] == r[j]
    {
    }
  }

  /** Exactly ceil(upTo / k) indices are visited. */
  lemma {:induction false} SelectedCount(upTo: nat, k: Dim)
    ensures |Selected(upTo, k)| == (upTo + k - 1) / k
  {
    if upTo == 0 {
      DivModUnique(k - 1, k, 0, k - 1);
    } else {
      SelectedCount(upTo - 1, k);
      DivStep(upTo + k - 2, k);
      ModShift(upTo - 1, k);
    }
  }

  /** At most ceil(upTo / k) frames are kept: failed reads only remove frames. */
  lemma {:induction false} SampledCount(v: Video, upTo: nat, k: Dim, w: int, h: int)
    ensures |Sampled(v, upTo, k, w, h)| <= |Selected(upTo, k)| == (upTo + k - 1) / k
  {
    SelectedCount(upTo, k);
    if upTo > 0 {
      SampledCount(v, upTo - 1, k, w, h);
    }
  }

  /** When every read succeeds, a frame is kept for each visited index. */
  lemma {:induction false} SampledAllReadable(v: Video, upTo: nat, k: Dim, w: int, h: int)
    requires forall i :: 0 <= i < upTo ==> v.ReadOk(i)
    ensures |Sampled(v, upTo, k, w, h)| == |Selected(upTo, k)|
  {
    if upTo > 0 {
      SampledAllReadable(v, upTo - 1, k, w, h);
    }
  }

  /** The memory guard looks at the system every `CheckEvery` kept frames (line 234). */
  const CheckEvery: nat := 200
  /** Utilisation above this percentage triggers a reclamation pass (line 236). */
  const HighWater: int := 85

  /**
   * The utilisation reported at the c-th checkpoint (counting from 1), where
   * `readings` lists what the system reports; later checkpoints see no pressure.
   */
  function ReadingAt(readings: seq<int>, c: nat): int {
    if 1 <= c <= |readings| then readings[c - 1] else 0
  }

  /** Reclamation passes triggered while `kept` frames were appended. */
  function Reclaims(readings: seq<int>, kept: nat): nat
  {
    if kept == 0 then 0
    else
      Reclaims(readings, kept - 1) +
        (if kept % CheckEvery == 0 && ReadingAt(readings, kept / CheckEvery) > HighWater then 1 else 0)
  }

  /** At most one pass per checkpoint: no more than `kept / CheckEvery` passes. */
  lemma {:induction false} ReclaimsBound(readings: seq<int>, kept: nat)
    ensures Reclaims(readings, kept) <= kept / CheckEvery
  {
    if kept > 0 {
      ReclaimsBound(readings, kept - 1);
      DivStep(kept - 1, CheckEvery);
    }
  }

  /** A 10-second clip at 30 fps sampled at 10 fps: stride 3, 100 frames, 100 ms each. */
  lemma {:induction false} EndToEndExample(v: Video)
    requires v.fps == 30.0 && v.frameCount == 300
    requires forall i :: 0 <= i < 300 ==> v.ReadOk(i)
    ensures FrameInterval(v.fps, 10.0) == 3
    ensures |Sampled(v, 300, 3, v.width, v.height)| == 100
    ensures FrameDuration(10.0) == 100
  {
    SampledAllReadable(v, 300, 3, v.width, v.height);
    SelectedCount(300, 3);
  }
}
