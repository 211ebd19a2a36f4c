/**
 * The conversion engine of `MP4ToWebPConverter` (app.py lines 147-277):
 * `convert_single_file` validates the video, names the output, samples and
 * resizes frames, releases the decoder and writes one animated WebP file;
 * `convert_files` runs it over a batch and keeps the shared status record.
 *
 * The output folder is a map from file names to entries; the WebP encoder is
 * an opaque step that stores the frames with the parameters it was given.
 */
module Engine {
  import opened Common
  import opened Decoder
  import opened Quality
  import opened Resize
  import opened Sampling
  import opened Naming

  /** The `settings` dictionary of a request. A null or empty `size_type` is "". */
  datatype Settings = Settings(fps: real, sizeType: string, pixelSize: int,
                               lossless: bool, quality: int, compression: int)

  /** One file of a batch: its path and what the decoder finds there. */
  datatype SourceFile = SourceFile(path: string, video: Video)

  /** The exceptions that leave `convert_single_file`. */
  datatype Error =
    | CannotOpen(path: string)  // line 178
    | InvalidVideo              // line 186
    | ZeroFps                   // line 190: `original_fps / target_fps` with a zero target
    | ResizeFailed              // line 290: a computed side that is not positive
    | NoFrames                  // line 243

  /** `str(e)` of each exception. */
  function ErrorText(e: Error): string {
    match e
    case CannotOpen(p) => "비디오 파일을 열 수 없습니다: " + p
    case InvalidVideo => "유효하지 않은 비디오 파일입니다"
    case ZeroFps => "float division by zero"
    case ResizeFailed => "OpenCV resize error"
    case NoFrames => "추출된 프레임이 없습니다"
  }

  /** A file in the output folder: one this engine wrote, or anything else. */
  datatype Entry =
    | Other
    | Animation(frames: seq<Frame>, durationMs: int, loop: int, lossless: bool, quality: int)

  /** The size every kept frame has: the decoded size, or the resized one (lines 223-224). */
  function FrameSize(v: Video, s: Settings): (int, int) {
    if ShouldResize(s.sizeType, s.pixelSize) then ResizeDims(v.width, v.height, s.sizeType, s.pixelSize)
    else (v.width, v.height)
  }

  predicate SizeUsable(v: Video, s: Settings) {
    FrameSize(v, s).0 > 0 && FrameSize(v, s).1 > 0
  }

  /** Some index the sampling loop visits can be read. */
  predicate SomeFrameReadable(v: Video, k: Dim) {
    exists i :: 0 <= i < v.frameCount && i % k == 0 && v.ReadOk(i)
  }

  /** What the sampling loop keeps for a valid video under valid settings. */
  function SampledFrames(v: Video, s: Settings): seq<Frame>
    requires ValidTiming(v) && s.fps != 0.0
  {
    Sampled(v, v.frameCount, FrameInterval(v.fps, s.fps), FrameSize(v, s).0, FrameSize(v, s).1)
  }

  /**
   * The exception `convert_single_file` raises for a file, if any. A resize
   * failure surfaces on the first frame that is read, so it needs one; a
   * video none of whose visited frames can be read yields no frames.
   */
  function FileError(f: SourceFile, s: Settings): Option<Error>
  {
    var v := f.video;
    if !v.opens then Some(CannotOpen(f.path))
    else if !ValidTiming(v) then Some(InvalidVideo)
    else if s.fps == 0.0 then Some(ZeroFps)
    else if !SomeFrameReadable(v, FrameInterval(v.fps, s.fps)) then Some(NoFrames)
    else if !SizeUsable(v, s) then Some(ResizeFailed)
    else None
  }

  /**
   * A file converts exactly when the decoder opens it, its timing is valid, the
   * target rate is not zero, the sampling loop keeps at least one frame and the
   * frame size is usable; it fails with "no frames" exactly when the loop keeps
   * none, and a video that opens is rejected as invalid exactly when its
   * reported timing is not positive.
   */
  lemma FileErrorCases(f: SourceFile, s: Settings)
    ensures FileError(f, s).None? <==>
              f.video.opens && ValidTiming(f.video) && s.fps != 0.0 &&
              SampledFrames(f.video, s) != [] && SizeUsable(f.video, s)
    ensures FileError(f, s) == Some(NoFrames) <==>
              f.video.opens && ValidTiming(f.video) && s.fps != 0.0 && SampledFrames(f.video, s) == []
    ensures FileError(f, s) == Some(InvalidVideo) <==> f.video.opens && !ValidTiming(f.video)
  {
    if f.video.opens && ValidTiming(f.video) && s.fps != 0.0 {
      SampledNonEmpty(f.video, s);
    }
  }

  lemma SampledNonEmpty(v: Video, s: Settings)
    requires ValidTiming(v) && s.fps != 0.0
    ensures SampledFrames(v, s) != [] <==> SomeFrameReadable(v, FrameInterval(v.fps, s.fps))
  {
    var k := FrameInterval(v.fps, s.fps);
    var d := FrameSize(v, s);
    var frames := Sampled(v, v.frameCount, k, d.0, d.1);
    if SomeFrameReadable(v, k) {
      var i :| 0 <= i < v.frameCount && i % k == 0 && v.ReadOk(i);
      SampledHas(v, v.frameCount, i, k, d.0, d.1);
    }
    if frames != [] {
      SampledShape(v, v.frameCount, k, d.0, d.1);
      assert frames[0].index < v.frameCount && frames[0].index % k == 0 && v.ReadOk(frames[0].index);
    }
  }

  /** The file `convert_single_file` writes (lines 246-267). */
  function Artifact(v: Video, s: Settings): Entry
    requires ValidTiming(v) && s.fps != 0.0
  {
    Animation(SampledFrames(v, s), FrameDuration(s.fps), 0, s.lossless,
              EffectiveQuality(s.lossless, s.quality, s.compression))
  }

  /** The name the output of `path` gets in a folder holding `existing` (lines 193-206). */
  ghost function OutputName(path: string, alnum: set<char>, existing: set<string>): string {
    var safe := SafeName(Stem(BaseName(path)), alnum);
    Candidate(safe, FirstFree(safe, existing))
  }

  /** The output folder after `convert_single_file` on `f`: unchanged when it raises. */
  ghost function AfterFile(folder: map<string, Entry>, f: SourceFile, s: Settings, alnum: set<char>): map<string, Entry> {
    if FileError(f, s).Some? then folder
    else folder[OutputName(f.path, alnum, folder.Keys) := Artifact(f.video, s)]
  }

  /** The output folder after converting the first `n` of `files` one after the other. */
  ghost function AfterFiles(folder: map<string, Entry>, files: seq<SourceFile>, n: nat, s: Settings,
                            alnum: set<char>): map<string, Entry>
    requires n <= |files|
  {
    if n == 0 then folder
    else AfterFile(AfterFiles(folder, files, n - 1, s, alnum), files[n - 1], s, alnum)
  }

  /** Every file of `before` is in `after` with the same contents. */
  ghost predicate Keeps(before: map<string, Entry>, after: map<string, Entry>) {
    forall n :: n in before ==> n in after && after[n] == before[n]
  }

  lemma KeepsTrans(a: map<string, Entry>, b: map<string, Entry>, c: map<string, Entry>)
    requires Keeps(a, b) && Keeps(b, c)
    ensures Keeps(a, c)
  {
  }

  /**
   * A successful conversion adds one file under a name the folder did not
   * hold: what was in the folder stays as it was, and the folder grows by one.
   */
  lemma AfterFileAdds(folder: map<string, Entry>, f: SourceFile, s: Settings, alnum: set<char>)
    requires FileError(f, s).None?
    ensures var after := AfterFile(folder, f, s, alnum);
      Keeps(folder, after) && |after| == |folder| + 1 &&
      after.Keys == folder.Keys + {OutputName(f.path, alnum, folder.Keys)}
  {
    FirstFreeIsFirst(SafeName(Stem(BaseName(f.path)), alnum), folder.Keys);
  }

  /**
   * A batch whose first `n` files all convert keeps every file the folder
   * held before it and adds one file per source.
   */
  lemma {:induction false} AfterFilesAdds(folder: map<string, Entry>, files: seq<SourceFile>, n: nat, s: Settings,
                                         alnum: set<char>)
    requires n <= FailIndex(files, s)
    ensures var after := AfterFiles(folder, files, n, s, alnum);
      Keeps(folder, after) && |after| == |folder| + n
  {
    AfterFilesNone(folder, files, s, alnum);
    hide *;
    if n > 0 {
      AfterFilesAdds(folder, files, n - 1, s, alnum);
      AfterFilesStep(folder, files, n - 1, s, alnum);
      KeepsTrans(folder, AfterFiles(folder, files, n - 1, s, alnum), AfterFiles(folder, files, n, s, alnum));
    }
  }

  lemma AfterFilesNone(folder: map<string, Entry>, files: seq<SourceFile>, s: Settings, alnum: set<char>)
    ensures AfterFiles(folder, files, 0, s, alnum) == folder && Keeps(folder, folder)
  {
  }

  lemma AfterFilesStep(folder: map<string, Entry>, files: seq<SourceFile>, i: nat, s: Settings, alnum: set<char>)
    requires i < FailIndex(files, s)
    ensures var before, after := AfterFiles(folder, files, i, s, alnum), AfterFiles(folder, files, i + 1, s, alnum);
      Keeps(before, after) && |after| == |before| + 1
  {
    FailIndexAt(files, s, i);
    AfterFileAdds(AfterFiles(folder, files, i, s, alnum), files[i], s, alnum);
  }

  /**
   * What a successful conversion writes: a non-empty animation whose frames all
   * have one positive size, appear in source order, number at most
   * ceil(frame count / interval), and whose quality lies in [10, 100].
   */
  lemma {:induction false} ArtifactWellFormed(f: SourceFile, s: Settings)
    requires FileError(f, s).None?
    ensures ValidTiming(f.video) && s.fps != 0.0 && SizeUsable(f.video, s)
    ensures var a := Artifact(f.video, s); var k := FrameInterval(f.video.fps, s.fps);
      a.Animation? && a.frames != [] &&
      (forall j :: 0 <= j < |a.frames| ==>
         a.frames[j].width == a.frames[0].width > 0 && a.frames[j].height == a.frames[0].height > 0) &&
      (forall j1, j2 :: 0 <= j1 < j2 < |a.frames| ==> a.frames[j1].index < a.frames[j2].index) &&
      |a.frames| <= (f.video.frameCount + k - 1) / k &&
      MinQuality <= a.quality <= MaxQuality && a.loop == 0
  {
    var v := f.video;
    var k := FrameInterval(v.fps, s.fps);
    SampledNonEmpty(v, s);
    SampledShape(v, v.frameCount, k, FrameSize(v, s).0, FrameSize(v, s).1);
    SampledCount(v, v.frameCount, k, FrameSize(v, s).0, FrameSize(v, s).1);
  }

  /**
   * The sampling loop of lines 209-237 on an open handle: visit the indices
   * below `total` that are multiples of `interval`, seek, read, skip failed
   * reads, resize when asked, keep the frame, and look at the memory every
   * `CheckEvery` kept frames. `memoryReadings` lists the utilisation seen at
   * successive checkpoints; `reclaims` counts the reclamation passes.
   */
  method CollectFrames(cap: Capture, total: nat, interval: Dim, s: Settings, memoryReadings: seq<int>)
    returns (frames: seq<Frame>, err: Option<Error>, reclaims: nat)
    requires cap.isOpen
    modifies cap`position, cap`readCount
    ensures var d := FrameSize(cap.video, s);
      var all := Sampled(cap.video, total, interval, d.0, d.1);
      err == (if all != [] && !SizeUsable(cap.video, s) then Some(ResizeFailed) else None) &&
      (err.None? ==> frames == all && reclaims == Reclaims(memoryReadings, |all|))
  {
    var v := cap.video;
    var d := FrameSize(v, s);
    frames, err, reclaims := [], None, 0;
    var frameCount := 0;
    for current := 0 to total
      invariant frames == Sampled(v, current, interval, d.0, d.1)
      invariant frameCount == |frames| && reclaims == Reclaims(memoryReadings, frameCount)
      invariant frames != [] ==> SizeUsable(v, s)
    {
      var kept, failed := VisitIndex(cap, current, interval, s);
      if failed {
        SampledHas(v, total, current, interval, d.0, d.1);
        err := Some(ResizeFailed);
        return;
      }
      if kept.None? {
        SampledSkip(v, current, interval, d.0, d.1);
        continue;
      }
      SampledKeep(v, current, interval, d.0, d.1);
      frames := frames + [kept.value];
      frameCount := frameCount + 1;
      if frameCount % CheckEvery == 0 && ReadingAt(memoryReadings, frameCount / CheckEvery) > HighWater {
        reclaims := reclaims + 1;
      }
    }
  }

  /**
   * One index of the sampling loop (lines 213-224): skip it unless it is a
   * multiple of the interval, seek and read, skip a failed read, and resize
   * when asked. `failed` is the resize error; `kept` the frame to keep.
   */
  method VisitIndex(cap: Capture, current: nat, interval: Dim, s: Settings)
    returns (kept: Option<Frame>, failed: bool)
    requires cap.isOpen
    modifies cap`position, cap`readCount
    ensures var selected := current % interval == 0 && cap.video.ReadOk(current);
      (failed <==> selected && !SizeUsable(cap.video, s)) &&
      (!failed ==> (kept.Some? <==> selected)) &&
      (kept.Some? ==> kept.value == Frame(FrameSize(cap.video, s).0, FrameSize(cap.video, s).1, current))
  {
    kept, failed := None, false;
    if current % interval != 0 {
      return;
    }
    cap.Seek(current);
    var ok, frame := cap.Read();
    if !ok {
      return;
    }
    if ShouldResize(s.sizeType, s.pixelSize) {
      var resized := ResizeFrame(frame, s.sizeType, s.pixelSize);
      if resized.None? {
        failed := true;
        return;
      }
      frame := resized.value;
    }
    kept := Some(frame);
  }

  lemma SampledSkip(v: Video, c: nat, k: Dim, w: int, h: int)
    requires c % k != 0 || !v.ReadOk(c)
    ensures Sampled(v, c + 1, k, w, h) == Sampled(v, c, k, w, h)
  {
  }

  lemma SampledKeep(v: Video, c: nat, k: Dim, w: int, h: int)
    requires c % k == 0 && v.ReadOk(c)
    ensures Sampled(v, c + 1, k, w, h) == Sampled(v, c, k, w, h) + [Frame(w, h, c)]
  {
  }

  lemma SampledHas(v: Video, upTo: nat, c: nat, k: Dim, w: int, h: int)
    requires c < upTo && c % k == 0 && v.ReadOk(c)
    ensures Sampled(v, upTo, k, w, h) != []
  {
    SampledShape(v, upTo, k, w, h);
    assert Frame(w, h, c) in Sampled(v, upTo, k, w, h);
  }

  const DoneMessagePrefix: string := "모든 파일 변환 완료! 저장 위치: "
  const ProgressMessagePrefix: string := "변환 중: "
  const ErrorMessagePrefix: string := "오류: "

  /** Index of the first file whose conversion raises, or the batch length. */
  function FailIndex(files: seq<SourceFile>, s: Settings): (k: nat)
    ensures k <= |files|
  {
    FailIndexFrom(files, s, 0)
  }

  function FailIndexFrom(files: seq<SourceFile>, s: Settings, i: nat): (k: nat)
    requires i <= |files|
    ensures i <= k <= |files|
    decreases |files| - i
  {
    if i == |files| || FileError(files[i], s).Some? then i else FailIndexFrom(files, s, i + 1)
  }

  /** Every file before the failure index converts, and the file at it, if any, raises. */
  lemma FailIndexSpec(files: seq<SourceFile>, s: Settings)
    ensures var k := FailIndex(files, s);
      (forall j :: 0 <= j < k ==> FileError(files[j], s).None?) && (k < |files| ==> FileError(files[k], s).Some?)
  {
    FailIndexFromSpec(files, s, 0);
  }

  /** A file reached while all before it converted converts exactly when it is not the first failure. */
  lemma FailIndexAt(files: seq<SourceFile>, s: Settings, i: nat)
    requires i < |files| && i <= FailIndex(files, s)
    ensures FileError(files[i], s).None? <==> i < FailIndex(files, s)
  {
    FailIndexSpec(files, s);
  }

  /** Conversely, when file `k` raises and every earlier file converts, the batch stops at `k`. */
  lemma StopsAtFirstFailure(files: seq<SourceFile>, s: Settings, k: nat)
    requires k < |files| && FileError(files[k], s).Some?
    requires forall j :: 0 <= j < k ==> FileError(files[j], s).None?
    ensures FailIndex(files, s) == k
  {
    FailIndexSpec(files, s);
  }

  lemma {:induction false} FailIndexFromSpec(files: seq<SourceFile>, s: Settings, i: nat)
    requires i <= |files|
    ensures var k := FailIndexFrom(files, s, i);
      (forall j :: i <= j < k ==> FileError(files[j], s).None?) && (k < |files| ==> FileError(files[k], s).Some?)
    decreases |files| - i
  {
    if i < |files| && FileError(files[i], s).None? {
      FailIndexFromSpec(files, s, i + 1);
    }
  }

  /** `int((i + 1) / n * 100)` at line 162, computed exactly: within [0, 100], and 100 only at the end. */
  lemma {:induction false} ProgressBounds(done: int, n: int)
    requires 0 < done <= n
    ensures 0 <= TruncDiv(done * 100, n) <= 100
    ensures TruncDiv(done * 100, n) == 100 <==> done == n
  {
    var p := TruncDiv(done * 100, n);
    TruncDivSpec(done * 100, n);
    MulMono(done, n, 100);
    if p > 100 {
      MulMono(101, p, n);
    }
    if done == n {
      TruncDivUnique(n * 100, n, 100);
    } else {
      MulMono(done, n - 1, 100);
      if p >= 100 { MulMono(100, p, n); }
    }
  }

  class Converter {
    var isConverting: bool
    var progress: int
    var currentFile: string
    var totalFiles: int
    var completedFiles: int
    var message: string
    var outputFolder: string
    /** The output folder's files by name. */
    var folder: map<string, Entry>

    /** Lines 24-33. */
    constructor (outputFolder: string, folder: map<string, Entry>)
      ensures !isConverting && progress == 0 && currentFile == "" && totalFiles == 0
      ensures completedFiles == 0 && message == ""
      ensures this.outputFolder == outputFolder && this.folder == folder
    {
      isConverting, progress, currentFile := false, 0, "";
      totalFiles, completedFiles, message := 0, 0, "";
      this.outputFolder, this.folder := outputFolder, folder;
    }

    /**
     * `convert_single_file` (lines 171-277). The decoder handle, once created,
     * is released exactly once: on the normal path at line 239 (after which
     * the local is cleared), otherwise in the handler at line 275.
     */
    method ConvertSingleFile(src: SourceFile, s: Settings, alnum: set<char>, memoryReadings: seq<int>)
      returns (err: Option<Error>, ghost cap: Capture)
      modifies this`folder
      ensures fresh(cap) && cap.video == src.video && cap.releases == 1 && !cap.isOpen
      ensures err == FileError(src, s)
      // rejected files are never sampled: no frame is read and the handle is never moved
      ensures err.Some? && err.value in {CannotOpen(src.path), InvalidVideo, ZeroFps} ==>
                cap.readCount == 0 && cap.position == 0
      ensures folder == AfterFile(old(folder), src, s, alnum)
    {
      var handle: Capture? := new Capture(src.video);
      cap := handle;
      var v := handle.video;
      if !handle.isOpen {
        err := Some(CannotOpen(src.path));
      } else if v.frameCount <= 0 || v.fps <= 0.0 {
        err := Some(InvalidVideo);
      } else if s.fps == 0.0 {
        err := Some(ZeroFps);
      } else {
        var released;
        err, released := SampleAndWrite(handle, src, s, alnum, memoryReadings);
        if released {
          handle := null;
        }
      }
      if err.Some? && handle != null {
        handle.Release();
      }
    }

    /**
     * Lines 189-267, the body of `convert_single_file` once the handle is open
     * and the timing valid: name the output, sample, release the handle, and
     * write the animation. `released` tells whether line 239 was reached.
     */
    method SampleAndWrite(handle: Capture, src: SourceFile, s: Settings, alnum: set<char>,
                          memoryReadings: seq<int>)
      returns (err: Option<Error>, released: bool)
      requires handle.isOpen && handle.video == src.video && handle.releases == 0
      requires src.video.opens && ValidTiming(src.video) && s.fps != 0.0
      modifies this`folder, handle`position, handle`readCount, handle`isOpen, handle`releases
      ensures err == FileError(src, s)
      ensures handle.releases == (if released then 1 else 0) && (released ==> !handle.isOpen)
      ensures err.None? ==> released
      ensures folder == AfterFile(old(folder), src, s, alnum)
    {
      var interval := FrameInterval(src.video.fps, s.fps);
      var safe := SafeName(Stem(BaseName(src.path)), alnum);
      var name := ResolveOutputName(safe, folder.Keys);

      var frames, sampleErr, _ := CollectFrames(handle, src.video.frameCount, interval, s, memoryReadings);
      SampledNonEmpty(src.video, s);
      released := false;
      if sampleErr.Some? {
        err := sampleErr;
        return;
      }
      handle.Release();
      released := true;

      if frames == [] {
        err := Some(NoFrames);
        return;
      }
      var duration := FrameDuration(s.fps);
      var quality := EffectiveQuality(s.lossless, s.quality, s.compression);
      folder := folder[name := Animation(frames, duration, 0, s.lossless, quality)];
      err := None;
    }

    /** Lines 157-159: the file being converted becomes the status. */
    method Announce(filename: string)
      modifies this`currentFile, this`message
      ensures currentFile == filename && message == ProgressMessagePrefix + filename
    {
      currentFile := filename;
      message := ProgressMessagePrefix + filename;
    }

    /**
     * One pass of the loop at lines 155-162: announce file `i`, convert it and,
     * when that succeeds, count it and advance the progress percentage.
     */
    method ConvertNext(files: seq<SourceFile>, i: nat, s: Settings, alnum: set<char>,
                       memoryReadings: seq<int>)
      returns (err: Option<Error>)
      requires i < |files| && i <= FailIndex(files, s)
      modifies this`currentFile, this`message, this`folder, this`completedFiles, this`progress
      ensures err == FileError(files[i], s)
      // file `i` is reached only when all before it converted: it converts unless it is the first failure
      ensures err.None? <==> i < FailIndex(files, s)
      ensures currentFile == BaseName(files[i].path)
      ensures message == ProgressMessagePrefix + currentFile
      ensures folder == AfterFile(old(folder), files[i], s, alnum)
      ensures err.Some? ==> completedFiles == old(completedFiles) && progress == old(progress)
      ensures err.None? ==>
                completedFiles == old(completedFiles) + 1 && progress == TruncDiv((i + 1) * 100, |files|)
    {
      Announce(BaseName(files[i].path));
      ghost var cap;
      err, cap := ConvertSingleFile(files[i], s, alnum, memoryReadings);
      FailIndexAt(files, s, i);
      if err.None? {
        completedFiles := completedFiles + 1;
        progress := TruncDiv((i + 1) * 100, |files|);
      }
    }

    /**
     * The loop of lines 154-162 with the status counters reset: convert the
     * files in order until one raises, which `failure` then holds.
     */
    method ConvertEach(files: seq<SourceFile>, s: Settings, alnum: set<char>,
                       memoryReadings: seq<seq<int>>)
      returns (failure: Option<Error>)
      requires completedFiles == 0
      modifies this`completedFiles, this`progress, this`currentFile, this`message, this`folder
      ensures completedFiles == FailIndex(files, s)
      ensures failure.None? <==> completedFiles == |files|
      ensures failure.Some? ==> failure == FileError(files[completedFiles], s)
      ensures progress == (if completedFiles == 0 then old(progress) else TruncDiv(completedFiles * 100, |files|))
      ensures folder == AfterFiles(old(folder), files, completedFiles, s, alnum)
    {
      failure := None;
      var i := 0;
      while i < |files| && failure.None?
        invariant i <= FailIndex(files, s) && completedFiles == i
        invariant failure.Some? ==> i == FailIndex(files, s) < |files| && failure == FileError(files[i], s)
        invariant progress == (if i == 0 then old(progress) else TruncDiv(i * 100, |files|))
        invariant folder == AfterFiles(old(folder), files, i, s, alnum)
        decreases |files| - i, if failure.None? then 1 else 0
      {
        var err := ConvertNext(files, i, s, alnum, if i < |memoryReadings| then memoryReadings[i] else []);
        if err.Some? {
          failure := err;
        } else {
          i := i + 1;
        }
      }
    }

    /**
     * `convert_files` (lines 147-169). The first file that raises ends the
     * batch: the exception leaves the loop and is recorded as the message.
     */
    method ConvertFiles(files: seq<SourceFile>, s: Settings, alnum: set<char>,
                        memoryReadings: seq<seq<int>>)
      modifies this`isConverting, this`totalFiles, this`completedFiles, this`progress
      modifies this`currentFile, this`message, this`folder
      ensures !isConverting && totalFiles == |files|
      ensures completedFiles == FailIndex(files, s)
      ensures completedFiles == |files| ==>
                message == DoneMessagePrefix + outputFolder &&
                progress == (if files == [] then old(progress) else 100)
      ensures completedFiles < |files| ==>
                FileError(files[completedFiles], s).Some? &&
                message == ErrorMessagePrefix + ErrorText(FileError(files[completedFiles], s).value) &&
                progress == (if completedFiles == 0 then old(progress) else TruncDiv(completedFiles * 100, |files|))
      ensures folder == AfterFiles(old(folder), files, completedFiles, s, alnum)
    {
      isConverting := true;
      totalFiles := |files|;
      completedFiles := 0;
      var failure := ConvertEach(files, s, alnum, memoryReadings);
      if failure.Some? {
        message := ErrorMessagePrefix + ErrorText(failure.value);
      } else {
        if files != [] {
          ProgressBounds(|files|, |files|);
        }
        message := DoneMessagePrefix + outputFolder;
      }
      isConverting := false;
    }
  }

}
