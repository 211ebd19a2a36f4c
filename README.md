# Video to animated WebP conversion engine, in Dafny

This project models the conversion engine of the `MP4ToWebPConverter` class in
`app.py` and proves properties of it. The engine is made of two methods:

- `convert_single_file` opens one video with the decoder and rejects invalid
  timing. It derives a safe, collision-free output name and samples every
  `frame_interval`-th frame, resizing each one when asked. It watches memory
  every 200 kept frames, releases the decoder, computes the frame duration and
  the effective quality, and writes one animated WebP file.
- `convert_files` runs `convert_single_file` over a batch. It keeps the shared
  status record: `is_converting`, `total_files`, `completed_files`,
  `progress`, `current_file` and `message`.

The model has one module per concern:

| file | module | what it holds |
|---|---|---|
| `common.dfy` | `Common` | `Option`; Python's `int()` of an exact quotient (truncation toward zero) |
| `quality.dfy` | `Quality` | the lossless/quality/compression mapping to the encoder quality |
| `decoder.dfy` | `Decoder` | the video as the decoder sees it, and the `Capture` handle class (seek, read, release) |
| `resize.dfy` | `Resize` | the resize guard and the target size of `resize_frame` |
| `sampling.dfy` | `Sampling` | timing validity, the stride, the frames the loop keeps, the memory checkpoints, the frame duration |
| `naming.dfy` | `Naming` | base name, extension stripping, the character filter, `rstrip`, the fallback, the `name_k.webp` collision search |
| `batch_size.dfy` | `BatchSize` | `get_optimal_batch_size` |
| `engine.dfy` | `Engine` | per-file errors, the output folder, the sampling loop, and the `Converter` class with its status fields |

How the model represents the program:

- **Decoder handle.** `Capture` is a class whose fields change in place.
  A ghost counter `releases` records how often `release()` is called.
  `ConvertSingleFile` proves the handle is released exactly once on every path.
- **Output folder.** The folder is a `map` from file names to entries.
  A successful file adds one entry under the name the collision loop picks.
  A failed file leaves the folder unchanged.
- **Sampling loop.** The loop of lines 212-237 is a `for` loop.
  It is proved to keep exactly the frames that the recursive specification `Sampled` describes.
- **Batch loop.** The loop of lines 154-162 is a `while` loop.
  It is proved against the failure index, which is the first file whose conversion raises.
- **Arithmetic.** Quantities the source computes in floating point are computed exactly:
  - the fps ratio and the frame duration as `real` values, truncated toward zero;
  - quality, resize sides and progress with integer truncating division.

A failing file ends the batch. The exception raised by the call at line 159
leaves the `for` loop and is caught at line 166. So the files after it are not
attempted, `completed_files` stays at the index of the failing file, and the
message becomes `오류: ` followed by the error text. `is_converting` is cleared
in the `finally` clause at line 169 on both paths.

Python's `int()` truncates toward zero. It is applied to the stride (line 190),
to the scaled resize side (lines 285 and 288), to the frame duration (line 246),
to the quality (line 253) and to the progress (line 162).

The resize at line 224 runs only when `size_type` is non-empty and
`pixel_size` is non-zero (line 223), so a `pixel_size` of 0 leaves the frames at
their decoded size. A negative `pixel_size`, or a scaled side that truncates to
0, gives `cv2.resize` a side that is not positive, and the call raises on the
first frame that is read. Nothing checks the settings before the first file is
opened.

## Model

| member | source | states |
|---|---|---|
| Common.TruncDivSpec | app.py:253 | `int(a / b)` is the exact quotient rounded toward zero: `q*b` is at most one divisor away from `a`, on the side of zero, for either sign of `a` |
| Common.TruncRealSpec | app.py:190 | `int()` of a real rounds toward zero: the result is within one of the value, on the side of zero |
| Common.TruncDivUnique | app.py:283-288 | a non-negative quotient is the unique `q` with `q*b <= a < q*b + b` |
| Common.TruncDivPositive | app.py:283-288 | a truncated non-negative quotient is positive exactly when the dividend reaches the divisor |
| Quality.Clamp | app.py:254 | `max(lo, min(hi, x))` lies in `[lo, hi]`: it is `lo` below the range, `hi` above it, and `x` inside it |
| Quality.EffectiveQuality | app.py:249-254 | the encoder quality is in `[10, 100]`; it is 100 when lossless; otherwise it is 100 exactly when the discounted quality reaches 100, 10 exactly when the discount is below 11, and in between it is the discount truncated |
| Quality.QualityMonotone | app.py:252-254 | a higher base quality never lowers the encoder quality |
| Quality.CompressionAntitone | app.py:252-254 | more compression never raises the encoder quality |
| Quality.QualityExamples | app.py:249-254 | 90 at compression 0 gives 90; at compression 100 it gives 45; 5 is lifted to 10; lossless always gives 100 |
| Decoder.Capture.constructor | app.py:175-177 | a new handle is open exactly when the file opens, at position 0, with no read and no release yet |
| Decoder.Capture.Seek | app.py:216 | seeking sets the read position |
| Decoder.Capture.Read | app.py:217-220 | every call counts as one read; it succeeds exactly when the handle is open and the index is readable; the frame has the video's size and the index; success advances the position |
| Decoder.Capture.Release | app.py:239-240 | releasing closes the handle and counts one more release |
| Resize.ResizeDims | app.py:283-288 | width mode fixes the width to `pixel_size`; every other mode fixes the height |
| Resize.ResizeDimsScaled | app.py:283-288 | the scaled side is `other_side * pixel_size / side` truncated toward zero; a negative target makes both sides non-positive |
| Resize.ResizeFrame | app.py:279-290 | resizing yields a frame exactly when both target sides are positive; that frame keeps its index and has the target size |
| Resize.AspectPreservedWhenExact | app.py:283-288 | when the scaled side divides exactly, the aspect ratio is kept exactly |
| Resize.ResizeSucceedsIff | app.py:283-290 | for a positive target, resizing succeeds exactly when the scaled side does not truncate to zero |
| Resize.ResizeExamples | app.py:281-288 | 640x480 scaled to width 320 or to height 240 is 320x240 |
| Sampling.FrameIntervalSpec | app.py:190 | the stride is 1 when the source rate is below twice the target; otherwise it is the rate ratio rounded down |
| Sampling.FrameDurationSpec | app.py:246 | the frame duration is `1000 / target_fps` rounded toward zero: non-negative and within 1 ms for a positive rate, non-positive for a negative one |
| Sampling.Selected | app.py:212-214 | the visited indices are exactly the multiples of the stride below the frame count, in increasing order |
| Sampling.SelectedCount | app.py:212-214 | exactly `ceil(total_frames / frame_interval)` indices are visited |
| Sampling.SampledShape | app.py:212-231 | every kept frame has the common size and comes from a visited index whose read succeeded; every such index yields a kept frame; the frames are in index order |
| Sampling.SampledCount | app.py:212-231 | at most `ceil(total_frames / frame_interval)` frames are kept |
| Sampling.SampledAllReadable | app.py:216-220 | when every read succeeds, one frame is kept per visited index |
| Sampling.ReclaimsBound | app.py:231-237 | at most one reclamation pass per 200 kept frames |
| Sampling.EndToEndExample | app.py:185-246 | a 300-frame 30 fps clip sampled at 10 fps has stride 3, keeps 100 frames, and shows each for 100 ms |
| Naming.BaseNameIsLastComponent | app.py:193 | the base name is the suffix of the path after its last `/`: it holds no `/` and is the whole path or follows a `/` |
| Naming.LastDotSpec | app.py:193 | the index found holds a dot and no dot follows it; -1 means the name has no dot |
| Naming.LastDotAt | app.py:193 | a dot with no dot after it is the one found |
| Naming.StemSpec | app.py:193 | the stem is a prefix of the name; when shorter, a dot follows it, no later dot exists, and it holds a character other than a dot; the name is kept whole exactly when only dots precede its last dot |
| Naming.KeepAllowedSpec | app.py:194 | the filter never lengthens the name and keeps only alphanumerics, space, `-` and `_` |
| Naming.KeepAllowedOrdered | app.py:194 | the kept characters stay in their original order |
| Naming.KeepAllowedCounts | app.py:194 | every occurrence of an allowed character is kept, and nothing else |
| Naming.RStripSpec | app.py:194 | `rstrip` removes a suffix of whitespace only, and the result does not end in whitespace |
| Naming.TrimmedSpec | app.py:194 | the filtered, stripped stem keeps allowed characters in order, keeps every allowed non-space one, and is empty exactly when nothing else is there |
| Naming.SafeNameSpec | app.py:194-196 | the safe name is never empty and never ends in whitespace; it is "converted" or an ordered selection of allowed stem characters; every allowed non-space character survives; a stem with nothing to keep falls back |
| Naming.SafeNameIdempotent | app.py:194-196 | sanitising a safe name again changes nothing |
| Naming.NatToStringDigits | app.py:204 | `str(n)` is a non-empty string of digits with no leading zero unless `n` is 0 |
| Naming.DecimalRoundTrip | app.py:204 | reading `str(n)` back as a decimal number gives `n` |
| Naming.CandidateShape | app.py:198-204 | every candidate starts with the safe name and ends in `.webp`; only the first adds nothing else |
| Naming.CandidateInjective | app.py:198-204 | different attempts never produce the same name |
| Naming.FirstFreeFromSpec | app.py:201-206 | when all earlier attempts are taken, the search stops at the first free attempt at or after its start |
| Naming.FirstFreeIsFirst | app.py:201-206 | the chosen name is not in the folder, and every earlier candidate is |
| Naming.ResolveOutputName | app.py:198-206 | the collision loop returns the first candidate that does not exist |
| Naming.StemExample | app.py:193 | `../../evil*name.mp4` has stem `evil*name` |
| Naming.SanitizeExample | app.py:194-196 | `evil*name` becomes `evilname`; `clip` stays `clip` |
| Naming.CandidateExamples | app.py:198-204 | the candidates for `clip` are `clip.webp`, `clip_1.webp`, `clip_2.webp` |
| Naming.CollisionExample | app.py:198-206 | with `clip.webp` in the folder the output is `clip_1.webp`; with `clip_1.webp` there too it is `clip_2.webp` |
| BatchSize.OptimalBatchSize | app.py:133-145 | 1000 at 16 GiB or more, 500 from 8 GiB, 250 from 4 GiB, 100 below; each bracket exactly |
| BatchSize.BatchSizeMonotone | app.py:138-145 | more free memory never gives a smaller batch |
| Engine.FileErrorCases | app.py:171-243 | a file converts exactly when it opens, its timing is valid, the target rate is not zero, the loop keeps a frame and the frame size is usable; "no frames" and "invalid video" occur exactly in their cases |
| Engine.SampledNonEmpty | app.py:212-243 | the loop keeps some frame exactly when some visited index is readable |
| Engine.ArtifactWellFormed | app.py:209-267 | a written animation is non-empty; its frames share one positive size and are in source order; there are at most `ceil(total_frames / frame_interval)` of them; quality is in `[10, 100]`; loop is 0 |
| Engine.AfterFileAdds | app.py:198-206 | a successful conversion keeps every existing file and adds exactly one, under the chosen name |
| Engine.AfterFilesStep | app.py:154-162 | each converted file before the first failure adds one file and keeps the others |
| Engine.AfterFilesAdds | app.py:154-162 | after the first `n` files of a batch convert, the folder keeps what it held and has grown by `n` |
| Engine.CollectFrames | app.py:209-237 | the sampling loop keeps exactly the specified frames and counts one reclamation pass per checkpoint over 85% utilisation; it fails with a resize error exactly when a frame is kept but the size is unusable |
| Engine.VisitIndex | app.py:213-224 | a visited index yields a frame exactly when it is a stride multiple and readable; the resize fails exactly then if the size is unusable; a kept frame has the target size and the index |
| Engine.FailIndexSpec | app.py:153-166 | every file before the failure index converts, and the file at it raises |
| Engine.FailIndexAt | app.py:154-166 | a file reached with all earlier files converted converts exactly when it is not the first failure |
| Engine.StopsAtFirstFailure | app.py:153-167 | when file `k` raises and all before it convert, the batch stops at `k` |
| Engine.ProgressBounds | app.py:162 | progress is within `[0, 100]` and reaches 100 only at the last file |
| Engine.Converter.constructor | app.py:24-33 | the status record starts idle, at zero, with empty strings |
| Engine.Converter.ConvertSingleFile | app.py:171-277 | the error raised is the specified one; the handle is released exactly once on every path; a file rejected when opened, for its timing or for a zero target rate is never read from and its read position stays 0; the folder gains the specified file or stays unchanged |
| Engine.Converter.SampleAndWrite | app.py:189-267 | the error matches the specification; line 239 releases the handle once on success; the folder is updated as specified |
| Engine.Converter.Announce | app.py:155-157 | `current_file` becomes the base name and the message becomes the progress message |
| Engine.Converter.ConvertNext | app.py:154-162 | one pass announces the file and converts it; on success it counts it and sets progress to `int((i+1)/n*100)`; it fails exactly at the first failure |
| Engine.Converter.ConvertEach | app.py:153-166 | the loop converts exactly the files before the first failure; the failure is that file's error; progress and the folder match the files done |
| Engine.Converter.ConvertFiles | app.py:147-169 | `is_converting` is false and `total_files` is the batch size on exit; `completed_files` is the failure index; on success the message names the output folder and progress is 100 for a non-empty batch; on failure the message is the error text |

## Left out

- Engine.Converter.ConvertFiles: does not state the final `current_file`, which is the base name of the last file attempted.
- Flask routes, folder browsing, `format_bytes` and `set_output_folder` are outside the engine and are not modelled.
- The background thread is not modelled: the batch runs sequentially. The `/convert` route (lines 385-400) starts a new thread without looking at `is_converting`, so two batches can run at once and update the same status record; the model covers one batch at a time.
- Pixel data, the BGR-to-RGB conversion, LANCZOS resampling and the WebP bitstream are not modelled. A frame is its size and source index, and the output file records the frames and the encoder parameters.
- Whether a read succeeds at an index is an input of the video. Decoder internals are left out.
- Encoder and disk failures (an unwritable folder, a full disk) are not modelled. The write always succeeds.
- `psutil.virtual_memory()` readings are inputs. `gc.collect()` has no observable effect and is only counted.
- `get_optimal_batch_size` reads the available memory as an input in bytes.
- Floating point is not modelled: ratios and products are computed exactly. For example, Python gives `int(29/100*100) == 28` at line 162, while the model gives 29.
- `str.isalnum` depends on the Unicode database, so the set of characters it accepts is a parameter.
- `os.path.basename` and `os.path.splitext` are modelled for POSIX paths only. Other path flavours are not modelled.
- Engine.ErrorText: the text of the OpenCV resize exception is a placeholder.
- Engine.Converter.ConvertSingleFile: `cv2.resize` is assumed to raise whenever a target side is not positive.
- Settings with a missing key are not modelled: every key is assumed present. A missing key raises `KeyError` where it is first read (for example `size_type` at line 223 on the first frame read). A null or empty `size_type` is the empty string.
- `duration` at line 183 is computed and never used, so it is not modelled.
