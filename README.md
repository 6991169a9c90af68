# Periodic screenshot sampler, modelled in Dafny

`capture_screenshots(video_path, output_dir, interval=5)` creates the output
directory, opens a video, derives a frame interval from the frame rate, then
reads the frames one by one. It writes every frame whose index is a multiple
of the frame interval to `screenshot_{n:03d}.jpg`, where `n` counts the
screenshots written so far.

The model has three modules:

- `Naming` (naming.dfy) models the file name `screenshot_` + `{n:03d}` + `.jpg`. It defines the
  decimal numeral, zero padding to at least three digits, and a parser that
  reads the number back out of a name. Its lemmas prove the padding
  exact, the round trip, injectivity (no screenshot overwrites another) and
  that names below 1000 sort in screenshot order.
- `Sampling` (sampling.dfy) holds the sampling rule. The frame interval is
  `interval * fps`, taken with `fps` already truncated to an integer; frame
  `i` is a sample point when `i % k == 0`. The number of sample points among
  `n` frames is `(n + k - 1) / k`, and the sampled indices are
  `0, k, 2k, …` below `n`.
- `Capture` (capture.dfy) holds the run itself. `CaptureScreenshots` is a
  method whose `while true` loop follows the source's loop. It keeps the
  two counters `frameCount` and `screenshotCount`, and ends on end-of-stream.
  It returns how the run ended (`Status`) and the log of its filesystem
  effects in order (`MakeDirs`, then one `Imwrite` per screenshot).
  `Directory` applies a log to the files the output directory already
  holds. `os.makedirs(..., exist_ok=True)` keeps existing files, so a run
  adds or replaces files but never removes one. `DirectoryAfterRun` proves
  that file `ScreenshotName(j)` holds frame `j * k` after a run, and that
  every other file keeps its old image.

Inputs the model takes in place of the foreign calls:

- `isOpened` is the result of `video.isOpened()`.
- `fps` is `int(video.get(CAP_PROP_FPS))`.
- `frames` is the sequence `video.read()` delivers before it reports end of stream.
- The frame type is a type parameter.

Three consequences of the code are easy to miss:

- The frame interval is `interval * int(fps)`: the frame rate is truncated
  first and then multiplied. The product `fps * interval` is not rounded.
- The number of screenshots is the ceiling of `frames / k`, not the floor,
  because frame 0 is always a sample point.
- On an open failure the output directory has already been created at
  line 14. The log of that run is `[MakeDirs]`, not empty.

A frame interval of 0 (zero `fps` or zero `interval`) makes the modulo at
line 38 raise on the first frame read. The model returns `ModuloByZero` with
no write in that case. When the video is empty no modulo is evaluated, so
that run completes with no screenshot, as the source does.

## Model

| member | source | states |
|---|---|---|
| Capture.CaptureScreenshots | capture_screenshots.py:4-47 | The directory is created first in every run. An unopened source gives SourceUnavailable and no write. A zero frame interval gives ModuloByZero with no write, or completion with 0 screenshots on an empty video. Otherwise the run completes: the interval is interval*fps, frameCount ends at the number of frames, and screenshotCount is ceil(n/k) and at most frameCount. Write j is frame j*k under the name ScreenshotName(j), and frame 0 is written first. |
| Capture.ScreenshotWritesStep | capture_screenshots.py:37-44 | Reading frame m adds a write exactly when m % k == 0; that write is frame m named after the count of screenshots before it. |
| Capture.DirectoryAfterRun | capture_screenshots.py:14-42 | Start from a directory that already holds some files (makedirs with exist_ok keeps them). After a complete run, with c = ceil(n/k), the directory holds the old files plus ScreenshotName(0..c-1). File j holds frame j*k and every other old file keeps its image. The c names are distinct, so no write of the run replaced another. From an empty directory there are exactly c files. |
| Capture.Directory | capture_screenshots.py:14-40 | Applies the log in order to the files the directory already holds: neither makedirs (exist_ok) nor a write removes a file, so every starting name is still present. A later write to a name replaces its image. |
| Capture.ScreenshotWrites | capture_screenshots.py:37-42 | The closed form of a run's writes: ceil(n/k) writes, where write j is frame j*k under ScreenshotName(j). CaptureScreenshots is proved to produce it. |
| Capture.ScreenshotNamesCount | capture_screenshots.py:39 | The names of screenshots 0 to p-1 are p distinct strings. |
| Capture.ThirtySecondVideo | capture_screenshots.py:24-42 | A 300-frame video at 10 fps sampled every 5 s has interval 50 and 6 screenshots, of frames 0, 50, …, 250, named screenshot_000.jpg to screenshot_005.jpg. |
| Sampling.FrameInterval | capture_screenshots.py:24-25 | The interval is 0 exactly when fps or interval is 0; otherwise it is at least each factor. |
| Sampling.IsSamplePoint | capture_screenshots.py:38 | The test of line 38: frame i is a sample point when i % k == 0 (k > 0). SampleIndicesExactly characterises it. |
| Sampling.CeilDiv | capture_screenshots.py:30-44 | The screenshot count (n + k - 1) / k. CeilDivBounds proves it is the ceiling of n/k. |
| Sampling.SampleIndices | capture_screenshots.py:37-38 | The sampled frame indices 0, k, 2k, … below n, in read order. SampleIndicesExactly and SampleIndicesIncreasing state its properties. |
| Sampling.CeilDivBounds | capture_screenshots.py:30-44 | The screenshot count c = (n+k-1)/k is the least c with n <= c*k. It is at most n, and 0 only for an empty video. |
| Sampling.CeilDivStep | capture_screenshots.py:37-44 | One more frame raises the count by one exactly when its index is a multiple of k; such an index equals count*k. |
| Sampling.ShortVideoOneScreenshot | capture_screenshots.py:37-42 | A non-empty video of at most k frames yields exactly one screenshot, of frame 0. |
| Sampling.SampleIndicesExactly | capture_screenshots.py:37-38 | Frame i is sampled if and only if i < n and i % k == 0. |
| Sampling.SampleIndicesIncreasing | capture_screenshots.py:38-44 | Sampled indices strictly increase in screenshot order. |
| Sampling.SampleIndicesInRange | capture_screenshots.py:31-38 | Screenshot j's frame j*k exists: j < ceil(n/k) implies j*k < n. |
| Naming.ScreenshotName | capture_screenshots.py:39 | The f-string of line 39: "screenshot_" followed by Padded(n) and then ".jpg". Its contract is given by ParseScreenshotNameRoundTrip, ScreenshotNameInjective and ScreenshotNamesSortInOrder. |
| Naming.Padded | capture_screenshots.py:39 | `{n:03d}`: the numeral left-padded with zeros to at least 3 characters, all of them digits. |
| Naming.DecimalValue | capture_screenshots.py:39 | The decimal numeral reads back as the number and has no leading zero from 10 on. |
| Naming.PaddedValue | capture_screenshots.py:39 | The zero-padded number part reads back as the screenshot number. |
| Naming.PaddedBelowThousand | capture_screenshots.py:39 | Below 1000 the number part is exactly three characters: hundreds, tens and units digits. |
| Naming.PaddedFromHundred | capture_screenshots.py:39 | From 100 on no zero is added: width 3 is a minimum, larger numbers are not truncated. |
| Naming.ParseScreenshotNameRoundTrip | capture_screenshots.py:39 | Parsing ScreenshotName(n) gives back n. |
| Naming.ScreenshotNameInjective | capture_screenshots.py:39-40 | Two screenshot names are equal if and only if their numbers are, so no file is overwritten. |
| Naming.ScreenshotNamesSortInOrder | capture_screenshots.py:39 | For a < b < 1000, ScreenshotName(a) sorts lexicographically before ScreenshotName(b). |

## Left out

- Video decoding (`cv2.VideoCapture`, `video.read`, `video.release`) and JPEG encoding (`cv2.imwrite`) are foreign library calls. The video is a finite sequence of frames of an arbitrary type; a write is an `Imwrite` entry in the log.
- The floating-point frame rate and its `int()` truncation are left out, since the model has no floats. The model takes the truncated integer `fps`.
- Negative `fps` or `interval` values are excluded by the `nat` parameter types. The source does not guard them.
- `os.makedirs` is the `MakeDirs` entry of the log, and `os.path.join` is left out. File names are bare names within the output directory.
- Failures of `os.makedirs` or `cv2.imwrite` (an unwritable directory, a full disk) and decoder errors mid-stream are not modelled. `cv2.imwrite`'s return value is ignored by the source as well.
- The `print` progress and completion lines and the `__main__` block with its `input()` prompts are console I/O and are left out.
- The default `interval=5` is a Python default argument; the model takes `interval` explicitly.
