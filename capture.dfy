/** The screenshot capture loop. The video is a finite sequence of decoded
    frames read front to back; the filesystem effects the run performs
    (creating the output directory, writing one image per sample point) are
    returned as a log, in the order they happen.
 */
module Capture {
  import opened Naming
  import opened Sampling

  /** One side effect of a run: `os.makedirs` on the output directory, or
      `cv2.imwrite` of a frame to a file of the output directory. */
  datatype Effect<F> = MakeDirs | Imwrite(name: string, frame: F)

  /** How a run ends. `Completed` carries the frame interval and the final
      values of the two counters; `ModuloByZero` is the exception raised by
      the sampling test when the frame interval is 0. */
  datatype Status =
    | Completed(frameInterval: nat, frameCount: nat, screenshotCount: nat)
    | SourceUnavailable
    | ModuloByZero

  /** The frame that screenshot `j` shows. */
  function SampledFrame<F>(frames: seq<F>, k: nat, j: nat): (f: F)
    requires k > 0 && j < CeilDiv(|frames|, k)
    ensures j * k < |frames| && f == frames[j * k]
  {
    SampleIndicesInRange(|frames|, k, j);
    frames[SampleIndices(|frames|, k)[j]]
  }

  /** The image writes of a complete run over `frames` with frame interval `k`:
      screenshot `j`, named after `j`, is the `j`-th sampled frame. */
  function ScreenshotWrites<F>(frames: seq<F>, k: nat): seq<Effect<F>>
    requires k > 0
  {
    seq(CeilDiv(|frames|, k), j requires 0 <= j < CeilDiv(|frames|, k) =>
      Imwrite(ScreenshotName(j), SampledFrame(frames, k, j)))
  }

  /** The output directory as the log leaves it, starting from the files
      `start` it already holds (`os.makedirs(..., exist_ok=True)` keeps them):
      file name to image, a later write to a name replacing what it held. */
  function Directory<F>(start: map<string, F>, log: seq<Effect<F>>): (d: map<string, F>)
    ensures start.Keys <= d.Keys
  {
    if log == [] then start
    else
      var before := Directory(start, log[..|log| - 1]);
      match log[|log| - 1]
      case MakeDirs => before
      case Imwrite(name, frame) => before[name := frame]
  }

  /** Reading frame `m` extends the writes by one screenshot exactly when `m`
      is a sample point, and that screenshot is frame `m`, numbered by the
      count so far. */
  lemma ScreenshotWritesStep<F>(frames: seq<F>, k: nat, m: nat)
    requires k > 0 && m < |frames|
    ensures ScreenshotWrites(frames[..m + 1], k) ==
      ScreenshotWrites(frames[..m], k) +
      (if m % k == 0 then [Imwrite(ScreenshotName(CeilDiv(m, k)), frames[m])] else [])
  {
    CeilDivStep(m, k);
    var a, b := ScreenshotWrites(frames[..m], k), ScreenshotWrites(frames[..m + 1], k);
    forall j | 0 <= j < |a|
      ensures b[j] == a[j]
    {
      SampleIndicesInRange(m, k, j);
    }
  }

  /** Runs the sampler on a video source. `isOpened` is what the decoder's
      open check reported, `fps` the frame rate truncated to an integer,
      `interval` the seconds between screenshots, `frames` the frames the
      decoder delivers before end of stream. */
  method CaptureScreenshots<F>(isOpened: bool, fps: nat, interval: nat, frames: seq<F>)
    returns (status: Status, log: seq<Effect<F>>)
    ensures |log| >= 1 && log[0] == MakeDirs
    ensures !isOpened ==> status == SourceUnavailable && log == [MakeDirs]
    ensures isOpened && FrameInterval(interval, fps) == 0 ==>
      log == [MakeDirs] &&
      status == if |frames| == 0 then Completed(0, 0, 0) else ModuloByZero
    ensures isOpened && FrameInterval(interval, fps) > 0 ==>
      var k := FrameInterval(interval, fps);
      && status == Completed(k, |frames|, CeilDiv(|frames|, k))
      && log == [MakeDirs] + ScreenshotWrites(frames, k)
      && |log| == 1 + CeilDiv(|frames|, k)
      && forall j :: 0 <= j < |log| - 1 ==>
           j * k < |frames| && log[j + 1] == Imwrite(ScreenshotName(j), frames[j * k])
    ensures isOpened && FrameInterval(interval, fps) > 0 && |frames| > 0 ==>
      |log| >= 2 && log[1] == Imwrite(ScreenshotName(0), frames[0])
    ensures status.Completed? ==> status.screenshotCount <= status.frameCount
  {
    log := [MakeDirs];
    if !isOpened {
      status := SourceUnavailable;
      return;
    }
    var k := interval * fps;
    var frameCount: nat := 0;
    var screenshotCount: nat := 0;
    while true
      invariant frameCount <= |frames|
      invariant k == FrameInterval(interval, fps)
      invariant k == 0 ==> frameCount == 0 && screenshotCount == 0 && log == [MakeDirs]
      invariant k > 0 ==> screenshotCount == CeilDiv(frameCount, k)
      invariant k > 0 ==> log == [MakeDirs] + ScreenshotWrites(frames[..frameCount], k)
      decreases |frames| - frameCount
    {
      if frameCount == |frames| {
        break;
      }
      var frame := frames[frameCount];
      if k == 0 {
        status := ModuloByZero;
        return;
      }
      ScreenshotWritesStep(frames, k, frameCount);
      if frameCount % k == 0 {
        log := log + [Imwrite(ScreenshotName(screenshotCount), frame)];
        screenshotCount := screenshotCount + 1;
      }
      frameCount := frameCount + 1;
    }
    status := Completed(k, frameCount, screenshotCount);
    if k > 0 {
      assert frames[..frameCount] == frames;
      CeilDivBounds(frameCount, k);
      var w := ScreenshotWrites(frames, k);
      forall j | 0 <= j < |log| - 1
        ensures j * k < |frames| && log[j + 1] == Imwrite(ScreenshotName(j), frames[j * k])
      {
        assert log[j + 1] == w[j];
      }
    }
  }

  /** The names of screenshots 0 to p - 1. */
  function ScreenshotNames(p: nat): set<string>
  {
    set j: nat | j < p :: ScreenshotName(j)
  }

  lemma ScreenshotNamesStep(p: nat)
    requires p > 0
    ensures ScreenshotNames(p) == ScreenshotNames(p - 1) + {ScreenshotName(p - 1)}
    ensures ScreenshotName(p - 1) !in ScreenshotNames(p - 1)
  {
    forall j: nat | j < p - 1
      ensures ScreenshotName(j) != ScreenshotName(p - 1)
    {
      ScreenshotNameInjective(j, p - 1);
    }
  }

  /** Screenshots 0 to p - 1 have p distinct names. */
  lemma {:induction false} ScreenshotNamesCount(p: nat)
    ensures |ScreenshotNames(p)| == p
  {
    if p == 0 {
      assert ScreenshotNames(0) == {};
    } else {
      ScreenshotNamesStep(p);
      ScreenshotNamesCount(p - 1);
      assert |ScreenshotNames(p - 1) + {ScreenshotName(p - 1)}| == p;
    }
  }

  /** The names a log writes to, in no particular order. */
  function WrittenNames<F>(log: seq<Effect<F>>): set<string>
  {
    if log == [] then {}
    else
      var before := WrittenNames(log[..|log| - 1]);
      match log[|log| - 1]
      case MakeDirs => before
      case Imwrite(name, _) => before + {name}
  }

  /** The directory holds the files it started with and those the log writes to. */
  lemma {:induction false} DirectoryKeys<F>(start: map<string, F>, log: seq<Effect<F>>)
    ensures Directory(start, log).Keys == start.Keys + WrittenNames(log)
  {
    if log != [] {
      DirectoryKeys(start, log[..|log| - 1]);
    }
  }

  /** A name is written only by an `Imwrite` of that name. */
  lemma {:induction false} WrittenNameHasWrite<F>(log: seq<Effect<F>>, x: string)
    requires x in WrittenNames(log)
    ensures exists j :: 0 <= j < |log| && log[j].Imwrite? && log[j].name == x
  {
    var last := log[|log| - 1];
    if !(last.Imwrite? && last.name == x) {
      var log' := log[..|log| - 1];
      WrittenNameHasWrite(log', x);
      var j :| 0 <= j < |log'| && log'[j].Imwrite? && log'[j].name == x;
      assert log[j] == log'[j];
    }
  }

  /** Every write of the log names a written file. */
  lemma {:induction false} WriteIsWritten<F>(log: seq<Effect<F>>, j: nat)
    requires j < |log| && log[j].Imwrite?
    ensures log[j].name in WrittenNames(log)
  {
    if j < |log| - 1 {
      var log' := log[..|log| - 1];
      assert log'[j] == log[j];
      WriteIsWritten(log', j);
    }
  }

  /** A file the log does not write to keeps what it held at the start. */
  lemma {:induction false} DirectoryUntouched<F>(start: map<string, F>, log: seq<Effect<F>>, x: string)
    requires x in start && x !in WrittenNames(log)
    ensures x in Directory(start, log) && Directory(start, log)[x] == start[x]
  {
    if log != [] {
      DirectoryUntouched(start, log[..|log| - 1], x);
    }
  }

  /** The file of the last write to a name holds that write's image. */
  lemma {:induction false} DirectoryAt<F>(start: map<string, F>, log: seq<Effect<F>>, j: nat)
    requires j < |log| && log[j].Imwrite?
    requires forall i :: j < i < |log| ==> log[i] == MakeDirs || log[i].name != log[j].name
    ensures log[j].name in Directory(start, log)
    ensures Directory(start, log)[log[j].name] == log[j].frame
  {
    if j < |log| - 1 {
      var log' := log[..|log| - 1];
      assert log'[j] == log[j];
      DirectoryAt(start, log', j);
    }
  }

  /** After a complete run over an output directory that already holds the
      files `start`, the directory holds those files and the c = ceil(n / k)
      screenshots: file `ScreenshotName(j)` holds frame `j * k`, any other
      file keeps its old image, and the c names are distinct, so no write of
      the run replaced another. Starting from an empty directory it holds
      exactly c files. */
  lemma DirectoryAfterRun<F>(start: map<string, F>, frames: seq<F>, k: nat)
    requires k > 0
    ensures var d := Directory(start, [MakeDirs] + ScreenshotWrites(frames, k));
      var c := CeilDiv(|frames|, k);
      && d.Keys == start.Keys + ScreenshotNames(c)
      && |ScreenshotNames(c)| == c
      && (forall j: nat :: j < c ==>
           ScreenshotName(j) in d && d[ScreenshotName(j)] == SampledFrame(frames, k, j))
      && (forall x :: x in start && x !in ScreenshotNames(c) ==> x in d && d[x] == start[x])
      && (start == map[] ==> |d| == c)
  {
    var w := ScreenshotWrites(frames, k);
    var log := [MakeDirs] + w;
    var d := Directory(start, log);
    ScreenshotNamesCount(|w|);
    forall j: nat | j < |w|
      ensures ScreenshotName(j) in d && d[ScreenshotName(j)] == SampledFrame(frames, k, j)
    {
      RunFileAt(start, frames, k, j);
    }
    RunWrittenNames(frames, k);
    DirectoryKeys(start, log);
    forall x | x in start && x !in ScreenshotNames(|w|)
      ensures x in d && d[x] == start[x]
    {
      DirectoryUntouched(start, log, x);
    }
  }

  /** Screenshot `j` of a run is the last write to its name. */
  lemma RunFileAt<F>(start: map<string, F>, frames: seq<F>, k: nat, j: nat)
    requires k > 0 && j < CeilDiv(|frames|, k)
    ensures var d := Directory(start, [MakeDirs] + ScreenshotWrites(frames, k));
      ScreenshotName(j) in d && d[ScreenshotName(j)] == SampledFrame(frames, k, j)
  {
    var w := ScreenshotWrites(frames, k);
    var log := [MakeDirs] + w;
    assert log[j + 1] == w[j];
    forall i | j + 1 < i < |log|
      ensures log[i] == MakeDirs || log[i].name != log[j + 1].name
    {
      assert log[i] == w[i - 1];
      ScreenshotNameInjective(j, i - 1);
    }
    DirectoryAt(start, log, j + 1);
  }

  /** A run writes to exactly the names of its screenshots. */
  lemma RunWrittenNames<F>(frames: seq<F>, k: nat)
    requires k > 0
    ensures WrittenNames([MakeDirs] + ScreenshotWrites(frames, k)) ==
      ScreenshotNames(CeilDiv(|frames|, k))
  {
    var w := ScreenshotWrites(frames, k);
    var log := [MakeDirs] + w;
    forall x | x in WrittenNames(log)
      ensures x in ScreenshotNames(|w|)
    {
      WrittenNameHasWrite(log, x);
      var i :| 0 <= i < |log| && log[i].Imwrite? && log[i].name == x;
      assert log[i] == w[i - 1];
    }
    forall j: nat | j < |w|
      ensures ScreenshotName(j) in WrittenNames(log)
    {
      assert log[j + 1] == w[j];
      WriteIsWritten(log, j + 1);
    }
  }

  /** The worked case of a 30-second video at 10 frames per second sampled
      every 5 seconds: interval 50, screenshots of frames 0, 50, …, 250,
      named screenshot_000.jpg to screenshot_005.jpg. */
  lemma ThirtySecondVideo()
    ensures FrameInterval(5, 10) == 50
    ensures CeilDiv(300, 50) == 6
    ensures SampleIndices(300, 50) == [0, 50, 100, 150, 200, 250]
    ensures ScreenshotName(0) == "screenshot_000.jpg"
    ensures ScreenshotName(5) == "screenshot_005.jpg"
  {
    PaddedBelowThousand(0);
    PaddedBelowThousand(5);
  }
}
