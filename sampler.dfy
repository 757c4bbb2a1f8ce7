/** Frame sampling for one video: `get_frame` writes at most one JPEG file per
    read, and `export_frames` keeps sampling with a counter until a read fails.

    The video is given as the sequence of outcomes its reads produce, in
    sampling order: entry k is the outcome of the code's k-th read (from 0),
    whatever timestamp that read seeks to, and every read past the end of the
    sequence yields no frame. Below 200 frames per second the code's own
    timestamp moves forward at every step (`Timing.TimeAsWritten`), so its
    reads do pass the end of a finite video; above 200 it never advances at
    all (`Timing.TimeFrozenAbove200`) and no finite sequence describes it.
    A write to the output directory is an entry appended to a log. */
module Sampler {
  import opened FrameSize
  import Decimal

  /** The shape a decoded image reports: (shape[0], shape[1]). */
  datatype Shape = Shape(rows: Pos, cols: Pos)

  /** What one `read` after a seek returns. */
  datatype Read = Frame(shape: Shape) | NoFrame

  /** One `imwrite`: the target path, the size handed to `resize` in its
      (width, height) order, and the JPEG quality. */
  datatype FrameFile = FrameFile(path: string, dsize: (int, int), quality: int)

  /** What `get_frame` did: wrote one file, or found no frame and wrote nothing. */
  datatype Sampled = Wrote(file: FrameFile) | Exhausted

  /** `resize` takes its size as (width, height) and returns an image whose
      shape is (height, width). */
  function ResizedShape(dsize: (int, int)): (shape: (int, int))
    ensures shape.0 == dsize.1 && shape.1 == dsize.0
  {
    (dsize.1, dsize.0)
  }

  /** The file name for frame number `count`: prefix, decimal count, ".jpg". */
  function FrameName(prefix: string, count: nat): (name: string)
    ensures prefix <= name && |prefix| + 5 <= |name|
  {
    prefix + Decimal.FromNat(count) + ".jpg"
  }

  /** A frame name ends in ".jpg", and the count can be read back from
      between the prefix and the extension. */
  lemma FrameNameReadBack(prefix: string, count: nat)
    ensures var name := FrameName(prefix, count);
      name[|name| - 4..] == ".jpg" &&
      name[|prefix|..|name| - 4] == Decimal.FromNat(count) &&
      Decimal.AllDigits(name[|prefix|..|name| - 4]) &&
      Decimal.ToNat(name[|prefix|..|name| - 4]) == count
  {
    var name := FrameName(prefix, count);
    assert name[|prefix|..|name| - 4] == Decimal.FromNat(count);
    Decimal.ToNatFromNat(count);
  }

  /** Two frame names built on the same prefix are equal only for the same
      count: the count is read back from each name. */
  lemma FrameNameInjective(prefix: string, a: nat, b: nat)
    ensures FrameName(prefix, a) == FrameName(prefix, b) ==> a == b
  {
    FrameNameReadBack(prefix, a);
    FrameNameReadBack(prefix, b);
  }

  /** `get_frame` after its seek: when the read yields a frame, the frame is
      resized to its capped size and written to `path`; otherwise nothing is
      written. The result's tag is the returned `has_frames`. */
  function GetFrame(read: Read, path: string, maxSize: int, quality: int): (r: Sampled)
    ensures r.Wrote? <==> read.Frame?
    ensures r.Wrote? ==> r.file.path == path && r.file.quality == quality
    ensures r.Wrote? ==>
      ResizedShape(r.file.dsize) == CappedSize(read.shape.rows, read.shape.cols, maxSize)
    ensures r.Wrote? && Max(read.shape.rows, read.shape.cols) <= maxSize ==>
      ResizedShape(r.file.dsize) == (read.shape.rows as int, read.shape.cols as int)
    ensures r.Wrote? && maxSize >= 0 ==>
      0 <= r.file.dsize.0 <= maxSize && 0 <= r.file.dsize.1 <= maxSize
  {
    match read
    case NoFrame => Exhausted
    case Frame(shape) =>
      var target := CappedSize(shape.rows, shape.cols, maxSize);
      assert maxSize >= 0 ==> 0 <= target.0 <= maxSize && 0 <= target.1 <= maxSize by {
        if maxSize >= 0 { CappedSizeBounded(shape.rows, shape.cols, maxSize); }
      }
      Wrote(FrameFile(path, (target.1, target.0), quality))
  }

  /** The read at step k; reads past the end of the video find no frame. */
  function ReadAt(video: seq<Read>, k: nat): (r: Read)
    ensures k < |video| ==> r == video[k]
    ensures |video| <= k ==> r == NoFrame
    ensures r.Frame? <==> k < |video| && video[k].Frame?
  {
    if k < |video| then video[k] else NoFrame
  }

  /** The length of the leading run of reads that yield a frame. */
  function LeadingFrames(video: seq<Read>): (n: nat)
    ensures n <= |video|
    ensures forall k :: 0 <= k < n ==> video[k].Frame?
    ensures n < |video| ==> video[n].NoFrame?
  {
    if video == [] || video[0].NoFrame? then 0
    else 1 + LeadingFrames(video[1..])
  }

  /** `imwrite` adds the written file to the output directory's log. */
  function Record(log: seq<FrameFile>, sampled: Sampled): (log': seq<FrameFile>)
    ensures |log'| == |log| + (if sampled.Wrote? then 1 else 0)
    ensures log <= log'
    ensures sampled.Wrote? ==> log'[|log|] == sampled.file
  {
    if sampled.Wrote? then log + [sampled.file] else log
  }

  /** `export_frames`: sample at step 0 with count 1, and while the last
      sample found a frame, advance both and sample again. The files written
      are exactly one per frame of the leading run, the k-th (from 0) named
      with count k + 1, so no two share a name. */
  method ExportFrames(video: seq<Read>, prefix: string, maxDimension: int, quality: int)
    returns (written: seq<FrameFile>)
    ensures |written| == LeadingFrames(video)
    ensures forall k :: 0 <= k < |written| ==>
      written[k].path == FrameName(prefix, k + 1) &&
      GetFrame(video[k], FrameName(prefix, k + 1), maxDimension, quality) == Wrote(written[k])
    ensures forall i, j :: 0 <= i < j < |written| ==> written[i].path != written[j].path
  {
    var step := 0;
    var count := 1;
    var fileName := FrameName(prefix, count);
    var sampled := GetFrame(ReadAt(video, step), fileName, maxDimension, quality);
    written := Record([], sampled);
    while sampled.Wrote?
      invariant count == step + 1
      invariant step <= LeadingFrames(video)
      invariant fileName == FrameName(prefix, count)
      invariant sampled == GetFrame(ReadAt(video, step), fileName, maxDimension, quality)
      invariant sampled.Wrote? <==> step < LeadingFrames(video)
      invariant |written| == if sampled.Wrote? then step + 1 else step
      invariant forall k :: 0 <= k < |written| ==>
        GetFrame(video[k], FrameName(prefix, k + 1), maxDimension, quality) == Wrote(written[k])
      decreases |video| - step
    {
      count := count + 1;
      step := step + 1;
      fileName := FrameName(prefix, count);
      sampled := GetFrame(ReadAt(video, step), fileName, maxDimension, quality);
      ghost var before := written;
      written := Record(written, sampled);
      assert forall k :: 0 <= k < |before| ==> written[k] == before[k];
    }
    forall i, j | 0 <= i < j < |written|
      ensures written[i].path != written[j].path
    {
      FrameNameInjective(prefix, i + 1, j + 1);
    }
  }
}
