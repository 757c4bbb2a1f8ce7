# export_frames in Dafny

A model of `export_frames.py`. The script samples still frames from video
files at a fixed rate. It caps each frame's longer side at a maximum
dimension and writes each frame as a JPEG file named
`<output>/<stem>_img_<N>.jpg`.

The model covers the four pieces of the script that are logic rather than
library glue:

- `FrameSize` (`frame_size.dfy`): the target size `get_frame` computes before
  resizing. A frame that fits the cap is left alone. Otherwise the longer side
  becomes the cap and the shorter side is scaled by floor division.
- `Sampler` (`sampler.dfy`): `get_frame` as a function of what the read
  returned. `export_frames` is a method whose `while` loop drives the counter
  and the step index and records each written file. The video is the sequence
  of read outcomes in sampling order, and every read past its end finds no
  frame. That is, the model assumes the reads eventually fail.
- `Batch` (`batch.dfy`): the input list `main` builds. A directory listing
  loses its `.DS_Store` entries and each remaining name is joined onto the
  directory. `Batch` also builds the frame prefix `<output>/<stem>_img_` and
  models POSIX `os.path.join` for two components.
- `Decimal` (`decimal.dfy`): `str` on the frame counter, with its inverse.
- `Timing` (`timing.dfy`): the timestamps the loop seeks to, in hundredths of
  a second. It models both the code's running, re-rounded `time` and a
  timestamp computed once from the counter (see "## Findings").

The code calls `shape[0]` and `shape[1]` `img_w` and `img_h`. The model
names them `rows` and `cols`, after their position in the shape. The swap on
line 60 hands `resize` the pair as (cols, rows), which is the (width, height)
order `resize` expects. So the resized image's shape is the capped
(rows, cols); `Sampler.GetFrame` states this.

Two consequences of the code that the model makes explicit:

- Two inputs whose names differ only in their extension (`a.mp4`, `a.avi`)
  get the same stem. They therefore get the same prefix, and the second
  input's frames overwrite the first's frames with the same numbers. If the
  first input had more frames, its higher-numbered files remain. Frame-name sets are disjoint only
  across distinct stems, and `Batch.DistinctStemsDisjointFrames` proves
  exactly that. The model follows the code here, not the stronger claim that
  each input gets a prefix of its own.
- A frame more elongated than 1 : cap gets a scaled side of 0. With a
  non-negative cap, `FrameSize.CappedSizeZeroSide` states exactly when this
  happens.

## Model

| member | source | states |
|---|---|---|
| `Decimal.FromNat` | export_frames.py:70 | `str(count)` is a non-empty string of digits with no leading zero unless it is the single digit |
| `Decimal.ToNatFromNat` | export_frames.py:70 | reading the numeral back gives the counter it was written from |
| `Decimal.FromNatInjective` | export_frames.py:76 | distinct counters give distinct numerals |
| `FrameSize.CappedSize` | export_frames.py:51-59 | a frame that fits is unchanged. Otherwise the longer side is exactly the cap and the shorter side s' is the floor of cap·short/long: s'·long <= cap·short < (s'+1)·long. A tie takes the else branch |
| `FrameSize.CappedSizeBounded` | export_frames.py:53-59 | with a cap >= 0, both target sides lie in [0, cap], and a frame over the cap ends with its longer target side equal to the cap |
| `FrameSize.CappedSizeKeepsOrientation` | export_frames.py:53-59 | the side that was longer (or equal) stays at least as long after capping |
| `FrameSize.CappedSizeAspect` | export_frames.py:54-59 | the aspect ratio is kept to within one pixel of the scaled side: 0 <= r1·rows − r0·cols < cols (or the mirror case) |
| `FrameSize.SquareCapped` | export_frames.py:53-59 | a square frame over the cap comes out as a cap × cap square |
| `FrameSize.CappedSizeZeroSide` | export_frames.py:55-58 | the scaled side is 0 exactly when cap·short < long |
| `FrameSize.CappedSizeIdempotent` | export_frames.py:53-59 | a property of the capping arithmetic only, not something the code relies on: capping a target size with positive sides again leaves it unchanged |
| `Sampler.GetFrame` | export_frames.py:47-63 | writes a file iff the read found a frame (`has_frames`). The file goes to the given path at the given quality. The resized image's shape is the capped size of the frame, after the swap on line 60. A frame that fits keeps its shape, and with a cap >= 0 both sides of the size given to resize are within [0, cap] |
| `Sampler.ResizedShape` | export_frames.py:60-61 | `resize` takes its size as (width, height) and produces an image of shape (height, width). This is the library's convention, taken as given |
| `Sampler.FrameName` | export_frames.py:70 | the name `"".join((prefix, str(count), ".jpg"))` starts with the prefix and is at least five characters longer |
| `Sampler.FrameNameReadBack` | export_frames.py:76 | a frame name ends in ".jpg", and what lies between the prefix and ".jpg" is exactly `str(count)`: a numeral whose value is the count |
| `Sampler.FrameNameInjective` | export_frames.py:69-76 | two names `prefix + str(n) + ".jpg"` with one prefix are equal only for equal n |
| `Sampler.ReadAt` | export_frames.py:49 | the read at step k returns entry k of the video. Every read past the end finds no frame; this is the assumption that makes the loop end |
| `Sampler.LeadingFrames` | export_frames.py:71-77 | the leading run of successful reads: every read in it finds a frame, and the read just after it (if any) does not |
| `Sampler.Record` | export_frames.py:62 | `imwrite` adds exactly one entry to the output log when a frame was read and none otherwise. Earlier entries are kept, and the new entry is the written file |
| `Sampler.ExportFrames` | export_frames.py:66-77 | writes exactly one file per read in the leading run. The k-th write (from 0) goes to `prefix + str(k+1) + ".jpg"` and is what `get_frame` produces for read k. The first failed read writes nothing and ends the loop. No two writes share a path |
| `Batch.Join` | export_frames.py:89 | an absolute second part replaces the first. Otherwise the result is the first part, then a '/' exactly when the first part is non-empty and does not end in '/', then the second part |
| `Batch.JoinInjective` | export_frames.py:89 | for one directory, distinct relative names join to distinct paths |
| `Batch.WithoutMetadata` | export_frames.py:89 | an entry is kept iff it is in the listing and is not `.DS_Store` |
| `Batch.WithoutMetadataAppend` | export_frames.py:89 | filtering distributes over concatenation, so kept entries keep their listing order |
| `Batch.WithoutMetadataCount` | export_frames.py:89 | the number kept is the listing's length minus its number of `.DS_Store` entries |
| `Batch.JoinEach` | export_frames.py:89 | the k-th path is the directory joined with the k-th kept name |
| `Batch.InputFiles` | export_frames.py:87-91 | a non-directory input is the only file. For a directory, the k-th file is the directory joined with the k-th kept entry, in listing order. There is one file per non-metadata entry and every such entry's joined path is present |
| `Batch.InputFilesExcludeMetadata` | export_frames.py:89 | when entries are plain names, the joined `.DS_Store` path is never an input |
| `Batch.FramePrefix` | export_frames.py:98-103 | for a stem without '/', the prefix starts with the output path and ends with `stem + "_img_"` |
| `Batch.FrameNameParts` | export_frames.py:98-103 | a frame path is the output directory with its separator, then `stem_img_N`, then `.jpg` |
| `Batch.NumberedNameSplits` | export_frames.py:100-102 | `stem + "_img_" + numeral` determines both the stem and the numeral |
| `Batch.DistinctStemsDisjointFrames` | export_frames.py:98-103 | inputs with different stems never write to the same frame path, whatever their counters |
| `Timing.RoundDiv` | export_frames.py:75 | the integer nearest to n/d, ties upward: within half of n/d |
| `Timing.NextTimeAsWritten` | export_frames.py:74-75 | one `time = round(time + 1/fps, 2)` in hundredths: within half a hundredth of time + 100/fps |
| `Timing.TimeAsWritten` | export_frames.py:68-75 | the code's own timestamp after k steps. Below 200 frames per second it is at least k hundredths, so each step moves it forward |
| `Timing.TimeFrozenAbove200` | export_frames.py:68-77 | above 200 frames per second the code's timestamp is 0 at every step |
| `Timing.DriftAt30` | export_frames.py:74-75 | at 30 frames per second the third step seeks to 0.09 s, where counting from the start gives 0.10 s |
| `Timing.IntendedTime` | export_frames.py:74-75 | the k-th timestamp computed from the counter is within half a hundredth of k/fps seconds |
| `Timing.IntendedTimeMonotone` | export_frames.py:74-75 | timestamps computed from the counter never go backwards |
| `Timing.IntendedTimeWholeSeconds` | export_frames.py:74-75 | after fps·s steps the timestamp computed from the counter is exactly s seconds, so sampling passes the end of any finite video |

## Left out

- Video decoding, seeking (`set(CAP_PROP_POS_MSEC, …)`), `read`, `INTER_AREA` resampling and JPEG encoding (lines 48-49, 61-62, 67) are OpenCV calls. A read is a given outcome (a frame with its shape, or none), and a write is an entry in a log holding path, resize size and quality. Pixel data is not modelled.
- `resize` raises on a zero or negative target size, for example a frame thinner than 1 : cap, or a cap of 0. That raise is OpenCV behaviour and is not modelled; `FrameSize.CappedSizeZeroSide` characterises when the size is degenerate.
- Sampler.ExportFrames: does not model the timestamp `time = round(time + 1/fps, 2)` (lines 74-75, 107), which is floating point. The model tracks only the step index, and the read outcomes given for the video say which frame each read returns. The video is finite and every read past its end fails, so the model assumes the reads eventually fail. Below 200 frames per second this holds for the code as written, because its timestamp moves forward by at least a hundredth per step (`Timing.TimeAsWritten`) and so passes the end of a finite video. From 200 frames per second up the code does not guarantee it: above 200 its timestamp stays at 0, at exactly 200 it stays at 0.01 s from the first step on, and the loop never ends (see "## Findings").
- `Timing` works in exact hundredths of a second. Float representation error, and the way a float tie rounds, are not modelled; ties round upward. At exactly 200 frames per second every step is such a tie: the code's double sum 0.01 + 0.005 falls just below 0.015 and rounds down, where the model rounds up, so `Timing.TimeAsWritten` states its bound only below 200.
- `Timing` assumes fps >= 1. With fps = 0, `1 / FLAGS.fps` on line 107 raises `ZeroDivisionError`, which `main` catches on lines 111-113 before exiting with status 1. A negative fps would move `time` backwards. Neither case is modelled.
- `os.listdir`, `os.path.isdir`, `os.path.exists` and `os.makedirs` (lines 87-94) are filesystem I/O. The listing and the is-a-directory answer are parameters.
- `os.path.basename` and `os.path.splitext` (line 101) are not modelled. The stem is a parameter, assumed free of '/' as a base name is.
- Flag definitions, required-flag checks, `print`, `app.run` (lines 38-44, 81-82, 97, 114-118): command-line handling and output.
- `main`'s loop over input files and its catch-and-exit on the first exception (lines 96-113) are sequencing glue. The per-file pieces it uses, `Batch.FramePrefix` and `Sampler.ExportFrames`, are modelled.

## Findings

| source | as written | input that shows it | evidently intended | confidence | as-written member | corrected member |
|---|---|---|---|---|---|---|
| export_frames.py:74-75 | `time` is advanced by `1/fps` and rounded to two decimals at every step, so each step is 100/fps hundredths rounded to a whole hundredth | fps = 201 (any fps > 200): every timestamp is 0.0, so every read seeks back to the first frame and the loop never ends on a video that has one. fps = 200: from the first step on every timestamp is 0.01, because the double sum 0.01 + 0.005 lies just below 0.015 and rounds down, so the loop never ends on a video with a frame at 10 ms. fps = 30: the third read seeks to 0.09 s, not 0.10 s | the k-th read at k/fps seconds, rounded once, so timestamps keep pace with the counter and pass the end of the video | not executed | `Timing.TimeFrozenAbove200` (with `Timing.DriftAt30`) | `Timing.IntendedTime` (with `Timing.IntendedTimeWholeSeconds`) |
