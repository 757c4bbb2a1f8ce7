/** The timestamps `export_frames` seeks to, in hundredths of a second.

    The code keeps a running `time`, adds the interval 1/fps and rounds to two
    decimals at every step. Rounding at every step loses the remainder each
    time: the step is 100/fps hundredths rounded to a whole hundredth. Above
    200 frames per second that step is 0, so every seek goes back to the
    start. `IntendedTime` rounds once, from the counter, and so stays within
    half a hundredth of k intervals. */
module Timing {

  /** Rounding n/d to the nearest integer, ties upward. */
  function RoundDiv(n: nat, d: nat): (r: nat)
    requires d > 0
    ensures -(d as int) < 2 * d * r - 2 * n <= d
  {
    (2 * n + d) / (2 * d)
  }

  /** One update `time = round(time + 1/fps, 2)`, with `time` held as a whole
      number of hundredths: t + 100/fps rounded to the nearest hundredth.
      (A float tie may round either way; the model rounds ties upward.) */
  function NextTimeAsWritten(t: nat, fps: nat): (r: nat)
    requires fps > 0
    ensures -(fps as int) < 2 * fps * r - 2 * (t * fps + 100) <= fps
  {
    RoundDiv(t * fps + 100, fps)
  }

  /** The timestamp the code seeks to for the k-th read (from 0). Below 200
      frames per second each step moves it forward by at least a hundredth. */
  function TimeAsWritten(fps: nat, k: nat): (t: nat)
    requires fps > 0
    ensures fps < 200 ==> t >= k
  {
    if k == 0 then 0
    else
      var prev := TimeAsWritten(fps, k - 1);
      var next := NextTimeAsWritten(prev, fps);
      // 2·fps·next > 2·fps·prev + 200 − fps > 2·fps·prev
      assert fps < 200 ==> prev < next by {
        if fps < 200 && next <= prev {
          MulLeft(next, prev, 2 * fps);
        }
      }
      next
  }

  /** Above 200 frames per second the timestamp never leaves 0: every read
      seeks to the first frame again, so a video with a first frame is read
      without end and the loop writes one file per read forever. */
  lemma {:induction false} TimeFrozenAbove200(fps: nat, k: nat)
    requires fps > 200
    ensures TimeAsWritten(fps, k) == 0
  {
    if k > 0 {
      TimeFrozenAbove200(fps, k - 1);
      DivOfSmaller(200 + fps, 2 * fps);
    }
  }

  /** At 30 frames per second the step rounds to 3 hundredths: after three
      steps the code seeks to 0.09 s instead of 0.10 s. */
  lemma DriftAt30()
    ensures TimeAsWritten(30, 3) == 9
    ensures IntendedTime(30, 3) == 10
  {
    assert TimeAsWritten(30, 1) == 3;
    assert TimeAsWritten(30, 2) == 6;
  }

  /** The timestamp for the k-th read computed from the counter:
      k/fps seconds rounded once to the nearest hundredth. */
  function IntendedTime(fps: nat, k: nat): (t: nat)
    requires fps > 0
    ensures -(fps as int) < 2 * fps * t - 200 * k <= fps
  {
    RoundDiv(100 * k, fps)
  }

  /** The intended timestamps never go backwards. */
  lemma IntendedTimeMonotone(fps: nat, j: nat, k: nat)
    requires fps > 0 && j <= k
    ensures IntendedTime(fps, j) <= IntendedTime(fps, k)
  {
    var tj, tk := IntendedTime(fps, j), IntendedTime(fps, k);
    var n1, n2 := 2 * 100 * j + fps, 2 * 100 * k + fps;
    assert n1 <= n2;
    DivMonotone(n1, n2, 2 * fps);
  }

  lemma DivMonotone(a: nat, b: nat, d: nat)
    requires d > 0 && a <= b
    ensures a / d <= b / d
  {
    if a / d > b / d {
      MulLeft(b / d + 1, a / d, d);
    }
  }

  lemma MulLeft(x: nat, y: nat, d: nat)
    requires x <= y
    ensures x * d <= y * d
  {
    assert y * d - x * d == (y - x) * d;
  }

  /** A quotient is 0 when the dividend is below the divisor. */
  lemma DivOfSmaller(n: nat, d: nat)
    requires n < d
    ensures n / d == 0
  {
  }

  /** Dividing q·d + r by d gives q when 0 <= r < d. */
  lemma DivExact(q: nat, r: nat, d: nat)
    requires r < d
    ensures (q * d + r) / d == q
  {
    var x := (q * d + r) / d;
    if x < q {
      MulLeft(x + 1, q, d);
    } else if x > q {
      MulLeft(q + 1, x, d);
    }
  }

  /** After fps·s reads the intended timestamp is exactly s seconds, so the
      sampling passes every point of a finite video. */
  lemma IntendedTimeWholeSeconds(fps: nat, s: nat)
    requires fps > 0
    ensures IntendedTime(fps, fps * s) == 100 * s
  {
    assert 2 * (100 * (fps * s)) + fps == (100 * s) * (2 * fps) + fps;
    DivExact(100 * s, fps, 2 * fps);
  }
}
