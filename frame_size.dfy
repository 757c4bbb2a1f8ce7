/** The size a sampled frame is resized to before it is written (get_frame).

    A decoded image reports its shape as (rows, cols). The code labels these
    `img_w` and `img_h`, but only compares and scales the two numbers against
    each other, so the model names them by their position in the shape. */
module FrameSize {

  /** A dimension of a decoded image: a frame that decodes is never empty. */
  type Pos = n: int | n > 0 witness 1

  /** Python's `max` on two integers. */
  function Max(a: int, b: int): (m: int)
    ensures m >= a && m >= b && (m == a || m == b)
  {
    if a >= b then a else b
  }

  /** The target (rows, cols) of a frame whose shape is (rows, cols), with
      `maxSize` the cap on the longer side. A frame that fits is left alone;
      otherwise the longer side becomes `maxSize` and the shorter side is scaled
      by the same ratio with floor division. A square frame takes the second
      branch. Dafny's `/` agrees with Python's `//` here because every divisor
      is a positive dimension; `maxSize` is any integer, as the flag is. */
  function CappedSize(rows: Pos, cols: Pos, maxSize: int): (r: (int, int))
    ensures Max(rows, cols) <= maxSize ==> r == (rows as int, cols as int)
    ensures Max(rows, cols) > maxSize && rows < cols ==>
      r.1 == maxSize && r.0 * cols <= maxSize * rows < (r.0 + 1) * cols
    ensures Max(rows, cols) > maxSize && rows >= cols ==>
      r.0 == maxSize && r.1 * rows <= maxSize * cols < (r.1 + 1) * rows
  {
    if Max(rows, cols) > maxSize then
      if rows < cols then (maxSize * rows / cols, maxSize)
      else (maxSize, maxSize * cols / rows)
    else
      (rows, cols)
  }

  /** With a non-negative cap, neither target side exceeds the cap or goes
      negative, and when the frame was too large its longer target side is
      exactly the cap. */
  lemma CappedSizeBounded(rows: Pos, cols: Pos, maxSize: int)
    requires maxSize >= 0
    ensures var r := CappedSize(rows, cols, maxSize);
      0 <= r.0 <= maxSize && 0 <= r.1 <= maxSize &&
      (Max(rows, cols) > maxSize ==> Max(r.0, r.1) == maxSize)
  {
    var r := CappedSize(rows, cols, maxSize);
    if Max(rows, cols) > maxSize {
      if rows < cols {
        ScaledSideBounded(r.0, rows, cols, maxSize);
      } else {
        ScaledSideBounded(r.1, cols, rows, maxSize);
      }
    }
  }

  /** A side scaled from `short` against `long` with floor division lies in
      [0, maxSize]. */
  lemma ScaledSideBounded(s: int, short: Pos, long: Pos, maxSize: int)
    requires maxSize >= 0 && short <= long
    requires s * long <= maxSize * short < (s + 1) * long
    ensures 0 <= s <= maxSize
  {
    MulMonotone(0, maxSize, short);
    MulMonotone(short, long, maxSize);
    if s < 0 {
      MulMonotone(s + 1, 0, long);
    } else if s > maxSize {
      MulMonotone(maxSize + 1, s, long);
    }
  }

  lemma MulMonotone(a: int, b: int, c: int)
    requires a <= b && c >= 0
    ensures a * c <= b * c
  {
    assert b * c - a * c == (b - a) * c;
  }

  /** The orientation of the frame survives: the side that was longer (or
      equal) is still at least as long after capping. */
  lemma CappedSizeKeepsOrientation(rows: Pos, cols: Pos, maxSize: int)
    requires maxSize >= 0
    ensures var r := CappedSize(rows, cols, maxSize);
      (rows < cols ==> r.0 <= r.1) && (rows >= cols ==> r.0 >= r.1)
  {
    CappedSizeBounded(rows, cols, maxSize);
  }

  /** The aspect ratio is kept up to less than one pixel of the scaled side:
      r.0 / r.1 is rows / cols rounded down in the side that was scaled. */
  lemma CappedSizeAspect(rows: Pos, cols: Pos, maxSize: int)
    ensures var r := CappedSize(rows, cols, maxSize);
      (rows < cols ==> 0 <= r.1 * rows - r.0 * cols < cols) &&
      (rows >= cols ==> 0 <= r.0 * cols - r.1 * rows < rows)
  {
  }

  /** A square frame that is too large comes out as a maxSize square. */
  lemma SquareCapped(side: Pos, maxSize: int)
    requires side > maxSize
    ensures CappedSize(side, side, maxSize) == (maxSize, maxSize)
  {
  }

  /** The truncated side comes out zero exactly when the frame is thinner
      than 1 : maxSize. */
  lemma CappedSizeZeroSide(rows: Pos, cols: Pos, maxSize: int)
    requires maxSize >= 0 && Max(rows, cols) > maxSize
    ensures var r := CappedSize(rows, cols, maxSize);
      (rows < cols ==> (r.0 == 0 <==> maxSize * rows < cols)) &&
      (rows >= cols ==> (r.1 == 0 <==> maxSize * cols < rows))
  {
    var r := CappedSize(rows, cols, maxSize);
    if rows < cols {
      ScaledSideBounded(r.0, rows, cols, maxSize);
      if r.0 > 0 { MulMonotone(1, r.0, cols); }
    } else {
      ScaledSideBounded(r.1, cols, rows, maxSize);
      if r.1 > 0 { MulMonotone(1, r.1, rows); }
    }
  }

  /** Capping is idempotent: a target size with positive sides already fits,
      so capping it again changes nothing. */
  lemma CappedSizeIdempotent(rows: Pos, cols: Pos, maxSize: int)
    requires maxSize >= 0
    requires CappedSize(rows, cols, maxSize).0 > 0 && CappedSize(rows, cols, maxSize).1 > 0
    ensures var r := CappedSize(rows, cols, maxSize);
      CappedSize(r.0, r.1, maxSize) == r
  {
    CappedSizeBounded(rows, cols, maxSize);
  }
}
