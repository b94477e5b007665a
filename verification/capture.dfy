/** The region of interest cut from the middle of a captured frame: the
    Rust capture-card reader works on `i32` with truncating division, the
    Python screen reader on unbounded integers with floor division. */
module Capture {
  import opened Results
  import opened Bytes

  /** `ScreenSize`: the capture resolution. Equality is field-wise, as the
      derived `PartialEq` makes it. */
  datatype ScreenSize = ScreenSize(width: I32, height: I32)

  datatype SizeError = NotPositive

  /** `ScreenSize::new`: both sides must be positive; they are kept as
      given. */
  function NewScreenSize(width: I32, height: I32): (r: Result<ScreenSize, SizeError>)
    ensures r.Ok? <==> width > 0 && height > 0
    ensures r.Ok? ==> r.value.width == width && r.value.height == height
  {
    if width > 0 && height > 0 then Ok(ScreenSize(width, height)) else Err(NotPositive)
  }

  /** A side that is zero or negative is refused whatever the other side is. */
  lemma NewScreenSizeRefuses(width: I32, height: I32, other: I32)
    requires width <= 0
    ensures NewScreenSize(width, other) == Err(NotPositive)
    ensures NewScreenSize(other, width) == Err(NotPositive)
  {
  }

  // ------------------------------------------------------------ halving

  /** Rust's `a / 2` on `i32`: the quotient rounds toward zero, so the
      remainder is at most one in size and has the sign of `a`. */
  function TruncHalf(a: I32): (q: I32)
    ensures var r := a - 2 * q; -1 <= r <= 1 && (a >= 0 ==> r >= 0) && (a <= 0 ==> r <= 0)
  {
    if a >= 0 then a / 2 else -((-(a as int)) / 2)
  }

  /** Python's `a // 2`: the quotient rounds down, so the remainder is 0 or 1. */
  function FloorHalf(a: int): (q: int)
    ensures 0 <= a - 2 * q <= 1
  {
    a / 2  // Dafny's `/` is Euclidean: with a positive divisor it rounds down
  }

  /** The two halvings agree on non-negative numbers and part on negative
      odd ones, where truncation lands one higher. */
  lemma HalvesAgree(a: I32)
    ensures a >= 0 ==> TruncHalf(a) == FloorHalf(a)
    ensures a < 0 && a % 2 == 1 ==> TruncHalf(a) == FloorHalf(a) + 1
    ensures a % 2 == 0 ==> TruncHalf(a) == FloorHalf(a)
  {
  }

  // ------------------------------------------------------------ card.rs

  /** OpenCV's `Rect`: top-left corner and size. */
  datatype Rect = Rect(x: I32, y: I32, width: I32, height: I32)

  /** The region `CardCapture::new` crops: a `box_size` square whose corner
      is half the screen minus half the box on each axis. The `i32`
      arithmetic never overflows: the field types hold every result. The
      square is centred to within two pixels on each axis (one when the
      sizes are non-negative). */
  function CardRoi(size: ScreenSize, boxSize: I32): (r: Rect)
    ensures r.width == boxSize && r.height == boxSize
    ensures r.x == TruncHalf(size.width) - TruncHalf(boxSize)
    ensures r.y == TruncHalf(size.height) - TruncHalf(boxSize)
    ensures -2 <= size.width - (2 * r.x + boxSize) <= 2
    ensures -2 <= size.height - (2 * r.y + boxSize) <= 2
  {
    var half := TruncHalf(boxSize);
    Rect(TruncHalf(size.width) - half, TruncHalf(size.height) - half, boxSize, boxSize)
  }

  /** The row of the corner depends on the height and the box only. */
  lemma CardRoiAxes(size1: ScreenSize, size2: ScreenSize, boxSize: I32)
    ensures size1.height == size2.height ==> CardRoi(size1, boxSize).y == CardRoi(size2, boxSize).y
    ensures size1.width == size2.width ==> CardRoi(size1, boxSize).x == CardRoi(size2, boxSize).x
  {
  }

  /** A box no larger than the screen lies inside it, which `Mat::roi`
      needs to succeed. */
  lemma CardRoiInFrame(size: ScreenSize, boxSize: I32)
    requires 0 <= boxSize <= size.width && boxSize <= size.height
    ensures var r := CardRoi(size, boxSize);
      && 0 <= r.x && r.x + r.width <= size.width
      && 0 <= r.y && r.y + r.height <= size.height
  {
  }

  /** With non-negative sizes the margins differ by at most one pixel. */
  lemma CardRoiMargins(size: ScreenSize, boxSize: I32)
    requires size.width >= 0 && size.height >= 0 && boxSize >= 0
    ensures var r := CardRoi(size, boxSize);
      && -1 <= size.width - (r.x + r.width) - r.x <= 1
      && -1 <= size.height - (r.y + r.height) - r.y <= 1
  {
  }

  /** Whatever the signs, an even screen side and an even box leave equal
      margins on that axis: both halvings are then exact. */
  lemma CardRoiEvenMargins(size: ScreenSize, boxSize: I32)
    ensures var r := CardRoi(size, boxSize);
      && (size.width % 2 == 0 && boxSize % 2 == 0 ==> r.x == size.width - (r.x + r.width))
      && (size.height % 2 == 0 && boxSize % 2 == 0 ==> r.y == size.height - (r.y + r.height))
  {
  }

  // ------------------------------------------------------------ screen.py

  /** The `region` dictionary `ScreenCapture.__init__` hands to `mss`. */
  datatype Region = Region(top: int, left: int, width: int, height: int)

  /** The region: `top` from the monitor's height, `left` from its width,
      a `box`-sized square centred to within one pixel. */
  function ScreenRegion(w: int, h: int, box: int): (r: Region)
    ensures r.width == box && r.height == box
    ensures r.top == FloorHalf(h) - FloorHalf(box) && r.left == FloorHalf(w) - FloorHalf(box)
    ensures -1 <= w - (2 * r.left + box) <= 1
    ensures -1 <= h - (2 * r.top + box) <= 1
  {
    Region(FloorHalf(h) - FloorHalf(box), FloorHalf(w) - FloorHalf(box), box, box)
  }

  /** A box no larger than the monitor lies within it. */
  lemma ScreenRegionInBounds(w: int, h: int, box: int)
    requires 0 <= box <= w && box <= h
    ensures var r := ScreenRegion(w, h, box);
      && 0 <= r.left && r.left + r.width <= w
      && 0 <= r.top && r.top + r.height <= h
  {
  }

  /** For non-negative sizes the Python region and the Rust ROI pick the
      same corner. */
  lemma ScreenRegionMatchesCard(size: ScreenSize, boxSize: I32)
    requires size.width >= 0 && size.height >= 0 && boxSize >= 0
    ensures var r := ScreenRegion(size.width, size.height, boxSize);
      var c := CardRoi(size, boxSize);
      r.left == c.x && r.top == c.y && r.width == c.width && r.height == c.height
  {
    HalvesAgree(size.width);
    HalvesAgree(size.height);
    HalvesAgree(boxSize);
  }

  /** How far truncation lands above the floor when halving `a`: one for a
      negative odd number, zero otherwise. */
  function TruncBump(a: int): int
  {
    if a < 0 && a % 2 == 1 then 1 else 0
  }

  /** On each axis the Rust corner lies above the Python one by the screen
      side's bump minus the box's, so the two differ exactly when one of
      them is negative and odd and the other is not. */
  lemma CropsOffset(size: ScreenSize, boxSize: I32)
    ensures var c := CardRoi(size, boxSize);
      var r := ScreenRegion(size.width, size.height, boxSize);
      && c.x - r.left == TruncBump(size.width) - TruncBump(boxSize)
      && c.y - r.top == TruncBump(size.height) - TruncBump(boxSize)
      && (c.x == r.left <==> TruncBump(size.width) == TruncBump(boxSize))
      && (c.y == r.top <==> TruncBump(size.height) == TruncBump(boxSize))
  {
    HalvesAgree(size.width);
    HalvesAgree(size.height);
    HalvesAgree(boxSize);
  }

  /** With a negative odd box the two readers part: a 10x10 screen and a
      box of -3 give a corner at 6 in Rust and 7 in Python. */
  lemma ScreenRegionDiffersFromCard()
    ensures CardRoi(ScreenSize(10, 10), -3).x == 6
    ensures ScreenRegion(10, 10, -3).left == 7
  {
  }
}
