/**
 * `Bitmap.cropToRatio`: the centred crop rectangle that `Bitmap.createBitmap`
 * is asked for. Only dimensions and offsets are modelled; the float ratio
 * is a positive rational `num / den` and float-to-int conversion is floor.
 */
module Crop {

  /** The target aspect ratio width / height as the fraction num / den. */
  datatype Ratio = Ratio(num: nat, den: nat) {
    predicate Valid() { num > 0 && den > 0 }
  }

  /** The ratios the UI offers: 1:1, 2:1, 4:3 and 16:9. */
  const UiRatios: seq<Ratio> := [Ratio(1, 1), Ratio(2, 1), Ratio(4, 3), Ratio(16, 9)]

  /** The arguments of `createBitmap(source, x, y, width, height)`. */
  datatype Rect = Rect(x: int, y: int, width: int, height: int)

  /** `w / h > ratio`, cross-multiplied. */
  predicate WiderThan(w: nat, h: nat, ratio: Ratio) {
    w * ratio.den > h * ratio.num
  }

  /** `q` is the floor of `a / d`: the largest whole number whose multiple of `d` does not exceed `a`. */
  predicate IsFloorOf(q: int, a: int, d: int) {
    q * d <= a < (q + 1) * d
  }

  lemma FloorDiv(a: nat, d: nat)
    requires d > 0
    ensures IsFloorOf(a / d, a, d) && a / d >= 0
  {
  }

  /** A floor that does not exceed `n` when `a < n * d`. */
  lemma {:induction false} FloorBelow(q: int, a: int, d: int, n: int)
    requires d > 0 && IsFloorOf(q, a, d) && a < n * d
    ensures q < n
  {
    if q >= n {
      assert q * d >= n * d by {
        MulMonotone(n, q, d);
      }
    }
  }

  lemma MulMonotone(a: int, b: int, d: nat)
    requires a <= b
    ensures a * d <= b * d
  {
  }

  /**
   * `cropToRatio`: a source wider than the ratio keeps its height and gets
   * the width `h * ratio` rounded down, centred horizontally; any other
   * source keeps its width and gets the height `w / ratio` rounded down,
   * centred vertically.
   */
  function CropToRatio(w: nat, h: nat, ratio: Ratio): (r: Rect)
    requires w > 0 && h > 0 && ratio.Valid()
    ensures 0 <= r.x && 0 <= r.width && r.x + r.width <= w
    ensures 0 <= r.y && 0 <= r.height && r.y + r.height <= h
    ensures WiderThan(w, h, ratio) ==>
      r.y == 0 && r.height == h && IsFloorOf(r.width, h * ratio.num, ratio.den)
      && r.x == (w - r.width) / 2 && 0 <= (w - r.x - r.width) - r.x <= 1
    ensures !WiderThan(w, h, ratio) ==>
      r.x == 0 && r.width == w && IsFloorOf(r.height, w * ratio.den, ratio.num)
      && r.y == (h - r.height) / 2 && 0 <= (h - r.y - r.height) - r.y <= 1
  {
    if WiderThan(w, h, ratio) then
      var newW := (h * ratio.num) / ratio.den;
      FloorDiv(h * ratio.num, ratio.den);
      FloorBelow(newW, h * ratio.num, ratio.den, w);
      var xOffset := (w - newW) / 2;
      Rect(xOffset, 0, newW, h)
    else
      var newH := (w * ratio.den) / ratio.num;
      FloorDiv(w * ratio.den, ratio.num);
      FloorBelow(newH, w * ratio.den, ratio.num, h + 1);
      var yOffset := (h - newH) / 2;
      Rect(0, yOffset, w, newH)
  }

  /** An image already at the ratio takes the second branch and keeps its dimensions. */
  lemma MatchingRatioKeepsImage(w: nat, h: nat, ratio: Ratio)
    requires w > 0 && h > 0 && ratio.Valid()
    requires w * ratio.den == h * ratio.num
    ensures CropToRatio(w, h, ratio) == Rect(0, 0, w, h)
  {
    var r := CropToRatio(w, h, ratio);
    assert !WiderThan(w, h, ratio);
    assert IsFloorOf(h, w * ratio.den, ratio.num) by {
      assert h * ratio.num == w * ratio.den;
      assert (h + 1) * ratio.num == h * ratio.num + ratio.num;
    }
    FloorUnique(r.height, h, w * ratio.den, ratio.num);
  }

  /** The floor of a quotient is unique. */
  lemma FloorUnique(q1: int, q2: int, a: int, d: int)
    requires d > 0 && IsFloorOf(q1, a, d) && IsFloorOf(q2, a, d)
    ensures q1 == q2
  {
    if q1 < q2 {
      MulMonotone(q1 + 1, q2, d);
    } else if q2 < q1 {
      MulMonotone(q2 + 1, q1, d);
    }
  }

  /**
   * For a ratio between 1 and 2, as every ratio the UI offers is, the crop
   * of any source at least two pixels wide has no zero side, so
   * `createBitmap` accepts it.
   */
  lemma CropNonEmpty(w: nat, h: nat, ratio: Ratio)
    requires w >= 2 && h > 0 && ratio.Valid()
    requires ratio.den <= ratio.num <= 2 * ratio.den
    ensures CropToRatio(w, h, ratio).width >= 1 && CropToRatio(w, h, ratio).height >= 1
  {
    var r := CropToRatio(w, h, ratio);
    if WiderThan(w, h, ratio) {
      MulMonotone(1, h, ratio.num);
      FloorAtLeast(r.width, h * ratio.num, ratio.den, 1);
    } else {
      MulMonotone(2, w, ratio.den);
      FloorAtLeast(r.height, w * ratio.den, ratio.num, 1);
    }
  }

  /** A floor is at least `n` when `n * d` does not exceed `a`. */
  lemma FloorAtLeast(q: int, a: int, d: int, n: int)
    requires d > 0 && IsFloorOf(q, a, d) && n * d <= a
    ensures n <= q
  {
    if q < n {
      MulMonotone(q + 1, n, d);
    }
  }

  lemma UiRatiosAreBetweenOneAndTwo(ratio: Ratio)
    requires ratio in UiRatios
    ensures ratio.Valid() && ratio.den <= ratio.num <= 2 * ratio.den
  {
  }

  /**
   * A source narrower than the ratio loses its whole height when it is one
   * pixel wide: the rectangle is empty, and `createBitmap` refuses it.
   */
  lemma OnePixelWideCropIsEmpty()
    ensures CropToRatio(1, 1, Ratio(16, 9)).height == 0
  {
  }

  /** The 640x480 source at ratio 1:1 becomes the centred 480x480 square at x = 80. */
  lemma SquareCropOfVga()
    ensures CropToRatio(640, 480, Ratio(1, 1)) == Rect(80, 0, 480, 480)
  {
  }
}
