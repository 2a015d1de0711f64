/** Integer arithmetic as C++ performs it on the values the program handles:
    division that truncates toward zero (integer `/` and float-to-int casts),
    `roundf` (round half away from zero) and the 8-bit byte. */
module Numeric {

  /** An unsigned 8-bit value (`unsigned char`). */
  newtype byte = b: int | 0 <= b < 256

  /** The byte a C++ conversion to `unsigned char` (or the bit pattern of a
      `char`) keeps of an int: its value modulo 256. */
  function ToByte(c: int): (b: byte)
    ensures 0 <= c < 256 ==> b as int == c
  {
    (c % 256) as byte
  }

  /** The byte kept of an int differs from it by a multiple of 256. */
  lemma ToByteCongruent(c: int)
    ensures (c - ToByte(c) as int) % 256 == 0
  {
    var b := c % 256;
    assert c == (c / 256) * 256 + b;
    assert c - b == (c / 256) * 256;
  }

  /** A rational factor num/den, the exact value of a float literal such as
      `7.0f` or (idealised) `0.71f`. */
  datatype Ratio = Ratio(num: int, den: int)

  /** Division truncating toward zero, as C++ `/` on ints and as the cast of
      an exact float quotient back to int. */
  function TruncDiv(a: int, d: int): int
    requires d > 0
  {
    if a >= 0 then a / d else -((-a) / d)
  }

  /** The quotient truncates toward zero: q * d lies between 0 and a, and
      less than d away from a. */
  lemma TruncDivBounds(a: int, d: int)
    requires d > 0
    ensures 0 <= a ==> 0 <= TruncDiv(a, d) * d <= a < TruncDiv(a, d) * d + d
    ensures a < 0 ==> TruncDiv(a, d) * d - d < a <= TruncDiv(a, d) * d <= 0
  {
    if a >= 0 {
      var q := a / d;
      assert a == q * d + a % d;
      DivNonNeg(a, d);
    } else {
      var m := (-a) / d;
      assert -a == m * d + (-a) % d;
      DivNonNeg(-a, d);
      assert (-m) * d == -(m * d);
    }
  }

  lemma ProductNonNeg(a: int, b: int)
    requires 0 <= a && 0 <= b
    ensures 0 <= a * b
  {
  }

  /** Multiplying by a positive d keeps the order of ints, and only then. */
  lemma MulCancel(a: int, b: int, d: int)
    requires 0 < d
    ensures a * d <= b * d <==> a <= b
  {
    assert b * d - a * d == (b - a) * d;
    if a <= b { ProductNonNeg(b - a, d); }
    else { ProductNonNeg(a - b - 1, d); assert (a - b) * d == (a - b - 1) * d + d; }
  }

  lemma DivNonNeg(a: int, d: int)
    requires 0 <= a && 0 < d
    ensures 0 <= a / d && 0 <= (a / d) * d
  {
  }

  /** Truncation is symmetric about zero (floor division is not). */
  lemma TruncDivNeg(a: int, d: int)
    requires d > 0
    ensures TruncDiv(-a, d) == -TruncDiv(a, d)
  {
    if a > 0 {
      assert -a < 0;
    }
  }

  /** An exact quotient truncates to itself. */
  lemma TruncDivExact(q: int, d: int)
    requires d > 0
    ensures TruncDiv(q * d, d) == q
  {
    var r := TruncDiv(q * d, d);
    TruncDivBounds(q * d, d);
    assert (q - r) * d == q * d - r * d;
    SmallMultiple(q - r, d);
  }

  /** A multiple of d strictly smaller than d in size is zero. */
  lemma SmallMultiple(k: int, d: int)
    requires 0 < d && -d < k * d < d
    ensures k == 0
  {
  }

  /** `static_cast<int>(c * f)` for an int c and a float f = num/den. */
  function MulRatio(c: int, f: Ratio): int
    requires f.den > 0
  {
    TruncDiv(c * f.num, f.den)
  }

  /** `static_cast<int>(c / f)` for an int c and a non-zero float f = num/den. */
  function DivRatio(c: int, f: Ratio): int
    requires f.num != 0 && f.den > 0
  {
    if f.num > 0 then TruncDiv(c * f.den, f.num) else TruncDiv(-(c * f.den), -f.num)
  }

  /** `roundf(n / d)` for an exact quotient: the nearest integer, a tie going
      away from zero. */
  function RoundHalfAway(n: int, d: int): int
    requires d > 0
  {
    if n >= 0 then (2 * n + d) / (2 * d) else -((-2 * n + d) / (2 * d))
  }

  /** The rounded value is the integer nearest n / d, a tie going away from
      zero. */
  lemma RoundHalfAwayBounds(n: int, d: int)
    requires d > 0
    ensures var r := RoundHalfAway(n, d);
      (0 <= n ==> 0 <= r && 2 * r * d - d <= 2 * n < 2 * r * d + d) &&
      (n < 0 ==> r <= 0 && 2 * r * d - d < 2 * n <= 2 * r * d + d)
  {
    if n >= 0 {
      var r := (2 * n + d) / (2 * d);
      assert 2 * n + d == r * (2 * d) + (2 * n + d) % (2 * d);
      DivNonNeg(2 * n + d, 2 * d);
      assert r * (2 * d) == 2 * r * d;
    } else {
      var m := (-2 * n + d) / (2 * d);
      assert -2 * n + d == m * (2 * d) + (-2 * n + d) % (2 * d);
      DivNonNeg(-2 * n + d, 2 * d);
      assert m * (2 * d) == 2 * m * d;
      assert 2 * (-m) * d == -(2 * m * d);
    }
  }

  /** `static_cast<int>(roundf(w / 255.f) * 255)`: the alpha value of one-bit
      transparency nearest to w. */
  function NearestAlpha(w: int): int
  {
    RoundHalfAway(w, 255) * 255
  }

  /** Because 255 is odd there is never a tie: the alpha error is at most 127
      in size, it is zero exactly for the two levels, and a channel value is
      rounded to 0 exactly when it lies within 127 of 0. */
  lemma NearestAlphaError(w: int)
    ensures -127 <= w - NearestAlpha(w) <= 127
    ensures NearestAlpha(w) == 0 <==> -127 <= w <= 127
    ensures 0 <= w <= 255 ==> NearestAlpha(w) == 0 || NearestAlpha(w) == 255
    ensures NearestAlpha(w) % 255 == 0
  {
    var r := RoundHalfAway(w, 255);
    RoundHalfAwayBounds(w, 255);
    assert 2 * r * 255 - 255 <= 2 * w <= 2 * r * 255 + 255;
    assert 2 * r * 255 - 255 != 2 * w && 2 * w != 2 * r * 255 + 255;
    assert 510 * r - 254 <= 2 * w <= 510 * r + 254;
    if 0 <= w <= 255 {
      assert 0 <= r <= 1;
    }
    if -127 <= w <= 127 {
      assert r == 0;
    }
  }

  /** Row-major flat indexing `x + y * width`: inside a width x height grid
      it stays inside [0, width * height). */
  lemma FlatBounds(x: int, y: int, width: int, height: int)
    requires 0 <= x < width && 0 <= y < height
    ensures 0 <= x + y * width < width * height
  {
    ProductNonNeg(y, width);
    MulCancel(y, height - 1, width);
    assert (height - 1) * width == height * width - width;
  }

  /** The pixels before (x, y) in raster order fit in the grid. */
  lemma RowPrefix(x: int, y: int, width: int, height: int)
    requires 0 <= x <= width && 0 <= y < height
    ensures 0 <= x + y * width <= width * height
  {
    ProductNonNeg(y, width);
    if width > 0 { MulCancel(y, height - 1, width); }
    assert (height - 1) * width == height * width - width;
  }

  lemma FlatBoundsTotal(width: int, height: int)
    ensures height * width == width * height
  {
  }

  /** A flat index names exactly one column and one row. */
  lemma FlatSplit(i: int, width: int)
    requires 0 <= i && 0 < width
    ensures 0 <= i % width < width && 0 <= i / width
    ensures i == i % width + (i / width) * width
  {
  }

  lemma FlatUnique(x: int, y: int, width: int)
    requires 0 <= x < width && 0 <= y
    ensures (x + y * width) % width == x && (x + y * width) / width == y
  {
    var i := x + y * width;
    FlatSplit(i, width);
    var x', y' := i % width, i / width;
    assert x' + y' * width == x + y * width;
    assert (y' - y) * width == x - x';
    SmallMultiple(y' - y, width);
  }

  /** Moving one step right from the end of a row reaches the next row. */
  lemma NextRow(y: int, width: int)
    ensures width + y * width == (y + 1) * width
  {
  }

  /** The flat indices of the four error-diffusion neighbours of (x, y). */
  lemma NeighbourIndices(x: int, y: int, width: int)
    ensures (x + 1) + y * width == (x + y * width) + 1
    ensures (x - 1) + (y + 1) * width == (x + y * width) + width - 1
    ensures x + (y + 1) * width == (x + y * width) + width
    ensures (x + 1) + (y + 1) * width == (x + y * width) + width + 1
  {
    NextRow(y, width);
  }
}
