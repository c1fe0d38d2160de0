/**
  Pixel <-> time and pixel <-> row mapping of the timeline grid.

  The zoom factor `timeScale` is a float in the grid panel; here it is an
  exact positive ratio num/den, and every `(int)` cast of the panel is a
  truncation toward zero (`JavaDiv`).
 */
module Mapper {

  const OneSecondWidth: int := 70
  const PaddingTop: int := 30
  const PaddingLeft: int := 15
  const LineHeight: int := 20
  const LineGap: int := 1
  /** Vertical distance between the tops of two consecutive rows. */
  const RowPitch: int := LineHeight + LineGap

  datatype Ratio = Ratio(num: int, den: int)

  /** A zoom factor: the time shown per pixel is multiplied by num/den. */
  type Scale = r: Ratio | r.num > 0 && r.den > 0 witness Ratio(1, 1)

  /** q is a / b rounded toward zero: the largest multiple of b not past a, on a's side of zero. */
  ghost predicate TruncatedQuotient(q: int, a: int, b: int)
  {
    if a >= 0 then q * b <= a < q * b + b else q * b - b < a <= q * b
  }

  /** Integer division truncating toward zero, as Java's int division and (int) casts do. */
  function JavaDiv(a: int, b: int): (q: int)
    requires b > 0
    ensures TruncatedQuotient(q, a, b)
    ensures a >= 0 ==> q >= 0
    ensures a < 0 ==> q <= 0
  {
    if a >= 0 then
      NatDiv(a, b);
      a / b
    else
      NatDiv(-a, b);
      -((-a) / b)
  }

  /** Euclidean division of a non-negative number: the quotient's multiple is at most a, the next one past it. */
  lemma NatDiv(a: nat, b: int)
    requires b > 0
    ensures (a / b) * b <= a < (a / b) * b + b
  {
    var q, r := a / b, a % b;
    assert a == b * q + r && 0 <= r < b;
    assert b * q == q * b;
  }

  /**
    The truncated, not yet clamped or rounded, time under pixel column x:
    the exact time (x - paddingLeft + hOffset) * 1000 / oneSecondWidth * timeScale
    rounded toward zero.
   */
  function RawTime(x: int, scale: Scale, hOffset: int): (t: int)
    ensures TruncatedQuotient(t, (x - PaddingLeft + hOffset) * 1000 * scale.num, OneSecondWidth * scale.den)
    ensures x - PaddingLeft + hOffset >= 0 ==> t >= 0
  {
    JavaDiv((x - PaddingLeft + hOffset) * 1000 * scale.num, OneSecondWidth * scale.den)
  }

  /** Java's Math.round(t / 100f) * 100 for a non-negative t: round half up to a multiple of 100. */
  function RoundToHundred(t: nat): (r: nat)
    ensures r % 100 == 0
    ensures r - 50 <= t < r + 50
  {
    ((t + 50) / 100) * 100
  }

  /**
    The time under pixel column x: clamped to be non-negative, then snapped
    to the nearest multiple of 100 ms (halves round up).
   */
  function TimeFromX(x: int, scale: Scale, hOffset: int): (r: int)
    ensures r >= 0 && r % 100 == 0
    ensures r - 50 <= Clamp0(RawTime(x, scale, hOffset)) < r + 50
  {
    var time := RawTime(x, scale, hOffset);
    var clamped := if time > 0 then time else 0;
    var rounded := RoundToHundred(clamped);
    if rounded > 0 then rounded else 0
  }

  function Clamp0(t: int): nat
  {
    if t > 0 then t else 0
  }

  /**
    The pixel column of time `millis`: the exact column
    millis / 1000 * oneSecondWidth / timeScale + paddingLeft - hOffset
    rounded toward zero.
   */
  function XFromTime(millis: int, scale: Scale, hOffset: int): (x: int)
    ensures TruncatedQuotient(x, millis * OneSecondWidth * scale.den + (PaddingLeft - hOffset) * 1000 * scale.num,
                              1000 * scale.num)
  {
    JavaDiv(millis * OneSecondWidth * scale.den + (PaddingLeft - hOffset) * 1000 * scale.num,
            1000 * scale.num)
  }

  /**
    The row under pixel line y; -1 stands for the ruler above the rows.
    Below the ruler, the row is the number of whole row pitches between the
    top of the first row and y.
   */
  function LineFromY(y: int, vOffset: int): (line: int)
    ensures y < PaddingTop ==> line == -1
    ensures y >= PaddingTop && y - PaddingTop + vOffset >= 0 ==>
      line >= 0 && line * RowPitch <= y - PaddingTop + vOffset < line * RowPitch + RowPitch
  {
    if y < PaddingTop then -1 else JavaDiv(y - PaddingTop + vOffset, RowPitch)
  }

  /** The pixel line of the top of row `line`; it lies below the ruler exactly when the row is not scrolled past. */
  function YFromLine(line: int, vOffset: int): (y: int)
    ensures y >= PaddingTop <==> RowPitch * line >= vOffset
    ensures y + RowPitch == PaddingTop - vOffset + RowPitch * (line + 1)
  {
    PaddingTop - vOffset + RowPitch * line
  }

  /** Euclidean-style monotonicity of multiplication by a positive factor. */
  lemma MulStep(d: int, a: int, b: int)
    requires d > 0
    ensures a < b ==> d * a + d <= d * b
    ensures a <= b ==> d * a <= d * b
    decreases if a < b then b - a else 0
  {
    if a < b {
      MulStep(d, a + 1, b);
      assert d * (a + 1) == d * a + d;
    }
  }

  lemma CancelLe(a: int, b: int, c: int)
    requires c > 0 && a * c <= b * c
    ensures a <= b
  {
    if a > b {
      MulStep(c, b, a);
    }
  }

  lemma CancelLt(a: int, b: int, c: int)
    requires c > 0 && a * c < b * c
    ensures a < b
  {
    if a >= b {
      MulStep(c, b, a);
    }
  }

  /**
    The column of time 100k is 7kd/n pixels past the left edge, rounded
    toward zero: m pixels with m * n on either side of 7kd by less than n.
   */
  lemma ColumnOfGridTime(k: nat, n: int, d: int, hOffset: int, x: int)
    requires n > 0 && d > 0
    requires TruncatedQuotient(x, 100 * k * OneSecondWidth * d + (PaddingLeft - hOffset) * 1000 * n, 1000 * n)
    ensures x - PaddingLeft + hOffset >= 0
    ensures var m := x - PaddingLeft + hOffset;
      (m * n <= 7 * k * d < m * n + n) || (m * n - n < 7 * k * d <= m * n)
  {
    var m := x - PaddingLeft + hOffset;
    var e := 7 * k * d + (PaddingLeft - hOffset) * n;
    assert 100 * k * OneSecondWidth * d + (PaddingLeft - hOffset) * 1000 * n == 1000 * e;
    assert x * (1000 * n) == 1000 * (x * n);
    assert m * n == x * n - (PaddingLeft - hOffset) * n;
    if e >= 0 {
      assert m * n <= 7 * k * d < m * n + n;
      CancelLt(0, m + 1, n);
    } else {
      assert m * n - n < 7 * k * d <= m * n;
      CancelLe(0, m, n);
    }
  }

  /** Rounded down and scaled back, a column short of 7kd/n by less than one pixel lands in [100k - 50, 100k]. */
  lemma TimeOfColumnBelow(k: nat, n: int, d: int, m: nat, raw: int)
    requires n > 0 && d > 0 && 2 * n <= 7 * d
    requires m * n <= 7 * k * d < m * n + n
    requires raw * (70 * d) <= m * 1000 * n < raw * (70 * d) + 70 * d
    ensures 100 * k - 50 <= raw <= 100 * k
  {
    assert (m * n) * 1000 == m * 1000 * n;
    assert 7000 * k * d == (100 * k) * (70 * d);
    CancelLe(raw, 100 * k, 70 * d);
    assert 1000 * n <= 3500 * d;
    assert (100 * k - 51) * (70 * d) == 7000 * k * d - 3570 * d;
    CancelLt(100 * k - 51, raw, 70 * d);
  }

  /** Rounded down and scaled back, a column past 7kd/n by less than one pixel lands in [100k, 100k + 50). */
  lemma TimeOfColumnAbove(k: nat, n: int, d: int, m: nat, raw: int)
    requires n > 0 && d > 0 && 2 * n <= 7 * d
    requires m * n - n < 7 * k * d <= m * n
    requires raw * (70 * d) <= m * 1000 * n < raw * (70 * d) + 70 * d
    ensures 100 * k <= raw < 100 * k + 50
  {
    assert (m * n) * 1000 == m * 1000 * n;
    assert 7000 * k * d == (100 * k) * (70 * d);
    assert (raw + 1) * (70 * d) == raw * (70 * d) + 70 * d;
    CancelLt(100 * k, raw + 1, 70 * d);
    assert 1000 * n <= 3500 * d;
    assert (100 * k + 50) * (70 * d) == 7000 * k * d + 3500 * d;
    CancelLt(raw, 100 * k + 50, 70 * d);
  }

  /**
    A time on the 100 ms grid survives the trip to a pixel column and back
    as long as one pixel spans at most 50 ms, that is for every zoom factor
    num/den up to 3.5: a column loses less than one pixel's worth of time,
    which the rounding to 100 ms then restores.
   */
  lemma TimeXRoundTrip(k: nat, scale: Scale, hOffset: int)
    requires 2 * scale.num <= 7 * scale.den
    ensures TimeFromX(XFromTime(100 * k, scale, hOffset), scale, hOffset) == 100 * k
  {
    var n, d := scale.num, scale.den;
    var x := XFromTime(100 * k, scale, hOffset);
    ColumnOfGridTime(k, n, d, hOffset, x);
    var m: nat := x - PaddingLeft + hOffset;
    var raw := RawTime(x, scale, hOffset);
    assert m * 1000 * n >= 0 by { MulStep(n, 0, m); }
    assert raw * (70 * d) <= m * 1000 * n < raw * (70 * d) + 70 * d;
    if m * n <= 7 * k * d < m * n + n {
      TimeOfColumnBelow(k, n, d, m, raw);
    } else {
      TimeOfColumnAbove(k, n, d, m, raw);
    }
    var t := TimeFromX(x, scale, hOffset);
    assert 100 * k - 50 <= Clamp0(raw) < 100 * k + 50;
    SnapUnique(t, Clamp0(raw), k);
  }

  /** Only one multiple of 100 lies within 50 ms (half up) of a given time. */
  lemma SnapUnique(r: int, c: int, k: int)
    requires r % 100 == 0 && r - 50 <= c < r + 50
    requires 100 * k - 50 <= c < 100 * k + 50
    ensures r == 100 * k
  {
    var q := r / 100;
    assert r == 100 * q;
  }

  /** Above the rows the sentinel -1 is returned, and only there. */
  lemma LineFromYSentinel(y: int, vOffset: int)
    requires vOffset >= 0
    ensures LineFromY(y, vOffset) == -1 <==> y < PaddingTop
    ensures y >= PaddingTop ==> LineFromY(y, vOffset) >= 0
  {
  }

  /** Every pixel line of the band that row `line` occupies maps back to that row. */
  lemma RowBand(line: int, y: int, vOffset: int)
    requires vOffset >= 0
    requires y >= PaddingTop
    requires YFromLine(line, vOffset) <= y < YFromLine(line, vOffset) + RowPitch
    ensures LineFromY(y, vOffset) == line
  {
    var d := y - YFromLine(line, vOffset);
    assert y - PaddingTop + vOffset == RowPitch * line + d;
    assert line >= 0;
    assert (RowPitch * line + d) / RowPitch == line;
  }

  /** Row -> pixel -> row is the identity for every row whose top lies below the ruler. */
  lemma RowRoundTrip(line: int, vOffset: int)
    requires vOffset >= 0
    requires YFromLine(line, vOffset) >= PaddingTop
    ensures LineFromY(YFromLine(line, vOffset), vOffset) == line
  {
    RowBand(line, YFromLine(line, vOffset), vOffset);
  }
}
