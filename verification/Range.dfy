/** Mapping a value from one inclusive range to another (range.rs). */
module Ranges {
  import opened Results
  import opened Numbers

  const I64_MIN: int := -0x8000_0000_0000_0000
  const I64_MAX: int := 0x7FFF_FFFF_FFFF_FFFF

  predicate IsI64(x: int) { I64_MIN <= x <= I64_MAX }

  /** Integer division that truncates toward zero. */
  function TruncDiv(a: int, b: int): (q: int)
    requires b > 0
  {
    if a >= 0 then a / b else -((-a) / b)
  }

  datatype Range = Range(lo: int, hi: int)

  /** `map_value_in_range_inclusive`. */
  function MapValue(from: Range, to: Range, v: int): (r: Result<int>)
  {
    if !(from.lo <= v <= from.hi) then Err("v is not in range from")
    else
      var fromWidth := from.hi - from.lo;
      if fromWidth == 0 then Ok(to.lo)
      else
        var left := TruncDiv((v - from.lo) * (to.hi - to.lo), fromWidth);
        if IsI64(left) then Ok(to.lo + left) else Err("failed to convert to_left to the result type")
  }

  lemma MulOrder(a: int, b: int, c: int)
    requires 0 <= a <= b && 0 <= c
    ensures 0 <= a * c <= b * c
  {
  }

  /** The offset into the target: within bounds and within one unit of exact proportion. */
  lemma ScaledOffset(left: int, width: int, target: int)
    requires 0 <= left <= width && 0 < width && 0 <= target
    ensures 0 <= left * target / width <= target
    ensures 0 <= left * target - (left * target / width) * width < width
    ensures left == 0 ==> left * target / width == 0
    ensures left == width ==> left * target / width == target
  {
    MulOrder(left, width, target);
    var q := left * target / width;
    var r := left * target % width;
    assert left * target == q * width + r;
    if q > target {
      MulOrder(target + 1, q, width);
    }
    if left == width {
      if q < target {
        MulOrder(q + 1, target, width);
      }
    }
  }

  lemma DivMonotone(a: int, b: int, d: int)
    requires 0 <= a <= b && 0 < d
    ensures a / d <= b / d
  {
    var p, q := a / d, b / d;
    assert a == p * d + a % d && b == q * d + b % d;
    if p > q {
      MulOrder(q + 1, p, d);
    }
  }

  /** For every source range and every target, also one that runs backwards, whose width fits
      an i64: a value is refused exactly when it is outside the source; a mapped value lies in
      the target and is the exact proportion rounded toward the target's start; a source of one
      value gives the start, and any other hits both ends; the offset always converts. */
  lemma MapValueFacts(from: Range, to: Range, v: int)
    requires IsI64(to.hi - to.lo)
    ensures MapValue(from, to, v).Ok? <==> from.lo <= v <= from.hi
    ensures MapValue(from, to, v).Ok? ==>
              var r := MapValue(from, to, v).value;
              && Between(to.lo, r, to.hi)
              && (from.lo == from.hi ==> r == to.lo)
              && (from.lo < from.hi ==>
                    Abs(r - to.lo) * (from.hi - from.lo) <= (v - from.lo) * Abs(to.hi - to.lo)
                    < (Abs(r - to.lo) + 1) * (from.hi - from.lo))
              && (from.lo < from.hi && v == from.lo ==> r == to.lo)
              && (from.lo < from.hi && v == from.hi ==> r == to.hi)
  {
    if from.lo <= v <= from.hi && from.lo < from.hi {
      Scaled(v - from.lo, from.hi - from.lo, to.hi - to.lo);
    }
  }

  /** The offset of either sign. */
  lemma Scaled(left: int, width: int, target: int)
    requires 0 <= left <= width && 0 < width
    ensures var q := TruncDiv(left * target, width);
            && Between(0, q, target)
            && Abs(q) * width <= left * Abs(target) < (Abs(q) + 1) * width
            && (left == 0 ==> q == 0) && (left == width ==> q == target)
            && q == if target >= 0 then left * target / width else -(left * -target / width)
  {
    ScaledOffset(left, width, Abs(target));
    ProductSign(left, target);
    TruncOfSign(left * Abs(target), width);
    QuotientBounds(left * Abs(target), width);
  }

  lemma ProductSign(left: int, target: int)
    requires 0 <= left
    ensures 0 <= left * Abs(target)
    ensures left * target == if target >= 0 then left * Abs(target) else -(left * Abs(target))
  {
    if target < 0 {
      assert left * target == -(left * -target);
    }
  }

  lemma TruncOfSign(x: int, width: int)
    requires 0 <= x && 0 < width
    ensures TruncDiv(x, width) == x / width && TruncDiv(-x, width) == -(x / width)
  {
    QuotientBounds(x, width);
    if x > 0 {
      var y := -x;
      assert -y == x;
    }
  }

  lemma QuotientBounds(x: int, width: int)
    requires 0 <= x && 0 < width
    ensures 0 <= x / width && (x / width) * width <= x < (x / width + 1) * width
    ensures x == 0 ==> x / width == 0
  {
  }

  /** Mapping is monotone in the value, in the target's direction. */
  lemma MapValueMonotone(from: Range, to: Range, v: int, w: int)
    requires IsI64(to.hi - to.lo)
    requires from.lo <= v <= w <= from.hi
    ensures MapValue(from, to, v).Ok? && MapValue(from, to, w).Ok?
    ensures var x, y := MapValue(from, to, v).value, MapValue(from, to, w).value;
            if to.lo <= to.hi then x <= y else y <= x
  {
    MapValueFacts(from, to, v);
    MapValueFacts(from, to, w);
    if from.lo < from.hi {
      var t := to.hi - to.lo;
      Scaled(v - from.lo, from.hi - from.lo, t);
      Scaled(w - from.lo, from.hi - from.lo, t);
      MulOrder(v - from.lo, w - from.lo, Abs(t));
      DivMonotone((v - from.lo) * Abs(t), (w - from.lo) * Abs(t), from.hi - from.lo);
    }
  }

  /** With u32 source bounds and a screen of width w the 128-bit product cannot overflow. */
  lemma ProductFits(from: Range, w: int, v: int)
    requires 0 <= from.lo <= v <= from.hi < 0x1_0000_0000 && 1 <= w <= I64_MAX
    ensures 0 <= (v - from.lo) * (w - 1) < 0x8000_0000_0000_0000_0000_0000_0000_0000
  {
    MulOrder(v - from.lo, 0x1_0000_0000, w - 1);
  }
}
