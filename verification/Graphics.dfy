/** Line drawing into a pixel buffer (graphics.rs). */
module Graphics {
  import opened Results
  import opened Numbers
  import Bits

  /** `calc_slope_point`: the minor offset at major offset ia, for 0 <= db <= da. */
  function SlopePoint(da: nat, db: nat, ia: nat): (r: Option<nat>)
  {
    if da < db then None
    else if da == 0 then Some(0)
    else if ia <= da then Some((2 * db * ia + da) / da / 2)
    else None
  }

  /** r is the offset nearest to db * ia / da, ties up: r - 1/2 <= db * ia / da < r + 1/2. */
  predicate Nearest(da: nat, db: nat, ia: nat, r: nat)
  {
    2 * da * r <= 2 * db * ia + da < 2 * da * r + 2 * da
  }

  /** The offset is the nearest to the ideal line; it never exceeds db, starts at 0 and ends
      at db. */
  lemma SlopeNearest(da: nat, db: nat, ia: nat)
    requires db <= da && 0 < da && ia <= da
    ensures var r := SlopePoint(da, db, ia).value;
            Nearest(da, db, ia, r) && r <= db
    ensures SlopePoint(da, db, 0).value == 0 && SlopePoint(da, db, da).value == db
  {
    SlopeBounds(da, db, ia);
    SlopeBounds(da, db, 0);
    SlopeBounds(da, db, da);
    var r := SlopePoint(da, db, ia).value;
    hide SlopePoint;
    NoLarger(da, db, ia, r);
    Squeeze(da, db, 0, 0, SlopePoint(da, db, 0).value);
    Squeeze(da, db, da, db, SlopePoint(da, db, da).value);
  }

  lemma SlopeBounds(da: nat, db: nat, ia: nat)
    requires db <= da && 0 < da && ia <= da
    ensures SlopePoint(da, db, ia).Some?
    ensures var r := SlopePoint(da, db, ia).value;
            Nearest(da, db, ia, r)
  {
    var x := 2 * db * ia + da;
    Bits.DivDiv(x, da, 2);
    Bits.DivModParts(x, da * 2);
    var r := SlopePoint(da, db, ia).value;
    assert r == x / (da * 2) && r * (da * 2) == 2 * da * r;
  }

  lemma NoLarger(da: nat, db: nat, ia: nat, r: nat)
    requires 0 < da && ia <= da && Nearest(da, db, ia, r)
    ensures r <= db
  {
    assert db * ia <= db * da by { Bits.MulMonotone(ia, da, db); }
    if r > db {
      Bits.MulMonotone(db + 1, r, 2 * da);
    }
  }

  lemma Squeeze(da: nat, db: nat, ia: nat, b: nat, r: nat)
    requires 0 < da && db * ia == b * da && Nearest(da, db, ia, r)
    ensures r == b
  {
    var d := 2 * da;
    assert 2 * db * ia == d * b;
    Apart(d, b, r, d * b, d * b + da);
    assert d * (b + 1) == d * b + d;
  }

  /** One step along the major axis moves the minor one by 0 or 1. */
  lemma SlopeStep(da: nat, db: nat, ia: nat)
    requires db <= da && ia < da
    ensures var r, r' := SlopePoint(da, db, ia).value, SlopePoint(da, db, ia + 1).value;
            r <= r' <= r + 1
  {
    SlopeBounds(da, db, ia);
    SlopeBounds(da, db, ia + 1);
    var r, r' := SlopePoint(da, db, ia).value, SlopePoint(da, db, ia + 1).value;
    hide SlopePoint;
    NearestStep(da, db, ia, r, r');
  }

  lemma NearestStep(da: nat, db: nat, ia: nat, r: nat, r': nat)
    requires db <= da && Nearest(da, db, ia, r) && Nearest(da, db, ia + 1, r')
    ensures r <= r' <= r + 1
  {
    var d, x := 2 * da, 2 * db * ia;
    assert 2 * db * (ia + 1) == x + 2 * db;
    Apart(d, r, r', x + da, x + 2 * db + da);
  }

  lemma Apart(d: nat, r: nat, r': nat, u: nat, v: nat)
    requires d * r <= u < d * r + d && d * r' <= v < d * r' + d && u <= v <= u + d
    ensures r <= r' <= r + 1
  {
    if r' < r {
      Bits.MulMonotone(r' + 1, r, d);
    } else if r' > r + 1 {
      Bits.MulMonotone(r + 2, r', d);
    }
  }

  // ----- lines -----

  datatype Point = Point(x: int, y: int)

  function Sign(a: int): (r: int) ensures -1 <= r <= 1 { if a < 0 then -1 else if a == 0 then 0 else 1 }

  /** A length with a sign's direction. */
  function Along(sign: int, n: nat): (r: int)
    requires -1 <= sign <= 1
    ensures r == sign * n
  {
    if sign < 0 then 0 - n else if sign == 0 then 0 else n
  }

  /** How many points a line has: its end is left out. */
  function LineLength(p: Point, q: Point): (n: nat) { Max(Abs(q.x - p.x), Abs(q.y - p.y)) }

  /** The k-th point of the line from p to q, stepping along the longer axis. */
  function LinePoint(p: Point, q: Point, k: nat): (r: Point)
    requires k <= LineLength(p, q)
  {
    var dx, dy := Abs(q.x - p.x), Abs(q.y - p.y);
    var sx, sy := Sign(q.x - p.x), Sign(q.y - p.y);
    if dx >= dy then Point(p.x + Along(sx, k), p.y + Along(sy, SlopePoint(dx, dy, k).value))
    else Point(p.x + Along(sx, SlopePoint(dy, dx, k).value), p.y + Along(sy, k))
  }

  /** Every point lies in the box of the endpoints; the first is p, and where the end would
      come, q. */
  lemma LineInBox(p: Point, q: Point, k: nat)
    requires k <= LineLength(p, q)
    ensures Between(p.x, LinePoint(p, q, k).x, q.x) && Between(p.y, LinePoint(p, q, k).y, q.y)
    ensures LinePoint(p, q, 0) == p && LinePoint(p, q, LineLength(p, q)) == q
  {
    hide Nearest;
    var dx, dy := Abs(q.x - p.x), Abs(q.y - p.y);
    Reach(dx, dy, k);
    Reach(dy, dx, k);
    hide SlopePoint;
  }

  /** What a line needs of its minor offsets. */
  lemma Reach(da: nat, db: nat, ia: nat)
    ensures db <= da && ia <= da ==>
              && SlopePoint(da, db, ia).Some? && SlopePoint(da, db, ia).value <= db
              && SlopePoint(da, db, 0) == Some(0) && SlopePoint(da, db, da) == Some(db)
  {
    if db <= da && ia <= da && 0 < da {
      SlopeNearest(da, db, ia);
    }
  }

  /** Consecutive points touch: each coordinate moves by at most one, and they differ. */
  lemma LineConnected(p: Point, q: Point, k: nat)
    requires k < LineLength(p, q)
    ensures var a, b := LinePoint(p, q, k), LinePoint(p, q, k + 1);
            Abs(b.x - a.x) <= 1 && Abs(b.y - a.y) <= 1 && a != b
  {
    var dx, dy := Abs(q.x - p.x), Abs(q.y - p.y);
    if dx >= dy {
      SlopeStep(dx, dy, k);
    } else {
      SlopeStep(dy, dx, k);
    }
    hide SlopePoint;
  }

  /** Each point is within half a pixel of the ideal line along the minor axis. */
  lemma LineNearest(p: Point, q: Point, k: nat)
    requires k <= LineLength(p, q) && LineLength(p, q) > 0
    ensures var dx, dy := Abs(q.x - p.x), Abs(q.y - p.y);
            var r := LinePoint(p, q, k);
            if dx >= dy then Nearest(dx, dy, k, Abs(r.y - p.y)) else Nearest(dy, dx, k, Abs(r.x - p.x))
  {
    hide Nearest;
    var dx, dy := Abs(q.x - p.x), Abs(q.y - p.y);
    if dx >= dy {
      SlopeNearest(dx, dy, k);
      Along0(q.y - p.y, SlopePoint(dx, dy, k).value);
    } else {
      SlopeNearest(dy, dx, k);
      Along0(q.x - p.x, SlopePoint(dy, dx, k).value);
    }
    hide SlopePoint;
  }

  lemma Along0(d: int, n: nat)
    requires n <= Abs(d)
    ensures Abs(Along(Sign(d), n)) == n
  {
  }

  /** Different steps give different points. */
  lemma LineInjective(p: Point, q: Point, j: nat, k: nat)
    requires j < k <= LineLength(p, q)
    ensures LinePoint(p, q, j) != LinePoint(p, q, k)
  {
    hide SlopePoint;
    PointsExist(p, q, j);
    PointsExist(p, q, k);
  }

  lemma PointsExist(p: Point, q: Point, k: nat)
    requires k <= LineLength(p, q)
    ensures var dx, dy := Abs(q.x - p.x), Abs(q.y - p.y);
            if dx >= dy then SlopePoint(dx, dy, k).Some? else SlopePoint(dy, dx, k).Some?
  {
  }

  // ----- the buffer -----

  /** A bitmap of 32-bit pixels, `ppl` per line of which the first `width` show. */
  class Bitmap {
    const width: nat
    const height: nat
    const ppl: nat
    const pixels: array<nat>

    ghost predicate Valid()
    {
      pixels.Length == height * ppl
    }

    predicate InRange(p: Point)
    {
      0 <= p.x < width && p.x < ppl && 0 <= p.y < height
    }

    /** `unchecked_pixel_at_mut`, in pixels. */
    function Index(p: Point): (i: nat)
      requires InRange(p)
    {
      p.y * ppl + p.x
    }

    lemma IndexInside(p: Point)
      requires Valid() && InRange(p)
      ensures Index(p) < pixels.Length
    {
      Bits.MulMonotone(p.y + 1, height, ppl);
    }

    /** Different pixels have different places. */
    lemma IndexInjective(p: Point, q: Point)
      requires InRange(p) && InRange(q) && Index(p) == Index(q)
      ensures p == q
    {
      Bits.QuotientUnique(ppl, p.y, p.x, q.y, q.x);
    }

    /** The places run from left to right and then from top to bottom: pixel (0, 0) is the first,
        one step right adds one and one step down a whole line, and of two pixels the upper, and
        on one line the left one, comes first. */
    lemma RowMajor(p: Point, q: Point)
      requires InRange(p) && InRange(q)
      ensures p == Point(0, 0) ==> Index(p) == 0
      ensures q == Point(p.x + 1, p.y) ==> Index(q) == Index(p) + 1
      ensures q == Point(p.x, p.y + 1) ==> Index(q) == Index(p) + ppl
      ensures Index(p) < Index(q) <==> p.y < q.y || (p.y == q.y && p.x < q.x)
    {
      NextLine(p, q.y);
      NextLine(q, p.y);
    }

    lemma NextLine(p: Point, y: int)
      requires InRange(p) && 0 <= y
      ensures (p.y + 1) * ppl == p.y * ppl + ppl
      ensures p.y < y ==> Index(p) < y * ppl
    {
      if p.y < y {
        Bits.MulMonotone(p.y + 1, y, ppl);
      }
    }

    constructor (width: nat, height: nat, ppl: nat)
      ensures Valid() && this.width == width && this.height == height && this.ppl == ppl && fresh(pixels)
    {
      this.width, this.height, this.ppl := width, height, ppl;
      pixels := new nat[height * ppl];
    }

    /** `draw_point`. */
    method DrawPoint(color: nat, p: Point) returns (ok: bool)
      requires Valid()
      modifies pixels
      ensures ok == InRange(p)
      ensures ok <==> 0 <= p.x < Min(width, ppl) && 0 <= p.y < height
      ensures !ok ==> pixels[..] == old(pixels[..])
      ensures ok ==> Index(p) < pixels.Length && pixels[..] == old(pixels[..])[Index(p) := color]
    {
      if !InRange(p) {
        return false;
      }
      IndexInside(p);
      pixels[Index(p)] := color;
      return true;
    }

    /** The first n points of a line are painted and nothing else. */
    ghost predicate Painted(before: seq<nat>, color: nat, p: Point, q: Point, n: nat)
      requires n <= LineLength(p, q)
      reads pixels
    {
      && |before| == pixels.Length
      && (forall k :: 0 <= k < n ==>
            && InRange(LinePoint(p, q, k)) && Index(LinePoint(p, q, k)) < pixels.Length
            && pixels[Index(LinePoint(p, q, k))] == color)
      && (forall i :: 0 <= i < pixels.Length ==>
            || pixels[i] == before[i]
            || exists k :: 0 <= k < n && InRange(LinePoint(p, q, k)) && i == Index(LinePoint(p, q, k)))
    }

    /** `draw_line`: refused exactly when an endpoint is out of range, and then nothing is
        drawn; otherwise it never stops midway. */
    method DrawLine(color: nat, p: Point, q: Point) returns (ok: bool)
      requires Valid()
      modifies pixels
      ensures ok == (InRange(p) && InRange(q))
      ensures !ok ==> pixels[..] == old(pixels[..])
      ensures ok ==> Painted(old(pixels[..]), color, p, q, LineLength(p, q))
    {
      if !InRange(p) || !InRange(q) {
        return false;
      }
      var dx, dy := Abs(q.x - p.x), Abs(q.y - p.y);
      var sx, sy := Sign(q.x - p.x), Sign(q.y - p.y);
      var n := if dx >= dy then dx else dy;
      for k := 0 to n
        invariant Painted(old(pixels[..]), color, p, q, k)
      {
        PointsExist(p, q, k);
        var r := if dx >= dy then SlopePoint(dx, dy, k) else SlopePoint(dy, dx, k);
        var point := if dx >= dy then Point(p.x + Along(sx, k), p.y + Along(sy, r.value))
                     else Point(p.x + Along(sx, r.value), p.y + Along(sy, k));
        assert point == LinePoint(p, q, k);
        LineInBox(p, q, k);
        hide SlopePoint, LinePoint;
        ghost var prior := pixels[..];
        var drawn := DrawPoint(color, point);
        PaintedStep(old(pixels[..]), prior, color, p, q, k);
        if !drawn {
          return false;
        }
      }
      return true;
    }

    lemma PaintedStep(before: seq<nat>, prior: seq<nat>, color: nat, p: Point, q: Point, k: nat)
      requires Valid() && k < LineLength(p, q) && InRange(LinePoint(p, q, k))
      requires |before| == |prior| == pixels.Length && Index(LinePoint(p, q, k)) < pixels.Length
      requires pixels[..] == prior[Index(LinePoint(p, q, k)) := color]
      requires forall j :: 0 <= j < k ==>
                 && InRange(LinePoint(p, q, j)) && Index(LinePoint(p, q, j)) < |prior|
                 && prior[Index(LinePoint(p, q, j))] == color
      requires forall i :: 0 <= i < |prior| ==>
                 || prior[i] == before[i]
                 || exists j :: 0 <= j < k && InRange(LinePoint(p, q, j)) && i == Index(LinePoint(p, q, j))
      ensures Painted(before, color, p, q, k + 1)
    {
      hide LinePoint;
      var at := Index(LinePoint(p, q, k));
      assert forall i :: 0 <= i < pixels.Length ==> pixels[i] == pixels[..][i] == if i == at then color else prior[i];
    }
  }
}
