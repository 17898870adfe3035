/** Circle-versus-rectangle geometry used by every wall test of the game.

    The game compares a Euclidean distance with a radius (`Math.sqrt(d2) < r`).
    Because a square root is never negative, that comparison holds exactly when
    the radius is positive and the squared distance is below the squared radius;
    `Within` states it that way, so no square root is needed. */
module Geometry {

  /** An axis-aligned wall rectangle: top-left corner, width and height. */
  datatype Rect = Rect(x: real, y: real, width: real, height: real)

  predicate WellFormed(w: Rect) {
    w.width >= 0.0 && w.height >= 0.0
  }

  predicate InRect(px: real, py: real, w: Rect) {
    w.x <= px <= w.x + w.width && w.y <= py <= w.y + w.height
  }

  function Max(a: real, b: real): real { if a >= b then a else b }

  function Min(a: real, b: real): real { if a <= b then a else b }

  /** `max(lo, min(v, lo + len))`: the point of the segment [lo, lo + len] nearest to v. */
  function Closest(lo: real, v: real, len: real): (c: real)
    ensures len >= 0.0 ==> lo <= c <= lo + len
    ensures lo <= v <= lo + len ==> c == v
    ensures v < lo ==> c == lo
    ensures len >= 0.0 && lo + len < v ==> c == lo + len
  {
    Max(lo, Min(v, lo + len))
  }

  function Sq(a: real): real { a * a }

  /** Squared Euclidean distance between two points. */
  function Dist2(x1: real, y1: real, x2: real, y2: real): real {
    Sq(x1 - x2) + Sq(y1 - y2)
  }

  /** `Math.sqrt(d2) < r` for a squared distance d2 >= 0. */
  predicate Within(d2: real, r: real) {
    0.0 < r && d2 < r * r
  }

  /** The circle of radius r at (x, y) overlaps wall w: the clamped closest
      point of w lies at distance strictly less than r. */
  predicate HitsRect(x: real, y: real, r: real, w: Rect) {
    Within(Dist2(x, y, Closest(w.x, x, w.width), Closest(w.y, y, w.height)), r)
  }

  /** Some wall of the list overlaps the circle. */
  predicate CollidesWithWalls(walls: seq<Rect>, x: real, y: real, r: real) {
    exists i :: 0 <= i < |walls| && HitsRect(x, y, r, walls[i])
  }

  lemma SquareMono(a: real, b: real)
    requires 0.0 <= a <= b
    ensures Sq(a) <= Sq(b)
  {
    assert a * a <= a * b;
    assert a * b <= b * b;
  }

  lemma MulPos(a: real, b: real)
    requires 0.0 < a && 0.0 < b
    ensures 0.0 < a * b
  {
  }

  lemma SquareStrictMono(a: real, b: real)
    requires 0.0 <= a < b
    ensures Sq(a) < Sq(b)
  {
    var d, t := b - a, b + a;
    MulPos(d, t);
    assert d * t == b * b - a * a;
  }

  lemma SquareNonneg(a: real)
    ensures Sq(a) >= 0.0
  {
    if a < 0.0 {
      assert (-a) * (-a) == a * a;
    }
  }

  lemma SquareNeg(a: real)
    ensures Sq(-a) == Sq(a)
  {
  }

  /** The clamped value is at least as close to v as any point of the segment. */
  lemma {:induction false} ClosestIsNearest(lo: real, v: real, len: real, p: real)
    requires len >= 0.0 && lo <= p <= lo + len
    ensures Sq(v - Closest(lo, v, len)) <= Sq(v - p)
  {
    var c := Closest(lo, v, len);
    if v < lo {
      SquareMono(c - v, p - v);
      SquareNeg(v - c);
      SquareNeg(v - p);
    } else if v > lo + len {
      SquareMono(v - c, v - p);
    } else {
      assert v - c == 0.0;
    }
  }

  /** The wall test agrees with its geometric meaning: the circle overlaps the
      rectangle exactly when some point of the rectangle lies strictly inside
      the circle. */
  lemma {:induction false} HitsRectIffSomePointInside(x: real, y: real, r: real, w: Rect)
    requires WellFormed(w)
    ensures HitsRect(x, y, r, w) <==>
            exists px, py :: InRect(px, py, w) && Within(Dist2(x, y, px, py), r)
  {
    var cx, cy := Closest(w.x, x, w.width), Closest(w.y, y, w.height);
    if HitsRect(x, y, r, w) {
      assert InRect(cx, cy, w) && Within(Dist2(x, y, cx, cy), r);
    }
    if exists px, py :: InRect(px, py, w) && Within(Dist2(x, y, px, py), r) {
      var px, py :| InRect(px, py, w) && Within(Dist2(x, y, px, py), r);
      ClosestIsNearest(w.x, x, w.width, px);
      ClosestIsNearest(w.y, y, w.height, py);
      assert Dist2(x, y, cx, cy) <= Dist2(x, y, px, py);
    }
  }

  /** A point that is at least r away from (cx, cy) along one axis is not
      strictly within distance r of it. */
  lemma FarOnOneAxis(x: real, y: real, cx: real, cy: real, r: real)
    requires 0.0 < r
    requires x - cx >= r || cx - x >= r || y - cy >= r || cy - y >= r
    ensures !Within(Dist2(x, y, cx, cy), r)
  {
    SquareNonneg(x - cx);
    SquareNonneg(y - cy);
    if x - cx >= r {
      SquareMono(r, x - cx);
    } else if cx - x >= r {
      SquareMono(r, cx - x);
      SquareNeg(x - cx);
    } else if y - cy >= r {
      SquareMono(r, y - cy);
    } else {
      SquareMono(r, cy - y);
      SquareNeg(y - cy);
    }
  }
}
