/** Axis-aligned pixel boxes, scored detections, and the intersection-over-union
    measure shared by both matchers. */
module Boxes {
  import opened RealArith

  /** A box (x1, y1, x2, y2) in integer pixel coordinates. Nothing forces
      x1 <= x2 or y1 <= y2: the source never checks, so malformed boxes are
      values like any other. */
  datatype Box = Box(x1: int, y1: int, x2: int, y2: int)

  /** One detector output record: class name, score and box. */
  datatype Prediction = Prediction(classLabel: string, confidence: real, bbox: Box)

  /** The additive guard in the denominator of the IoU. */
  const IouEpsilon: real := 0.000001

  predicate WellFormed(b: Box) {
    b.x1 <= b.x2 && b.y1 <= b.y2
  }

  /** The interiors of the two boxes meet in a rectangle of positive area. */
  predicate Overlap(a: Box, b: Box) {
    a.x1 < a.x2 && b.x1 < b.x2 && a.x1 < b.x2 && b.x1 < a.x2 &&
    a.y1 < a.y2 && b.y1 < b.y2 && a.y1 < b.y2 && b.y1 < a.y2
  }

  function Max(a: int, b: int): int { if a >= b then a else b }

  function Min(a: int, b: int): int { if a <= b then a else b }

  function Area(b: Box): int {
    (b.x2 - b.x1) * (b.y2 - b.y1)
  }

  /** Area of the intersection rectangle, zero when there is none. */
  function Intersection(a: Box, b: Box): (r: int)
    ensures r >= 0
    ensures r > 0 <==> Overlap(a, b)
  {
    var w := Max(0, Min(a.x2, b.x2) - Max(a.x1, b.x1));
    var h := Max(0, Min(a.y2, b.y2) - Max(a.y1, b.y1));
    assert Overlap(a, b) <==> w > 0 && h > 0;
    PositiveProduct(w, h);
    w * h
  }

  function Union(a: Box, b: Box): int {
    Area(a) + Area(b) - Intersection(a, b)
  }

  /** Intersection over union, with the epsilon-guarded denominator. The
      denominator is an integer plus IouEpsilon, so it is never zero. */
  function IoU(a: Box, b: Box): (r: real)
    ensures r == 0.0 <==> !Overlap(a, b)
  {
    var u := Union(a, b) as real + IouEpsilon;
    assert u != 0.0;
    Intersection(a, b) as real / u
  }

  lemma PositiveProduct(w: int, h: int)
    requires w >= 0 && h >= 0
    ensures w * h >= 0
    ensures w * h > 0 <==> w > 0 && h > 0
  {
    if w > 0 && h > 0 {
      assert w * h >= w;
    }
  }

  lemma ProductWithin(w: int, wMax: int, h: int, hMax: int)
    requires 0 <= w <= wMax && 0 <= h <= hMax
    ensures w * h <= wMax * hMax
  {
    assert w * h <= wMax * h;
    assert wMax * h <= wMax * hMax;
  }

  /** For well-formed boxes the intersection fits inside each box. */
  lemma IntersectionWithin(a: Box, b: Box)
    requires WellFormed(a) && WellFormed(b)
    ensures Intersection(a, b) <= Area(a) && Intersection(a, b) <= Area(b)
  {
    var w := Max(0, Min(a.x2, b.x2) - Max(a.x1, b.x1));
    var h := Max(0, Min(a.y2, b.y2) - Max(a.y1, b.y1));
    ProductWithin(w, a.x2 - a.x1, h, a.y2 - a.y1);
    ProductWithin(w, b.x2 - b.x1, h, b.y2 - b.y1);
  }

  lemma IoUSymmetric(a: Box, b: Box)
    ensures IoU(a, b) == IoU(b, a)
  {
    assert Intersection(a, b) == Intersection(b, a);
  }

  /** A positive IoU means exactly that the boxes overlap. */
  lemma IoUPositiveIffOverlap(a: Box, b: Box)
    ensures IoU(a, b) > 0.0 <==> Overlap(a, b)
  {
    if Overlap(a, b) {
      var i := Intersection(a, b);
      assert a.x2 - a.x1 > 0 && a.y2 - a.y1 > 0;
      assert b.x2 - b.x1 > 0 && b.y2 - b.y1 > 0;
      IntersectionWithin(a, b);
      assert Union(a, b) >= Area(a) >= i > 0;
      var u := Union(a, b) as real + IouEpsilon;
      assert u > 0.0;
      assert IoU(a, b) == i as real / u;
    }
  }

  /** The IoU of two well-formed boxes lies in [0, 1). */
  lemma IoURange(a: Box, b: Box)
    requires WellFormed(a) && WellFormed(b)
    ensures 0.0 <= IoU(a, b) < 1.0
  {
    var i := Intersection(a, b);
    IntersectionWithin(a, b);
    assert Area(b) >= 0 by {
      ProductWithin(0, b.x2 - b.x1, 0, b.y2 - b.y1);
    }
    assert 0 <= i <= Union(a, b);
    QuotientBelowOne(i as real, Union(a, b) as real + IouEpsilon);
  }

  /** A well-formed box of positive area has a self-IoU within IouEpsilon of 1. */
  lemma IoUSelf(a: Box)
    requires WellFormed(a) && Area(a) > 0
    ensures 1.0 - IouEpsilon < IoU(a, a) < 1.0
  {
    assert Intersection(a, a) == Area(a);
    assert Union(a, a) == Area(a);
    var n := Area(a) as real;
    QuotientBelowOne(n, n + IouEpsilon);
    QuotientNearOne(n, IouEpsilon);
  }
}
