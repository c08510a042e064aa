/** `Rect` (position and size) and `Aabb` (min and max corner) of
    src/rect.rs, over the reals. */
module Rects {
  import opened Common

  datatype Rect = Rect(pos: Vec2, size: Vec2)

  datatype Aabb = Aabb(min: Vec2, max: Vec2)

  const RECT_UNIT: Rect := Rect(ZERO2, Vec2(1.0, 1.0))
  const RECT_ZERO: Rect := Rect(ZERO2, ZERO2)
  const AABB_UNIT: Aabb := Aabb(ZERO2, Vec2(1.0, 1.0))

  /** `Rect::contains`: inclusive on all four edges. */
  predicate RectContains(r: Rect, p: Vec2)
  {
    p.x >= r.pos.x && p.y >= r.pos.y && p.x <= r.pos.x + r.size.x && p.y <= r.pos.y + r.size.y
  }

  /** `Aabb::contains`: inclusive on all four edges. */
  predicate AabbContains(b: Aabb, p: Vec2)
  {
    p.x >= b.min.x && p.y >= b.min.y && p.x <= b.max.x && p.y <= b.max.y
  }

  /** `Add<Vec2> for Rect`: moves the position, keeps the size. */
  function RectAdd(r: Rect, v: Vec2): (res: Rect)
    ensures res.size == r.size
    ensures AabbFromRect(res) == AabbAdd(AabbFromRect(r), v)
  {
    Rect(r.pos.Add(v), r.size)
  }

  /** `Add<Vec2> for Aabb`: moves both corners. */
  function AabbAdd(b: Aabb, v: Vec2): (res: Aabb)
    ensures Size(res) == Size(b)
    ensures res.min.Sub(b.min) == v && res.max.Sub(b.max) == v
  {
    Aabb(b.min.Add(v), b.max.Add(v))
  }

  /** `Mul<f32>` and `Div<f32>` / `Div<Vec2>` for `Aabb`: both corners. */
  function AabbMul(b: Aabb, k: real): Aabb
  {
    Aabb(b.min.Scale(k), b.max.Scale(k))
  }

  function AabbDiv(b: Aabb, k: real): Aabb
    requires k != 0.0
  {
    Aabb(Vec2(b.min.x / k, b.min.y / k), Vec2(b.max.x / k, b.max.y / k))
  }

  function AabbDivVec(b: Aabb, v: Vec2): Aabb
    requires v.x != 0.0 && v.y != 0.0
  {
    Aabb(Vec2(b.min.x / v.x, b.min.y / v.y), Vec2(b.max.x / v.x, b.max.y / v.y))
  }

  /** Dividing undoes multiplying by the same non-zero factor. */
  lemma AabbDivUndoesMul(b: Aabb, k: real)
    requires k != 0.0
    ensures AabbDiv(AabbMul(b, k), k) == b
    ensures AabbDivVec(AabbMul(b, k), Vec2(k, k)) == b
  {
  }

  /** `Aabb::flipped_x`: swaps the x components of the two corners. */
  function FlippedX(b: Aabb): (res: Aabb)
    ensures res.min.x == b.max.x && res.max.x == b.min.x
    ensures res.min.y == b.min.y && res.max.y == b.max.y
  {
    Aabb(Vec2(b.max.x, b.min.y), Vec2(b.min.x, b.max.y))
  }

  lemma FlippedXInvolution(b: Aabb)
    ensures FlippedX(FlippedX(b)) == b
  {
  }

  /** `looking_to_right`: flips when max.x < min.x. */
  function LookingToRight(b: Aabb): (res: Aabb)
    ensures res.max.x >= res.min.x
    ensures res == b || res == FlippedX(b)
    ensures b.max.x >= b.min.x ==> res == b
  {
    if b.max.x < b.min.x then FlippedX(b) else b
  }

  /** `looking_to_left`: flips when max.x > min.x. */
  function LookingToLeft(b: Aabb): (res: Aabb)
    ensures res.max.x <= res.min.x
    ensures res == b || res == FlippedX(b)
    ensures b.max.x <= b.min.x ==> res == b
  {
    if b.max.x > b.min.x then FlippedX(b) else b
  }

  lemma LookingIdempotent(b: Aabb)
    ensures LookingToRight(LookingToRight(b)) == LookingToRight(b)
    ensures LookingToLeft(LookingToLeft(b)) == LookingToLeft(b)
  {
  }

  /** `overlap_area`: product of the clamped overlaps on both axes. */
  function OverlapArea(b: Aabb, o: Aabb): (area: real)
    ensures area >= 0.0
  {
    var w := Min(b.max.x, o.max.x) - Max(b.min.x, o.min.x);
    var h := Min(b.max.y, o.max.y) - Max(b.min.y, o.min.y);
    Max(w, 0.0) * Max(h, 0.0)
  }

  /** The overlap is symmetric, zero for boxes disjoint on either axis, and
      a box with max >= min overlaps itself by its own area. */
  lemma OverlapAreaProperties(b: Aabb, o: Aabb)
    ensures OverlapArea(b, o) == OverlapArea(o, b)
    ensures b.max.x <= o.min.x || o.max.x <= b.min.x || b.max.y <= o.min.y || o.max.y <= b.min.y
            ==> OverlapArea(b, o) == 0.0
    ensures b.max.x >= b.min.x && b.max.y >= b.min.y ==> OverlapArea(b, b) == Size(b).x * Size(b).y
  {
    var w := Min(b.max.x, o.max.x) - Max(b.min.x, o.min.x);
    var h := Min(b.max.y, o.max.y) - Max(b.min.y, o.min.y);
    assert w == Min(o.max.x, b.max.x) - Max(o.min.x, b.min.x);
    assert h == Min(o.max.y, b.max.y) - Max(o.min.y, b.min.y);
    if b.max.x <= o.min.x || o.max.x <= b.min.x {
      assert Max(w, 0.0) == 0.0;
    } else if b.max.y <= o.min.y || o.max.y <= b.min.y {
      assert Max(h, 0.0) == 0.0;
    }
  }

  /** `Aabb::size` and `Aabb::center`. */
  function Size(b: Aabb): Vec2
  {
    b.max.Sub(b.min)
  }

  function Center(b: Aabb): Vec2
  {
    Vec2((b.max.x + b.min.x) / 2.0, (b.max.y + b.min.y) / 2.0)
  }

  /** `scale`: scales around the center. */
  function Scale(b: Aabb, factor: real): (res: Aabb)
    ensures Center(res) == Center(b)
    ensures Size(res) == Size(b).Scale(factor)
  {
    ScaleXY(b, Vec2(factor, factor))
  }

  /** `scale_xy`: scales around the center, per axis. */
  function ScaleXY(b: Aabb, factor: Vec2): (res: Aabb)
    ensures Center(res) == Center(b)
    ensures Size(res) == Size(b).Mul(factor)
  {
    var c := b.min.Add(b.max).Scale(0.5);
    Aabb(c.Add(b.min.Sub(c).Mul(factor)), c.Add(b.max.Sub(c).Mul(factor)))
  }

  /** `Aabb::square`: the square of side `len` centred on `center`. */
  function Square(center: Vec2, len: real): (res: Aabb)
    ensures Center(res) == center && Size(res) == Vec2(len, len)
  {
    var half := Vec2(len / 2.0, len / 2.0);
    Aabb(center.Sub(half), center.Add(half))
  }

  /** `aspect_ratio`: x is 1 and y is the height over the width. */
  function AspectRatio(b: Aabb): (res: Vec2)
    requires Size(b).x != 0.0
    ensures res.x == 1.0 && res.y * Size(b).x == Size(b).y
  {
    Vec2(1.0, Size(b).y / Size(b).x)
  }

  /** `From<Rect> for Aabb` and `From<Aabb> for Rect`. */
  function AabbFromRect(r: Rect): Aabb
  {
    Aabb(r.pos, r.pos.Add(r.size))
  }

  function RectFromAabb(b: Aabb): Rect
  {
    Rect(b.min, b.max.Sub(b.min))
  }

  /** Over the reals the two conversions are inverse to each other, and both
      `contains` agree through them. */
  lemma ConversionsRoundTrip(r: Rect, b: Aabb, p: Vec2)
    ensures RectFromAabb(AabbFromRect(r)) == r
    ensures AabbFromRect(RectFromAabb(b)) == b
    ensures RectContains(r, p) <==> AabbContains(AabbFromRect(r), p)
    ensures AabbContains(b, p) <==> RectContains(RectFromAabb(b), p)
  {
  }

  /** The lerp of `Rect` and `Aabb`, field by field. */
  function LerpVec2(a: Vec2, b: Vec2, f: real): Vec2
  {
    Vec2(a.x + (b.x - a.x) * f, a.y + (b.y - a.y) * f)
  }

  function LerpRect(r: Rect, o: Rect, f: real): Rect
  {
    Rect(LerpVec2(r.pos, o.pos, f), LerpVec2(r.size, o.size, f))
  }

  function LerpAabb(b: Aabb, o: Aabb, f: real): Aabb
  {
    Aabb(LerpVec2(b.min, o.min, f), LerpVec2(b.max, o.max, f))
  }

  /** Both lerps reach their end points and commute with the conversion. */
  lemma LerpRectAabb(r: Rect, o: Rect, f: real)
    ensures LerpRect(r, o, 0.0) == r && LerpRect(r, o, 1.0) == o
    ensures AabbFromRect(LerpRect(r, o, f)) == LerpAabb(AabbFromRect(r), AabbFromRect(o), f)
  {
    LerpVec2OfSum(r.pos, r.size, o.pos, o.size, f);
  }

  lemma LerpVec2OfSum(a: Vec2, c: Vec2, b: Vec2, d: Vec2, f: real)
    ensures LerpVec2(a.Add(c), b.Add(d), f) == LerpVec2(a, b, f).Add(LerpVec2(c, d, f))
  {
    var l := LerpVec2(a.Add(c), b.Add(d), f);
    var m := LerpVec2(a, b, f).Add(LerpVec2(c, d, f));
    assert l.x == m.x by { LerpOfSum(a.x, c.x, b.x, d.x, f); }
    assert l.y == m.y by { LerpOfSum(a.y, c.y, b.y, d.y, f); }
  }

  /** Lerping a sum is summing the lerps. */
  lemma LerpOfSum(p: real, s: real, q: real, t: real, f: real)
    ensures p + s + (q + t - (p + s)) * f == p + (q - p) * f + (s + (t - s) * f)
  {
    assert (q + t - (p + s)) * f == (q - p) * f + (t - s) * f;
  }
}
