/** Value types shared by every module of the model: optional values and
    results (for the source's `Option` and its panics), 2-D and 3-D vectors
    over the reals (for glam's `Vec2`/`DVec2`/`Vec3`), half-open index
    ranges (for `std::ops::Range<usize>`) and the `max`/`min` of floats. */
module Common {

  datatype Option<+T> = None | Some(value: T)

  datatype Result<+T, +E> = Ok(value: T) | Err(error: E)

  /** The largest value of Rust's `u64`/`usize` on a 64-bit target. */
  const U64_MAX: nat := 0xFFFF_FFFF_FFFF_FFFF

  datatype Vec2 = Vec2(x: real, y: real) {
    function Add(o: Vec2): Vec2 { Vec2(x + o.x, y + o.y) }
    function Sub(o: Vec2): Vec2 { Vec2(x - o.x, y - o.y) }
    function Scale(k: real): Vec2 { Vec2(x * k, y * k) }
    function Mul(o: Vec2): Vec2 { Vec2(x * o.x, y * o.y) }
    function Neg(): Vec2 { Vec2(-x, -y) }
  }

  const ZERO2: Vec2 := Vec2(0.0, 0.0)

  datatype Vec3 = Vec3(x: real, y: real, z: real) {
    function Add(o: Vec3): Vec3 { Vec3(x + o.x, y + o.y, z + o.z) }
  }

  const ZERO3: Vec3 := Vec3(0.0, 0.0, 0.0)

  /** `std::ops::Range<usize>`: the indices `start <= i < end`. */
  datatype Range = Range(start: nat, end: nat) {
    predicate Contains(i: nat) { start <= i < end }
  }

  function Max(a: real, b: real): real { if a >= b then a else b }

  function Min(a: real, b: real): real { if a <= b then a else b }

  function Sum(s: seq<real>): real
  {
    if s == [] then 0.0 else Sum(s[..|s| - 1]) + s[|s| - 1]
  }

  lemma SumSnoc(s: seq<real>, x: real)
    ensures Sum(s + [x]) == Sum(s) + x
  {
    assert (s + [x])[..|s|] == s;
  }

  /** `n` steps of size `step` one after another. */
  function Steps(n: nat, step: real): (r: real)
    ensures step >= 0.0 ==> r >= 0.0
  {
    if n == 0 then 0.0 else Steps(n - 1, step) + step
  }

  lemma {:induction false} StepsProduct(n: nat, step: real)
    ensures Steps(n, step) == n as real * step
  {
    if n > 0 {
      StepsProduct(n - 1, step);
    }
  }

  /** Division by a positive real keeps the order. */
  lemma DivMonotone(a: real, b: real, d: real)
    requires d > 0.0
    ensures a < b ==> a / d < b / d
    ensures a <= b ==> a / d <= b / d
  {
    assert b / d - a / d == (b - a) / d;
    if a <= b {
      assert (b - a) / d >= 0.0;
    }
  }

  /** A nonzero real divided by itself is 1, and 0 divided by it is 0. */
  lemma DivSelf(d: real)
    requires d != 0.0
    ensures d / d == 1.0 && 0.0 / d == 0.0
  {
  }

  /** A part of a positive whole divided by the whole lies in [0, 1]. */
  lemma UnitRatio(a: real, d: real)
    requires d > 0.0 && 0.0 <= a <= d
    ensures 0.0 <= a / d <= 1.0
    ensures a < d ==> a / d < 1.0
  {
    DivMonotone(0.0, a, d);
    DivMonotone(a, d, d);
    DivSelf(d);
  }
}
