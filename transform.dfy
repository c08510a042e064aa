/** `Transform` of src/transform.rs and its raw GPU form: a position, a
    rotation quaternion and a per-axis scale, uploaded as the column-major
    affine matrix that glam's `Affine3A::from_scale_rotation_translation`
    builds, widened to a `Mat4`.  Components are reals. */
module Transforms {
  import opened Common

  /** glam's `Quat`: the vector part `x, y, z` and the scalar part `w`. */
  datatype Quat = Quat(x: real, y: real, z: real, w: real)

  /** `Quat::IDENTITY`, the default rotation. */
  const IDENTITY: Quat := Quat(0.0, 0.0, 0.0, 1.0)

  datatype Vec4 = Vec4(x: real, y: real, z: real, w: real)

  /** glam's `Mat4`, stored as its four columns. */
  datatype Mat4 = Mat4(xAxis: Vec4, yAxis: Vec4, zAxis: Vec4, wAxis: Vec4)

  datatype Transform = Transform(position: Vec3, rotation: Quat, scale: Vec3)

  /** `TransformRaw`: the instance data a transform is uploaded as. */
  datatype TransformRaw = TransformRaw(affine: Mat4)

  /** `Transform::new`: a position with the identity rotation and unit scale. */
  function NewTransform(x: real, y: real, z: real): Transform
  {
    Transform(Vec3(x, y, z), IDENTITY, Vec3(1.0, 1.0, 1.0))
  }

  function Extend(v: Vec3, w: real): Vec4 { Vec4(v.x, v.y, v.z, w) }

  function ScaleVec(v: Vec3, k: real): Vec3 { Vec3(v.x * k, v.y * k, v.z * k) }

  /** The columns of glam's `Mat3::from_quat`: the rotation the quaternion
      stands for.  glam writes `q.y * (q.y + q.y)` where these write
      `2.0 * (q.y * q.y)`; over the reals the two agree. */
  function RotationX(q: Quat): Vec3
  {
    Vec3(1.0 - 2.0 * (q.y * q.y + q.z * q.z), 2.0 * (q.x * q.y + q.w * q.z), 2.0 * (q.x * q.z - q.w * q.y))
  }

  function RotationY(q: Quat): Vec3
  {
    Vec3(2.0 * (q.x * q.y - q.w * q.z), 1.0 - 2.0 * (q.x * q.x + q.z * q.z), 2.0 * (q.y * q.z + q.w * q.x))
  }

  function RotationZ(q: Quat): Vec3
  {
    Vec3(2.0 * (q.x * q.z + q.w * q.y), 2.0 * (q.y * q.z - q.w * q.x), 1.0 - 2.0 * (q.x * q.x + q.y * q.y))
  }

  /** `Transform::to_raw`: the rotation's columns scaled by the matching
      scale component, then the position as the translation column.  The
      result is affine: the first three columns carry 0 in their last
      component and the translation column carries the position and 1. */
  function ToRaw(t: Transform): (r: TransformRaw)
    ensures r.affine.xAxis.w == 0.0 && r.affine.yAxis.w == 0.0 && r.affine.zAxis.w == 0.0
    ensures r.affine.wAxis == Vec4(t.position.x, t.position.y, t.position.z, 1.0)
  {
    TransformRaw(Mat4(Extend(ScaleVec(RotationX(t.rotation), t.scale.x), 0.0),
                      Extend(ScaleVec(RotationY(t.rotation), t.scale.y), 0.0),
                      Extend(ScaleVec(RotationZ(t.rotation), t.scale.z), 0.0),
                      Extend(t.position, 1.0)))
  }

  /** The point `p` carried through an affine matrix: `m * (p, 1)`. */
  function Apply(m: Mat4, p: Vec3): Vec3
  {
    Vec3(m.xAxis.x * p.x + m.yAxis.x * p.y + m.zAxis.x * p.z + m.wAxis.x,
         m.xAxis.y * p.x + m.yAxis.y * p.y + m.zAxis.y * p.z + m.wAxis.y,
         m.xAxis.z * p.x + m.yAxis.z * p.y + m.zAxis.z * p.z + m.wAxis.z)
  }

  function Column(v: Vec4): Vec3 { Vec3(v.x, v.y, v.z) }

  /** The identity quaternion stands for no rotation. */
  lemma IdentityRotation()
    ensures RotationX(IDENTITY) == Vec3(1.0, 0.0, 0.0)
    ensures RotationY(IDENTITY) == Vec3(0.0, 1.0, 0.0)
    ensures RotationZ(IDENTITY) == Vec3(0.0, 0.0, 1.0)
  {
  }

  /** Without rotation the raw matrix scales a point component-wise and then
      moves it by the position. */
  lemma UnrotatedScalesThenTranslates(t: Transform, p: Vec3)
    requires t.rotation == IDENTITY
    ensures Apply(ToRaw(t).affine, p) ==
            Vec3(t.scale.x * p.x + t.position.x, t.scale.y * p.y + t.position.y,
                 t.scale.z * p.z + t.position.z)
  {
    UnrotatedDiagonal(t);
    ApplyDiagonal(ToRaw(t).affine, t.scale, t.position, p);
  }

  lemma UnrotatedDiagonal(t: Transform)
    requires t.rotation == IDENTITY
    ensures ToRaw(t).affine.xAxis == Vec4(t.scale.x, 0.0, 0.0, 0.0)
    ensures ToRaw(t).affine.yAxis == Vec4(0.0, t.scale.y, 0.0, 0.0)
    ensures ToRaw(t).affine.zAxis == Vec4(0.0, 0.0, t.scale.z, 0.0)
  {
    IdentityRotation();
  }

  lemma ApplyDiagonal(m: Mat4, sc: Vec3, pos: Vec3, p: Vec3)
    requires m.xAxis == Vec4(sc.x, 0.0, 0.0, 0.0) && m.yAxis == Vec4(0.0, sc.y, 0.0, 0.0)
    requires m.zAxis == Vec4(0.0, 0.0, sc.z, 0.0) && m.wAxis == Extend(pos, 1.0)
    ensures Apply(m, p) == Vec3(sc.x * p.x + pos.x, sc.y * p.y + pos.y, sc.z * p.z + pos.z)
  {
  }

  /** `Transform::new` uploads a pure translation by its position. */
  lemma NewTranslates(x: real, y: real, z: real, p: Vec3)
    ensures Apply(ToRaw(NewTransform(x, y, z)).affine, p) == p.Add(Vec3(x, y, z))
  {
    UnrotatedScalesThenTranslates(NewTransform(x, y, z), p);
  }

  /** Whatever the rotation, the raw matrix sends the origin to the
      position and each unit axis to the position plus that axis's rotated
      direction, stretched by the matching scale component. */
  lemma ToRawMapsAxes(t: Transform)
    ensures Apply(ToRaw(t).affine, ZERO3) == t.position
    ensures Apply(ToRaw(t).affine, Vec3(1.0, 0.0, 0.0)) == t.position.Add(ScaleVec(RotationX(t.rotation), t.scale.x))
    ensures Apply(ToRaw(t).affine, Vec3(0.0, 1.0, 0.0)) == t.position.Add(ScaleVec(RotationY(t.rotation), t.scale.y))
    ensures Apply(ToRaw(t).affine, Vec3(0.0, 0.0, 1.0)) == t.position.Add(ScaleVec(RotationZ(t.rotation), t.scale.z))
  {
    var m := ToRaw(t).affine;
    ApplyAxes(m);
  }

  /** An affine matrix sends the origin to its translation column and each
      unit axis to the translation plus that axis's column. */
  lemma ApplyAxes(m: Mat4)
    ensures Apply(m, ZERO3) == Column(m.wAxis)
    ensures Apply(m, Vec3(1.0, 0.0, 0.0)) == Column(m.wAxis).Add(Column(m.xAxis))
    ensures Apply(m, Vec3(0.0, 1.0, 0.0)) == Column(m.wAxis).Add(Column(m.yAxis))
    ensures Apply(m, Vec3(0.0, 0.0, 1.0)) == Column(m.wAxis).Add(Column(m.zAxis))
  {
  }
}
