/**
 * The pinhole camera of the mapper (dvsal::PinholeCamera, PinholeCamera.h): intrinsics, the
 * calibration matrix K and its inverse, projection of a 3-D point to a pixel and back-projection
 * of a pixel to a ray on the plane Z = 1. A division by zero, which yields inf or NaN in the
 * source, is a None result here.
 */
module Pinhole {
  import opened Base

  /** A 3x3 matrix, row by row. */
  datatype Mat3 = Mat3(a00: real, a01: real, a02: real,
                       a10: real, a11: real, a12: real,
                       a20: real, a21: real, a22: real)

  const Identity3: Mat3 := Mat3(1.0, 0.0, 0.0, 0.0, 1.0, 0.0, 0.0, 0.0, 1.0)

  function MatMul(a: Mat3, b: Mat3): Mat3
  {
    Mat3(a.a00 * b.a00 + a.a01 * b.a10 + a.a02 * b.a20,
         a.a00 * b.a01 + a.a01 * b.a11 + a.a02 * b.a21,
         a.a00 * b.a02 + a.a01 * b.a12 + a.a02 * b.a22,
         a.a10 * b.a00 + a.a11 * b.a10 + a.a12 * b.a20,
         a.a10 * b.a01 + a.a11 * b.a11 + a.a12 * b.a21,
         a.a10 * b.a02 + a.a11 * b.a12 + a.a12 * b.a22,
         a.a20 * b.a00 + a.a21 * b.a10 + a.a22 * b.a20,
         a.a20 * b.a01 + a.a21 * b.a11 + a.a22 * b.a21,
         a.a20 * b.a02 + a.a21 * b.a12 + a.a22 * b.a22)
  }

  function MatVec(a: Mat3, v: Vec3): Vec3
  {
    Vec3(a.a00 * v.x + a.a01 * v.y + a.a02 * v.z,
         a.a10 * v.x + a.a11 * v.y + a.a12 * v.z,
         a.a20 * v.x + a.a21 * v.y + a.a22 * v.z)
  }

  function Scale(s: real, p: Vec3): Vec3
  {
    Vec3(s * p.x, s * p.y, s * p.z)
  }

  lemma QuotientScale(s: real, a: real, b: real)
    requires s != 0.0 && b != 0.0
    ensures (s * a) / (s * b) == a / b
  {
    assert (s * a) / (s * b) * (s * b) == s * a;
    assert (a / b) * (s * b) == s * a;
  }

  lemma QuotientShift(a: real, c: real, z: real)
    requires z != 0.0
    ensures (a + c * z) / z == a / z + c
  {
    assert (a / z + c) * z == a + c * z;
  }

  lemma ReciprocalTimes(a: real, d: real)
    requires d != 0.0
    ensures (1.0 / d) * a == a / d
  {
    assert (1.0 / d) * a * d == a;
  }

  lemma QuotientDifference(a: real, c: real, d: real)
    requires d != 0.0
    ensures a / d + -c / d == (a - c) / d
  {
    assert (a / d + -c / d) * d == a - c;
  }

  lemma MatVecIntrinsics(fx: real, fy: real, cx: real, cy: real, p: Vec3)
    ensures MatVec(Mat3(fx, 0.0, cx, 0.0, fy, cy, 0.0, 0.0, 1.0), p) == Vec3(fx * p.x + cx * p.z, fy * p.y + cy * p.z, p.z)
  {
  }

  lemma QuotientByOne(a: real, d: real)
    requires d == 1.0
    ensures a / d == a
  {
  }

  lemma ScaledQuotient(s: real, f: real, a: real, d: real)
    requires s != 0.0 && d != 0.0
    ensures f * (s * a) / (s * d) == f * a / d
  {
    assert f * (s * a) == s * (f * a);
    QuotientScale(s, f * a, d);
  }

  lemma QuotientCancel(a: real, d: real)
    requires d != 0.0
    ensures d * (a / d) == a
  {
  }

  lemma NonZeroProduct(a: real, b: real)
    requires a != 0.0 && b != 0.0
    ensures a * b != 0.0
  {
  }

  datatype PinholeCamera = PinholeCamera(width: int, height: int, fx: real, fy: real, cx: real, cy: real)
  {
    /** The calibration matrix: it maps a point in camera coordinates to homogeneous pixel coordinates. */
    function K(): Mat3
    {
      Mat3(fx, 0.0, cx,
           0.0, fy, cy,
           0.0, 0.0, 1.0)
    }

    /** K^-1: defined exactly when K is invertible, and then a two-sided inverse of K. */
    function KInverse(): (r: Option<Mat3>)
      ensures r.Some? <==> fx != 0.0 && fy != 0.0
      ensures r.Some? ==> MatMul(K(), r.value) == Identity3 && MatMul(r.value, K()) == Identity3
    {
      if fx == 0.0 || fy == 0.0 then None
      else Some(Mat3(1.0 / fx, 0.0, -cx / fx,
                     0.0, 1.0 / fy, -cy / fy,
                     0.0, 0.0, 1.0))
    }

    /** The pixel a 3-D point projects to; defined when the point is off the plane Z = 0. */
    function Project3dToPixel(p: Vec3): (r: Option<Vec2>)
      ensures r.Some? <==> p.z != 0.0
    {
      if p.z == 0.0 then None
      else Some(Vec2(fx * p.x / p.z + cx, fy * p.y / p.z + cy))
    }

    /** The point at depth 1 that projects to pixel u; defined when both focal lengths are non-zero. */
    function ProjectPixelTo3dRay(u: Vec2): (r: Option<Vec3>)
      ensures r.Some? <==> fx != 0.0 && fy != 0.0
      ensures r.Some? ==> r.value.z == 1.0
    {
      if fx == 0.0 || fy == 0.0 then None
      else Some(Vec3((u.x - cx) / fx, (u.y - cy) / fy, 1.0))
    }

    /** Projection of a point off the plane Z = 0, written out. */
    lemma ProjectValue(p: Vec3)
      requires p.z != 0.0
      ensures Project3dToPixel(p).Some? && Project3dToPixel(p).value == Vec2(fx * p.x / p.z + cx, fy * p.y / p.z + cy)
    {
    }

    /** Back-projection with non-zero focal lengths, written out. */
    lemma RayValue(u: Vec2)
      requires fx != 0.0 && fy != 0.0
      ensures ProjectPixelTo3dRay(u).Some? && ProjectPixelTo3dRay(u).value == Vec3((u.x - cx) / fx, (u.y - cy) / fy, 1.0)
    {
    }

    /** The projected pixel lies on the line through the principal point in the point's direction. */
    lemma ProjectionCollinear(p: Vec3)
      requires p.z != 0.0
      ensures var u := Project3dToPixel(p).value;
        (u.x - cx) * p.z == fx * p.x && (u.y - cy) * p.z == fy * p.y
    {
      ProjectValue(p);
      QuotientCancel(fx * p.x, p.z);
      QuotientCancel(fy * p.y, p.z);
    }

    /** The principal point back-projects to the optical axis. */
    lemma PrincipalPointRay()
      requires fx != 0.0 && fy != 0.0
      ensures ProjectPixelTo3dRay(Vec2(cx, cy)).Some? && ProjectPixelTo3dRay(Vec2(cx, cy)).value == Vec3(0.0, 0.0, 1.0)
    {
      RayValue(Vec2(cx, cy));
    }

    /** Back-projecting a pixel and projecting the ray again gives the pixel back. */
    lemma PixelRoundTrip(u: Vec2)
      requires fx != 0.0 && fy != 0.0
      ensures var r := Project3dToPixel(ProjectPixelTo3dRay(u).value); r.Some? && r.value == u
    {
      var r := Vec3((u.x - cx) / fx, (u.y - cy) / fy, 1.0);
      RayValue(u);
      ProjectValue(r);
      QuotientByOne(fx * r.x, r.z);
      QuotientByOne(fy * r.y, r.z);
      QuotientCancel(u.x - cx, fx);
      QuotientCancel(u.y - cy, fy);
      assert fx * r.x / r.z + cx == u.x;
      assert fy * r.y / r.z + cy == u.y;
    }

    /** Back-projecting the projection of p gives p scaled onto the plane Z = 1. */
    lemma RayOfProjection(p: Vec3)
      requires fx != 0.0 && fy != 0.0 && p.z != 0.0
      ensures var r := ProjectPixelTo3dRay(Project3dToPixel(p).value); r.Some? && r.value == Vec3(p.x / p.z, p.y / p.z, 1.0)
    {
      var u := Vec2(fx * p.x / p.z + cx, fy * p.y / p.z + cy);
      ProjectValue(p);
      RayValue(u);
      QuotientScale(fx, p.x, p.z);
      QuotientScale(fy, p.y, p.z);
      assert (u.x - cx) / fx == p.x / p.z;
      assert (u.y - cy) / fy == p.y / p.z;
    }

    /** All points on a ray through the optical centre project to the same pixel. */
    lemma ProjectionScaleInvariant(p: Vec3, s: real)
      requires s != 0.0
      ensures Project3dToPixel(Scale(s, p)) == Project3dToPixel(p)
    {
      var q := Scale(s, p);
      if p.z != 0.0 {
        NonZeroProduct(s, p.z);
        ProjectValue(p);
        ProjectValue(q);
        ScaledQuotient(s, fx, p.x, p.z);
        ScaledQuotient(s, fy, p.y, p.z);
        assert fx * q.x / q.z == fx * p.x / p.z;
        assert fy * q.y / q.z == fy * p.y / p.z;
      } else {
        assert q.z == 0.0;
      }
    }

    /** Projection is K applied to the point followed by division by the third coordinate. */
    lemma ProjectionIsK(p: Vec3)
      requires p.z != 0.0
      ensures var q := MatVec(K(), p); Project3dToPixel(p).Some? && Project3dToPixel(p).value == Vec2(q.x / q.z, q.y / q.z)
    {
      ProjectValue(p);
      MatVecIntrinsics(fx, fy, cx, cy, p);
      QuotientShift(fx * p.x, cx, p.z);
      QuotientShift(fy * p.y, cy, p.z);
      var q := MatVec(K(), p);
      assert q.x / q.z == fx * p.x / p.z + cx;
      assert q.y / q.z == fy * p.y / p.z + cy;
    }

    /** Back-projection is K^-1 applied to the homogeneous pixel (u, 1). */
    lemma RayIsKInverse(u: Vec2)
      requires fx != 0.0 && fy != 0.0
      ensures ProjectPixelTo3dRay(u).Some? && ProjectPixelTo3dRay(u).value == MatVec(KInverse().value, Vec3(u.x, u.y, 1.0))
    {
      RayValue(u);
      MatVecIntrinsics(1.0 / fx, 1.0 / fy, -cx / fx, -cy / fy, Vec3(u.x, u.y, 1.0));
      ReciprocalTimes(u.x, fx);
      ReciprocalTimes(u.y, fy);
      QuotientDifference(u.x, cx, fx);
      QuotientDifference(u.y, cy, fy);
      var r := MatVec(KInverse().value, Vec3(u.x, u.y, 1.0));
      assert r.x == (u.x - cx) / fx;
      assert r.y == (u.y - cy) / fy;
    }
  }
}
