/**
 * geometry_utils::PinholeCamera (geometry_utils.hpp): a second pinhole camera class of the
 * repository, with the same intrinsics, K, K^-1 and projections as dvsal::PinholeCamera but
 * without the distortion model. It is modelled on its own, and SameMatrices, SameProjection and SameRay prove
 * that the two classes compute the same thing, so every property proved for one holds for both.
 */
module GeometryUtils {
  import opened Base
  import Pinhole

  datatype PinholeCamera = PinholeCamera(width: int, height: int, fx: real, fy: real, cx: real, cy: real)
  {
    /** The calibration matrix. */
    function K(): Pinhole.Mat3
    {
      Pinhole.Mat3(fx, 0.0, cx,
                   0.0, fy, cy,
                   0.0, 0.0, 1.0)
    }

    /** K^-1, defined exactly when both focal lengths are non-zero. */
    function KInverse(): (r: Option<Pinhole.Mat3>)
      ensures r.Some? <==> fx != 0.0 && fy != 0.0
    {
      if fx == 0.0 || fy == 0.0 then None
      else Some(Pinhole.Mat3(1.0 / fx, 0.0, -cx / fx,
                             0.0, 1.0 / fy, -cy / fy,
                             0.0, 0.0, 1.0))
    }

    /** Keypoint of a 3-D point; defined off the plane Z = 0. */
    function Project3dToPixel(p: Vec3): (r: Option<Vec2>)
      ensures r.Some? <==> p.z != 0.0
      ensures r.Some? ==> (r.value.x - cx) * p.z == fx * p.x && (r.value.y - cy) * p.z == fy * p.y
    {
      if p.z == 0.0 then None
      else Some(Vec2(fx * p.x / p.z + cx, fy * p.y / p.z + cy))
    }

    /** Bearing vector (at depth 1) of a keypoint; defined when both focal lengths are non-zero. */
    function ProjectPixelTo3dRay(u: Vec2): (r: Option<Vec3>)
      ensures r.Some? <==> fx != 0.0 && fy != 0.0
      ensures r.Some? ==> r.value.z == 1.0 && fx * r.value.x + cx == u.x && fy * r.value.y + cy == u.y
    {
      if fx == 0.0 || fy == 0.0 then None
      else Some(Vec3((u.x - cx) / fx, (u.y - cy) / fy, 1.0))
    }

    /** The camera of the mapper built from the same six parameters. */
    function AsMapperCamera(): Pinhole.PinholeCamera
    {
      Pinhole.PinholeCamera(width, height, fx, fy, cx, cy)
    }

    /** Both camera classes build the same matrices from the same six parameters. */
    lemma SameMatrices()
      ensures K() == AsMapperCamera().K()
      ensures KInverse() == AsMapperCamera().KInverse()
    {
    }

    /** Both camera classes project a point to the same keypoint. */
    lemma SameProjection(p: Vec3)
      ensures Project3dToPixel(p) == AsMapperCamera().Project3dToPixel(p)
    {
      var c := AsMapperCamera();
      if p.z != 0.0 {
        c.ProjectValue(p);
        assert Project3dToPixel(p).value == Vec2(fx * p.x / p.z + cx, fy * p.y / p.z + cy);
        assert Project3dToPixel(p).value == c.Project3dToPixel(p).value;
      } else {
        assert Project3dToPixel(p).None? && c.Project3dToPixel(p).None?;
      }
    }

    /** Both camera classes back-project a keypoint to the same bearing vector. */
    lemma SameRay(u: Vec2)
      ensures ProjectPixelTo3dRay(u) == AsMapperCamera().ProjectPixelTo3dRay(u)
    {
    }

    /** K^-1 is a two-sided inverse of K, carried over from the mapper's camera. */
    lemma KInverseIsInverse()
      requires fx != 0.0 && fy != 0.0
      ensures Pinhole.MatMul(K(), KInverse().value) == Pinhole.Identity3
      ensures Pinhole.MatMul(KInverse().value, K()) == Pinhole.Identity3
    {
      SameMatrices();
    }

    /** A keypoint survives back-projection followed by projection. */
    lemma KeypointRoundTrip(u: Vec2)
      requires fx != 0.0 && fy != 0.0
      ensures var r := Project3dToPixel(ProjectPixelTo3dRay(u).value); r.Some? && r.value == u
    {
      var c := AsMapperCamera();
      SameRay(u);
      SameProjection(c.ProjectPixelTo3dRay(u).value);
      c.PixelRoundTrip(u);
    }

    /** Points on one ray through the optical centre share a keypoint. */
    lemma ProjectionScaleInvariant(p: Vec3, s: real)
      requires s != 0.0
      ensures Project3dToPixel(Pinhole.Scale(s, p)) == Project3dToPixel(p)
    {
      SameProjection(p);
      SameProjection(Pinhole.Scale(s, p));
      AsMapperCamera().ProjectionScaleInvariant(p, s);
    }

    /** The principal point's bearing vector is the optical axis (0, 0, 1). */
    lemma PrincipalPointBearing()
      requires fx != 0.0 && fy != 0.0
      ensures ProjectPixelTo3dRay(Vec2(cx, cy)).Some? && ProjectPixelTo3dRay(Vec2(cx, cy)).value == Vec3(0.0, 0.0, 1.0)
    {
      SameRay(Vec2(cx, cy));
      AsMapperCamera().PrincipalPointRay();
    }

    /** A keypoint is K applied to the point, divided by the point's depth. */
    lemma ProjectionIsK(p: Vec3)
      requires p.z != 0.0
      ensures var q := Pinhole.MatVec(K(), p); Project3dToPixel(p).Some? && Project3dToPixel(p).value == Vec2(q.x / q.z, q.y / q.z)
    {
      SameMatrices();
      SameProjection(p);
      AsMapperCamera().ProjectionIsK(p);
    }
  }
}
