/**
 * Control poses of the camera trajectory (Trajectory.h) and the pose lookup of LinearTrajectory.
 *
 * A pose map is a std::map from time to pose, i.e. a sequence of control poses with strictly
 * increasing times. Poses are left abstract (type parameter P); the 4x4 matrix product and
 * inverse the lookup builds are kept as a symbolic term, so the model records WHICH two control
 * poses are combined and how, not the matrix arithmetic.
 */
module Trajectories {
  import opened Base

  datatype ControlPose<P> = ControlPose(time: real, pose: P)

  /** A rigid-body transform expression over control poses: a pose, an inverse, or a product A*B. */
  datatype Transform<P> = Pose(pose: P) | Inverse(of: Transform<P>) | Compose(left: Transform<P>, right: Transform<P>)

  /** Keys of a std::map are unique and iterated in increasing order. */
  predicate Increasing<P>(ps: seq<ControlPose<P>>)
  {
    forall i, j :: 0 <= i < j < |ps| ==> ps[i].time < ps[j].time
  }

  type PoseMap<P> = ps: seq<ControlPose<P>> | Increasing(ps) witness []

  /** std::map::upper_bound: the position of the first control pose strictly later than t. */
  function UpperBound<P>(ps: seq<ControlPose<P>>, t: real): (k: nat)
    requires Increasing(ps)
    ensures k <= |ps|
    ensures forall i :: 0 <= i < k ==> ps[i].time <= t
    ensures forall i :: k <= i < |ps| ==> t < ps[i].time
  {
    if ps == [] || t < ps[0].time then 0 else 1 + UpperBound(ps[1..], t)
  }

  /** The relative transform T0^-1 * T1 between two control poses. */
  function Relative<P>(c0: ControlPose<P>, c1: ControlPose<P>): Transform<P>
  {
    Compose(Inverse(Pose(c0.pose)), Pose(c1.pose))
  }

  /** Number of distinct times in a sequence of control poses. */
  function Times<P>(ps: seq<ControlPose<P>>): set<real>
  {
    set i | 0 <= i < |ps| :: ps[i].time
  }

  lemma {:induction false} TimesOfIncreasing<P>(ps: seq<ControlPose<P>>)
    requires Increasing(ps)
    ensures |Times(ps)| == |ps|
  {
    if ps != [] {
      var rest := ps[..|ps| - 1];
      TimesOfIncreasing(rest);
      assert Times(ps) == Times(rest) + {ps[|ps| - 1].time};
      assert ps[|ps| - 1].time !in Times(rest);
    }
  }

  datatype LinearTrajectory<P> = LinearTrajectory(poses: PoseMap<P>)
  {
    /** Time and pose of the earliest control pose (begin() of a non-empty map). */
    function FirstControlPose(): (c: ControlPose<P>)
      requires |poses| > 0
      ensures c in poses
      ensures forall i :: 0 <= i < |poses| ==> c.time <= poses[i].time
    {
      poses[0]
    }

    /** Time and pose of the latest control pose (rbegin() of a non-empty map). */
    function LastControlPose(): (c: ControlPose<P>)
      requires |poses| > 0
      ensures c in poses
      ensures forall i :: 0 <= i < |poses| ==> poses[i].time <= c.time
    {
      poses[|poses| - 1]
    }

    /** Size of the map: the number of distinct control times. */
    function NumControlPoses(): (n: nat)
      ensures n == |Times(poses)|
    {
      TimesOfIncreasing(poses);
      |poses|
    }

    /**
     * The pose the lookup returns at time t (T0^-1 * T1 of the two control poses around t),
     * or None when t precedes every control pose or no control pose is later than t.
     * The interpolation factor the source computes is never used, so nothing depends on it here.
     */
    function GetPoseAt(t: real): (r: Option<Transform<P>>)
      ensures r.None? <==> |poses| == 0 || t < poses[0].time || poses[|poses| - 1].time <= t
      ensures r.Some? ==>
        exists k :: 0 <= k && k + 1 < |poses| && poses[k].time <= t < poses[k + 1].time && r.value == Relative(poses[k], poses[k + 1])
    {
      var k := UpperBound(poses, t);
      if k == 0 then None
      else if k == |poses| then None
      else
        assert poses[k - 1].time <= t < poses[k].time;
        Some(Relative(poses[k - 1], poses[k]))
    }

    /** The lookup succeeds exactly when t lies in [first time, last time): both directions. */
    lemma GetPoseAtDefined(t: real)
      ensures GetPoseAt(t).Some? <==> |poses| >= 2 && poses[0].time <= t < poses[|poses| - 1].time
    {
      var k := UpperBound(poses, t);
      if |poses| >= 2 && poses[0].time <= t < poses[|poses| - 1].time {
        assert k != 0;
        assert k != |poses|;
      }
    }

    /** Whenever poses k and k+1 bracket t, the lookup returns exactly their relative transform. */
    lemma GetPoseAtBracket(t: real, k: nat)
      requires k + 1 < |poses| && poses[k].time <= t < poses[k + 1].time
      ensures GetPoseAt(t) == Some(Relative(poses[k], poses[k + 1]))
    {
      var u := UpperBound(poses, t);
      assert poses[k].time <= t < poses[k + 1].time;
      assert u == k + 1;
    }

    /** The result is piecewise constant: two times in the same bracket give the same transform. */
    lemma GetPoseAtPiecewiseConstant(t1: real, t2: real, k: nat)
      requires k + 1 < |poses|
      requires poses[k].time <= t1 < poses[k + 1].time && poses[k].time <= t2 < poses[k + 1].time
      ensures GetPoseAt(t1) == GetPoseAt(t2)
    {
      GetPoseAtBracket(t1, k);
      GetPoseAtBracket(t2, k);
    }

    /** At the time of the last control pose the lookup already fails, like any later time. */
    lemma GetPoseAtLastTimeFails()
      requires |poses| > 0
      ensures GetPoseAt(poses[|poses| - 1].time) == None
    {
      GetPoseAtDefined(poses[|poses| - 1].time);
    }

    /** With fewer than two control poses (the case the constructor warns about) every lookup fails. */
    lemma GetPoseAtTooFewPoses(t: real)
      requires |poses| < 2
      ensures GetPoseAt(t) == None
    {
      GetPoseAtDefined(t);
    }
  }
}
