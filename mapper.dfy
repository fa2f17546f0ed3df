/**
 * The event-based multi-view stereo mapper (class EMVS::MapperEMVS, MapperEMVS.h / .cpp).
 *
 * evaluateDSI walks the events in packets of 1024, gives each packet the trajectory pose at its
 * middle event, warps every event of the packet onto the reference plane Z = z0 and records the
 * packet's camera centre; fillVoxelGrid then transfers each warped location to every depth plane
 * Z = zi and casts a bilinear vote into that plane's slice of the disparity space image (DSI).
 *
 * The homography warp, the camera centre of a pose, the lens rectification, the depth vector and
 * the point conversion of the cloud are computed by Eigen, OpenCV and PCL in the source; they are
 * parameters here. The module first states the packet schedule and the voting as functions and
 * proves what they promise, then gives the class whose methods are specified by them.
 */
module Mapper {
  import opened Base
  import opened Grid
  import opened Trajectories
  import Pinhole

  /** Events per packet (packet_size_); every event of a packet shares one pose. */
  const PacketSize: nat := 1024

  /** Events per batch inside a packet in fillVoxelGrid (N). */
  const BatchSize: nat := 128

  /** Below this field of view (degrees) the DSI takes the camera's own focal length. */
  const MinFov: real := 10.0

  /** Size of the DSI and its depth range (ShapeDSI); a zero dimX or dimY means "as the camera". */
  datatype ShapeDSI = ShapeDSI(dimX: nat, dimY: nat, dimZ: nat, minDepth: real, maxDepth: real, fov: real)

  /** Parameters of the depth-map extraction (OptionsDepthMap). */
  datatype OptionsDepthMap = OptionsDepthMap(adaptiveThresholdKernelSize: int, adaptiveThresholdC: real, medianFilterSize: int)

  /**
   * A point of the output cloud with its intensity (the inverse depth). None marks a value that
   * is not finite in the source: coordinates from a zero focal length, intensity at depth 0.
   */
  datatype CloudPoint = CloudPoint(pos: Option<Vec3>, intensity: Option<real>)

  // ---------------------------------------------------------------------------
  // The packet schedule of evaluateDSI
  // ---------------------------------------------------------------------------

  /** The time, in seconds, given to a packet: that of its middle event. */
  function FrameTime(e: Event): (t: real)
    ensures t * 1000000.0 == e.timestamp as real
  {
    e.timestamp as real * 0.000001
  }

  /** A packet that found a pose: its first event and the pose T_rv_ev it is warped with. */
  datatype Packet<P> = Packet(start: nat, pose: Transform<P>)

  /** The trajectory's pose lookup as a function of time. */
  function PoseLookup<P>(trajectory: LinearTrajectory<P>): (lookup: real -> Option<Transform<P>>)
    ensures forall t :: lookup(t).Some? <==>
      |trajectory.poses| >= 2 && trajectory.poses[0].time <= t < trajectory.poses[|trajectory.poses| - 1].time
  {
    t => trajectory.GetPoseAt(t)
  }

  /**
   * The pose T_rv_w * T_w_ev of the packet starting at `start`, if the lookup (the trajectory's
   * getPoseAt, PoseLookup) has one at the time of its middle event.
   */
  function MidpointPose<P>(events: seq<Event>, poseAt: real -> Option<Transform<P>>, tRvW: P, start: nat): (r: Option<Transform<P>>)
    requires start + PacketSize / 2 < |events|
    ensures var tWEv := poseAt(FrameTime(events[start + PacketSize / 2]));
      (r.Some? <==> tWEv.Some?) && (r.Some? ==> r.value == Compose(Pose(tRvW), tWEv.value))
  {
    match poseAt(FrameTime(events[start + PacketSize / 2]))
    case None => None
    case Some(tWEv) => Some(Compose(Pose(tRvW), tWEv))
  }

  /**
   * The packets the cursor loop of evaluateDSI accepts from position `cur` on: while a full packet
   * and at least one more event remain, a packet without a pose moves the cursor by one event and
   * a packet with a pose is taken whole.
   */
  function Packets<P>(events: seq<Event>, poseAt: real -> Option<Transform<P>>, tRvW: P, cur: nat): (ps: seq<Packet<P>>)
    ensures forall i :: 0 <= i < |ps| ==> cur <= ps[i].start && ps[i].start + PacketSize < |events|
    decreases |events| - cur
  {
    if cur + PacketSize < |events| then
      match MidpointPose(events, poseAt, tRvW, cur)
      case None => Packets(events, poseAt, tRvW, cur + 1)
      case Some(pose) => [Packet(cur, pose)] + Packets(events, poseAt, tRvW, cur + PacketSize)
    else
      []
  }

  lemma AppendAssoc<T>(a: seq<T>, b: seq<T>, c: seq<T>)
    ensures (a + b) + c == a + (b + c)
  {
  }

  /**
   * Rectifiability of the schedule from `cur` carries over to the rest of the schedule after one
   * turn of the loop, and covers the packet that turn takes.
   */
  lemma RectifiableRest<P>(events: seq<Event>, width: int, table: seq<Vec2>, poseAt: real -> Option<Transform<P>>, tRvW: P, cur: nat)
    requires cur + PacketSize < |events|
    requires PacketsRectifiable(events, width, table, Packets(events, poseAt, tRvW, cur))
    ensures MidpointPose(events, poseAt, tRvW, cur).None? ==>
      PacketsRectifiable(events, width, table, Packets(events, poseAt, tRvW, cur + 1))
    ensures MidpointPose(events, poseAt, tRvW, cur).Some? ==>
      PacketRectifiable(events, width, table, cur) &&
      PacketsRectifiable(events, width, table, Packets(events, poseAt, tRvW, cur + PacketSize))
  {
    var ps := Packets(events, poseAt, tRvW, cur);
    if MidpointPose(events, poseAt, tRvW, cur).Some? {
      var rest := Packets(events, poseAt, tRvW, cur + PacketSize);
      assert ps == [Packet(cur, MidpointPose(events, poseAt, tRvW, cur).value)] + rest;
      assert ps[0].start == cur;
      forall i | 0 <= i < |rest| ensures PacketRectifiable(events, width, table, rest[i].start) {
        assert rest[i] == ps[i + 1];
      }
    }
  }

  /** A packet without a pose moves the cursor by one event. */
  lemma PacketsSkip<P>(events: seq<Event>, poseAt: real -> Option<Transform<P>>, tRvW: P, cur: nat)
    requires cur + PacketSize < |events| && MidpointPose(events, poseAt, tRvW, cur).None?
    ensures Packets(events, poseAt, tRvW, cur) == Packets(events, poseAt, tRvW, cur + 1)
  {
  }

  /** A packet with a pose is taken whole, and the schedule goes on after its last event. */
  lemma PacketsCons<P>(events: seq<Event>, poseAt: real -> Option<Transform<P>>, tRvW: P, cur: nat)
    requires cur + PacketSize < |events| && MidpointPose(events, poseAt, tRvW, cur).Some?
    ensures Packets(events, poseAt, tRvW, cur)
      == [Packet(cur, MidpointPose(events, poseAt, tRvW, cur).value)] + Packets(events, poseAt, tRvW, cur + PacketSize)
  {
  }

  /** The packets do not overlap and come in event order. */
  lemma {:induction false} PacketsDisjoint<P>(events: seq<Event>, poseAt: real -> Option<Transform<P>>, tRvW: P, cur: nat)
    ensures var ps := Packets(events, poseAt, tRvW, cur);
      forall i :: 0 <= i < |ps| - 1 ==> ps[i].start + PacketSize <= ps[i + 1].start
    decreases |events| - cur
  {
    var ps := Packets(events, poseAt, tRvW, cur);
    if cur + PacketSize < |events| {
      if MidpointPose(events, poseAt, tRvW, cur).None? {
        PacketsSkip(events, poseAt, tRvW, cur);
        PacketsDisjoint(events, poseAt, tRvW, cur + 1);
      } else {
        var rest := Packets(events, poseAt, tRvW, cur + PacketSize);
        PacketsCons(events, poseAt, tRvW, cur);
        PacketsDisjoint(events, poseAt, tRvW, cur + PacketSize);
        forall i | 0 <= i < |ps| - 1
          ensures ps[i].start + PacketSize <= ps[i + 1].start
        {
          assert ps[i + 1] == rest[i];
          if i > 0 {
            assert ps[i] == rest[i - 1];
          }
        }
      }
    }
  }

  /** Each packet carries the pose of its own middle event. */
  lemma {:induction false} PacketsPosed<P>(events: seq<Event>, poseAt: real -> Option<Transform<P>>, tRvW: P, cur: nat)
    ensures var ps := Packets(events, poseAt, tRvW, cur);
      forall i :: 0 <= i < |ps| ==> MidpointPose(events, poseAt, tRvW, ps[i].start) == Some(ps[i].pose)
    decreases |events| - cur
  {
    var ps := Packets(events, poseAt, tRvW, cur);
    if cur + PacketSize < |events| {
      if MidpointPose(events, poseAt, tRvW, cur).None? {
        PacketsSkip(events, poseAt, tRvW, cur);
        PacketsPosed(events, poseAt, tRvW, cur + 1);
      } else {
        var rest := Packets(events, poseAt, tRvW, cur + PacketSize);
        PacketsCons(events, poseAt, tRvW, cur);
        PacketsPosed(events, poseAt, tRvW, cur + PacketSize);
        forall i | 0 <= i < |ps|
          ensures MidpointPose(events, poseAt, tRvW, ps[i].start) == Some(ps[i].pose)
        {
          if i > 0 {
            assert ps[i] == rest[i - 1];
          }
        }
      }
    }
  }

  /** With at most one packet's worth of events (exactly 1024 included) no packet is taken. */
  lemma NoPacketWithoutSpareEvent<P>(events: seq<Event>, poseAt: real -> Option<Transform<P>>, tRvW: P)
    requires |events| <= PacketSize
    ensures Packets(events, poseAt, tRvW, 0) == []
  {
  }

  /** When every packet finds a pose, the packets tile the events back to back from `cur`. */
  lemma {:induction false} PacketsBackToBack<P>(events: seq<Event>, poseAt: real -> Option<Transform<P>>, tRvW: P, cur: nat)
    requires forall s :: cur <= s && s + PacketSize < |events| ==> MidpointPose(events, poseAt, tRvW, s).Some?
    ensures var ps := Packets(events, poseAt, tRvW, cur);
      (forall i :: 0 <= i < |ps| ==> ps[i].start == cur + i * PacketSize)
      && cur + |ps| * PacketSize + PacketSize >= |events|
    decreases |events| - cur
  {
    var ps := Packets(events, poseAt, tRvW, cur);
    if cur + PacketSize < |events| {
      var rest := Packets(events, poseAt, tRvW, cur + PacketSize);
      PacketsBackToBack(events, poseAt, tRvW, cur + PacketSize);
      PacketsCons(events, poseAt, tRvW, cur);
      forall i | 0 <= i < |ps|
        ensures ps[i].start == cur + i * PacketSize
      {
        if i > 0 {
          assert ps[i] == rest[i - 1];
        }
      }
    }
  }

  // ---------------------------------------------------------------------------
  // Warped event locations and camera centres
  // ---------------------------------------------------------------------------

  /** Event k's pixel is a valid column of the rectification table (row-major, `width` wide). */
  predicate OnTable(events: seq<Event>, width: int, table: seq<Vec2>, k: nat)
  {
    k < |events| && 0 <= events[k].y * width + events[k].x < |table|
  }

  /** Every event of the packet starting at `start` is on the table. */
  predicate PacketRectifiable(events: seq<Event>, width: int, table: seq<Vec2>, start: nat)
  {
    start + PacketSize <= |events| && forall k :: start <= k < start + PacketSize ==> OnTable(events, width, table, k)
  }

  /**
   * Every event of every packet in `ps` is on the table. These are the only events whose
   * rectified pixel evaluateDSI reads; events of skipped positions and the trailing ones are not.
   */
  predicate PacketsRectifiable<P>(events: seq<Event>, width: int, table: seq<Vec2>, ps: seq<Packet<P>>)
  {
    forall i :: 0 <= i < |ps| ==> PacketRectifiable(events, width, table, ps[i].start)
  }

  /** The rectified pixel of event k. */
  function RectifiedAt(events: seq<Event>, width: int, table: seq<Vec2>, k: nat): Vec2
    requires OnTable(events, width, table, k)
  {
    table[events[k].y * width + events[k].x]
  }

  /** The rectified pixels of a packet's events warped by the packet's homography onto Z = z0. */
  function PacketLocations<P>(events: seq<Event>, width: int, table: seq<Vec2>,
                              warp: (Transform<P>, real, Vec2) -> Vec2, z0: real, pk: Packet<P>): (locs: seq<Vec2>)
    requires PacketRectifiable(events, width, table, pk.start)
    ensures |locs| == PacketSize
  {
    seq(PacketSize, i requires 0 <= i < PacketSize => warp(pk.pose, z0, RectifiedAt(events, width, table, pk.start + i)))
  }

  /** The warped locations of all packets, packet after packet. */
  function Locations<P>(events: seq<Event>, width: int, table: seq<Vec2>,
                        warp: (Transform<P>, real, Vec2) -> Vec2, z0: real, ps: seq<Packet<P>>): (locs: seq<Vec2>)
    requires PacketsRectifiable(events, width, table, ps)
    ensures |locs| == PacketSize * |ps|
  {
    if ps == [] then []
    else
      assert PacketsRectifiable(events, width, table, ps[1..]) by {
        forall i | 0 <= i < |ps| - 1 ensures PacketRectifiable(events, width, table, ps[1..][i].start) {
          assert ps[1..][i] == ps[i + 1];
        }
      }
      PacketLocations(events, width, table, warp, z0, ps[0]) + Locations(events, width, table, warp, z0, ps[1..])
  }

  /** The camera centre of each packet, in packet order. */
  function Centers<P>(ps: seq<Packet<P>>, center: Transform<P> -> Vec3): (cs: seq<Vec3>)
    ensures |cs| == |ps|
    ensures forall p :: 0 <= p < |ps| ==> cs[p] == center(ps[p].pose)
  {
    seq(|ps|, p requires 0 <= p < |ps| => center(ps[p].pose))
  }

  /**
   * The location list the cursor loop of evaluateDSI holds when it leaves, entered at position
   * `cur` with list `locs`, turn by turn.
   */
  function CollectedLocations<P>(events: seq<Event>, width: int, table: seq<Vec2>, warp: (Transform<P>, real, Vec2) -> Vec2, z0: real,
                                 poseAt: real -> Option<Transform<P>>, tRvW: P, cur: nat, locs: seq<Vec2>): seq<Vec2>
    requires PacketsRectifiable(events, width, table, Packets(events, poseAt, tRvW, cur))
    decreases |events| - cur
  {
    if cur + PacketSize < |events| then
      RectifiableRest(events, width, table, poseAt, tRvW, cur);
      match MidpointPose(events, poseAt, tRvW, cur)
      case None => CollectedLocations(events, width, table, warp, z0, poseAt, tRvW, cur + 1, locs)
      case Some(pose) =>
        CollectedLocations(events, width, table, warp, z0, poseAt, tRvW, cur + PacketSize,
                           locs + PacketLocations(events, width, table, warp, z0, Packet(cur, pose)))
    else
      locs
  }

  /** The centre list the cursor loop holds when it leaves, entered at `cur` with list `cs`. */
  function CollectedCenters<P>(events: seq<Event>, poseAt: real -> Option<Transform<P>>, tRvW: P, center: Transform<P> -> Vec3,
                               cur: nat, cs: seq<Vec3>): seq<Vec3>
    decreases |events| - cur
  {
    if cur + PacketSize < |events| then
      match MidpointPose(events, poseAt, tRvW, cur)
      case None => CollectedCenters(events, poseAt, tRvW, center, cur + 1, cs)
      case Some(pose) => CollectedCenters(events, poseAt, tRvW, center, cur + PacketSize, cs + [center(pose)])
    else
      cs
  }

  /** A turn of the loop that takes a packet appends that packet's locations. */
  lemma CollectedLocationsTake<P>(events: seq<Event>, width: int, table: seq<Vec2>, warp: (Transform<P>, real, Vec2) -> Vec2,
                                  z0: real, poseAt: real -> Option<Transform<P>>, tRvW: P, cur: nat, locs: seq<Vec2>)
    requires PacketsRectifiable(events, width, table, Packets(events, poseAt, tRvW, cur))
    requires cur + PacketSize < |events| && MidpointPose(events, poseAt, tRvW, cur).Some?
    ensures PacketRectifiable(events, width, table, cur)
    ensures PacketsRectifiable(events, width, table, Packets(events, poseAt, tRvW, cur + PacketSize))
    ensures var pk := Packet(cur, MidpointPose(events, poseAt, tRvW, cur).value);
      CollectedLocations(events, width, table, warp, z0, poseAt, tRvW, cur, locs)
        == CollectedLocations(events, width, table, warp, z0, poseAt, tRvW, cur + PacketSize,
                              locs + PacketLocations(events, width, table, warp, z0, pk))
  {
    RectifiableRest(events, width, table, poseAt, tRvW, cur);
  }

  /** A turn of the loop without a pose only moves the cursor. */
  lemma CollectedLocationsSkip<P>(events: seq<Event>, width: int, table: seq<Vec2>, warp: (Transform<P>, real, Vec2) -> Vec2,
                                  z0: real, poseAt: real -> Option<Transform<P>>, tRvW: P, cur: nat, locs: seq<Vec2>)
    requires PacketsRectifiable(events, width, table, Packets(events, poseAt, tRvW, cur))
    requires cur + PacketSize < |events| && MidpointPose(events, poseAt, tRvW, cur).None?
    ensures CollectedLocations(events, width, table, warp, z0, poseAt, tRvW, cur, locs)
      == CollectedLocations(events, width, table, warp, z0, poseAt, tRvW, cur + 1, locs)
  {
  }

  /** A turn of the loop without a pose only moves the cursor. */
  lemma CollectedCentersSkip<P>(events: seq<Event>, poseAt: real -> Option<Transform<P>>, tRvW: P, center: Transform<P> -> Vec3,
                                cur: nat, cs: seq<Vec3>)
    requires cur + PacketSize < |events| && MidpointPose(events, poseAt, tRvW, cur).None?
    ensures CollectedCenters(events, poseAt, tRvW, center, cur, cs) == CollectedCenters(events, poseAt, tRvW, center, cur + 1, cs)
  {
  }

  /** The centre of a packet heading the list heads the centre list. */
  lemma CentersCons<P>(pk: Packet<P>, rest: seq<Packet<P>>, center: Transform<P> -> Vec3)
    ensures Centers([pk] + rest, center) == [center(pk.pose)] + Centers(rest, center)
  {
    assert ([pk] + rest)[1..] == rest;
  }

  /** A turn of the loop that takes a packet appends that packet's centre. */
  lemma CollectedCentersTake<P>(events: seq<Event>, poseAt: real -> Option<Transform<P>>, tRvW: P, center: Transform<P> -> Vec3,
                                cur: nat, cs: seq<Vec3>)
    requires cur + PacketSize < |events| && MidpointPose(events, poseAt, tRvW, cur).Some?
    ensures CollectedCenters(events, poseAt, tRvW, center, cur, cs)
      == CollectedCenters(events, poseAt, tRvW, center, cur + PacketSize, cs + [center(MidpointPose(events, poseAt, tRvW, cur).value)])
  {
  }

  /** The loop appends, after what it was entered with, the locations of the packet schedule. */
  lemma {:induction false} CollectedLocationsArePackets<P>(events: seq<Event>, width: int, table: seq<Vec2>, warp: (Transform<P>, real, Vec2) -> Vec2,
                                                           z0: real, poseAt: real -> Option<Transform<P>>, tRvW: P, cur: nat, locs: seq<Vec2>)
    requires PacketsRectifiable(events, width, table, Packets(events, poseAt, tRvW, cur))
    ensures CollectedLocations(events, width, table, warp, z0, poseAt, tRvW, cur, locs)
      == locs + Locations(events, width, table, warp, z0, Packets(events, poseAt, tRvW, cur))
    decreases |events| - cur
  {
    var ps := Packets(events, poseAt, tRvW, cur);
    if cur + PacketSize >= |events| {
      assert ps == [];
      assert locs + [] == locs;
    } else if MidpointPose(events, poseAt, tRvW, cur).None? {
      RectifiableRest(events, width, table, poseAt, tRvW, cur);
      CollectedLocationsArePackets(events, width, table, warp, z0, poseAt, tRvW, cur + 1, locs);
      CollectedLocationsSkip(events, width, table, warp, z0, poseAt, tRvW, cur, locs);
      PacketsSkip(events, poseAt, tRvW, cur);
    } else {
      var pk := Packet(cur, MidpointPose(events, poseAt, tRvW, cur).value);
      RectifiableRest(events, width, table, poseAt, tRvW, cur);
      var packetLocs := PacketLocations(events, width, table, warp, z0, pk);
      var restLocs := Locations(events, width, table, warp, z0, Packets(events, poseAt, tRvW, cur + PacketSize));
      CollectedLocationsArePackets(events, width, table, warp, z0, poseAt, tRvW, cur + PacketSize, locs + packetLocs);
      CollectedLocationsTake(events, width, table, warp, z0, poseAt, tRvW, cur, locs);
      PacketsTake(events, width, table, warp, z0, poseAt, tRvW, cur);
      AppendAssoc(locs, packetLocs, restLocs);
    }
  }

  /** The loop appends, after what it was entered with, the centres of the packet schedule. */
  lemma {:induction false} CollectedCentersArePackets<P>(events: seq<Event>, poseAt: real -> Option<Transform<P>>, tRvW: P, center: Transform<P> -> Vec3,
                                                         cur: nat, cs: seq<Vec3>)
    ensures CollectedCenters(events, poseAt, tRvW, center, cur, cs) == cs + Centers(Packets(events, poseAt, tRvW, cur), center)
    decreases |events| - cur
  {
    var ps := Packets(events, poseAt, tRvW, cur);
    if cur + PacketSize >= |events| {
      assert ps == [];
      assert cs + Centers([], center) == cs;
    } else if MidpointPose(events, poseAt, tRvW, cur).None? {
      CollectedCentersArePackets(events, poseAt, tRvW, center, cur + 1, cs);
      CollectedCentersSkip(events, poseAt, tRvW, center, cur, cs);
      PacketsSkip(events, poseAt, tRvW, cur);
    } else {
      var pose := MidpointPose(events, poseAt, tRvW, cur).value;
      var rest := Packets(events, poseAt, tRvW, cur + PacketSize);
      CollectedCentersArePackets(events, poseAt, tRvW, center, cur + PacketSize, cs + [center(pose)]);
      CollectedCentersTake(events, poseAt, tRvW, center, cur, cs);
      PacketsCons(events, poseAt, tRvW, cur);
      CentersCons(Packet(cur, pose), rest, center);
      AppendAssoc(cs, [center(pose)], Centers(rest, center));
    }
  }

  /** A packet that finds a pose heads the packet list, so its locations come first. */
  lemma PacketsTake<P>(events: seq<Event>, width: int, table: seq<Vec2>, warp: (Transform<P>, real, Vec2) -> Vec2, z0: real,
                       poseAt: real -> Option<Transform<P>>, tRvW: P, cur: nat)
    requires PacketsRectifiable(events, width, table, Packets(events, poseAt, tRvW, cur))
    requires cur + PacketSize < |events| && MidpointPose(events, poseAt, tRvW, cur).Some?
    ensures PacketRectifiable(events, width, table, cur)
    ensures PacketsRectifiable(events, width, table, Packets(events, poseAt, tRvW, cur + PacketSize))
    ensures var pk := Packet(cur, MidpointPose(events, poseAt, tRvW, cur).value);
      Locations(events, width, table, warp, z0, Packets(events, poseAt, tRvW, cur))
        == PacketLocations(events, width, table, warp, z0, pk) + Locations(events, width, table, warp, z0, Packets(events, poseAt, tRvW, cur + PacketSize))
  {
    var pk := Packet(cur, MidpointPose(events, poseAt, tRvW, cur).value);
    var ps := Packets(events, poseAt, tRvW, cur);
    var rest := Packets(events, poseAt, tRvW, cur + PacketSize);
    PacketsCons(events, poseAt, tRvW, cur);
    RectifiableRest(events, width, table, poseAt, tRvW, cur);
    assert ps[1..] == rest;
  }

  /**
   * Location j belongs to packet j / 1024: it is that packet's event j % 1024 warped with that
   * packet's pose, the same pose whose centre sits at position j / 1024 of the centre list.
   */
  lemma {:induction false} LocationOfPacket<P>(events: seq<Event>, width: int, table: seq<Vec2>,
                                               warp: (Transform<P>, real, Vec2) -> Vec2, z0: real, ps: seq<Packet<P>>, j: nat)
    requires PacketsRectifiable(events, width, table, ps)
    requires j < PacketSize * |ps|
    ensures var pk := ps[j / PacketSize];
      Locations(events, width, table, warp, z0, ps)[j]
        == warp(pk.pose, z0, RectifiedAt(events, width, table, pk.start + j % PacketSize))
  {
    var first := PacketLocations(events, width, table, warp, z0, ps[0]);
    var rest := Locations(events, width, table, warp, z0, ps[1..]);
    assert Locations(events, width, table, warp, z0, ps) == first + rest;
    if j >= PacketSize {
      assert PacketsRectifiable(events, width, table, ps[1..]) by {
        forall i | 0 <= i < |ps| - 1 ensures PacketRectifiable(events, width, table, ps[1..][i].start) {
          assert ps[1..][i] == ps[i + 1];
        }
      }
      LocationOfPacket(events, width, table, warp, z0, ps[1..], j - PacketSize);
      assert (j - PacketSize) / PacketSize == j / PacketSize - 1;
      assert (j - PacketSize) % PacketSize == j % PacketSize;
    }
  }

  // ---------------------------------------------------------------------------
  // Plane transfer and voting (fillVoxelGrid)
  // ---------------------------------------------------------------------------

  /** Coefficients of the transfer from Z = z0 to Z = zi: X = (x*a + bX)/d and Y = (y*a + bY)/d (a, bx, by, d in the source). */
  datatype Transfer = Transfer(a: real, bX: real, bY: real, d: real)

  /** The coefficients for depth plane zi and camera centre c, with the virtual camera's intrinsics. */
  function TransferCoefficients(z0: real, zi: real, c: Vec3, cam: Pinhole.PinholeCamera): (t: Transfer)
    ensures t.d != 0.0 <==> zi != 0.0 && z0 != c.z
  {
    Transfer(z0 * (zi - c.z),
             (z0 - zi) * (c.x * cam.fx + c.z * cam.cx),
             (z0 - zi) * (c.y * cam.fy + c.z * cam.cy),
             zi * (z0 - c.z))
  }

  /** The transferred location, or None when d is zero (the source divides without a guard). */
  function Transferred(t: Transfer, loc: Vec2): (r: Option<Vec2>)
    ensures r.Some? <==> t.d != 0.0
    ensures r.Some? ==> r.value.x * t.d == loc.x * t.a + t.bX && r.value.y * t.d == loc.y * t.a + t.bY
  {
    if t.d == 0.0 then None
    else Some(Vec2((loc.x * t.a + t.bX) / t.d, (loc.y * t.a + t.bY) / t.d))
  }

  lemma MulDivCancel(a: real, d: real)
    requires d != 0.0
    ensures (a / d) * d == a
  {
  }

  lemma DivOfProduct(l: real, n: real, d: real)
    requires d != 0.0 && l * d == n
    ensures l == n / d
  {
  }

  lemma TransferPolynomial(x: real, f: real, c: real, z0: real, zi: real, cx: real, cz: real, u: real, s: real, l: real)
    requires f * u == x - c
    requires s * (z0 - cz) == zi - cz
    requires l * zi == f * (cx + s * (z0 * u - cx)) + c * zi
    ensures l * (zi * (z0 - cz)) == x * (z0 * (zi - cz)) + (z0 - zi) * (cx * f + cz * c)
  {
    assert l * (zi * (z0 - cz)) == (f * (cx + s * (z0 * u - cx)) + c * zi) * (z0 - cz);
    assert (f * (cx + s * (z0 * u - cx))) * (z0 - cz) == f * cx * (z0 - cz) + (s * (z0 - cz)) * (z0 * (f * u) - f * cx);
  }

  /** One image axis of the transfer: pixel x on Z = z0, seen from centre coordinate cx, lands on Z = zi. */
  lemma TransferAxis(x: real, f: real, c: real, z0: real, zi: real, cx: real, cz: real)
    requires f != 0.0 && z0 != cz && zi != 0.0
    ensures var s := (zi - cz) / (z0 - cz);
      f * (cx + s * (z0 * ((x - c) / f) - cx)) / zi + c
        == (x * (z0 * (zi - cz)) + (z0 - zi) * (cx * f + cz * c)) / (zi * (z0 - cz))
  {
    var u := (x - c) / f;
    var s := (zi - cz) / (z0 - cz);
    var q := cx + s * (z0 * u - cx);
    var l := f * q / zi + c;
    MulDivCancel(x - c, f);
    MulDivCancel(zi - cz, z0 - cz);
    MulDivCancel(f * q, zi);
    assert l * zi == f * q + c * zi;
    TransferPolynomial(x, f, c, z0, zi, cx, cz, u, s, l);
    DivOfProduct(l, x * (z0 * (zi - cz)) + (z0 - zi) * (cx * f + cz * c), zi * (z0 - cz));
  }

  /**
   * The point where the line from camera centre c through the point of plane Z = z0 that the
   * virtual camera sees at pixel loc meets the plane Z = zi.
   */
  function SweepPoint(cam: Pinhole.PinholeCamera, z0: real, zi: real, c: Vec3, loc: Vec2): Vec3
    requires cam.fx != 0.0 && cam.fy != 0.0 && z0 != c.z
  {
    var p0 := Pinhole.Scale(z0, cam.ProjectPixelTo3dRay(loc).value);
    var s := (zi - c.z) / (z0 - c.z);
    Vec3(c.x + s * (p0.x - c.x), c.y + s * (p0.y - c.y), c.z + s * (p0.z - c.z))
  }

  lemma SweepPointParts(cam: Pinhole.PinholeCamera, z0: real, zi: real, c: Vec3, loc: Vec2)
    requires cam.fx != 0.0 && cam.fy != 0.0 && z0 != c.z
    ensures var s := (zi - c.z) / (z0 - c.z);
      var q := SweepPoint(cam, z0, zi, c, loc);
      && q.x == c.x + s * (z0 * ((loc.x - cam.cx) / cam.fx) - c.x)
      && q.y == c.y + s * (z0 * ((loc.y - cam.cy) / cam.fy) - c.y)
      && q.z == zi
  {
    cam.RayValue(loc);
    MulDivCancel(zi - c.z, z0 - c.z);
  }

  /**
   * The closed-form transfer is the space sweep: the transferred pixel is the virtual camera's
   * projection of SweepPoint, which lies on the plane Z = zi.
   */
  lemma TransferIsRayIntersection(cam: Pinhole.PinholeCamera, z0: real, zi: real, c: Vec3, loc: Vec2)
    requires cam.fx != 0.0 && cam.fy != 0.0 && z0 != c.z && zi != 0.0
    ensures var q := SweepPoint(cam, z0, zi, c, loc);
      var r := Transferred(TransferCoefficients(z0, zi, c, cam), loc);
      && q.z == zi
      && r.Some? && cam.Project3dToPixel(q).Some?
      && r.value == cam.Project3dToPixel(q).value
  {
    var q := SweepPoint(cam, z0, zi, c, loc);
    var t := TransferCoefficients(z0, zi, c, cam);
    SweepPointDepth(cam, z0, zi, c, loc);
    TransferMatchesX(cam, z0, zi, c, loc);
    TransferMatchesY(cam, z0, zi, c, loc);
    var r := Transferred(t, loc).value;
    var u := cam.Project3dToPixel(q).value;
    assert r == Vec2(r.x, r.y) && u == Vec2(u.x, u.y);
  }

  lemma TransferMatchesX(cam: Pinhole.PinholeCamera, z0: real, zi: real, c: Vec3, loc: Vec2)
    requires cam.fx != 0.0 && cam.fy != 0.0 && z0 != c.z && zi != 0.0
    ensures var q := SweepPoint(cam, z0, zi, c, loc);
      var r := Transferred(TransferCoefficients(z0, zi, c, cam), loc);
      r.Some? && cam.Project3dToPixel(q).Some? && r.value.x == cam.Project3dToPixel(q).value.x
  {
    SweepPointDepth(cam, z0, zi, c, loc);
    TransferX(cam, z0, zi, c, loc);
    TransferredValue(TransferCoefficients(z0, zi, c, cam), loc);
    ProjectAtDepth(cam, SweepPoint(cam, z0, zi, c, loc), zi);
  }

  lemma TransferMatchesY(cam: Pinhole.PinholeCamera, z0: real, zi: real, c: Vec3, loc: Vec2)
    requires cam.fx != 0.0 && cam.fy != 0.0 && z0 != c.z && zi != 0.0
    ensures var q := SweepPoint(cam, z0, zi, c, loc);
      var r := Transferred(TransferCoefficients(z0, zi, c, cam), loc);
      r.Some? && cam.Project3dToPixel(q).Some? && r.value.y == cam.Project3dToPixel(q).value.y
  {
    SweepPointDepth(cam, z0, zi, c, loc);
    TransferY(cam, z0, zi, c, loc);
    TransferredValue(TransferCoefficients(z0, zi, c, cam), loc);
    ProjectAtDepth(cam, SweepPoint(cam, z0, zi, c, loc), zi);
  }

  /** The sweep point lies on the plane Z = zi. */
  lemma SweepPointDepth(cam: Pinhole.PinholeCamera, z0: real, zi: real, c: Vec3, loc: Vec2)
    requires cam.fx != 0.0 && cam.fy != 0.0 && z0 != c.z
    ensures SweepPoint(cam, z0, zi, c, loc).z == zi
  {
    SweepPointParts(cam, z0, zi, c, loc);
  }

  lemma TransferredValue(t: Transfer, loc: Vec2)
    requires t.d != 0.0
    ensures var r := Transferred(t, loc);
      r.Some? && r.value.x == (loc.x * t.a + t.bX) / t.d && r.value.y == (loc.y * t.a + t.bY) / t.d
  {
  }

  lemma ProjectAtDepth(cam: Pinhole.PinholeCamera, q: Vec3, zi: real)
    requires q.z == zi && zi != 0.0
    ensures var u := cam.Project3dToPixel(q);
      u.Some? && u.value.x == cam.fx * q.x / zi + cam.cx && u.value.y == cam.fy * q.y / zi + cam.cy
  {
    cam.ProjectValue(q);
  }

  lemma TransferX(cam: Pinhole.PinholeCamera, z0: real, zi: real, c: Vec3, loc: Vec2)
    requires cam.fx != 0.0 && cam.fy != 0.0 && z0 != c.z && zi != 0.0
    ensures var t := TransferCoefficients(z0, zi, c, cam);
      t.d != 0.0 && (loc.x * t.a + t.bX) / t.d == cam.fx * SweepPoint(cam, z0, zi, c, loc).x / zi + cam.cx
  {
    SweepPointParts(cam, z0, zi, c, loc);
    NonZero(zi, z0 - c.z);
    TransferAxis(loc.x, cam.fx, cam.cx, z0, zi, c.x, c.z);
  }

  lemma TransferY(cam: Pinhole.PinholeCamera, z0: real, zi: real, c: Vec3, loc: Vec2)
    requires cam.fx != 0.0 && cam.fy != 0.0 && z0 != c.z && zi != 0.0
    ensures var t := TransferCoefficients(z0, zi, c, cam);
      t.d != 0.0 && (loc.y * t.a + t.bY) / t.d == cam.fy * SweepPoint(cam, z0, zi, c, loc).y / zi + cam.cy
  {
    SweepPointParts(cam, z0, zi, c, loc);
    NonZero(zi, z0 - c.z);
    TransferAxis(loc.y, cam.fy, cam.cy, z0, zi, c.y, c.z);
  }

  lemma NonZero(a: real, b: real)
    requires a != 0.0 && b != 0.0
    ensures a * b != 0.0
  {
  }

  /** What fillVoxelGrid works from: the slice size, z0, the virtual camera, locations and centres. */
  datatype Sweep = Sweep(dimX: nat, dimY: nat, z0: real, cam: Pinhole.PinholeCamera, locs: seq<Vec2>, centers: seq<Vec3>)
  {
    /** Every packet has its 1024 locations. */
    predicate Covered()
    {
      PacketSize * |centers| <= |locs|
    }

    /** Cells per depth plane. */
    function SliceSize(): nat
    {
      dimX * dimY
    }

    /** The number of locations the voting reads: one packet per centre. */
    function Count(): nat
    {
      PacketSize * |centers|
    }
  }

  /** The vote of location `loc` into the slice starting at `offset`, after the transfer t. */
  function VoteLocation(cells: seq<real>, dimX: nat, dimY: nat, offset: nat, t: Transfer, loc: Vec2): (r: seq<real>)
    requires offset + dimX * dimY <= |cells|
    ensures |r| == |cells|
  {
    var p := Transferred(t, loc);
    if p.Some? then Vote(cells, dimX, dimY, offset, p.value.x, p.value.y) else cells
  }

  /** The transfer location j is voted with on plane zi: that of the centre of packet j / 1024. */
  function TransferOf(sw: Sweep, zi: real, j: nat): Transfer
    requires sw.Covered() && j < sw.Count()
  {
    TransferCoefficients(sw.z0, zi, sw.centers[j / PacketSize], sw.cam)
  }

  /** The slice at `offset` after voting the first n locations on the plane Z = zi, in order. */
  function VoteRange(cells: seq<real>, sw: Sweep, offset: nat, zi: real, n: nat): (r: seq<real>)
    requires offset + sw.SliceSize() <= |cells| && sw.Covered() && n <= sw.Count()
    ensures |r| == |cells|
  {
    if n == 0 then cells
    else VoteLocation(VoteRange(cells, sw, offset, zi, n - 1), sw.dimX, sw.dimY, offset, TransferOf(sw, zi, n - 1), sw.locs[n - 1])
  }

  /** The buffer after planes 0 .. m-1 have each voted every location into their own slice. */
  function FillPlanes(cells: seq<real>, sw: Sweep, depths: seq<real>, m: nat): (r: seq<real>)
    requires |cells| == sw.SliceSize() * |depths| && m <= |depths| && sw.Covered()
    ensures |r| == |cells|
  {
    if m == 0 then cells
    else
      SliceFits(sw.SliceSize(), m - 1, |depths|);
      VoteRange(FillPlanes(cells, sw, depths, m - 1), sw, (m - 1) * sw.SliceSize(), depths[m - 1], sw.Count())
  }

  /** Slice i of a buffer of n-cell slices for L planes ends inside the buffer. */
  lemma SliceFits(n: nat, i: nat, planes: nat)
    requires i < planes
    ensures i * n + n <= n * planes
  {
    MulLe(n, i + 1, planes);
  }

  /** Slices are laid out in plane order without overlap. */
  lemma SliceOrder(n: nat, i: nat, j: nat)
    requires i < j
    ensures i * n + n <= j * n
  {
    MulLe(n, i + 1, j);
  }

  /** Voting on one plane never changes a cell outside that plane's slice. */
  lemma {:induction false} VoteRangeStaysInSlice(cells: seq<real>, sw: Sweep, offset: nat, zi: real, n: nat)
    requires offset + sw.SliceSize() <= |cells| && sw.Covered() && n <= sw.Count()
    ensures forall k :: 0 <= k < |cells| && (k < offset || k >= offset + sw.SliceSize()) ==>
      VoteRange(cells, sw, offset, zi, n)[k] == cells[k]
  {
    if n > 0 {
      var before := VoteRange(cells, sw, offset, zi, n - 1);
      VoteRangeStaysInSlice(cells, sw, offset, zi, n - 1);
      var p := Transferred(TransferOf(sw, zi, n - 1), sw.locs[n - 1]);
      if p.Some? {
        VoteStaysInSlice(before, sw.dimX, sw.dimY, offset, p.value.x, p.value.y);
      }
    }
  }

  /** Two buffers that agree on a slice still agree on it after the same vote. */
  lemma VoteSliceLocal(c1: seq<real>, c2: seq<real>, dimX: nat, dimY: nat, offset: nat, xf: real, yf: real)
    requires |c1| == |c2| && offset + dimX * dimY <= |c1|
    requires forall k :: offset <= k < offset + dimX * dimY ==> c1[k] == c2[k]
    ensures forall k :: offset <= k < offset + dimX * dimY ==>
      Vote(c1, dimX, dimY, offset, xf, yf)[k] == Vote(c2, dimX, dimY, offset, xf, yf)[k]
  {
    if Accepted(dimX, dimY, xf, yf) {
      VoteFourCells(c1, dimX, dimY, offset, xf, yf);
      VoteFourCells(c2, dimX, dimY, offset, xf, yf);
    }
  }

  /** What a plane's voting leaves in its slice depends only on what the slice held before. */
  lemma {:induction false} VoteRangeSliceLocal(c1: seq<real>, c2: seq<real>, sw: Sweep, offset: nat, zi: real, n: nat)
    requires |c1| == |c2| && offset + sw.SliceSize() <= |c1| && sw.Covered() && n <= sw.Count()
    requires forall k :: offset <= k < offset + sw.SliceSize() ==> c1[k] == c2[k]
    ensures forall k :: offset <= k < offset + sw.SliceSize() ==>
      VoteRange(c1, sw, offset, zi, n)[k] == VoteRange(c2, sw, offset, zi, n)[k]
  {
    if n > 0 {
      var b1 := VoteRange(c1, sw, offset, zi, n - 1);
      var b2 := VoteRange(c2, sw, offset, zi, n - 1);
      VoteRangeSliceLocal(c1, c2, sw, offset, zi, n - 1);
      var p := Transferred(TransferOf(sw, zi, n - 1), sw.locs[n - 1]);
      if p.Some? {
        VoteSliceLocal(b1, b2, sw.dimX, sw.dimY, offset, p.value.x, p.value.y);
      }
    }
  }

  /** Slices from plane m on are untouched by planes 0 .. m-1. */
  lemma {:induction false} FillPlanesUntouched(cells: seq<real>, sw: Sweep, depths: seq<real>, m: nat, k: nat)
    requires |cells| == sw.SliceSize() * |depths| && m <= |depths| && sw.Covered()
    requires m * sw.SliceSize() <= k < |cells|
    ensures FillPlanes(cells, sw, depths, m)[k] == cells[k]
  {
    if m > 0 {
      SliceFits(sw.SliceSize(), m - 1, |depths|);
      SliceOrder(sw.SliceSize(), m - 1, m);
      var before := FillPlanes(cells, sw, depths, m - 1);
      FillPlanesUntouched(cells, sw, depths, m - 1, k);
      VoteRangeStaysInSlice(before, sw, (m - 1) * sw.SliceSize(), depths[m - 1], sw.Count());
    }
  }

  /**
   * Plane i writes only slice i, and what it writes there does not depend on the other planes:
   * after planes 0 .. m-1, a cell of slice i < m holds exactly what plane i alone would have
   * written into the initial buffer. So the planes can be swept in any order, or in parallel as
   * the source does.
   */
  lemma {:induction false} FillPlanesAt(cells: seq<real>, sw: Sweep, depths: seq<real>, m: nat, i: nat, k: nat)
    requires |cells| == sw.SliceSize() * |depths| && m <= |depths| && sw.Covered()
    requires i < m && i * sw.SliceSize() <= k < i * sw.SliceSize() + sw.SliceSize()
    ensures i * sw.SliceSize() + sw.SliceSize() <= |cells|
    ensures FillPlanes(cells, sw, depths, m)[k] == VoteRange(cells, sw, i * sw.SliceSize(), depths[i], sw.Count())[k]
  {
    var n := sw.SliceSize();
    SliceFits(n, i, |depths|);
    SliceFits(n, m - 1, |depths|);
    var offset := (m - 1) * n;
    var before := FillPlanes(cells, sw, depths, m - 1);
    if i == m - 1 {
      forall k' | offset <= k' < offset + n
        ensures before[k'] == cells[k']
      {
        FillPlanesUntouched(cells, sw, depths, m - 1, k');
      }
      VoteRangeSliceLocal(before, cells, sw, offset, depths[m - 1], sw.Count());
    } else {
      SliceOrder(n, i, m - 1);
      VoteRangeStaysInSlice(before, sw, offset, depths[m - 1], sw.Count());
      FillPlanesAt(cells, sw, depths, m - 1, i, k);
    }
  }

  /** A buffer of n zero cells, as resetGrid leaves it. */
  function Zeros(n: nat): (z: seq<real>)
    ensures |z| == n && forall i :: 0 <= i < n ==> z[i] == 0.0
  {
    seq(n, i => 0.0)
  }

  // ---------------------------------------------------------------------------
  // The rectification table (precomputeRectifiedPoints)
  // ---------------------------------------------------------------------------

  /** Row y of the table: the rectified pixels (0, y) .. (width-1, y). */
  function TableRow(rectify: Vec2 -> Vec2, width: nat, y: nat): (row: seq<Vec2>)
    ensures |row| == width
  {
    seq(width, x requires 0 <= x < width => rectify(Vec2(x as real, y as real)))
  }

  /** The first `rows` rows of the table, one after the other. */
  function Table(rectify: Vec2 -> Vec2, width: nat, rows: nat): (t: seq<Vec2>)
    ensures |t| == rows * width
  {
    if rows == 0 then [] else Table(rectify, width, rows - 1) + TableRow(rectify, width, rows - 1)
  }

  /** Column y*width + x of the table holds the rectified pixel (x, y). */
  lemma {:induction false} TableLookup(rectify: Vec2 -> Vec2, width: nat, rows: nat, x: nat, y: nat)
    requires x < width && y < rows
    ensures y * width + x < rows * width
    ensures Table(rectify, width, rows)[y * width + x] == rectify(Vec2(x as real, y as real))
  {
    var t := Table(rectify, width, rows);
    var prefix := Table(rectify, width, rows - 1);
    assert t == prefix + TableRow(rectify, width, rows - 1);
    if y < rows - 1 {
      SliceOrder(width, y, rows - 1);
      TableLookup(rectify, width, rows - 1, x, y);
    } else {
      assert y * width + x == |prefix| + x;
    }
  }

  /** An event inside the sensor looks up the rectified version of its own pixel. */
  lemma RectifiedEvent(events: seq<Event>, rectify: Vec2 -> Vec2, width: nat, height: nat, k: nat)
    requires k < |events| && 0 <= events[k].x < width && 0 <= events[k].y < height
    ensures OnTable(events, width, Table(rectify, width, height), k)
    ensures RectifiedAt(events, width, Table(rectify, width, height), k)
      == rectify(Vec2(events[k].x as real, events[k].y as real))
  {
    TableLookup(rectify, width, height, events[k].x, events[k].y);
  }

  // ---------------------------------------------------------------------------
  // Depth map and point cloud helpers
  // ---------------------------------------------------------------------------

  /** The border removed from the mask: max(kernel / 2, 1), with C++ division (toward zero). */
  function BorderSize(options: OptionsDepthMap): (b: int)
    ensures b >= 1
    ensures options.adaptiveThresholdKernelSize < 4 ==> b == 1
    ensures options.adaptiveThresholdKernelSize >= 4 ==> 2 * b <= options.adaptiveThresholdKernelSize < 2 * b + 2
  {
    var k := options.adaptiveThresholdKernelSize;
    var half := if k >= 0 then k / 2 else -((-k) / 2);
    if half > 1 then half else 1
  }

  /** Whether pixel (x, y) of a rows x cols mask lies in the border removeMaskBoundary clears. */
  predicate OnBorder(rows: int, cols: int, border: int, y: int, x: int)
  {
    x <= border || x >= cols - border || y <= border || y >= rows - border
  }

  /** The value removeMaskBoundary leaves at a pixel that held v. */
  function Trimmed(v: uint8, rows: int, cols: int, border: int, y: int, x: int): (r: uint8)
    ensures r == 0 || r == v
    ensures r == v <==> v == 0 || !OnBorder(rows, cols, border, y, x)
  {
    if OnBorder(rows, cols, border, y, x) then 0 else v
  }

  /** Removing the boundary twice is the same as removing it once. */
  lemma TrimmedIdempotent(v: uint8, rows: int, cols: int, border: int, y: int, x: int)
    ensures Trimmed(Trimmed(v, rows, cols, border, y, x), rows, cols, border, y, x) == Trimmed(v, rows, cols, border, y, x)
  {
  }

  /** With the border of any kernel size, the two outermost rows and columns are always cleared. */
  lemma OuterPixelsCleared(options: OptionsDepthMap, rows: int, cols: int, y: int, x: int)
    requires 0 <= y < rows && 0 <= x < cols
    requires x <= 1 || y <= 1 || x >= cols - 1 || y >= rows - 1
    ensures OnBorder(rows, cols, BorderSize(options), y, x)
  {
  }

  /**
   * The cloud point of pixel (x, y) at the given depth: the pixel's ray through the virtual camera
   * (normalised and then divided by its third coordinate, which gives the ray at Z = 1 back),
   * scaled by the depth, with intensity 1 / z.
   */
  function PointAt(cam: Pinhole.PinholeCamera, x: int, y: int, depth: real): (p: CloudPoint)
    ensures p.pos.Some? <==> cam.fx != 0.0 && cam.fy != 0.0
    ensures p.intensity.Some? <==> p.pos.Some? && depth != 0.0
    ensures p.pos.Some? ==> p.pos.value.z == depth
    ensures p.intensity.Some? ==> p.intensity.value * depth == 1.0
  {
    match cam.ProjectPixelTo3dRay(Vec2(x as real, y as real))
    case None => CloudPoint(None, None)
    case Some(b) => CloudPoint(Some(Pinhole.Scale(depth, b)), if depth == 0.0 then None else Some(1.0 / depth))
  }

  /** A cloud point with non-zero depth lies on the ray of its own pixel: it projects back onto it. */
  lemma PointOnPixelRay(cam: Pinhole.PinholeCamera, x: int, y: int, depth: real)
    requires cam.fx != 0.0 && cam.fy != 0.0 && depth != 0.0
    ensures var q := PointAt(cam, x, y, depth).pos.value;
      cam.Project3dToPixel(q).Some? && cam.Project3dToPixel(q).value == Vec2(x as real, y as real)
  {
    var u := Vec2(x as real, y as real);
    var b := cam.ProjectPixelTo3dRay(u).value;
    cam.ProjectionScaleInvariant(b, depth);
    cam.PixelRoundTrip(u);
    assert PointAt(cam, x, y, depth).pos.value == Pinhole.Scale(depth, b);
  }

  /** The points of row y among its first n pixels: one for each pixel whose mask is set. */
  function CloudRow(depthMap: array2<real>, mask: array2<uint8>, cam: Pinhole.PinholeCamera, y: nat, n: nat): seq<CloudPoint>
    requires y < depthMap.Length0 == mask.Length0 && n <= depthMap.Length1 == mask.Length1
    reads depthMap, mask
  {
    if n == 0 then []
    else
      var point := if mask[y, n - 1] > 0 then [PointAt(cam, n - 1, y, depthMap[y, n - 1])] else [];
      CloudRow(depthMap, mask, cam, y, n - 1) + point
  }

  /** The points of the first m rows, row after row, before outlier removal. */
  function Cloud(depthMap: array2<real>, mask: array2<uint8>, cam: Pinhole.PinholeCamera, m: nat): seq<CloudPoint>
    requires m <= depthMap.Length0 == mask.Length0 && depthMap.Length1 == mask.Length1
    reads depthMap, mask
  {
    if m == 0 then [] else Cloud(depthMap, mask, cam, m - 1) + CloudRow(depthMap, mask, cam, m - 1, depthMap.Length1)
  }

  /** Each masked pixel of a row gives one point and each unmasked pixel none. */
  lemma {:induction false} CloudRowSize(depthMap: array2<real>, mask: array2<uint8>, cam: Pinhole.PinholeCamera, y: nat, n: nat)
    requires y < depthMap.Length0 == mask.Length0 && n <= depthMap.Length1 == mask.Length1
    ensures |CloudRow(depthMap, mask, cam, y, n)| == |set x | 0 <= x < n && mask[y, x] > 0|
  {
    if n > 0 {
      CloudRowSize(depthMap, mask, cam, y, n - 1);
      var before := set x | 0 <= x < n - 1 && mask[y, x] > 0;
      var after := set x | 0 <= x < n && mask[y, x] > 0;
      if mask[y, n - 1] > 0 {
        assert after == before + {n - 1};
      } else {
        assert after == before;
      }
    }
  }

  /** A row's points are exactly the points of its masked pixels: both directions. */
  lemma {:induction false} CloudRowMembers(depthMap: array2<real>, mask: array2<uint8>, cam: Pinhole.PinholeCamera, y: nat, n: nat)
    requires y < depthMap.Length0 == mask.Length0 && n <= depthMap.Length1 == mask.Length1
    ensures forall x :: 0 <= x < n && mask[y, x] > 0 ==> PointAt(cam, x, y, depthMap[y, x]) in CloudRow(depthMap, mask, cam, y, n)
    ensures forall p :: p in CloudRow(depthMap, mask, cam, y, n) ==>
      exists x :: 0 <= x < n && mask[y, x] > 0 && p == PointAt(cam, x, y, depthMap[y, x])
  {
    if n > 0 {
      CloudRowMembers(depthMap, mask, cam, y, n - 1);
      var before := CloudRow(depthMap, mask, cam, y, n - 1);
      if mask[y, n - 1] > 0 {
        var last := PointAt(cam, n - 1, y, depthMap[y, n - 1]);
        assert CloudRow(depthMap, mask, cam, y, n) == before + [last];
        forall p | p in before + [last]
          ensures exists x :: 0 <= x < n && mask[y, x] > 0 && p == PointAt(cam, x, y, depthMap[y, x])
        {
          if p == last {
            assert 0 <= n - 1 < n && mask[y, n - 1] > 0 && p == PointAt(cam, n - 1, y, depthMap[y, n - 1]);
          }
        }
      } else {
        assert CloudRow(depthMap, mask, cam, y, n) == before;
      }
    }
  }

  // ---------------------------------------------------------------------------
  // The mapper object
  // ---------------------------------------------------------------------------

  class MapperEMVS {
    var width: int
    var height: int
    var K: Pinhole.Mat3
    var shape: ShapeDSI
    var virtualCam: Pinhole.PinholeCamera
    var depths: seq<real>
    var rectified: seq<Vec2>
    var locations: seq<Vec2>
    var centers: seq<Vec3>
    var dsi: Grid3D

    /** The DSI has one depth plane per depth, and the table one entry per sensor pixel. */
    ghost predicate Valid()
      reads this, dsi
    {
      && dsi.Valid()
      && dsi.sizeZ == |depths|
      && 0 <= width && 0 <= height && |rectified| == width * height
      && |locations| == PacketSize * |centers|
    }

    /**
     * MapperEMVS(camParams, dsiShape): fx, fy, cx, cy, width, height from the parameters, then
     * setupDSI and precomputeRectifiedPoints. `depthVector` is the depth of each plane and
     * `fovFocal` the focal length a field of view of at least 10 degrees gives; `rectify` is the
     * lens rectification of a pixel.
     */
    constructor (camParams: seq<real>, dsiShape: ShapeDSI, depthVector: seq<real>, fovFocal: real, rectify: Vec2 -> Vec2)
      requires |camParams| >= 6 && camParams[4] >= 0.0 && camParams[5] >= 0.0
      requires |depthVector| == dsiShape.dimZ
      ensures width == TruncToInt(camParams[4]) && height == TruncToInt(camParams[5])
      ensures K == Pinhole.Mat3(camParams[0], 0.0, camParams[2], 0.0, camParams[1], camParams[3], 0.0, 0.0, 1.0)
      ensures shape == dsiShape.(dimX := if dsiShape.dimX > 0 then dsiShape.dimX else width,
                                 dimY := if dsiShape.dimY > 0 then dsiShape.dimY else height)
      ensures depths == depthVector && locations == [] && centers == []
      ensures virtualCam == VirtualCamera(shape, if dsiShape.fov < MinFov then camParams[0] else fovFocal)
      ensures rectified == Table(rectify, width, height)
      ensures fresh(dsi) && fresh(dsi.data)
      ensures dsi.sizeX == Wrap32(shape.dimX) && dsi.sizeY == Wrap32(shape.dimY) && dsi.sizeZ == Wrap32(shape.dimZ)
      ensures forall i :: 0 <= i < dsi.data.Length ==> dsi.data[i] == 0.0
      ensures (shape.dimX < TwoTo32 && shape.dimY < TwoTo32 && shape.dimZ < TwoTo32
               && shape.dimX * shape.dimY * shape.dimZ < TwoTo32) ==> Valid()
    {
      width := TruncToInt(camParams[4]);
      height := TruncToInt(camParams[5]);
      K := Pinhole.Mat3(camParams[0], 0.0, camParams[2], 0.0, camParams[1], camParams[3], 0.0, 0.0, 1.0);
      shape := dsiShape;
      virtualCam := Pinhole.PinholeCamera(0, 0, 0.0, 0.0, 0.0, 0.0);
      depths := [];
      rectified := [];
      locations := [];
      centers := [];
      dsi := new Grid3D.Empty();
      new;
      SetupDSI(depthVector, fovFocal);
      PrecomputeRectifiedPoints(rectify);
    }

    /**
     * setupDSI: the depths of the planes, the DSI size (a zero dimX / dimY becomes the sensor's),
     * the virtual camera centred on the DSI, and a zeroed grid of that size.
     */
    method SetupDSI(depthVector: seq<real>, fovFocal: real)
      requires 0 <= width && 0 <= height
      modifies this`shape, this`depths, this`virtualCam, this`dsi
      ensures depths == depthVector
      ensures shape == old(shape).(dimX := if old(shape).dimX > 0 then old(shape).dimX else width,
                                   dimY := if old(shape).dimY > 0 then old(shape).dimY else height)
      ensures virtualCam == VirtualCamera(shape, if shape.fov < MinFov then K.a00 else fovFocal)
      ensures fresh(dsi) && fresh(dsi.data)
      ensures dsi.sizeX == Wrap32(shape.dimX) && dsi.sizeY == Wrap32(shape.dimY) && dsi.sizeZ == Wrap32(shape.dimZ)
      ensures forall i :: 0 <= i < dsi.data.Length ==> dsi.data[i] == 0.0
      ensures Wrap32(shape.dimX) * Wrap32(shape.dimY) * Wrap32(shape.dimZ) < TwoTo32 ==> dsi.Valid()
    {
      depths := depthVector;
      var dimX := if shape.dimX > 0 then shape.dimX else width;
      var dimY := if shape.dimY > 0 then shape.dimY else height;
      shape := shape.(dimX := dimX, dimY := dimY);
      var f := if shape.fov < MinFov then K.a00 else fovFocal;
      virtualCam := VirtualCamera(shape, f);
      dsi := new Grid3D(Wrap32(shape.dimX), Wrap32(shape.dimY), Wrap32(shape.dimZ));
    }

    /**
     * precomputeRectifiedPoints: the rectified version of every sensor pixel, stored at column
     * y * width + x (TableLookup); `rectify` stands for the virtual camera's rectifyPoint.
     */
    method PrecomputeRectifiedPoints(rectify: Vec2 -> Vec2)
      requires 0 <= width && 0 <= height
      modifies this`rectified
      ensures rectified == Table(rectify, width, height)
    {
      var table: seq<Vec2> := [];
      var y := 0;
      while y < height
        invariant 0 <= y <= height
        invariant table == Table(rectify, width, y)
      {
        ghost var done := table;
        var x := 0;
        while x < width
          invariant 0 <= x <= width
          invariant table == done + TableRow(rectify, width, y)[..x]
        {
          table := table + [rectify(Vec2(x as real, y as real))];
          x := x + 1;
        }
        assert TableRow(rectify, width, y)[..width] == TableRow(rectify, width, y);
        y := y + 1;
      }
      rectified := table;
    }

    /**
     * evaluateDSI: fails on fewer than 1024 events and changes nothing; otherwise rebuilds the
     * location and centre lists packet by packet, zeroes the grid and fills it by voting.
     */
    method EvaluateDSI<P>(events: seq<Event>, trajectory: LinearTrajectory<P>, tRvW: P,
                          warp: (Transform<P>, real, Vec2) -> Vec2, center: Transform<P> -> Vec3) returns (ok: bool)
      requires Valid()
      requires PacketsRectifiable(events, width, rectified, Packets(events, PoseLookup(trajectory), tRvW, 0))
      requires |events| < PacketSize || |depths| > 0
      modifies this`locations, this`centers, dsi.data
      ensures Valid()
      ensures ok <==> |events| >= PacketSize
      ensures !ok ==> locations == old(locations) && centers == old(centers) && dsi.data[..] == old(dsi.data[..])
      ensures ok ==>
        var ps := Packets(events, PoseLookup(trajectory), tRvW, 0);
        && locations == Locations(events, width, rectified, warp, depths[0], ps)
        && centers == Centers(ps, center)
        && dsi.data[..] == FillPlanes(Zeros(dsi.data.Length), Sweep(dsi.sizeX, dsi.sizeY, depths[0], virtualCam, locations, centers), depths, |depths|)
    {
      if |events| < PacketSize {
        return false;
      }
      CollectPackets(events, trajectory, tRvW, warp, center);
      dsi.ResetGrid();
      assert dsi.data[..] == Zeros(dsi.data.Length);
      FillVoxelGrid(locations, centers);
      return true;
    }

    /**
     * The cursor loop of evaluateDSI: from empty lists, the locations and centres of every
     * packet the schedule takes, in order.
     */
    method CollectPackets<P>(events: seq<Event>, trajectory: LinearTrajectory<P>, tRvW: P,
                             warp: (Transform<P>, real, Vec2) -> Vec2, center: Transform<P> -> Vec3)
      requires PacketsRectifiable(events, width, rectified, Packets(events, PoseLookup(trajectory), tRvW, 0)) && |depths| > 0
      modifies this`locations, this`centers
      ensures locations == Locations(events, width, rectified, warp, depths[0], Packets(events, PoseLookup(trajectory), tRvW, 0))
      ensures centers == Centers(Packets(events, PoseLookup(trajectory), tRvW, 0), center)
    {
      ghost var z0 := depths[0];
      ghost var finalLocs := CollectedLocations(events, width, rectified, warp, z0, PoseLookup(trajectory), tRvW, 0, []);
      ghost var finalCenters := CollectedCenters(events, PoseLookup(trajectory), tRvW, center, 0, []);
      locations := [];
      centers := [];
      var cur := 0;
      while cur + PacketSize < |events|
        invariant PacketsRectifiable(events, width, rectified, Packets(events, PoseLookup(trajectory), tRvW, cur))
        invariant CollectedLocations(events, width, rectified, warp, z0, PoseLookup(trajectory), tRvW, cur, locations) == finalLocs
        invariant CollectedCenters(events, PoseLookup(trajectory), tRvW, center, cur, centers) == finalCenters
        decreases |events| - cur
      {
        cur := StepCursor(events, trajectory, tRvW, warp, center, cur);
      }
      CollectedLocationsArePackets(events, width, rectified, warp, z0, PoseLookup(trajectory), tRvW, 0, []);
      CollectedCentersArePackets(events, PoseLookup(trajectory), tRvW, center, 0, []);
    }

    /**
     * One turn of the cursor loop at position `cur`: without a pose the cursor moves by one
     * event; with one, the packet's centre and locations are appended and the cursor jumps it.
     */
    method StepCursor<P>(events: seq<Event>, trajectory: LinearTrajectory<P>, tRvW: P,
                         warp: (Transform<P>, real, Vec2) -> Vec2, center: Transform<P> -> Vec3, cur: nat) returns (next: nat)
      requires PacketsRectifiable(events, width, rectified, Packets(events, PoseLookup(trajectory), tRvW, cur))
      requires |depths| > 0 && cur + PacketSize < |events|
      modifies this`locations, this`centers
      ensures cur < next
      ensures PacketsRectifiable(events, width, rectified, Packets(events, PoseLookup(trajectory), tRvW, next))
      ensures CollectedLocations(events, width, rectified, warp, depths[0], PoseLookup(trajectory), tRvW, next, locations)
        == CollectedLocations(events, width, rectified, warp, depths[0], PoseLookup(trajectory), tRvW, cur, old(locations))
      ensures CollectedCenters(events, PoseLookup(trajectory), tRvW, center, next, centers)
        == CollectedCenters(events, PoseLookup(trajectory), tRvW, center, cur, old(centers))
    {
      ghost var poseAt := PoseLookup(trajectory);
      RectifiableRest(events, width, rectified, poseAt, tRvW, cur);
      var pose := PacketPose(events, trajectory, tRvW, cur);
      if pose.None? {
        CollectedLocationsSkip(events, width, rectified, warp, depths[0], poseAt, tRvW, cur, locations);
        CollectedCentersSkip(events, poseAt, tRvW, center, cur, centers);
        return cur + 1;
      }
      TakePacket(events, poseAt, tRvW, warp, center, Packet(cur, pose.value));
      next := cur + PacketSize;
    }

    /** The pose of the packet at `cur`: T_rv_w * T_w_ev at its middle event's time, if the trajectory has one. */
    static method PacketPose<P>(events: seq<Event>, trajectory: LinearTrajectory<P>, tRvW: P, cur: nat) returns (pose: Option<Transform<P>>)
      requires cur + PacketSize < |events|
      ensures pose == MidpointPose(events, PoseLookup(trajectory), tRvW, cur)
    {
      var frameTs := FrameTime(events[cur + PacketSize / 2]);
      var tWEv := trajectory.GetPoseAt(frameTs);
      if tWEv.None? {
        return None;
      }
      return Some(Compose(Pose(tRvW), tWEv.value));
    }

    /** A packet with pose T_rv_ev: its centre is pushed, then the warped locations of its events. */
    method TakePacket<P>(events: seq<Event>, ghost poseAt: real -> Option<Transform<P>>, tRvW: P,
                         warp: (Transform<P>, real, Vec2) -> Vec2, center: Transform<P> -> Vec3, pk: Packet<P>)
      requires |depths| > 0 && pk.start + PacketSize < |events|
      requires MidpointPose(events, poseAt, tRvW, pk.start) == Some(pk.pose)
      requires PacketsRectifiable(events, width, rectified, Packets(events, poseAt, tRvW, pk.start))
      modifies this`locations, this`centers
      ensures PacketsRectifiable(events, width, rectified, Packets(events, poseAt, tRvW, pk.start + PacketSize))
      ensures CollectedLocations(events, width, rectified, warp, depths[0], poseAt, tRvW, pk.start + PacketSize, locations)
        == CollectedLocations(events, width, rectified, warp, depths[0], poseAt, tRvW, pk.start, old(locations))
      ensures CollectedCenters(events, poseAt, tRvW, center, pk.start + PacketSize, centers)
        == CollectedCenters(events, poseAt, tRvW, center, pk.start, old(centers))
    {
      RectifiableRest(events, width, rectified, poseAt, tRvW, pk.start);
      CollectedLocationsTake(events, width, rectified, warp, depths[0], poseAt, tRvW, pk.start, locations);
      CollectedCentersTake(events, poseAt, tRvW, center, pk.start, centers);
      centers := centers + [center(pk.pose)];
      WarpPacket(events, warp, depths[0], pk);
    }

    /** The inner loop of evaluateDSI: appends the warped rectified pixel of each event of a packet. */
    method WarpPacket<P>(events: seq<Event>, warp: (Transform<P>, real, Vec2) -> Vec2, z0: real, pk: Packet<P>)
      requires PacketRectifiable(events, width, rectified, pk.start)
      modifies this`locations
      ensures locations == old(locations) + PacketLocations(events, width, rectified, warp, z0, pk)
    {
      ghost var before := locations;
      ghost var target := PacketLocations(events, width, rectified, warp, z0, pk);
      var cur := pk.start;
      var i := 0;
      while i < PacketSize
        invariant 0 <= i <= PacketSize && cur == pk.start + i
        invariant locations == before + target[..i]
      {
        assert OnTable(events, width, rectified, cur);
        var e := events[cur];
        locations := locations + [warp(pk.pose, z0, rectified[e.y * width + e.x])];
        assert target[i] == warp(pk.pose, z0, RectifiedAt(events, width, rectified, pk.start + i));
        assert target[..i + 1] == target[..i] + [target[i]];
        cur := cur + 1;
        i := i + 1;
      }
      assert target[..PacketSize] == target;
    }

    /** fillVoxelGrid: every depth plane, in turn, votes every location into its own slice. */
    method FillVoxelGrid(locs: seq<Vec2>, cs: seq<Vec3>)
      requires Valid() && |depths| > 0 && PacketSize * |cs| <= |locs|
      modifies dsi.data
      ensures dsi.data[..] == FillPlanes(old(dsi.data[..]), Sweep(dsi.sizeX, dsi.sizeY, depths[0], virtualCam, locs, cs), depths, |depths|)
    {
      var z0 := depths[0];
      var sw := Sweep(dsi.sizeX, dsi.sizeY, z0, virtualCam, locs, cs);
      ghost var cells := dsi.data[..];
      var plane := 0;
      while plane < |depths|
        invariant 0 <= plane <= |depths|
        invariant dsi.data[..] == FillPlanes(cells, sw, depths, plane)
      {
        SliceFits(sw.SliceSize(), plane, |depths|);
        VotePlane(sw, plane);
        plane := plane + 1;
      }
    }

    /** The packet loop of fillVoxelGrid for one depth plane, voting into that plane's slice. */
    method VotePlane(sw: Sweep, plane: nat)
      requires Valid() && sw.Covered() && sw.dimX == dsi.sizeX && sw.dimY == dsi.sizeY && plane < |depths|
      modifies dsi.data
      ensures plane * sw.SliceSize() + sw.SliceSize() <= dsi.data.Length
      ensures dsi.data[..] == VoteRange(old(dsi.data[..]), sw, plane * sw.SliceSize(), depths[plane], sw.Count())
    {
      var offset := dsi.GetPointerToSlice(plane);
      assert offset == plane * sw.SliceSize();
      ghost var cells := dsi.data[..];
      var packet := 0;
      while packet < |sw.centers|
        invariant 0 <= packet <= |sw.centers|
        invariant dsi.data[..] == VoteRange(cells, sw, offset, depths[plane], packet * PacketSize)
      {
        VotePacket(cells, sw, plane, offset, packet);
        packet := packet + 1;
      }
    }

    /**
     * The coefficients of packet `packet` for plane `plane` (from its camera centre), then its
     * batches of 128 locations.
     */
    method VotePacket(ghost cells: seq<real>, sw: Sweep, plane: nat, offset: nat, packet: nat)
      requires dsi.Valid() && sw.Covered() && sw.dimX == dsi.sizeX && sw.dimY == dsi.sizeY
      requires offset + sw.SliceSize() <= dsi.data.Length && |cells| == dsi.data.Length
      requires plane < |depths| && packet < |sw.centers|
      requires dsi.data[..] == VoteRange(cells, sw, offset, depths[plane], packet * PacketSize)
      modifies dsi.data
      ensures dsi.data[..] == VoteRange(cells, sw, offset, depths[plane], packet * PacketSize + PacketSize)
    {
      var zi := depths[plane];
      var t := TransferCoefficients(sw.z0, zi, sw.centers[packet], sw.cam);
      var pe := packet * PacketSize;
      var batch := 0;
      while batch < PacketSize / BatchSize
        invariant 0 <= batch <= PacketSize / BatchSize
        invariant pe == packet * PacketSize + batch * BatchSize
        invariant dsi.data[..] == VoteRange(cells, sw, offset, zi, pe)
      {
        forall j | pe <= j < pe + BatchSize
          ensures j < sw.Count() && TransferOf(sw, zi, j) == t
        {
          PacketOfLocation(packet, j, |sw.centers|);
        }
        VoteBatch(cells, sw, zi, offset, t, pe);
        batch := batch + 1;
        pe := pe + BatchSize;
      }
    }

    /** One batch: the 128 transfers with the packet's coefficients first, then one vote each. */
    method VoteBatch(ghost cells: seq<real>, sw: Sweep, zi: real, offset: nat, t: Transfer, pe: nat)
      requires dsi.Valid() && sw.Covered() && sw.dimX == dsi.sizeX && sw.dimY == dsi.sizeY
      requires offset + sw.SliceSize() <= dsi.data.Length && |cells| == dsi.data.Length
      requires pe + BatchSize <= sw.Count()
      requires forall j :: pe <= j < pe + BatchSize ==> TransferOf(sw, zi, j) == t
      requires dsi.data[..] == VoteRange(cells, sw, offset, zi, pe)
      modifies dsi.data
      ensures dsi.data[..] == VoteRange(cells, sw, offset, zi, pe + BatchSize)
    {
      var pts := seq(BatchSize, i requires 0 <= i < BatchSize => Transferred(t, sw.locs[pe + i]));
      var i := 0;
      while i < BatchSize
        invariant 0 <= i <= BatchSize
        invariant dsi.data[..] == VoteRange(cells, sw, offset, zi, pe + i)
      {
        VoteTransferred(cells, sw, zi, offset, t, pe + i, pts[i]);
        i := i + 1;
      }
    }

    /** The vote of location j, already transferred to p with the coefficients of its packet. */
    method VoteTransferred(ghost cells: seq<real>, sw: Sweep, zi: real, offset: nat, t: Transfer, j: nat, p: Option<Vec2>)
      requires dsi.Valid() && sw.Covered() && sw.dimX == dsi.sizeX && sw.dimY == dsi.sizeY
      requires offset + sw.SliceSize() <= dsi.data.Length && |cells| == dsi.data.Length
      requires j < sw.Count() && TransferOf(sw, zi, j) == t && p == Transferred(t, sw.locs[j])
      requires dsi.data[..] == VoteRange(cells, sw, offset, zi, j)
      modifies dsi.data
      ensures dsi.data[..] == VoteRange(cells, sw, offset, zi, j + 1)
    {
      if p.Some? {
        dsi.AccumulateGridValueAt(p.value.x, p.value.y, offset);
      }
    }

    /** removeMaskBoundary: clears, in place, every pixel of the border `borderSize` wide. */
    method RemoveMaskBoundary(mask: array2<uint8>, borderSize: int)
      modifies mask
      ensures forall y, x :: 0 <= y < mask.Length0 && 0 <= x < mask.Length1 ==>
        mask[y, x] == Trimmed(old(mask[y, x]), mask.Length0, mask.Length1, borderSize, y, x)
    {
      var y := 0;
      while y < mask.Length0
        invariant 0 <= y <= mask.Length0
        invariant forall y', x :: 0 <= y' < y && 0 <= x < mask.Length1 ==>
          mask[y', x] == Trimmed(old(mask[y', x]), mask.Length0, mask.Length1, borderSize, y', x)
        invariant forall y', x :: y <= y' < mask.Length0 && 0 <= x < mask.Length1 ==> mask[y', x] == old(mask[y', x])
      {
        TrimRow(mask, borderSize, y);
        y := y + 1;
      }
    }

    /** Row y of removeMaskBoundary; the other rows keep their values. */
    method TrimRow(mask: array2<uint8>, borderSize: int, y: nat)
      requires y < mask.Length0
      modifies mask
      ensures forall x :: 0 <= x < mask.Length1 ==>
        mask[y, x] == Trimmed(old(mask[y, x]), mask.Length0, mask.Length1, borderSize, y, x)
      ensures forall y', x :: 0 <= y' < mask.Length0 && y' != y && 0 <= x < mask.Length1 ==> mask[y', x] == old(mask[y', x])
    {
      var x := 0;
      while x < mask.Length1
        invariant 0 <= x <= mask.Length1
        invariant forall x' :: 0 <= x' < x ==>
          mask[y, x'] == Trimmed(old(mask[y, x']), mask.Length0, mask.Length1, borderSize, y, x')
        invariant forall x' :: x <= x' < mask.Length1 ==> mask[y, x'] == old(mask[y, x'])
        invariant forall y', x' :: 0 <= y' < mask.Length0 && y' != y && 0 <= x' < mask.Length1 ==> mask[y', x'] == old(mask[y', x'])
      {
        if x <= borderSize || x >= mask.Length1 - borderSize || y <= borderSize || y >= mask.Length0 - borderSize {
          mask[y, x] := 0;
        }
        x := x + 1;
      }
    }

    /**
     * convertDepthIndicesToValues: a new depth map of the same size holding, at each pixel, the
     * depth of the plane whose index the pixel holds (`cellIndexToDepth`, the depth vector's lookup).
     */
    method ConvertDepthIndicesToValues(indices: array2<uint8>, cellIndexToDepth: uint8 -> real) returns (depthMap: array2<real>)
      ensures fresh(depthMap)
      ensures depthMap.Length0 == indices.Length0 && depthMap.Length1 == indices.Length1
      ensures forall y, x :: 0 <= y < indices.Length0 && 0 <= x < indices.Length1 ==>
        depthMap[y, x] == cellIndexToDepth(indices[y, x])
    {
      depthMap := new real[indices.Length0, indices.Length1];
      var y := 0;
      while y < indices.Length0
        invariant 0 <= y <= indices.Length0
        invariant forall y', x :: 0 <= y' < y && 0 <= x < indices.Length1 ==> depthMap[y', x] == cellIndexToDepth(indices[y', x])
      {
        var x := 0;
        while x < indices.Length1
          invariant 0 <= x <= indices.Length1
          invariant forall y', x' :: 0 <= y' < y && 0 <= x' < indices.Length1 ==> depthMap[y', x'] == cellIndexToDepth(indices[y', x'])
          invariant forall x' :: 0 <= x' < x ==> depthMap[y, x'] == cellIndexToDepth(indices[y, x'])
        {
          depthMap[y, x] := cellIndexToDepth(indices[y, x]);
          x := x + 1;
        }
        y := y + 1;
      }
    }

    /**
     * getPointcloud: with a depth map and mask of different sizes the cloud `pc` is returned as it
     * was; otherwise it becomes the points of the masked pixels, row by row, passed through the
     * outlier filter `removeOutliers`.
     */
    method GetPointcloud(depthMap: array2<real>, mask: array2<uint8>, removeOutliers: seq<CloudPoint> -> seq<CloudPoint>,
                         pc: seq<CloudPoint>) returns (cloud: seq<CloudPoint>)
      ensures depthMap.Length0 != mask.Length0 || depthMap.Length1 != mask.Length1 ==> cloud == pc
      ensures depthMap.Length0 == mask.Length0 && depthMap.Length1 == mask.Length1 ==>
        cloud == removeOutliers(Cloud(depthMap, mask, virtualCam, depthMap.Length0))
    {
      if depthMap.Length0 != mask.Length0 || depthMap.Length1 != mask.Length1 {
        return pc;
      }
      var points: seq<CloudPoint> := [];
      var y := 0;
      while y < depthMap.Length0
        invariant 0 <= y <= depthMap.Length0
        invariant points == Cloud(depthMap, mask, virtualCam, y)
      {
        ghost var done := points;
        var x := 0;
        while x < depthMap.Length1
          invariant 0 <= x <= depthMap.Length1
          invariant points == done + CloudRow(depthMap, mask, virtualCam, y, x)
        {
          if mask[y, x] > 0 {
            points := points + [PointAt(virtualCam, x, y, depthMap[y, x])];
          }
          x := x + 1;
        }
        y := y + 1;
      }
      cloud := removeOutliers(points);
    }
  }

  /** Location j of a packet's 1024 belongs to that packet. */
  lemma PacketOfLocation(packet: nat, j: nat, packets: nat)
    requires packet < packets && packet * PacketSize <= j < packet * PacketSize + PacketSize
    ensures j / PacketSize == packet && j < PacketSize * packets
  {
    MulLe(PacketSize, packet + 1, packets);
  }

  /**
   * The virtual camera of the DSI: the DSI size (passed to an `int`), focal length f on both
   * axes and the principal point at the centre of the DSI.
   */
  function VirtualCamera(shape: ShapeDSI, f: real): (cam: Pinhole.PinholeCamera)
    ensures shape.dimX < 0x8000_0000 && shape.dimY < 0x8000_0000 ==> cam.width == shape.dimX && cam.height == shape.dimY
    ensures cam.fx == cam.fy == f
    ensures 2.0 * cam.cx == shape.dimX as real && 2.0 * cam.cy == shape.dimY as real
  {
    Pinhole.PinholeCamera(AsInt32(Wrap32(shape.dimX)), AsInt32(Wrap32(shape.dimY)), f, f,
                          0.5 * shape.dimX as real, 0.5 * shape.dimY as real)
  }
}
