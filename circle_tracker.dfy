/**
 * The Hough circle detector of dvsal::CircleTracker (CircleTracker.cpp): the ring membership test,
 * the bounds-checked vote into a camSizeX x camSizeY accumulator that keeps a running maximum,
 * the integer midpoint-circle rasteriser that votes symmetric pairs of pixels around an event, and
 * houghCircle, which votes every event of a packet into a fresh accumulator.
 *
 * The accumulator (u_int32_t** indexed [x][y]) is an array2<nat>; the references maxX, maxY and
 * maxValue are in/out parameters. Each method is proved against a function on an abstract state
 * `Hough` (the cells as a sequence of columns and the running peak), and the properties of the
 * detector are lemmas about those functions.
 */
module CircleTracking {
  import opened Base

  /** camSizeX_, camSizeY_ and circleRadius_ of the class, and the ring half-width of isEventInCircle. */
  const CamSizeX: int := 240
  const CamSizeY: int := 180
  const CircleRadius: int := 37
  const Thickness: int := 2

  /** posCircle: position, speed and acceleration of a tracked circle. */
  datatype PosCircle = PosCircle(x: real, y: real, u: real, v: real, a: real, b: real, timestamp: real)

  // ---------------------------------------------------------------------------------------------
  // Ring membership
  // ---------------------------------------------------------------------------------------------

  const RingMin: real := ((CircleRadius - Thickness) * (CircleRadius - Thickness)) as real
  const RingMax: real := ((CircleRadius + Thickness) * (CircleRadius + Thickness)) as real

  function Abs(r: real): real
  {
    if r < 0.0 then -r else r
  }

  lemma AbsSquare(r: real)
    ensures Abs(r) * Abs(r) == r * r
  {
  }

  /** Squared Euclidean distance between the event's pixel and the circle centre. */
  function SquaredDistance(e: Event, pos: PosCircle): real
  {
    var dx := e.x as real - pos.x;
    var dy := e.y as real - pos.y;
    dx * dx + dy * dy
  }

  /** An event lies on the ring of radius 37 +- 2 around the circle centre, both bounds inclusive. */
  function IsEventInCircle(e: Event, pos: PosCircle): (b: bool)
    ensures b <==> RingMin <= SquaredDistance(e, pos) <= RingMax
  {
    var xd := Abs(e.x as real - pos.x);
    var yd := Abs(e.y as real - pos.y);
    AbsSquare(e.x as real - pos.x);
    AbsSquare(e.y as real - pos.y);
    var distance := xd * xd + yd * yd;
    assert distance == SquaredDistance(e, pos);
    !(distance < RingMin || distance > RingMax)
  }

  /** Every event exactly on the circle of radius circleRadius_ is on the ring. */
  lemma OnCircleIsInRing(e: Event, pos: PosCircle)
    requires SquaredDistance(e, pos) == (CircleRadius * CircleRadius) as real
    ensures IsEventInCircle(e, pos)
  {
  }

  /** The ring does not reach the centre: an event at the centre is rejected. */
  lemma CentreIsNotInRing(e: Event, pos: PosCircle)
    requires e.x as real == pos.x && e.y as real == pos.y
    ensures !IsEventInCircle(e, pos)
  {
  }

  lemma SquareMonotone(a: real, b: real)
    requires 0.0 <= a < b
    ensures a * a < b * b
  {
    assert a * b - a * a == a * (b - a) && a * (b - a) >= 0.0;
    assert b * b - a * b == b * (b - a) && b * (b - a) > 0.0;
  }

  lemma SquareBound(d: real, b: real)
    requires 0.0 <= b && d * d <= b * b
    ensures -b <= d <= b
  {
    AbsSquare(d);
    if b < Abs(d) {
      SquareMonotone(b, Abs(d));
    }
  }

  /** An accepted event lies within 39 pixels of the centre along each axis. */
  lemma RingIsBounded(e: Event, pos: PosCircle)
    requires IsEventInCircle(e, pos)
    ensures -39.0 <= e.x as real - pos.x <= 39.0
    ensures -39.0 <= e.y as real - pos.y <= 39.0
  {
    var dx := e.x as real - pos.x;
    var dy := e.y as real - pos.y;
    assert dx * dx <= 39.0 * 39.0 && dy * dy <= 39.0 * 39.0;
    SquareBound(dx, 39.0);
    SquareBound(dy, 39.0);
  }

  // ---------------------------------------------------------------------------------------------
  // The accumulator and its running peak
  // ---------------------------------------------------------------------------------------------

  /** The running maximum: maxX, maxY and maxValue. */
  datatype Peak = Peak(x: uint32, y: uint32, value: nat)

  /** The accumulator's cells, cells[x][y], together with the running maximum. */
  datatype Hough = Hough(cells: seq<seq<nat>>, peak: Peak)

  predicate Shaped(cells: seq<seq<nat>>)
  {
    |cells| == CamSizeX && forall i :: 0 <= i < |cells| ==> |cells[i]| == CamSizeY
  }

  /** The all-zero accumulator houghCircle starts from. */
  function ZeroCells(): (z: seq<seq<nat>>)
    ensures Shaped(z)
    ensures forall i, j :: 0 <= i < CamSizeX && 0 <= j < CamSizeY ==> z[i][j] == 0
  {
    seq(CamSizeX, i => seq(CamSizeY, j => 0))
  }

  /**
   * Whether a vote at signed coordinates (x, y) lands: the coordinates are converted to the
   * unsigned parameters of increaseHoughPoint, so negative values wrap to large ones and fail the
   * upper bound check (the `< 0` half of the check can never hold for an unsigned value).
   */
  predicate Lands(x: int, y: int)
  {
    Wrap32(x) <= CamSizeX - 1 && Wrap32(y) <= CamSizeY - 1
  }

  /** For coordinates in the range of a C++ int, a vote lands exactly on the pixels of the sensor. */
  lemma LandsExactly(x: int, y: int)
    requires -0x8000_0000 <= x < 0x8000_0000 && -0x8000_0000 <= y < 0x8000_0000
    ensures Lands(x, y) <==> 0 <= x < CamSizeX && 0 <= y < CamSizeY
  {
    if x < 0 {
      assert Wrap32(x) == x + TwoTo32;
    }
    if y < 0 {
      assert Wrap32(y) == y + TwoTo32;
    }
  }

  /** A column of the accumulator with cell j increased by w. */
  function Bump(column: seq<nat>, j: nat, w: nat): seq<nat>
    requires j < |column|
  {
    column[j := column[j] + w]
  }

  /** One call of increaseHoughPoint on the abstract state; VoteEffect states what it does. */
  function Vote(h: Hough, x: int, y: int, w: nat): (r: Hough)
    requires Shaped(h.cells)
    ensures Shaped(r.cells)
  {
    var ux := Wrap32(x);
    var uy := Wrap32(y);
    if ux > CamSizeX - 1 || uy > CamSizeY - 1 then h
    else
      var v := h.cells[ux][uy] + w;
      var cells := h.cells[ux := Bump(h.cells[ux], uy, w)];
      if v >= h.peak.value then Hough(cells, Peak(ux, uy, v)) else Hough(cells, h.peak)
  }

  /**
   * A vote that does not land changes nothing; otherwise only cell [x][y] changes, growing by the
   * weight, and the peak moves to it when it reaches the current maximum (>=, so a later cell
   * that ties takes over) and stays put otherwise.
   */
  lemma VoteEffect(h: Hough, x: int, y: int, w: nat)
    requires Shaped(h.cells)
    ensures var r := Vote(h, x, y, w);
      (!Lands(x, y) ==> r == h) &&
      (Lands(x, y) ==> r.cells[Wrap32(x)][Wrap32(y)] == h.cells[Wrap32(x)][Wrap32(y)] + w) &&
      (forall i, j :: 0 <= i < CamSizeX && 0 <= j < CamSizeY && (i != Wrap32(x) || j != Wrap32(y)) ==>
         r.cells[i][j] == h.cells[i][j]) &&
      (Lands(x, y) && r.cells[Wrap32(x)][Wrap32(y)] >= h.peak.value ==>
         r.peak == Peak(Wrap32(x), Wrap32(y), r.cells[Wrap32(x)][Wrap32(y)])) &&
      (Lands(x, y) && r.cells[Wrap32(x)][Wrap32(y)] < h.peak.value ==> r.peak == h.peak)
  {
  }

  /** No cell of a column exceeds v. */
  predicate Bounded(column: seq<nat>, v: nat)
  {
    forall j :: 0 <= j < |column| ==> column[j] <= v
  }

  /** No cell exceeds the recorded maximum. */
  predicate Dominates(h: Hough)
  {
    Shaped(h.cells) && forall i :: 0 <= i < CamSizeX ==> Bounded(h.cells[i], h.peak.value)
  }

  /** The recorded position holds the recorded maximum. */
  predicate Pinned(h: Hough)
  {
    Shaped(h.cells) && h.peak.x < CamSizeX && h.peak.y < CamSizeY &&
    h.cells[h.peak.x][h.peak.y] == h.peak.value
  }

  /** maxValue is the largest cell: nothing exceeds it, and it is attained (or is 0, the least value). */
  predicate Tracked(h: Hough)
  {
    Dominates(h) && (h.peak.value == 0 || Pinned(h))
  }

  /** A tracked peak is the largest cell: it bounds every cell and some cell attains it. */
  lemma TrackedIsMaximum(h: Hough)
    requires Tracked(h)
    ensures forall i, j :: 0 <= i < CamSizeX && 0 <= j < CamSizeY ==> h.cells[i][j] <= h.peak.value
    ensures exists i, j :: 0 <= i < CamSizeX && 0 <= j < CamSizeY && h.cells[i][j] == h.peak.value
  {
    forall i, j | 0 <= i < CamSizeX && 0 <= j < CamSizeY
      ensures h.cells[i][j] <= h.peak.value
    {
      assert Bounded(h.cells[i], h.peak.value);
    }
    if h.peak.value == 0 {
      assert h.cells[0][0] == 0;
    } else {
      assert h.cells[h.peak.x][h.peak.y] == h.peak.value;
    }
  }

  /** The start of houghCircle (all zeros, maxValue 0) is tracked, whatever maxX and maxY hold. */
  lemma ZeroIsTracked(maxX: uint32, maxY: uint32)
    ensures Tracked(Hough(ZeroCells(), Peak(maxX, maxY, 0)))
  {
  }

  /** A vote keeps the peak tracked; a landing vote pins it, and a pinned peak stays pinned. */
  lemma VoteKeepsTracked(h: Hough, x: int, y: int, w: nat)
    requires Tracked(h)
    ensures Tracked(Vote(h, x, y, w))
    ensures Lands(x, y) ==> Pinned(Vote(h, x, y, w))
    ensures Pinned(h) ==> Pinned(Vote(h, x, y, w))
  {
    var r := Vote(h, x, y, w);
    VoteEffect(h, x, y, w);
    if Lands(x, y) {
      var ux, uy := Wrap32(x), Wrap32(y);
      if r.cells[ux][uy] < h.peak.value {
        assert r.peak == h.peak && h.peak.value > 0;
        assert h.peak.x != ux || h.peak.y != uy;
      }
      forall i | 0 <= i < CamSizeX
        ensures Bounded(r.cells[i], r.peak.value)
      {
        forall j | 0 <= j < CamSizeY
          ensures r.cells[i][j] <= r.peak.value
        {
          if i != ux || j != uy {
            assert r.cells[i][j] == h.cells[i][j];
            assert Bounded(h.cells[i], h.peak.value);
          }
        }
      }
    }
  }

  // ---------------------------------------------------------------------------------------------
  // The midpoint-circle rasteriser of accumulate
  // ---------------------------------------------------------------------------------------------

  /** aa = round(circleRadius_ * circleRadius_), bb = aa and twoC = 0: a circle drawn as an ellipse. */
  const AA: int := CircleRadius * CircleRadius
  const BB: int := AA
  const TwoC: int := 0
  const TwoAA: int := 2 * AA
  const TwoBB: int := 2 * BB
  /** round(sqrt(bb)): bb is the square of the radius, so the root is the radius itself. */
  const Y0: int := CircleRadius

  /** The integers x, y, dx, dy and ellipseError that accumulate steps through its loops. */
  datatype Raster = Raster(x: int, y: int, dx: int, dy: int, err: int)

  const Start: Raster := Raster(0, Y0, TwoAA * Y0 + TwoC * 0, -(TwoBB * 0 + TwoC * Y0), AA * (Y0 * Y0 - BB))

  /** The four moves of the loops, each with the incremental update of dx, dy and ellipseError. */
  function YUp(s: Raster): Raster
  {
    Raster(s.x, s.y + 1, s.dx + TwoAA, s.dy - TwoC, s.err + s.dx + AA)
  }

  function XUp(s: Raster): Raster
  {
    Raster(s.x + 1, s.y, s.dx + TwoC, s.dy - TwoBB, s.err - s.dy + BB)
  }

  function YDown(s: Raster): Raster
  {
    Raster(s.x, s.y - 1, s.dx - TwoAA, s.dy + TwoC, s.err - s.dx + AA)
  }

  function XDown(s: Raster): Raster
  {
    Raster(s.x - 1, s.y, s.dx - TwoC, s.dy + TwoBB, s.err + s.dy + BB)
  }

  /** The eight sectors, drawn one after the other. */
  type SectorId = k: int | 1 <= k <= 8 witness 1

  /** The condition of each sector's while loop. */
  predicate Guard(k: SectorId, s: Raster)
  {
    if k == 1 then s.dy > s.dx
    else if k == 2 then s.dy > 0
    else if k == 3 then s.dy > -s.dx
    else if k == 4 then s.dx > 0
    else if k == 5 then s.dy < s.dx && s.x > 0
    else if k == 6 then s.dy < 0 && s.x > 0
    else if k == 7 then s.dy < -s.dx && s.x > 0
    else s.dy > 0 && s.dx < 0 && s.x > 0
  }

  /** The move every iteration of sector k makes. */
  function MainMove(k: SectorId, s: Raster): Raster
  {
    if k == 1 || k == 8 then YUp(s)
    else if k == 2 || k == 3 then XUp(s)
    else if k == 4 || k == 5 then YDown(s)
    else XDown(s)
  }

  /** The test, on the state after the main move, for the second, diagonal move. */
  predicate Corrects(k: SectorId, m: Raster)
  {
    if k == 1 then 2 * m.err - m.dy + BB > 0
    else if k == 2 then 2 * m.err + m.dx + AA < 0
    else if k == 3 then 2 * m.err - m.dx + AA > 0
    else if k == 4 then 2 * m.err - m.dy + BB < 0
    else if k == 5 then 2 * m.err + m.dy + BB > 0
    else if k == 6 then 2 * m.err - m.dx + AA < 0
    else if k == 7 then 2 * m.err + m.dx + AA > 0
    else 2 * m.err + m.dy + BB < 0
  }

  /** The second move of sector k. */
  function Correction(k: SectorId, m: Raster): Raster
  {
    if k == 1 || k == 4 then XUp(m)
    else if k == 2 || k == 7 then YUp(m)
    else if k == 3 || k == 6 then YDown(m)
    else XDown(m)
  }

  /** One loop iteration after the two votes. */
  function Step(k: SectorId, s: Raster): Raster
  {
    var m := MainMove(k, s);
    if Corrects(k, m) then Correction(k, m) else m
  }

  /** What each sector's loop condition bounds from above; every iteration lowers it by at least 2*aa. */
  function Measure(k: SectorId, s: Raster): nat
  {
    var m :=
      if k == 1 then s.dy - s.dx
      else if k == 2 then s.dy
      else if k == 3 then s.dy + s.dx
      else if k == 4 then s.dx
      else if k == 5 then s.dx - s.dy
      else if k == 6 then -s.dy
      else if k == 7 then -s.dx - s.dy
      else -s.dx;
    if m > 0 then m else 0
  }

  /** Every loop of accumulate terminates. */
  lemma StepDecreases(k: SectorId, s: Raster)
    requires Guard(k, s)
    ensures Measure(k, Step(k, s)) < Measure(k, s)
  {
  }

  /** A pixel offset (x, y) from the event at which a pair of votes is cast. */
  datatype Offset = Offset(x: int, y: int)

  /** The offsets sector k visits from state s, in order. */
  function SectorTrace(k: SectorId, s: Raster): seq<Offset>
    decreases Measure(k, s)
  {
    if Guard(k, s) then
      StepDecreases(k, s);
      [Offset(s.x, s.y)] + SectorTrace(k, Step(k, s))
    else []
  }

  /** The state sector k leaves behind for the next one. */
  function SectorEnd(k: SectorId, s: Raster): Raster
    decreases Measure(k, s)
  {
    if Guard(k, s) then
      StepDecreases(k, s);
      SectorEnd(k, Step(k, s))
    else s
  }

  /** The offsets of sectors k..8, each sector starting where the previous one stopped. */
  function TraceFrom(k: int, s: Raster): seq<Offset>
    requires 1 <= k <= 9
    decreases 9 - k
  {
    if k == 9 then [] else SectorTrace(k, s) + TraceFrom(k + 1, SectorEnd(k, s))
  }

  /** Every offset accumulate votes at, for any event (the rasteriser does not depend on the event). */
  function CircleTrace(): seq<Offset>
  {
    TraceFrom(1, Start)
  }

  /** The pair of votes each iteration casts: (cx+x, cy+y) and its mirror image (cx-x, cy-y). */
  function VotePair(h: Hough, cx: int, cy: int, o: Offset, w: nat): (r: Hough)
    requires Shaped(h.cells)
    ensures Shaped(r.cells)
  {
    Vote(Vote(h, cx + o.x, cy + o.y, w), cx - o.x, cy - o.y, w)
  }

  /** The votes of a sequence of offsets around (cx, cy), in order. */
  function VoteTrace(h: Hough, cx: int, cy: int, offs: seq<Offset>, w: nat): (r: Hough)
    requires Shaped(h.cells)
    ensures Shaped(r.cells)
    decreases |offs|
  {
    if offs == [] then h else VoteTrace(VotePair(h, cx, cy, offs[0], w), cx, cy, offs[1..], w)
  }

  /** accumulate: the votes of the whole rasterised circle around the event pixel. */
  function AccumulateSpec(h: Hough, e: Event, w: nat): (r: Hough)
    requires Shaped(h.cells)
    ensures Shaped(r.cells)
  {
    VoteTrace(h, e.x, e.y, CircleTrace(), w)
  }

  lemma VoteTraceCons(h: Hough, cx: int, cy: int, o: Offset, rest: seq<Offset>, w: nat)
    requires Shaped(h.cells)
    ensures VoteTrace(h, cx, cy, [o] + rest, w) == VoteTrace(VotePair(h, cx, cy, o, w), cx, cy, rest, w)
  {
    assert ([o] + rest)[0] == o && ([o] + rest)[1..] == rest;
  }

  /** One loop iteration of sector k, in terms of the votes it casts. */
  lemma SectorTraceCons(h: Hough, cx: int, cy: int, k: SectorId, s: Raster, w: nat)
    requires Shaped(h.cells) && Guard(k, s)
    ensures VoteTrace(h, cx, cy, SectorTrace(k, s), w) ==
      VoteTrace(VotePair(h, cx, cy, Offset(s.x, s.y), w), cx, cy, SectorTrace(k, Step(k, s)), w)
    ensures SectorEnd(k, s) == SectorEnd(k, Step(k, s))
  {
    VoteTraceCons(h, cx, cy, Offset(s.x, s.y), SectorTrace(k, Step(k, s)), w);
  }

  lemma {:induction false} VoteTraceAppend(h: Hough, cx: int, cy: int, a: seq<Offset>, b: seq<Offset>, w: nat)
    requires Shaped(h.cells)
    ensures VoteTrace(h, cx, cy, a + b, w) == VoteTrace(VoteTrace(h, cx, cy, a, w), cx, cy, b, w)
    decreases |a|
  {
    if a != [] {
      assert (a + b)[0] == a[0] && (a + b)[1..] == a[1..] + b;
      VoteTraceAppend(VotePair(h, cx, cy, a[0], w), cx, cy, a[1..], b, w);
    } else {
      assert a + b == b;
    }
  }

  /** The votes of sectors k..8, sector by sector, as the source casts them. */
  function VoteFrom(k: int, s: Raster, h: Hough, cx: int, cy: int, w: nat): (r: Hough)
    requires 1 <= k <= 9 && Shaped(h.cells)
    ensures Shaped(r.cells)
    decreases 9 - k
  {
    if k == 9 then h else VoteFrom(k + 1, SectorEnd(k, s), VoteTrace(h, cx, cy, SectorTrace(k, s), w), cx, cy, w)
  }

  /** Voting sector by sector is voting the concatenated trace of the sectors. */
  lemma {:induction false} VoteFromIsVoteTrace(k: int, s: Raster, h: Hough, cx: int, cy: int, w: nat)
    requires 1 <= k <= 9 && Shaped(h.cells)
    ensures VoteFrom(k, s, h, cx, cy, w) == VoteTrace(h, cx, cy, TraceFrom(k, s), w)
    decreases 9 - k
  {
    if k < 9 {
      VoteFromIsVoteTrace(k + 1, SectorEnd(k, s), VoteTrace(h, cx, cy, SectorTrace(k, s), w), cx, cy, w);
      VoteFromStep(k, s, h, cx, cy, w);
    }
  }

  lemma VoteFromStep(k: SectorId, s: Raster, h: Hough, cx: int, cy: int, w: nat)
    requires Shaped(h.cells)
    requires var h1 := VoteTrace(h, cx, cy, SectorTrace(k, s), w);
      VoteFrom(k + 1, SectorEnd(k, s), h1, cx, cy, w) == VoteTrace(h1, cx, cy, TraceFrom(k + 1, SectorEnd(k, s)), w)
    ensures VoteFrom(k, s, h, cx, cy, w) == VoteTrace(h, cx, cy, TraceFrom(k, s), w)
  {
    TraceFromUnfold(k, s);
    VoteFromUnfold(k, s, h, cx, cy, w);
    VoteTraceAppend(h, cx, cy, SectorTrace(k, s), TraceFrom(k + 1, SectorEnd(k, s)), w);
  }

  lemma TraceFromUnfold(k: SectorId, s: Raster)
    ensures TraceFrom(k, s) == SectorTrace(k, s) + TraceFrom(k + 1, SectorEnd(k, s))
  {
  }

  lemma VoteFromUnfold(k: SectorId, s: Raster, h: Hough, cx: int, cy: int, w: nat)
    requires Shaped(h.cells)
    ensures VoteFrom(k, s, h, cx, cy, w) == VoteFrom(k + 1, SectorEnd(k, s), VoteTrace(h, cx, cy, SectorTrace(k, s), w), cx, cy, w)
  {
  }

  // ---------------------------------------------------------------------------------------------
  // Properties of the rasteriser and of accumulate
  // ---------------------------------------------------------------------------------------------

  /**
   * The incremental quantities the loops carry: dx and dy are the two partial derivatives and
   * ellipseError is the exact residual bb*x^2 + aa*y^2 - aa*bb of the current point.
   */
  predicate Consistent(s: Raster)
  {
    s.dx == TwoAA * s.y + TwoC * s.x &&
    s.dy == -(TwoBB * s.x + TwoC * s.y) &&
    s.err == BB * s.x * s.x + AA * s.y * s.y - AA * BB
  }

  lemma StartIsConsistent()
    ensures Consistent(Start)
  {
  }

  lemma SquareSteps(v: int)
    ensures (v + 1) * (v + 1) == v * v + 2 * v + 1
    ensures (v - 1) * (v - 1) == v * v - 2 * v + 1
  {
  }

  lemma MovesKeepConsistent(s: Raster)
    requires Consistent(s)
    ensures Consistent(YUp(s)) && Consistent(XUp(s)) && Consistent(YDown(s)) && Consistent(XDown(s))
  {
    SquareSteps(s.x);
    SquareSteps(s.y);
    assert AA * (s.y + 1) * (s.y + 1) == AA * s.y * s.y + 2 * AA * s.y + AA;
    assert AA * (s.y - 1) * (s.y - 1) == AA * s.y * s.y - 2 * AA * s.y + AA;
    assert BB * (s.x + 1) * (s.x + 1) == BB * s.x * s.x + 2 * BB * s.x + BB;
    assert BB * (s.x - 1) * (s.x - 1) == BB * s.x * s.x - 2 * BB * s.x + BB;
  }

  /** Every loop iteration keeps dx, dy and ellipseError exact for the point it moves to. */
  lemma StepKeepsConsistent(k: SectorId, s: Raster)
    requires Consistent(s)
    ensures Consistent(Step(k, s))
  {
    MovesKeepConsistent(s);
    MovesKeepConsistent(MainMove(k, s));
  }

  /** Through a whole sector the error term stays the exact residual of the current point. */
  lemma {:induction false} SectorKeepsConsistent(k: SectorId, s: Raster)
    requires Consistent(s)
    ensures Consistent(SectorEnd(k, s))
    decreases Measure(k, s)
  {
    if Guard(k, s) {
      StepDecreases(k, s);
      StepKeepsConsistent(k, s);
      SectorKeepsConsistent(k, Step(k, s));
    }
  }

  /** In sectors 5 to 8 a step, guarded by x > 0, lowers x by at most 1, so x stays >= 0. */
  lemma LowerSectorStepKeepsX(k: SectorId, s: Raster)
    requires 5 <= k && Guard(k, s)
    ensures s.x - 1 <= Step(k, s).x <= s.x && Step(k, s).x >= 0
  {
  }

  /**
   * From a state with x >= 0 every sector votes only at offsets with x >= 0 (x > 0 in sectors 5
   * to 8) and leaves x >= 0 behind.
   */
  lemma {:induction false} SectorKeepsXNonNegative(k: SectorId, s: Raster)
    requires s.x >= 0
    ensures SectorEnd(k, s).x >= 0
    ensures forall o :: o in SectorTrace(k, s) ==> o.x >= 0
    ensures 5 <= k ==> forall o :: o in SectorTrace(k, s) ==> o.x > 0
    decreases Measure(k, s)
  {
    if Guard(k, s) {
      StepDecreases(k, s);
      assert Step(k, s).x >= 0 by {
        if 5 <= k {
          LowerSectorStepKeepsX(k, s);
        }
      }
      SectorKeepsXNonNegative(k, Step(k, s));
      assert SectorTrace(k, s) == [Offset(s.x, s.y)] + SectorTrace(k, Step(k, s));
    }
  }

  lemma {:induction false} TraceFromKeepsXNonNegative(k: int, s: Raster)
    requires 1 <= k <= 9 && s.x >= 0
    ensures forall o :: o in TraceFrom(k, s) ==> o.x >= 0
    decreases 9 - k
  {
    if k < 9 {
      SectorKeepsXNonNegative(k, s);
      TraceFromKeepsXNonNegative(k + 1, SectorEnd(k, s));
    }
  }

  /** Every offset of the circle has x >= 0: the mirror vote (cx-x, cy-y) covers the left half. */
  lemma CircleOffsetsHaveNonNegativeX()
    ensures forall o :: o in CircleTrace() ==> o.x >= 0
  {
    TraceFromKeepsXNonNegative(1, Start);
  }

  /** A cell that no offset of the trace points at, directly or mirrored, around (cx, cy). */
  predicate Untouched(cx: int, cy: int, offs: seq<Offset>, i: int, j: int)
  {
    forall o :: o in offs ==>
      (i != Wrap32(cx + o.x) || j != Wrap32(cy + o.y)) && (i != Wrap32(cx - o.x) || j != Wrap32(cy - o.y))
  }

  /** A pair of votes changes only the two mirrored cells. */
  lemma VotePairTouchesOnlyPair(h: Hough, cx: int, cy: int, o: Offset, w: nat, i: int, j: int)
    requires Shaped(h.cells) && 0 <= i < CamSizeX && 0 <= j < CamSizeY
    requires (i != Wrap32(cx + o.x) || j != Wrap32(cy + o.y)) && (i != Wrap32(cx - o.x) || j != Wrap32(cy - o.y))
    ensures VotePair(h, cx, cy, o, w).cells[i][j] == h.cells[i][j]
  {
    var h1 := Vote(h, cx + o.x, cy + o.y, w);
    VoteEffect(h, cx + o.x, cy + o.y, w);
    VoteEffect(h1, cx - o.x, cy - o.y, w);
  }

  /** A sequence of vote pairs changes only cells that some pair points at. */
  lemma {:induction false} VoteTraceTouchesOnlyTrace(h: Hough, cx: int, cy: int, offs: seq<Offset>, w: nat, i: int, j: int)
    requires Shaped(h.cells) && 0 <= i < CamSizeX && 0 <= j < CamSizeY
    requires Untouched(cx, cy, offs, i, j)
    ensures VoteTrace(h, cx, cy, offs, w).cells[i][j] == h.cells[i][j]
    decreases |offs|
  {
    if offs != [] {
      assert offs[0] in offs;
      VotePairTouchesOnlyPair(h, cx, cy, offs[0], w, i, j);
      assert forall o :: o in offs[1..] ==> o in offs;
      VoteTraceTouchesOnlyTrace(VotePair(h, cx, cy, offs[0], w), cx, cy, offs[1..], w, i, j);
    }
  }

  /** accumulate changes only the cells of the rasterised circle and its mirror image around the event. */
  lemma AccumulateTouchesOnlyCircle(h: Hough, e: Event, w: nat, i: int, j: int)
    requires Shaped(h.cells) && 0 <= i < CamSizeX && 0 <= j < CamSizeY
    requires Untouched(e.x, e.y, CircleTrace(), i, j)
    ensures AccumulateSpec(h, e, w).cells[i][j] == h.cells[i][j]
  {
    VoteTraceTouchesOnlyTrace(h, e.x, e.y, CircleTrace(), w, i, j);
  }

  /** Some vote of the trace around (cx, cy) lands in the accumulator. */
  predicate SomeLands(cx: int, cy: int, offs: seq<Offset>)
  {
    exists o :: o in offs && (Lands(cx + o.x, cy + o.y) || Lands(cx - o.x, cy - o.y))
  }

  lemma VotePairKeepsTracked(h: Hough, cx: int, cy: int, o: Offset, w: nat)
    requires Tracked(h)
    ensures Tracked(VotePair(h, cx, cy, o, w))
    ensures Pinned(h) ==> Pinned(VotePair(h, cx, cy, o, w))
  {
    var h1 := Vote(h, cx + o.x, cy + o.y, w);
    VoteKeepsTracked(h, cx + o.x, cy + o.y, w);
    VoteKeepsTracked(h1, cx - o.x, cy - o.y, w);
    assert VotePair(h, cx, cy, o, w) == Vote(h1, cx - o.x, cy - o.y, w);
  }

  /** A pair of votes one of which lands leaves the peak pinned. */
  lemma VotePairPins(h: Hough, cx: int, cy: int, o: Offset, w: nat)
    requires Tracked(h) && (Lands(cx + o.x, cy + o.y) || Lands(cx - o.x, cy - o.y))
    ensures Pinned(VotePair(h, cx, cy, o, w))
  {
    var h1 := Vote(h, cx + o.x, cy + o.y, w);
    VoteKeepsTracked(h, cx + o.x, cy + o.y, w);
    VoteKeepsTracked(h1, cx - o.x, cy - o.y, w);
    assert VotePair(h, cx, cy, o, w) == Vote(h1, cx - o.x, cy - o.y, w);
  }

  /** A pair of votes neither of which lands changes nothing. */
  lemma VotePairMisses(h: Hough, cx: int, cy: int, o: Offset, w: nat)
    requires Shaped(h.cells)
    requires !Lands(cx + o.x, cy + o.y) && !Lands(cx - o.x, cy - o.y)
    ensures VotePair(h, cx, cy, o, w) == h
  {
    VoteEffect(h, cx + o.x, cy + o.y, w);
    VoteEffect(h, cx - o.x, cy - o.y, w);
  }

  /** Votes keep maxValue the largest cell, and a pinned peak stays pinned. */
  lemma {:induction false} VoteTraceKeepsTracked(h: Hough, cx: int, cy: int, offs: seq<Offset>, w: nat)
    requires Tracked(h)
    ensures Tracked(VoteTrace(h, cx, cy, offs, w))
    ensures Pinned(h) ==> Pinned(VoteTrace(h, cx, cy, offs, w))
    decreases |offs|
  {
    if offs != [] {
      VotePairKeepsTracked(h, cx, cy, offs[0], w);
      VoteTraceKeepsTracked(VotePair(h, cx, cy, offs[0], w), cx, cy, offs[1..], w);
    }
  }

  /** Once one of the votes lands, the recorded position holds maxValue. */
  lemma {:induction false} VoteTracePins(h: Hough, cx: int, cy: int, offs: seq<Offset>, w: nat)
    requires Tracked(h) && SomeLands(cx, cy, offs)
    ensures Pinned(VoteTrace(h, cx, cy, offs, w))
    decreases |offs|
  {
    var o := offs[0];
    var h1 := VotePair(h, cx, cy, o, w);
    VotePairKeepsTracked(h, cx, cy, o, w);
    if Lands(cx + o.x, cy + o.y) || Lands(cx - o.x, cy - o.y) {
      VotePairPins(h, cx, cy, o, w);
      VoteTraceKeepsTracked(h1, cx, cy, offs[1..], w);
    } else {
      var p :| p in offs && (Lands(cx + p.x, cy + p.y) || Lands(cx - p.x, cy - p.y));
      assert p in offs[1..];
      VoteTracePins(h1, cx, cy, offs[1..], w);
    }
  }

  /** If none of the votes lands, nothing changes at all, maxX and maxY included. */
  lemma {:induction false} VoteTraceMisses(h: Hough, cx: int, cy: int, offs: seq<Offset>, w: nat)
    requires Shaped(h.cells) && !SomeLands(cx, cy, offs)
    ensures VoteTrace(h, cx, cy, offs, w) == h
    decreases |offs|
  {
    if offs != [] {
      var o := offs[0];
      assert o in offs;
      VotePairMisses(h, cx, cy, o, w);
      assert forall p :: p in offs[1..] ==> p in offs;
      VoteTraceMisses(h, cx, cy, offs[1..], w);
    }
  }

  // ---------------------------------------------------------------------------------------------
  // houghCircle
  // ---------------------------------------------------------------------------------------------

  /** The accumulator after voting each event in turn with weight 1. */
  function HoughFold(h: Hough, events: seq<Event>): (r: Hough)
    requires Shaped(h.cells)
    ensures Shaped(r.cells)
    decreases |events|
  {
    if events == [] then h else HoughFold(AccumulateSpec(h, events[0], 1), events[1..])
  }

  /** houghCircle: a zeroed accumulator, maxValue 0 and the caller's maxX and maxY, then every event. */
  function HoughCircleSpec(events: seq<Event>, maxX: uint32, maxY: uint32): Hough
  {
    HoughFold(Hough(ZeroCells(), Peak(maxX, maxY, 0)), events)
  }

  /** Some vote of some event lands. */
  predicate AnyEventLands(events: seq<Event>)
  {
    exists k :: 0 <= k < |events| && SomeLands(events[k].x, events[k].y, CircleTrace())
  }

  lemma {:induction false} HoughFoldKeepsTracked(h: Hough, events: seq<Event>)
    requires Tracked(h)
    ensures Tracked(HoughFold(h, events))
    ensures Pinned(h) ==> Pinned(HoughFold(h, events))
    decreases |events|
  {
    if events != [] {
      VoteTraceKeepsTracked(h, events[0].x, events[0].y, CircleTrace(), 1);
      HoughFoldKeepsTracked(AccumulateSpec(h, events[0], 1), events[1..]);
    }
  }

  lemma {:induction false} HoughFoldPins(h: Hough, events: seq<Event>)
    requires Tracked(h) && AnyEventLands(events)
    ensures Pinned(HoughFold(h, events))
    decreases |events|
  {
    var e := events[0];
    var h1 := AccumulateSpec(h, e, 1);
    VoteTraceKeepsTracked(h, e.x, e.y, CircleTrace(), 1);
    if SomeLands(e.x, e.y, CircleTrace()) {
      VoteTracePins(h, e.x, e.y, CircleTrace(), 1);
      HoughFoldKeepsTracked(h1, events[1..]);
    } else {
      var k :| 0 <= k < |events| && SomeLands(events[k].x, events[k].y, CircleTrace());
      assert k != 0;
      assert events[1..][k - 1] == events[k];
      HoughFoldPins(h1, events[1..]);
    }
  }

  lemma {:induction false} HoughFoldMisses(h: Hough, events: seq<Event>)
    requires Shaped(h.cells) && !AnyEventLands(events)
    ensures HoughFold(h, events) == h
    decreases |events|
  {
    if events != [] {
      assert !SomeLands(events[0].x, events[0].y, CircleTrace());
      VoteTraceMisses(h, events[0].x, events[0].y, CircleTrace(), 1);
      forall k | 0 <= k < |events[1..]|
        ensures !SomeLands(events[1..][k].x, events[1..][k].y, CircleTrace())
      {
        assert events[1..][k] == events[k + 1];
      }
      HoughFoldMisses(h, events[1..]);
    }
  }

  /**
   * After houghCircle maxValue is the largest cell; once any vote has landed, cell [maxX][maxY]
   * holds it; and when no vote lands, maxX and maxY keep the caller's values.
   */
  lemma HoughCircleFindsMaximum(events: seq<Event>, maxX: uint32, maxY: uint32)
    ensures var r := HoughCircleSpec(events, maxX, maxY);
      Tracked(r) && (AnyEventLands(events) ==> Pinned(r)) &&
      (!AnyEventLands(events) ==> r.peak == Peak(maxX, maxY, 0))
  {
    var h := Hough(ZeroCells(), Peak(maxX, maxY, 0));
    ZeroIsTracked(maxX, maxY);
    HoughFoldKeepsTracked(h, events);
    if AnyEventLands(events) {
      HoughFoldPins(h, events);
    } else {
      HoughFoldMisses(h, events);
    }
  }

  // ---------------------------------------------------------------------------------------------
  // The imperative methods
  // ---------------------------------------------------------------------------------------------

  /** The array and the three references hold the abstract state h. */
  ghost predicate Represents(acc: array2<nat>, h: Hough, maxX: uint32, maxY: uint32, maxValue: nat)
    reads acc
  {
    acc.Length0 == CamSizeX && acc.Length1 == CamSizeY && Shaped(h.cells) &&
    h.peak == Peak(maxX, maxY, maxValue) &&
    forall i, j :: 0 <= i < CamSizeX && 0 <= j < CamSizeY ==> acc[i, j] == h.cells[i][j]
  }

  /** increaseHoughPoint, called with the signed coordinates accumulate passes to it. */
  method IncreaseHoughPoint(x: int, y: int, weight: nat, maxX: uint32, maxY: uint32, maxValue: nat,
                            acc: array2<nat>, ghost h: Hough)
    returns (maxX': uint32, maxY': uint32, maxValue': nat)
    requires Represents(acc, h, maxX, maxY, maxValue)
    modifies acc
    ensures Represents(acc, Vote(h, x, y, weight), maxX', maxY', maxValue')
  {
    maxX', maxY', maxValue' := maxX, maxY, maxValue;
    VoteEffect(h, x, y, weight);
    var ux := Wrap32(x);
    var uy := Wrap32(y);
    if ux > CamSizeX - 1 || uy > CamSizeY - 1 {
      return;
    }
    acc[ux, uy] := acc[ux, uy] + weight;
    if acc[ux, uy] >= maxValue {
      maxValue' := acc[ux, uy];
      maxX' := ux;
      maxY' := uy;
    }
  }

  /** The two calls of increaseHoughPoint at the top of every loop iteration. */
  method IncreaseHoughPair(cx: int, cy: int, x: int, y: int, weight: nat,
                           maxX: uint32, maxY: uint32, maxValue: nat, acc: array2<nat>, ghost h: Hough)
    returns (maxX': uint32, maxY': uint32, maxValue': nat)
    requires Represents(acc, h, maxX, maxY, maxValue)
    modifies acc
    ensures Represents(acc, VotePair(h, cx, cy, Offset(x, y), weight), maxX', maxY', maxValue')
  {
    maxX', maxY', maxValue' := IncreaseHoughPoint(cx + x, cy + y, weight, maxX, maxY, maxValue, acc, h);
    maxX', maxY', maxValue' := IncreaseHoughPoint(cx - x, cy - y, weight, maxX', maxY', maxValue', acc, Vote(h, cx + x, cy + y, weight));
  }

  /** One sector's while loop: a pair of votes, the main move and, when its test holds, the second move. */
  method DrawSector(k: SectorId, s: Raster, cx: int, cy: int, weight: nat,
                    maxX: uint32, maxY: uint32, maxValue: nat, acc: array2<nat>, ghost h: Hough)
    returns (s': Raster, maxX': uint32, maxY': uint32, maxValue': nat)
    requires Represents(acc, h, maxX, maxY, maxValue)
    modifies acc
    ensures s' == SectorEnd(k, s)
    ensures Represents(acc, VoteTrace(h, cx, cy, SectorTrace(k, s), weight), maxX', maxY', maxValue')
  {
    s', maxX', maxY', maxValue' := s, maxX, maxY, maxValue;
    ghost var hc := h;
    while Guard(k, s')
      invariant Represents(acc, hc, maxX', maxY', maxValue')
      invariant SectorEnd(k, s') == SectorEnd(k, s)
      invariant VoteTrace(hc, cx, cy, SectorTrace(k, s'), weight) == VoteTrace(h, cx, cy, SectorTrace(k, s), weight)
      decreases Measure(k, s')
    {
      StepDecreases(k, s');
      SectorTraceCons(hc, cx, cy, k, s', weight);
      maxX', maxY', maxValue' := IncreaseHoughPair(cx, cy, s'.x, s'.y, weight, maxX', maxY', maxValue', acc, hc);
      hc := VotePair(hc, cx, cy, Offset(s'.x, s'.y), weight);
      var m := MainMove(k, s');
      if Corrects(k, m) {
        s' := Correction(k, m);
      } else {
        s' := m;
      }
    }
  }

  /** The eight sector loops, run one after another from state s. */
  method DrawSectors(s: Raster, cx: int, cy: int, weight: nat,
                     maxX: uint32, maxY: uint32, maxValue: nat, acc: array2<nat>, ghost h: Hough)
    returns (maxX': uint32, maxY': uint32, maxValue': nat)
    requires Represents(acc, h, maxX, maxY, maxValue)
    modifies acc
    ensures Represents(acc, VoteTrace(h, cx, cy, TraceFrom(1, s), weight), maxX', maxY', maxValue')
  {
    var cur := s;
    maxX', maxY', maxValue' := maxX, maxY, maxValue;
    ghost var hc := h;
    var k := 1;
    while k <= 8
      invariant 1 <= k <= 9
      invariant Represents(acc, hc, maxX', maxY', maxValue')
      invariant VoteFrom(k, cur, hc, cx, cy, weight) == VoteFrom(1, s, h, cx, cy, weight)
    {
      ghost var hNext := VoteTrace(hc, cx, cy, SectorTrace(k, cur), weight);
      cur, maxX', maxY', maxValue' := DrawSector(k, cur, cx, cy, weight, maxX', maxY', maxValue', acc, hc);
      hc := hNext;
      k := k + 1;
    }
    VoteFromIsVoteTrace(1, s, h, cx, cy, weight);
  }

  /** accumulate: the rasterised circle of radius 37 around the event pixel, from its top (0, 37). */
  method Accumulate(e: Event, weight: nat, maxX: uint32, maxY: uint32, maxValue: nat,
                    acc: array2<nat>, ghost h: Hough)
    returns (maxX': uint32, maxY': uint32, maxValue': nat)
    requires Represents(acc, h, maxX, maxY, maxValue)
    modifies acc
    ensures Represents(acc, AccumulateSpec(h, e, weight), maxX', maxY', maxValue')
  {
    var centerX := e.x;
    var centerY := e.y;
    maxX', maxY', maxValue' := DrawSectors(Start, centerX, centerY, weight, maxX, maxY, maxValue, acc, h);
  }

  /** houghCircle (without the hough.csv dump): returns the final maxX and maxY. */
  method HoughCircle(events: seq<Event>, maxX: uint32, maxY: uint32) returns (maxX': uint32, maxY': uint32)
    ensures maxX' == HoughCircleSpec(events, maxX, maxY).peak.x
    ensures maxY' == HoughCircleSpec(events, maxX, maxY).peak.y
  {
    var maxValue: nat := 0;
    var acc := new nat[CamSizeX, CamSizeY]((i, j) => 0);
    maxX', maxY' := maxX, maxY;
    ghost var h := Hough(ZeroCells(), Peak(maxX, maxY, 0));
    for i := 0 to |events|
      invariant Represents(acc, h, maxX', maxY', maxValue)
      invariant HoughFold(h, events[i..]) == HoughCircleSpec(events, maxX, maxY)
    {
      assert events[i..][0] == events[i] && events[i..][1..] == events[i + 1..];
      maxX', maxY', maxValue := Accumulate(events[i], 1, maxX', maxY', maxValue, acc, h);
      h := AccumulateSpec(h, events[i], 1);
    }
  }
}
