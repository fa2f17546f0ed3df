# dvsal core in Dafny

This project models the core of dvsal, a library for event cameras (dynamic vision sensors),
and proves properties of the model. It covers:

- **EMVS mapper** (`MapperEMVS`, module `Mapper`): event-based multi-view stereo.
  - `evaluateDSI` cuts the event stream into packets of 1024 events. Each packet gets the
    trajectory pose at its middle event, and its events are warped onto the reference plane Z = z0.
  - `fillVoxelGrid` transfers every warped location to each depth plane Z = zi. There it casts a
    bilinear vote into that plane's slice of the disparity space image (DSI).
  - Also modelled: the DSI set-up, the rectification table, the mask border rule, the
    index-to-depth conversion and the point-cloud extraction.
- **Voxel grid** (`Grid3D`, module `Grid`): a flat buffer with voxel (x, y, z) at
  x + dimX·(y + dimY·z). It supports allocation, reset, bilinear voting inside one slice, the
  max-over-depth collapse and the mean square.
- **Trajectory** (`LinearTrajectory`, module `Trajectories`): the pose lookup over a time-ordered
  map of control poses, and its accessors.
- **Pinhole cameras** (`dvsal::PinholeCamera` in module `Pinhole`; `geometry_utils::PinholeCamera`
  in module `GeometryUtils`): K, K⁻¹, projection and back-projection.
- **Circle tracker** (`CircleTracker`, module `CircleTracking`):
  - the ring membership test;
  - the bounds-checked Hough accumulator with a running maximum;
  - the eight-sector integer midpoint-circle rasteriser that votes in symmetric pairs;
  - `houghCircle`.
- **AEDAT 4.0 reader** (`AEDAT4Streamer`, module `Aedat4`):
  - the version-line check;
  - the data-table size;
  - the lowest and highest timestamps over the file data table;
  - the empty-table return of `loadFileDataTable`;
  - the packet iteration of `step`.

Two choices run through the whole model:

- **Numbers.** Floats are reals. Unsigned and signed C++ integers are written out where they
  wrap: `Wrap32` for `unsigned int`, modulo 2^64 for `size_t`, and an `int64` subset type.
- **Outside calls.** What the source computes with Eigen, OpenCV, PCL, flatbuffers or file I/O
  becomes a function parameter, or an input of the operation that uses it. This covers the
  homography warp, a pose's camera centre, lens rectification, the depth vector, the tan-based
  focal length, outlier removal, and the unpacked IOHeader, data table and packets.

State the source changes in place is a class or an array:

- `Grid3D`, `MapperEMVS` and `Streamer` are classes.
- The accumulator is an `array2<nat>`. The grid buffer and the masks are arrays.

Each method is proved against a specification function. The properties are proved about those
functions.

## Model

| member | source | states |
|---|---|---|
| Grid.IndexPastDepth | include/dvsal/processors/mapping/Cartesian3DGrid.h:47-50 | a voxel at or past the last depth plane has a flat index at or past dimX·dimY·dimZ |
| Grid.IndexInRange | include/dvsal/processors/mapping/Cartesian3DGrid.h:41-50 | every voxel inside the dimensions has a flat index x + dimX·(y + dimY·z) below dimX·dimY·dimZ |
| Grid.IndexInjective | include/dvsal/processors/mapping/Cartesian3DGrid.h:41-50 | distinct voxels have distinct flat indices |
| Grid.SliceBound | include/dvsal/processors/mapping/Cartesian3DGrid.h:72-75 | slice `layer` starts at layer·dimX·dimY and ends inside the buffer |
| Grid.SliceOffsetFits | include/dvsal/processors/mapping/Cartesian3DGrid.h:72-75 | in a grid of fewer than 2^32 cells, no slice offset wraps around in `unsigned int` |
| Grid.VoteWeights | include/dvsal/processors/mapping/Cartesian3DGrid.h:97-105 | each of the four bilinear weights lies in [0, 1], and together they sum to 1 |
| Grid.Accepted | include/dvsal/processors/mapping/Cartesian3DGrid.h:90-94 | a vote is kept iff x_f ≥ 0, y_f ≥ 0, ⌊x_f⌋ + 1 < dimX and ⌊y_f⌋ + 1 < dimY (a definition: the effect is given by `VoteRejected` and `VoteFourCells`) |
| Grid.BilinearWeights | include/dvsal/processors/mapping/Cartesian3DGrid.h:97-100 | the four weights, one per corner cell (proved in [0, 1] and summing to 1 by `VoteWeights`) |
| Grid.Vote | include/dvsal/processors/mapping/Cartesian3DGrid.h:88-108 | the buffer after one bilinear vote, of unchanged length; its effect is stated by `VoteRejected`, `VoteFourCells`, `VoteStaysInSlice` and `VoteMass` |
| Grid.Corner | include/dvsal/processors/mapping/Cartesian3DGrid.h:92-96 | for an accepted vote, the far corner of the 2×2 neighbourhood stays inside the slice |
| Grid.VoteRejected | include/dvsal/processors/mapping/Cartesian3DGrid.h:90-94 | a negative coordinate, or a neighbourhood past the last column or row, leaves the whole buffer unchanged |
| Grid.VoteFourCells | include/dvsal/processors/mapping/Cartesian3DGrid.h:92-105 | an accepted vote adds its weights to exactly cells (x,y), (x+1,y), (x,y+1) and (x+1,y+1) of the slice; every other cell keeps its value |
| Grid.VoteStaysInSlice | include/dvsal/processors/mapping/Cartesian3DGrid.h:96-105 | a vote never changes a cell outside [grid, grid + dimX·dimY) |
| Grid.VoteMass | include/dvsal/processors/mapping/Cartesian3DGrid.h:90-105 | total grid mass rises by exactly 1 for an accepted vote and by 0 otherwise |
| Grid.FirstArgMax | src/processors/mapping/Cartesian3DGrid.cpp:96 | the position is maximal, and every earlier element is strictly smaller (std::max_element's first maximum) |
| Grid.CollapsedAt | src/processors/mapping/Cartesian3DGrid.cpp:92-98 | a pixel's outputs are the value and the index, modulo 256, of the first maximum of its depth column (a definition; `CollapsedIndexExact` states what it means) |
| Grid.CollapsedIndexExact | src/processors/mapping/Cartesian3DGrid.cpp:83-98 | with at most 256 planes, the stored max is the maximum over depth, and the 8-bit index is the first plane that attains it |
| Grid.CollapseOfZeroGrid | src/processors/mapping/Cartesian3DGrid.cpp:92-98 | on an all-zero grid, every pixel collapses to value 0 at index 0 |
| Grid.MaxElement | src/processors/mapping/Cartesian3DGrid.cpp:96-98 | the scan returns the first maximal position (0 for an empty range) |
| Grid.SumSquares | src/processors/mapping/Cartesian3DGrid.cpp:106-111 | a sum of squares is never negative |
| Grid.Grid3D.Empty | src/processors/mapping/Cartesian3DGrid.cpp:27-30 | the default grid has zero sizes and an empty buffer, and is consistent |
| Grid.Grid3D.constructor | src/processors/mapping/Cartesian3DGrid.cpp:33-37 | the sizes as given, numCells = 32-bit product, a zeroed buffer of that length; consistent when the product fits |
| Grid.Grid3D.Allocate | src/processors/mapping/Cartesian3DGrid.cpp:40-48 | the sizes are stored, numCells is their 32-bit product, and the buffer has that length with every cell 0 |
| Grid.Grid3D.Deallocate | src/processors/mapping/Cartesian3DGrid.cpp:57-61 | all three sizes become 0 and the buffer is empty; numCells keeps its value |
| Grid.Grid3D.ResetGrid | src/processors/mapping/Cartesian3DGrid.cpp:70-73 | every cell becomes 0; the length and the sizes are unchanged |
| Grid.Grid3D.GetGridValueAt | include/dvsal/processors/mapping/Cartesian3DGrid.h:47-50 | None (the throwing `.at`) iff the 32-bit wrapped flat index is at or past the end of the buffer, and otherwise the cell at that index, which for out-of-range x or y is some other voxel's cell; an in-range voxel of a consistent grid reads its own cell, and a depth at or past dimZ without wrap-around is None |
| Grid.Grid3D.GetDimensions | include/dvsal/processors/mapping/Cartesian3DGrid.h:65-70 | the three stored sizes, unchanged when they fit an `int` |
| Grid.Grid3D.GetPointerToSlice | include/dvsal/processors/mapping/Cartesian3DGrid.h:72-75 | for a slice of a consistent grid, the offset layer·dimX·dimY, with the slice inside the buffer |
| Grid.Grid3D.AccumulateGridValueAt | include/dvsal/processors/mapping/Cartesian3DGrid.h:88-108 | the buffer becomes the bilinear vote `Vote` of the old buffer; sizes unchanged |
| Grid.Grid3D.AddToNeighbourhood | include/dvsal/processors/mapping/Cartesian3DGrid.h:102-105 | the four weights are added to cells g, g+1, g+dimX and g+dimX+1; every other cell is unchanged (`Deposit`) |
| Grid.Grid3D.ReadColumn | src/processors/mapping/Cartesian3DGrid.cpp:92-93 | the buffer receives the grid values at (u, v) for every depth k, in depth order |
| Grid.Grid3D.CollapseRow | src/processors/mapping/Cartesian3DGrid.cpp:88-99 | every pixel of row v gets the max over depth and its first index; the other rows are unchanged |
| Grid.Grid3D.CollapseMaxZSlice | src/processors/mapping/Cartesian3DGrid.cpp:76-101 | both outputs are dimY×dimX, and each pixel holds the max over depth and its first index (8 bits) |
| Grid.Grid3D.ComputeMeanSquare | src/processors/mapping/Cartesian3DGrid.cpp:104-114 | the mean square of the first numCells cells, which is ≥ 0; NaN when numCells = 0; the `.at` exception when numCells exceeds the buffer |
| Trajectories.UpperBound | include/dvsal/processors/mapping/Trajectory.h:105 | the first position whose time is strictly later than t; every earlier time is ≤ t |
| Trajectories.LinearTrajectory.GetPoseAt | include/dvsal/processors/mapping/Trajectory.h:98-140 | fails iff the map is empty, t precedes the first control time or t is at or after the last; on success there are consecutive control poses k, k+1 with time_k ≤ t < time_{k+1}, and the result is T_k⁻¹·T_{k+1} |
| Trajectories.LinearTrajectory.FirstControlPose | include/dvsal/processors/mapping/Trajectory.h:49-53 | a control pose of the map whose time is the smallest |
| Trajectories.LinearTrajectory.LastControlPose | include/dvsal/processors/mapping/Trajectory.h:55-59 | a control pose of the map whose time is the largest |
| Trajectories.LinearTrajectory.NumControlPoses | include/dvsal/processors/mapping/Trajectory.h:61-64 | the number of distinct control times in the map |
| Trajectories.LinearTrajectory.GetPoseAtDefined | include/dvsal/processors/mapping/Trajectory.h:104-127 | the lookup succeeds iff there are ≥ 2 poses and first time ≤ t < last time (both directions) |
| Trajectories.LinearTrajectory.GetPoseAtBracket | include/dvsal/processors/mapping/Trajectory.h:120-138 | when poses k and k+1 bracket t, the result is T_k⁻¹·T_{k+1} |
| Trajectories.LinearTrajectory.GetPoseAtPiecewiseConstant | include/dvsal/processors/mapping/Trajectory.h:129-138 | two times in the same bracket give the same transform; delta_t plays no part |
| Trajectories.LinearTrajectory.GetPoseAtLastTimeFails | include/dvsal/processors/mapping/Trajectory.h:113-119 | at exactly the last control time, the lookup already fails |
| Trajectories.LinearTrajectory.GetPoseAtTooFewPoses | include/dvsal/processors/mapping/Trajectory.h:94-119 | with one control pose every lookup fails; with none the model also returns a failure, where the source is undefined (see Left out) |
| Pinhole.PinholeCamera.KInverse | include/dvsal/processors/mapping/PinholeCamera.h:45-51 | K⁻¹ exists iff fx, fy ≠ 0, and it is a two-sided inverse of K = [[fx,0,cx],[0,fy,cy],[0,0,1]] |
| Pinhole.PinholeCamera.K | include/dvsal/processors/mapping/PinholeCamera.h:45-47 | K = [[fx, 0, cx], [0, fy, cy], [0, 0, 1]] (a definition; `KInverse` and `ProjectionIsK` state its properties) |
| Pinhole.PinholeCamera.ProjectValue | include/dvsal/processors/mapping/PinholeCamera.h:54-57 | off the plane Z = 0, the pixel is (fx·X/Z + cx, fy·Y/Z + cy) |
| Pinhole.PinholeCamera.Project3dToPixel | include/dvsal/processors/mapping/PinholeCamera.h:54-57 | defined exactly off the plane Z = 0 |
| Pinhole.PinholeCamera.ProjectPixelTo3dRay | include/dvsal/processors/mapping/PinholeCamera.h:59-61 | defined iff fx, fy ≠ 0; the third coordinate is always 1 |
| Pinhole.PinholeCamera.RayValue | include/dvsal/processors/mapping/PinholeCamera.h:59-61 | for non-zero focal lengths the ray is ((u−cx)/fx, (v−cy)/fy, 1) |
| Pinhole.PinholeCamera.ProjectionCollinear | include/dvsal/processors/mapping/PinholeCamera.h:54-57 | the pixel satisfies (u−cx)·Z = fx·X and (v−cy)·Z = fy·Y |
| Pinhole.PinholeCamera.PrincipalPointRay | include/dvsal/processors/mapping/PinholeCamera.h:59-61 | the principal point (cx, cy) back-projects to (0, 0, 1) |
| Pinhole.PinholeCamera.PixelRoundTrip | include/dvsal/processors/mapping/PinholeCamera.h:54-61 | project3dToPixel(projectPixelTo3dRay(u)) = u when fx, fy ≠ 0 |
| Pinhole.PinholeCamera.RayOfProjection | include/dvsal/processors/mapping/PinholeCamera.h:54-61 | projectPixelTo3dRay(project3dToPixel(P)) = P / P.z when P.z ≠ 0 |
| Pinhole.PinholeCamera.ProjectionScaleInvariant | include/dvsal/processors/mapping/PinholeCamera.h:54-57 | project3dToPixel(s·P) = project3dToPixel(P) for s ≠ 0 |
| Pinhole.PinholeCamera.ProjectionIsK | include/dvsal/processors/mapping/PinholeCamera.h:45-57 | projection is K·P divided by its third coordinate |
| Pinhole.PinholeCamera.RayIsKInverse | include/dvsal/processors/mapping/PinholeCamera.h:51-61 | back-projection is K⁻¹·(u, v, 1) |
| GeometryUtils.PinholeCamera.Project3dToPixel | include/dvsal/processors/mapping/geometry_utils.hpp:60-63 | defined iff P.z ≠ 0, and then the keypoint lies on the line through the principal point in P's direction |
| GeometryUtils.PinholeCamera.ProjectPixelTo3dRay | include/dvsal/processors/mapping/geometry_utils.hpp:65-67 | defined iff fx, fy ≠ 0; third component 1; K maps it back to u |
| GeometryUtils.PinholeCamera.KInverse | include/dvsal/processors/mapping/geometry_utils.hpp:57 | K⁻¹ exists iff both focal lengths are non-zero |
| GeometryUtils.PinholeCamera.K | include/dvsal/processors/mapping/geometry_utils.hpp:53-55 | K = [[fx, 0, cx], [0, fy, cy], [0, 0, 1]] (a definition; `SameMatrices` shows it is dvsal::PinholeCamera's K) |
| GeometryUtils.PinholeCamera.SameMatrices | include/dvsal/processors/mapping/geometry_utils.hpp:47-58 | this class builds the same K and K⁻¹ as dvsal::PinholeCamera from the same six parameters |
| GeometryUtils.PinholeCamera.SameProjection | include/dvsal/processors/mapping/geometry_utils.hpp:60-63 | this class projects every point as dvsal::PinholeCamera does |
| GeometryUtils.PinholeCamera.SameRay | include/dvsal/processors/mapping/geometry_utils.hpp:65-67 | this class back-projects every keypoint as dvsal::PinholeCamera does |
| GeometryUtils.PinholeCamera.KInverseIsInverse | include/dvsal/processors/mapping/geometry_utils.hpp:53-57 | this class's K⁻¹ is a two-sided inverse of its K |
| GeometryUtils.PinholeCamera.KeypointRoundTrip | include/dvsal/processors/mapping/geometry_utils.hpp:60-67 | a keypoint survives back-projection then projection when fx, fy ≠ 0 |
| GeometryUtils.PinholeCamera.ProjectionScaleInvariant | include/dvsal/processors/mapping/geometry_utils.hpp:60-63 | projection is invariant under scaling the point by s ≠ 0 |
| GeometryUtils.PinholeCamera.PrincipalPointBearing | include/dvsal/processors/mapping/geometry_utils.hpp:65-67 | (cx, cy) has bearing vector (0, 0, 1) |
| GeometryUtils.PinholeCamera.ProjectionIsK | include/dvsal/processors/mapping/geometry_utils.hpp:53-63 | a keypoint is K·P divided by its third coordinate |
| Mapper.Packets | src/processors/mapping/MapperEMVS.cpp:64-76 | every accepted packet starts at or after the cursor, and it and the event after it lie inside the events |
| Mapper.FrameTime | src/processors/mapping/MapperEMVS.cpp:68 | the packet time in seconds: time · 10⁶ equals the event's microsecond timestamp |
| Mapper.PoseLookup | src/processors/mapping/MapperEMVS.cpp:72-76 | the trajectory's lookup as a function of time; it succeeds at t iff there are ≥ 2 control poses and first time ≤ t < last time |
| Mapper.MidpointPose | src/processors/mapping/MapperEMVS.cpp:68-78 | defined iff the lookup succeeds at the middle event's time, and then T_rv_w composed with the looked-up T_w_ev |
| Mapper.PacketsSkip | src/processors/mapping/MapperEMVS.cpp:72-76 | a packet whose midpoint has no pose moves the cursor by exactly one event |
| Mapper.PacketsCons | src/processors/mapping/MapperEMVS.cpp:78-119 | a packet with a pose is taken whole, and the schedule resumes 1024 events later |
| Mapper.PacketsDisjoint | src/processors/mapping/MapperEMVS.cpp:64-119 | accepted packets never overlap and come in event order |
| Mapper.PacketsPosed | src/processors/mapping/MapperEMVS.cpp:68-78 | each packet carries T_rv_w·T_w_ev at the time of its own middle event |
| Mapper.NoPacketWithoutSpareEvent | src/processors/mapping/MapperEMVS.cpp:64 | with at most 1024 events (exactly 1024 included), no packet is taken |
| Mapper.PacketsBackToBack | src/processors/mapping/MapperEMVS.cpp:64-119 | when every midpoint has a pose, packet i starts at cur + 1024·i |
| Mapper.Locations | src/processors/mapping/MapperEMVS.cpp:106-119 | the location list holds exactly 1024 entries per packet |
| Mapper.Centers | src/processors/mapping/MapperEMVS.cpp:80-85 | one camera centre per packet, centre p being that of packet p's pose |
| Mapper.CollectedLocationsArePackets | src/processors/mapping/MapperEMVS.cpp:55-119 | the cursor loop appends exactly the warped locations of the packet schedule |
| Mapper.CollectedCentersArePackets | src/processors/mapping/MapperEMVS.cpp:59-85 | the cursor loop appends exactly the centres of the packet schedule |
| Mapper.LocationOfPacket | src/processors/mapping/MapperEMVS.cpp:85-162 | location j is event j % 1024 of packet j / 1024, warped with the pose whose centre is at position j / 1024 |
| Mapper.Transferred | src/processors/mapping/MapperEMVS.cpp:171-172 | defined iff d ≠ 0, and then X·d = x·a + bx and Y·d = y·a + by |
| Mapper.TransferCoefficients | src/processors/mapping/MapperEMVS.cpp:154-159 | a, bx, by and d from z0, zi, the camera centre and the virtual camera; d ≠ 0 iff zi ≠ 0 and the centre is off the plane Z = z0 |
| Mapper.TransferIsRayIntersection | src/processors/mapping/MapperEMVS.cpp:153-172 | with a, bx, by, d as the source computes them, the transferred pixel is the virtual camera's image of the point where the ray from the centre through the z0-point meets Z = zi |
| Mapper.SweepPointDepth | src/processors/mapping/MapperEMVS.cpp:155-159 | that intersection point lies on the plane Z = zi |
| Mapper.VoteRangeStaysInSlice | src/processors/mapping/MapperEMVS.cpp:148-179 | a plane's voting never changes a cell outside its own slice |
| Mapper.VoteRangeSliceLocal | src/processors/mapping/MapperEMVS.cpp:148-179 | what a plane leaves in its slice depends only on that slice's previous contents |
| Mapper.FillPlanesUntouched | src/processors/mapping/MapperEMVS.cpp:146-181 | slices of planes not yet swept are untouched |
| Mapper.FillPlanesAt | src/processors/mapping/MapperEMVS.cpp:145-181 | after planes 0..m−1, slice i holds what plane i alone writes into the initial buffer, so the planes are independent (the OpenMP safety argument) |
| Mapper.Zeros | src/processors/mapping/MapperEMVS.cpp:122-123 | n cells, all zero |
| Mapper.TableLookup | src/processors/mapping/MapperEMVS.cpp:217-230 | column y·width + x of the table holds the rectified pixel (x, y) |
| Mapper.RectifiedEvent | src/processors/mapping/MapperEMVS.cpp:111 | an event inside the sensor has its pixel index on the table, and looks up the rectified version of its own pixel |
| Mapper.BorderSize | src/processors/mapping/MapperEMVS.cpp:293 | max(kernel / 2, 1) with C++ division: at least 1, and ⌊kernel/2⌋ for kernels ≥ 4 |
| Mapper.Trimmed | src/processors/mapping/MapperEMVS.cpp:253-257 | a pixel is kept iff it is off the border (or already 0); otherwise it becomes 0 |
| Mapper.TrimmedIdempotent | src/processors/mapping/MapperEMVS.cpp:247-260 | removing the boundary twice is the same as removing it once |
| Mapper.OuterPixelsCleared | src/processors/mapping/MapperEMVS.cpp:247-294 | whatever the kernel size, the two outermost rows and columns are on the border |
| Mapper.PointAt | src/processors/mapping/MapperEMVS.cpp:319-327 | the point has Z equal to the depth and intensity 1/Z; undefined coordinates iff a focal length is 0 |
| Mapper.PointOnPixelRay | src/processors/mapping/MapperEMVS.cpp:319-326 | a cloud point with non-zero depth projects back onto its own pixel |
| Mapper.CloudRowSize | src/processors/mapping/MapperEMVS.cpp:315-329 | a row yields one point per masked pixel |
| Mapper.CloudRowMembers | src/processors/mapping/MapperEMVS.cpp:315-329 | a row's points are exactly the points of its masked pixels (both directions) |
| Mapper.VirtualCamera | src/processors/mapping/MapperEMVS.cpp:209-211 | the virtual camera has the DSI size, focal length f on both axes, and its principal point at the DSI centre |
| Mapper.MapperEMVS.constructor | src/processors/mapping/MapperEMVS.cpp:28-41 | width and height truncated from the parameters; K laid out from fx, fy, cx, cy; then the state setupDSI and precomputeRectifiedPoints leave |
| Mapper.MapperEMVS.SetupDSI | src/processors/mapping/MapperEMVS.cpp:185-214 | dimX = 0 / dimY = 0 become the sensor width/height; the virtual camera is centred on the DSI; a zeroed grid of the DSI size |
| Mapper.MapperEMVS.PrecomputeRectifiedPoints | src/processors/mapping/MapperEMVS.cpp:217-230 | the table becomes the rectification of every sensor pixel in row-major order |
| Mapper.MapperEMVS.EvaluateDSI | src/processors/mapping/MapperEMVS.cpp:44-126 | for events whose taken packets lie on the sensor table, fails iff fewer than 1024 events, and then leaves lists and grid untouched; otherwise the lists are those of the packet schedule and the grid is the plane voting over a zeroed buffer |
| Mapper.MapperEMVS.CollectPackets | src/processors/mapping/MapperEMVS.cpp:55-120 | when only the events of the taken packets must lie on the table: from cleared lists, the locations and centres of every packet the schedule takes, in order |
| Mapper.MapperEMVS.StepCursor | src/processors/mapping/MapperEMVS.cpp:64-120 | one turn of the loop moves the cursor forward, keeps the lists on the schedule, and keeps every packet still to be taken on the table |
| Mapper.RectifiableRest | src/processors/mapping/MapperEMVS.cpp:64-120 | when every packet the schedule takes from a cursor is on the table, the packet taken there is, and so is every packet the schedule takes after moving the cursor on (by 1 past an unposed packet, by 1024 past a posed one) |
| Mapper.MapperEMVS.PacketPose | src/processors/mapping/MapperEMVS.cpp:68-78 | the loop's pose computation returns exactly `MidpointPose` at the cursor |
| Mapper.MapperEMVS.TakePacket | src/processors/mapping/MapperEMVS.cpp:78-119 | taking a posed packet appends its centre and warped locations, and moves the schedule 1024 events on, whose packets stay on the table |
| Mapper.MapperEMVS.WarpPacket | src/processors/mapping/MapperEMVS.cpp:106-119 | for a packet whose own 1024 events are on the table, appends their warped rectified pixels |
| Mapper.MapperEMVS.FillVoxelGrid | src/processors/mapping/MapperEMVS.cpp:129-182 | the grid becomes FillPlanes of the old grid: every plane votes every location into its own slice |
| Mapper.MapperEMVS.VotePlane | src/processors/mapping/MapperEMVS.cpp:148-180 | one plane's packets vote, in order, into exactly that plane's slice |
| Mapper.MapperEMVS.VotePacket | src/processors/mapping/MapperEMVS.cpp:151-180 | packet p votes its 1024 locations with the coefficients of centre p |
| Mapper.MapperEMVS.VoteBatch | src/processors/mapping/MapperEMVS.cpp:162-179 | a batch of 128 locations, transferred with the packet's coefficients, then voted in order |
| Mapper.MapperEMVS.VoteTransferred | src/processors/mapping/MapperEMVS.cpp:171-177 | one transferred location is voted into the plane's slice, extending the plane's vote range by one |
| Mapper.MapperEMVS.RemoveMaskBoundary | src/processors/mapping/MapperEMVS.cpp:247-260 | exactly the pixels with x ≤ b, x ≥ cols−b, y ≤ b or y ≥ rows−b become 0; the rest keep their values |
| Mapper.MapperEMVS.TrimRow | src/processors/mapping/MapperEMVS.cpp:251-258 | one row of the mask is trimmed by the border rule; every other row is unchanged |
| Mapper.MapperEMVS.ConvertDepthIndicesToValues | src/processors/mapping/MapperEMVS.cpp:233-244 | a new map of the same size whose every pixel is the depth of the plane index it held |
| Mapper.MapperEMVS.GetPointcloud | src/processors/mapping/MapperEMVS.cpp:301-342 | with mismatched sizes the cloud is returned untouched; otherwise it is the masked pixels' points, row by row, passed through the outlier filter |
| CircleTracking.IsEventInCircle | src/processors/tracking/CircleTracker.cpp:30-40 | true iff (r−2)² ≤ squared distance ≤ (r+2)², inclusive at both ends, with r = 37 |
| CircleTracking.OnCircleIsInRing | src/processors/tracking/CircleTracker.cpp:30-40 | an event at distance exactly r is in the ring |
| CircleTracking.CentreIsNotInRing | src/processors/tracking/CircleTracker.cpp:30-40 | the centre itself is never in the ring |
| CircleTracking.RingIsBounded | src/processors/tracking/CircleTracker.cpp:30-40 | an event in the ring lies within 39 pixels of the centre on each axis |
| CircleTracking.ZeroCells | src/processors/tracking/CircleTracker.cpp:226-234 | a 240×180 accumulator with every cell 0 |
| CircleTracking.LandsExactly | src/processors/tracking/CircleTracker.cpp:42-45 | for int coordinates converted to u_int32, a vote lands iff 0 ≤ x < 240 and 0 ≤ y < 180; negative ones wrap and are dropped |
| CircleTracking.Vote | src/processors/tracking/CircleTracker.cpp:42-57 | the accumulator state after one increaseHoughPoint, of unchanged shape; its effect is stated by `VoteEffect` and `VoteKeepsTracked` |
| CircleTracking.VoteEffect | src/processors/tracking/CircleTracker.cpp:42-57 | a vote that does not land changes nothing; otherwise only cell [x][y] grows by the weight, and the peak moves there iff the new value is ≥ the old maximum (ties go to the later cell) |
| CircleTracking.TrackedIsMaximum | src/processors/tracking/CircleTracker.cpp:50-55 | in a tracked accumulator, maxValue bounds every cell and is attained by some cell |
| CircleTracking.ZeroIsTracked | src/processors/tracking/CircleTracker.cpp:224-234 | the zeroed accumulator with maxValue 0 has a correct running maximum, whatever maxX and maxY hold |
| CircleTracking.VoteKeepsTracked | src/processors/tracking/CircleTracker.cpp:42-57 | a vote keeps maxValue the largest cell; after a landing vote accumulator[maxX][maxY] = maxValue, and that stays true |
| CircleTracking.StepDecreases | src/processors/tracking/CircleTracker.cpp:81-220 | each turn of any sector loop decreases that sector's measure, so the eight loops terminate |
| CircleTracking.Step | src/processors/tracking/CircleTracker.cpp:81-220 | one loop turn: the sector's main move, then its correction when the sector's error test holds (a definition; `StepKeepsConsistent` and `StepDecreases` state its properties) |
| CircleTracking.VoteTraceAppend | src/processors/tracking/CircleTracker.cpp:81-220 | voting two runs of offsets one after the other is voting their concatenation |
| CircleTracking.VoteFromIsVoteTrace | src/processors/tracking/CircleTracker.cpp:81-220 | running sectors k..8 one after the other votes the concatenated trace |
| CircleTracking.StartIsConsistent | src/processors/tracking/CircleTracker.cpp:64-76 | the initial x, y, dx, dy and ellipseError satisfy the midpoint-ellipse identities |
| CircleTracking.StepKeepsConsistent | src/processors/tracking/CircleTracker.cpp:81-220 | every main move and correction keeps dx = 2aa·y, dy = −2bb·x and err = bb·x² + aa·y² − aa·bb |
| CircleTracking.SectorKeepsConsistent | src/processors/tracking/CircleTracker.cpp:81-220 | each whole sector keeps those identities |
| CircleTracking.LowerSectorStepKeepsX | src/processors/tracking/CircleTracker.cpp:153-220 | in sectors 5–8, one turn lowers x by at most 1 and never below 0 |
| CircleTracking.SectorKeepsXNonNegative | src/processors/tracking/CircleTracker.cpp:81-220 | x stays ≥ 0 through a sector, and every pair voted in sectors 5–8 has x > 0 |
| CircleTracking.TraceFromKeepsXNonNegative | src/processors/tracking/CircleTracker.cpp:81-220 | from x ≥ 0, every offset voted by the remaining sectors has x ≥ 0 |
| CircleTracking.CircleOffsetsHaveNonNegativeX | src/processors/tracking/CircleTracker.cpp:70-220 | every offset voted for one event has x ≥ 0 |
| CircleTracking.VotePairTouchesOnlyPair | src/processors/tracking/CircleTracker.cpp:82-83 | a pair vote changes only the cells (cx+x, cy+y) and (cx−x, cy−y) |
| CircleTracking.VoteTraceTouchesOnlyTrace | src/processors/tracking/CircleTracker.cpp:81-220 | voting a trace changes no cell outside the symmetric pairs of its offsets |
| CircleTracking.AccumulateTouchesOnlyCircle | src/processors/tracking/CircleTracker.cpp:60-221 | accumulate changes no cell outside the symmetric pairs of its trace |
| CircleTracking.VotePairKeepsTracked | src/processors/tracking/CircleTracker.cpp:82-83 | a pair vote keeps the running maximum correct, and keeps the peak cell pinned |
| CircleTracking.VotePairPins | src/processors/tracking/CircleTracker.cpp:82-83 | once a cell of the pair lands, accumulator[maxX][maxY] = maxValue |
| CircleTracking.VotePairMisses | src/processors/tracking/CircleTracker.cpp:42-83 | a pair of which neither cell lands leaves the state (cells and peak) unchanged |
| CircleTracking.VoteTraceKeepsTracked | src/processors/tracking/CircleTracker.cpp:60-221 | voting any trace keeps the running maximum correct |
| CircleTracking.VoteTracePins | src/processors/tracking/CircleTracker.cpp:60-221 | once some vote of the trace lands, accumulator[maxX][maxY] = maxValue |
| CircleTracking.VoteTraceMisses | src/processors/tracking/CircleTracker.cpp:60-221 | a trace none of whose votes land changes nothing |
| CircleTracking.HoughFoldKeepsTracked | src/processors/tracking/CircleTracker.cpp:235-237 | accumulating any event sequence keeps the running maximum correct |
| CircleTracking.HoughFoldPins | src/processors/tracking/CircleTracker.cpp:235-237 | once any event's vote lands, the peak cell holds the maximum |
| CircleTracking.HoughFoldMisses | src/processors/tracking/CircleTracker.cpp:235-237 | events none of whose votes land leave everything unchanged |
| CircleTracking.HoughCircleFindsMaximum | src/processors/tracking/CircleTracker.cpp:223-237 | from zero cells and maxValue 0, maxValue is the largest cell; if a vote lands, (maxX, maxY) is a cell holding it; otherwise maxX, maxY keep the caller's values |
| CircleTracking.IncreaseHoughPoint | src/processors/tracking/CircleTracker.cpp:42-57 | the array, maxX, maxY and maxValue become the state of `Vote` |
| CircleTracking.IncreaseHoughPair | src/processors/tracking/CircleTracker.cpp:82-83 | the two calls vote (cx+x, cy+y) then (cx−x, cy−y), as `VotePair` |
| CircleTracking.DrawSector | src/processors/tracking/CircleTracker.cpp:81-94 | one sector loop leaves the raster state at SectorEnd and the accumulator as the votes of its trace |
| CircleTracking.DrawSectors | src/processors/tracking/CircleTracker.cpp:81-220 | the eight sector loops in turn vote the whole trace from the start state |
| CircleTracking.Accumulate | src/processors/tracking/CircleTracker.cpp:60-221 | the accumulator and maxima become AccumulateSpec: the symmetric-pair votes of the circle trace around the event |
| CircleTracking.HoughCircle | src/processors/tracking/CircleTracker.cpp:223-237 | returns the maxX, maxY of HoughCircleSpec: zeroed 240×180 cells, each event voted once with weight 1 |
| Aedat4.VersionLine | src/streamers/AEDAT4Streamer.cpp:75 | the 14 bytes are the ASCII codes of "#!AER-DAT4.0\r\n" |
| Aedat4.CheckVersion | src/streamers/AEDAT4Streamer.cpp:70-79 | accepted iff the file has ≥ 14 bytes and each of the first 14 equals the version line's |
| Aedat4.VersionLineAccepted | src/streamers/AEDAT4Streamer.cpp:75-79 | any file that starts with the version line passes, whatever follows |
| Aedat4.OlderVersionRejected | src/streamers/AEDAT4Streamer.cpp:75-79 | a file starting with the AEDAT 3.1 version line fails |
| Aedat4.ShortFileRejected | src/streamers/AEDAT4Streamer.cpp:70-79 | a file shorter than the version line is refused |
| Aedat4.DataTableSize | src/streamers/AEDAT4Streamer.cpp:122-123 | 0 for a negative position; otherwise position + size = fileSize, or 2^64 − (position − fileSize) when the position is past the end of the file (size_t wrap) |
| Aedat4.DataTableEndsAtEndOfFile | src/streamers/AEDAT4Streamer.cpp:122-123 | a table at a non-negative position ends at the end of the file, modulo 2^64 |
| Aedat4.WithTimestamps | src/streamers/AEDAT4Streamer.cpp:134-136 | exactly the entries whose TimestampStart ≠ −1 |
| Aedat4.RangeFold | src/streamers/AEDAT4Streamer.cpp:132-146 | the loop over the entries from given start values (a definition; `RangeFoldExtremes` and `RangeFoldIgnoresUntimed` state what it computes) |
| Aedat4.TimestampRange | src/streamers/AEDAT4Streamer.cpp:128-154 | the range parseHeader stores: (0, INT64_MAX) for an empty table, else the loop from (INT64_MAX, 0) (its meaning is `TimestampRangeMeaning`) |
| Aedat4.RangeFoldExtremes | src/streamers/AEDAT4Streamer.cpp:132-146 | the loop ends with the minimum of the start value and every TimestampStart, and the maximum of the start value and every TimestampEnd, over the timed entries; each extreme is attained |
| Aedat4.RangeFoldIgnoresUntimed | src/streamers/AEDAT4Streamer.cpp:134-136 | an entry with TimestampStart = −1 is ignored entirely, its TimestampEnd included |
| Aedat4.TimestampRangeMeaning | src/streamers/AEDAT4Streamer.cpp:128-154 | empty table: (0, INT64_MAX); no timed entry: (INT64_MAX, 0); otherwise the least TimestampStart (attained) and the greatest TimestampEnd, but at least 0 |
| Aedat4.ComputeTimestampRange | src/streamers/AEDAT4Streamer.cpp:128-154 | the loop over the table computes TimestampRange |
| Aedat4.LoadFileDataTable | src/streamers/AEDAT4Streamer.cpp:181-186 | a negative position gives an empty table without reading; otherwise the table read |
| Aedat4.ParseHeader | src/streamers/AEDAT4Streamer.cpp:68-160 | fails with NoVersionLine on a bad version line, then on an invalid IOHeader or data table; on success, fileSize, dataTableSize, the table, its timestamp range, timeDifference = highest − lowest and timeShift = lowest |
| Aedat4.NoDataTableCoversAllTime | src/streamers/AEDAT4Streamer.cpp:122-157 | without a data table: size 0, empty table, times 0..INT64_MAX, difference INT64_MAX, shift 0 |
| Aedat4.TimeDifferenceFits | src/streamers/AEDAT4Streamer.cpp:156 | the int64 subtraction highest − lowest cannot overflow when no timed entry starts before 0 |
| Aedat4.AllEventsStep | src/streamers/AEDAT4Streamer.cpp:402-403 | reading one more packet appends its events at the end |
| Aedat4.Streamer.constructor | src/streamers/AEDAT4Streamer.cpp:55-63 | no events yet; the packets of the time range; the iterator at the first packet |
| Aedat4.Streamer.Step | src/streamers/AEDAT4Streamer.cpp:355-413 | a non-event packet returns false and changes nothing; otherwise its events are appended, and the result is true iff it was not the last packet, in which case the iterator advances by one; lastEvents stays the concatenation of the packets read, and after the last packet it holds all of them |

## Left out

- **Floats.** Reals stand in for floats and doubles, so rounding, NaN and infinities are not
  modelled. A division by zero is a None result, or the dropped vote below.
- **Mapper.Transferred**: a vote with d = 0 is dropped. In the source it gives inf or NaN, and
  accumulateGridValueAt rejects NaN and −inf; +inf is undefined behaviour on the int cast.
- **Eigen, OpenCV and PCL calls are parameters.** This covers the homography and its inverse,
  `T_rv_ev.inverse()` and the camera centre, `rectifyPoint` (`cv::undistortPoints`), the depth
  vector (`cellIndexToDepth`, `getDepthVector`), the tan-based virtual focal length, and PCL's
  `RadiusOutlierRemoval`.
- **getDepthMapFromDSI**: only its border rule (`BorderSize`) and the two functions it calls
  (`RemoveMaskBoundary`, `ConvertDepthIndicesToValues`) are modelled. `cv::normalize`,
  `cv::adaptiveThreshold` and `huangMedianFilter` are library code.
- **OpenMP in fillVoxelGrid**: the planes are swept in sequence. `FillPlanesAt` shows each plane
  writes only its own slice, independently of the others.
- **Mapper.MapperEMVS.constructor**: its requires stand for undefined behaviour in the source:
  - at least six camera parameters, because `_camParams[0..5]` is indexed unchecked;
  - non-negative `camParams[4]` and `camParams[5]` (width and height), because a negative size
    would reach `Eigen::Matrix2Xf(2, height_*width_)`; map_main.cpp passes 240 and 180;
  - a depth vector of dimZ entries, which setupDSI guarantees by building it with dimZ planes.
- **Mapper.MapperEMVS.EvaluateDSI**: its requires stand for unchecked reads in the source:
  - at least one depth whenever the size check passes (at least 1024 events), because
    fillVoxelGrid reads `raw_depths_vec_[0]` (MapperEMVS.cpp:141) even when no packet was taken;
  - every event of every packet the loop takes lies on the rectified-point table, because
    `.col(i)` is not range-checked. Events outside the taken packets are not constrained.
- **Mapper.MapperEMVS.CollectPackets**: the same table requirement as EvaluateDSI.
- **Mapper.MapperEMVS.TakePacket**: the same table requirement, for the packets taken from its
  packet on.
- **Mapper.MapperEMVS.WarpPacket**: the same table requirement, for the one packet it warps.
- **Grid.Grid3D.CollapseMaxZSlice**: requires sizeZ > 0 when the grid has pixels, because the
  source applies `*max_element` to each pixel's depth column, which dereferences `end()` for an
  empty column.
- **Trajectories.LinearTrajectory.GetPoseAt**: on an empty map the model returns None. The
  source's "past" branch dereferences `poses_.begin()` of the empty map for its message, which is
  undefined behaviour.
- **Trajectories.LinearTrajectory.FirstControlPose**: requires at least one control pose, because
  the source dereferences `begin()` unchecked.
- **Trajectories.LinearTrajectory.LastControlPose**: requires at least one control pose, because
  the source dereferences `rbegin()` unchecked.
- **Trajectories**: poses are abstract and the matrix product and inverse of getPoseAt are kept
  as a symbolic term (`Transform`), so no matrix arithmetic is modelled. The interpolation factor
  delta_t is computed but never used in the source, so it is left out.
- **Mapper.FrameTime**: a packet's time is the exact real `timestamp · 10⁻⁶`. The source stores it in
  a `float`, whose 24-bit mantissa can round a microsecond timestamp to a nearby value, so the
  pose looked up may differ from the model's near a control time.
- **CircleTracking.IncreaseHoughPoint**: weights are natural numbers and cells are unbounded.
  This leaves out:
  - the `u_int32 += float` truncation;
  - a u_int32 cell overflowing after more than 2^32 votes.
- **CircleTracker**:
  - `cylinderFitting` and the libcaer conversions are not part of this model;
  - the `hough.csv` dump of houghCircle is file output;
  - `round(sqrt(...))` of the set-up is the constant 37, since the radius is fixed at 37.
- **AEDAT4 reading.**
  - Out of scope: stream seeks and reads, LZ4/Zstd decompression, flatbuffer verification and
    unpacking, and `dv::FileBuffer` caching.
  - Their outcomes are inputs: the IOHeader, the stored data table and the decoded packets.
  - `init`'s time-range selection is the packet sequence given to the `Streamer` constructor.
- **Aedat4.ParseHeader**: timeDifference is the exact difference. The int64 subtraction could
  overflow, which is undefined behaviour, only when a timed entry starts more than INT64_MAX
  below the highest end; `TimeDifferenceFits` shows this never happens for non-negative
  timestamps.
- **Aedat4.ParseHeader**: a file shorter than the 14-byte version line is reported as
  NoVersionLine. In the source the stream has exceptions enabled for eofbit and failbit, so the
  short read itself throws `std::ios_base::failure` before the version comparison is reached;
  the model folds that I/O exception into the version-line failure.
- **Aedat4.Streamer.Step**: requires the iterator to point at a packet. The source dereferences
  `iterPackets_` before any check, so calling step on an empty range, or again after it has
  returned false at the end, is undefined behaviour or re-reads the last packet. The
  `iterPackets_ == end()` test is kept as written, but it can never hold.
- **Console output**: the `std::cout` messages are not modelled.
