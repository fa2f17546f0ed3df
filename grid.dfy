/**
 * The voxel grid of the space-sweep mapper (class Grid3D of Cartesian3DGrid.h / .cpp).
 *
 * The volume is a flat buffer of floats (reals here) in which voxel (x, y, z) lives at
 * x + dimX*(y + dimY*z). The module first states the layout and the bilinear vote as pure
 * functions on sequences, proves what they promise, and then gives the class whose methods
 * change the buffer in place and are specified by those functions.
 */
module Grid {
  import opened Base

  // ---------------------------------------------------------------------------
  // Layout
  // ---------------------------------------------------------------------------

  /** Flat position of voxel (x, y, z). */
  function Index(dimX: nat, dimY: nat, x: nat, y: nat, z: nat): nat
  {
    x + dimX * (y + dimY * z)
  }

  lemma MulLe(a: nat, b: nat, c: nat)
    requires b <= c
    ensures a * b <= a * c
  {
  }

  /** Every voxel inside the dimensions has a flat position inside the buffer. */
  /** A voxel at or past the last depth plane has a flat index at or past the end of the grid. */
  lemma IndexPastDepth(dimX: nat, dimY: nat, dimZ: nat, x: nat, y: nat, z: nat)
    requires dimZ <= z
    ensures dimX * dimY * dimZ <= Index(dimX, dimY, x, y, z)
  {
    MulLe(dimY, dimZ, z);
    MulLe(dimX, dimY * dimZ, y + dimY * z);
    assert dimX * (dimY * dimZ) == dimX * dimY * dimZ;
  }

  lemma IndexInRange(dimX: nat, dimY: nat, dimZ: nat, x: nat, y: nat, z: nat)
    requires x < dimX && y < dimY && z < dimZ
    ensures Index(dimX, dimY, x, y, z) < dimX * dimY * dimZ
  {
    var inner := y + dimY * z;
    assert inner < dimY * (z + 1);
    MulLe(dimY, z + 1, dimZ);
    assert inner + 1 <= dimY * dimZ;
    MulLe(dimX, inner + 1, dimY * dimZ);
    assert dimX * (inner + 1) == dimX * inner + dimX;
    assert dimX * (dimY * dimZ) == dimX * dimY * dimZ;
  }

  lemma MulStep(d: nat, q: nat, q': nat)
    requires q < q'
    ensures d * q + d <= d * q'
  {
    MulLe(d, q + 1, q');
    assert d * (q + 1) == d * q + d;
  }

  /** A position r + d*q with r < d determines both r and q. */
  lemma FlatSplit(d: nat, r: nat, q: nat, r': nat, q': nat)
    requires r < d && r' < d
    requires r + d * q == r' + d * q'
    ensures r == r' && q == q'
  {
    if q < q' {
      MulStep(d, q, q');
    } else if q' < q {
      MulStep(d, q', q);
    }
  }

  /** Distinct voxels have distinct flat positions. */
  lemma IndexInjective(dimX: nat, dimY: nat, x: nat, y: nat, z: nat, x': nat, y': nat, z': nat)
    requires x < dimX && x' < dimX && y < dimY && y' < dimY
    requires Index(dimX, dimY, x, y, z) == Index(dimX, dimY, x', y', z')
    ensures x == x' && y == y' && z == z'
  {
    FlatSplit(dimX, x, y + dimY * z, x', y' + dimY * z');
    FlatSplit(dimY, y, z, y', z');
  }

  /** The far corner of a 2x2 neighbourhood whose near corner is (x, y) is still inside the slice. */
  lemma CellInSlice(dimX: nat, dimY: nat, x: nat, y: nat)
    requires x + 1 < dimX && y + 1 < dimY
    ensures x + 1 + (y + 1) * dimX < dimX * dimY
  {
    MulLe(dimX, y + 1, dimY - 1);
    assert dimX * (dimY - 1) == dimX * dimY - dimX;
  }

  /** The start of slice `layer` and its end stay inside a buffer of dimX*dimY*dimZ cells. */
  lemma SliceBound(dimX: nat, dimY: nat, dimZ: nat, layer: nat)
    requires layer < dimZ
    ensures layer * dimX * dimY + dimX * dimY <= dimX * dimY * dimZ
  {
    MulLe(dimX * dimY, layer + 1, dimZ);
    assert dimX * dimY * (layer + 1) == layer * dimX * dimY + dimX * dimY;
  }

  /** In a grid of fewer than 2^32 cells the start of a slice needs no wrap-around. */
  lemma SliceOffsetFits(dimX: nat, dimY: nat, dimZ: nat, layer: nat)
    requires layer < dimZ && dimX * dimY * dimZ < TwoTo32
    ensures 0 <= layer * dimX * dimY < TwoTo32
    ensures layer * dimX * dimY + dimX * dimY <= dimX * dimY * dimZ
  {
    SliceBound(dimX, dimY, dimZ, layer);
  }

  // ---------------------------------------------------------------------------
  // Bilinear voting within one Z slice
  // ---------------------------------------------------------------------------

  /** A vote at (xf, yf) is taken when both are non-negative and the 2x2 neighbourhood is inside. */
  predicate Accepted(dimX: nat, dimY: nat, xf: real, yf: real)
  {
    xf >= 0.0 && yf >= 0.0 && xf.Floor + 1 < dimX && yf.Floor + 1 < dimY
  }

  /**
   * The weights given to cells (x, y), (x+1, y), (x, y+1) and (x+1, y+1),
   * where x and y are the integer parts of xf and yf.
   */
  function BilinearWeights(xf: real, yf: real): (w: seq<real>)
    ensures |w| == 4
  {
    var fx, fy := xf - xf.Floor as real, yf - yf.Floor as real;
    var fx1, fy1 := 1.0 - fx, 1.0 - fy;
    [fx1 * fy1, fx * fy1, fx1 * fy, fx * fy]
  }

  /** Each weight lies in [0, 1] and together they make one unit of vote mass. */
  lemma VoteWeights(xf: real, yf: real)
    ensures var w := BilinearWeights(xf, yf);
      (forall i :: 0 <= i < 4 ==> 0.0 <= w[i] <= 1.0) && w[0] + w[1] + w[2] + w[3] == 1.0
  {
    var fx, fy := xf - xf.Floor as real, yf - yf.Floor as real;
    assert 0.0 <= fx < 1.0 && 0.0 <= fy < 1.0;
    assert (1.0 - fx) * (1.0 - fy) + fx * (1.0 - fy) == 1.0 - fy;
    assert (1.0 - fx) * fy + fx * fy == fy;
    UnitProduct(fx, fy);
    UnitProduct(1.0 - fx, fy);
    UnitProduct(fx, 1.0 - fy);
    UnitProduct(1.0 - fx, 1.0 - fy);
  }

  lemma UnitProduct(a: real, b: real)
    requires 0.0 <= a <= 1.0 && 0.0 <= b <= 1.0
    ensures 0.0 <= a * b <= 1.0
  {
    NonNegProduct(a, b);
    NonNegProduct(a, 1.0 - b);
  }

  lemma NonNegProduct(a: real, b: real)
    requires 0.0 <= a && 0.0 <= b
    ensures 0.0 <= a * b
  {
  }

  /** Near corner of the neighbourhood an accepted vote writes, relative to the slice start. */
  function Corner(dimX: nat, dimY: nat, xf: real, yf: real): (c: nat)
    requires Accepted(dimX, dimY, xf, yf)
    ensures c + dimX + 1 < dimX * dimY
  {
    CellInSlice(dimX, dimY, xf.Floor, yf.Floor);
    xf.Floor + yf.Floor * dimX
  }

  /** Adds the four weights `w` to the 2x2 neighbourhood whose near corner is at flat position `g`. */
  function Deposit(cells: seq<real>, dimX: nat, g: nat, w: seq<real>): (r: seq<real>)
    requires g + dimX + 1 < |cells| && |w| == 4
    ensures |r| == |cells|
  {
    cells[g := cells[g] + w[0]]
         [g + 1 := cells[g + 1] + w[1]]
         [g + dimX := cells[g + dimX] + w[2]]
         [g + dimX + 1 := cells[g + dimX + 1] + w[3]]
  }

  /** The buffer after one bilinear vote at (xf, yf) into the slice that starts at `grid`. */
  function Vote(cells: seq<real>, dimX: nat, dimY: nat, grid: nat, xf: real, yf: real): (r: seq<real>)
    requires grid + dimX * dimY <= |cells|
    ensures |r| == |cells|
  {
    if Accepted(dimX, dimY, xf, yf) then
      Deposit(cells, dimX, grid + Corner(dimX, dimY, xf, yf), BilinearWeights(xf, yf))
    else
      cells
  }

  /** A negative coordinate, or a neighbourhood that leaves the slice, changes nothing. */
  lemma VoteRejected(cells: seq<real>, dimX: nat, dimY: nat, grid: nat, xf: real, yf: real)
    requires grid + dimX * dimY <= |cells|
    requires xf < 0.0 || yf < 0.0 || (xf >= 0.0 && yf >= 0.0 && (xf.Floor + 1 >= dimX || yf.Floor + 1 >= dimY))
    ensures Vote(cells, dimX, dimY, grid, xf, yf) == cells
  {
  }

  /** An accepted vote adds the four weights to exactly four cells of the slice and nothing else. */
  lemma VoteFourCells(cells: seq<real>, dimX: nat, dimY: nat, grid: nat, xf: real, yf: real)
    requires grid + dimX * dimY <= |cells|
    requires Accepted(dimX, dimY, xf, yf)
    ensures var g := grid + Corner(dimX, dimY, xf, yf);
      var w := BilinearWeights(xf, yf);
      var r := Vote(cells, dimX, dimY, grid, xf, yf);
      && grid <= g && g + dimX + 1 < grid + dimX * dimY
      && r[g] == cells[g] + w[0]
      && r[g + 1] == cells[g + 1] + w[1]
      && r[g + dimX] == cells[g + dimX] + w[2]
      && r[g + dimX + 1] == cells[g + dimX + 1] + w[3]
      && forall k :: 0 <= k < |cells| && k != g && k != g + 1 && k != g + dimX && k != g + dimX + 1 ==> r[k] == cells[k]
  {
    assert dimX >= 2;
  }

  /** A vote never writes outside the slice [grid, grid + dimX*dimY). */
  lemma VoteStaysInSlice(cells: seq<real>, dimX: nat, dimY: nat, grid: nat, xf: real, yf: real)
    requires grid + dimX * dimY <= |cells|
    ensures forall k :: 0 <= k < |cells| && (k < grid || k >= grid + dimX * dimY) ==>
      Vote(cells, dimX, dimY, grid, xf, yf)[k] == cells[k]
  {
    if Accepted(dimX, dimY, xf, yf) {
      VoteFourCells(cells, dimX, dimY, grid, xf, yf);
    }
  }

  /** Total mass of the first n cells. */
  function SumTo(s: seq<real>, n: nat): real
    requires n <= |s|
  {
    if n == 0 then 0.0 else SumTo(s, n - 1) + s[n - 1]
  }

  /** Total mass of a buffer. */
  function Sum(s: seq<real>): real
  {
    SumTo(s, |s|)
  }

  lemma {:induction false} SumToUpdate(s: seq<real>, n: nat, i: nat, v: real)
    requires n <= |s| && i < |s|
    ensures SumTo(s[i := v], n) == SumTo(s, n) + if i < n then v - s[i] else 0.0
  {
    if n > 0 {
      SumToUpdate(s, n - 1, i, v);
    }
  }

  /** Replacing one cell changes the total by the difference. */
  lemma SumUpdate(s: seq<real>, i: nat, v: real)
    requires i < |s|
    ensures Sum(s[i := v]) == Sum(s) - s[i] + v
  {
    SumToUpdate(s, |s|, i, v);
  }

  /** Depositing into four distinct cells raises the total by the sum of the four weights. */
  lemma DepositMass(cells: seq<real>, dimX: nat, g: nat, w: seq<real>)
    requires g + dimX + 1 < |cells| && |w| == 4 && dimX >= 2
    ensures Sum(Deposit(cells, dimX, g, w)) == Sum(cells) + w[0] + w[1] + w[2] + w[3]
  {
    var c1 := cells[g := cells[g] + w[0]];
    var c2 := c1[g + 1 := cells[g + 1] + w[1]];
    var c3 := c2[g + dimX := cells[g + dimX] + w[2]];
    SumUpdate(cells, g, cells[g] + w[0]);
    SumUpdate(c1, g + 1, cells[g + 1] + w[1]);
    SumUpdate(c2, g + dimX, cells[g + dimX] + w[2]);
    SumUpdate(c3, g + dimX + 1, cells[g + dimX + 1] + w[3]);
  }

  /** An accepted vote raises the total mass of the grid by exactly one; a rejected one by nothing. */
  lemma VoteMass(cells: seq<real>, dimX: nat, dimY: nat, grid: nat, xf: real, yf: real)
    requires grid + dimX * dimY <= |cells|
    ensures Sum(Vote(cells, dimX, dimY, grid, xf, yf)) == Sum(cells) + if Accepted(dimX, dimY, xf, yf) then 1.0 else 0.0
  {
    if Accepted(dimX, dimY, xf, yf) {
      assert dimX >= 2;
      DepositMass(cells, dimX, grid + Corner(dimX, dimY, xf, yf), BilinearWeights(xf, yf));
      VoteWeights(xf, yf);
    }
  }

  // ---------------------------------------------------------------------------
  // Collapsing the depth axis
  // ---------------------------------------------------------------------------

  /** Value of voxel (u, v, k) in a buffer laid out for the given dimensions. */
  function CellAt(cells: seq<real>, dimX: nat, dimY: nat, dimZ: nat, u: nat, v: nat, k: nat): real
    requires |cells| == dimX * dimY * dimZ && u < dimX && v < dimY && k < dimZ
  {
    IndexInRange(dimX, dimY, dimZ, u, v, k);
    cells[Index(dimX, dimY, u, v, k)]
  }

  /** The values along the depth axis at pixel (u, v). */
  function Column(cells: seq<real>, dimX: nat, dimY: nat, dimZ: nat, u: nat, v: nat): (col: seq<real>)
    requires |cells| == dimX * dimY * dimZ && u < dimX && v < dimY
    ensures |col| == dimZ
  {
    seq(dimZ, k requires 0 <= k < dimZ => CellAt(cells, dimX, dimY, dimZ, u, v, k))
  }

  /** Index of the first maximal element: the position std::max_element returns. */
  function FirstArgMax(s: seq<real>): (k: nat)
    requires |s| > 0
    ensures k < |s|
    ensures forall j :: 0 <= j < |s| ==> s[j] <= s[k]
    ensures forall j :: 0 <= j < k ==> s[j] < s[k]
  {
    if |s| == 1 then 0
    else
      var m := FirstArgMax(s[..|s| - 1]);
      if s[|s| - 1] > s[m] then |s| - 1 else m
  }

  /** What collapseMaxZSlice stores at pixel (u, v): the maximum and its index truncated to 8 bits. */
  predicate CollapsedAt(cells: seq<real>, dimX: nat, dimY: nat, dimZ: nat, u: nat, v: nat, maxVal: real, maxPos: int)
    requires |cells| == dimX * dimY * dimZ && u < dimX && v < dimY && dimZ > 0
  {
    var col := Column(cells, dimX, dimY, dimZ, u, v);
    maxVal == col[FirstArgMax(col)] && maxPos == FirstArgMax(col) % 256
  }

  /** With at most 256 planes the stored index is the exact first index attaining the maximum. */
  lemma CollapsedIndexExact(cells: seq<real>, dimX: nat, dimY: nat, dimZ: nat, u: nat, v: nat, maxVal: real, maxPos: int)
    requires |cells| == dimX * dimY * dimZ && u < dimX && v < dimY && 0 < dimZ <= 256
    requires CollapsedAt(cells, dimX, dimY, dimZ, u, v, maxVal, maxPos)
    ensures 0 <= maxPos < dimZ
    ensures forall k :: 0 <= k < dimZ ==> CellAt(cells, dimX, dimY, dimZ, u, v, k) <= maxVal
    ensures forall k :: 0 <= k < maxPos ==> CellAt(cells, dimX, dimY, dimZ, u, v, k) < maxVal
    ensures maxVal == CellAt(cells, dimX, dimY, dimZ, u, v, maxPos)
  {
    var col := Column(cells, dimX, dimY, dimZ, u, v);
    var m := FirstArgMax(col);
    assert maxPos == m;
    forall k | 0 <= k < dimZ
      ensures CellAt(cells, dimX, dimY, dimZ, u, v, k) <= maxVal
    {
      assert col[k] == CellAt(cells, dimX, dimY, dimZ, u, v, k);
    }
    forall k | 0 <= k < maxPos
      ensures CellAt(cells, dimX, dimY, dimZ, u, v, k) < maxVal
    {
      assert col[k] == CellAt(cells, dimX, dimY, dimZ, u, v, k);
    }
  }

  /** On an all-zero grid every maximum is 0 and every index is 0 (the first plane wins the tie). */
  lemma CollapseOfZeroGrid(cells: seq<real>, dimX: nat, dimY: nat, dimZ: nat, u: nat, v: nat)
    requires |cells| == dimX * dimY * dimZ && u < dimX && v < dimY && dimZ > 0
    requires forall i :: 0 <= i < |cells| ==> cells[i] == 0.0
    ensures CollapsedAt(cells, dimX, dimY, dimZ, u, v, 0.0, 0)
  {
    var col := Column(cells, dimX, dimY, dimZ, u, v);
    var m := FirstArgMax(col);
    IndexInRange(dimX, dimY, dimZ, u, v, 0);
    IndexInRange(dimX, dimY, dimZ, u, v, m);
    assert col[0] == 0.0;
    assert col[m] == 0.0;
  }

  /** The scan std::max_element performs: the first maximal position, or 0 (= end) when empty. */
  method MaxElement(vals: seq<real>) returns (idx: nat)
    ensures |vals| == 0 ==> idx == 0
    ensures |vals| > 0 ==> idx == FirstArgMax(vals)
  {
    if |vals| == 0 {
      return 0;
    }
    idx := 0;
    var k := 1;
    while k < |vals|
      invariant 1 <= k <= |vals|
      invariant idx == FirstArgMax(vals[..k])
    {
      assert vals[..k + 1][..k] == vals[..k];
      if vals[k] > vals[idx] {
        idx := k;
      }
      k := k + 1;
    }
    assert vals[..k] == vals;
  }

  // ---------------------------------------------------------------------------
  // Statistics
  // ---------------------------------------------------------------------------

  /** Sum of squared cells. */
  function SumSquares(s: seq<real>): (r: real)
    ensures r >= 0.0
  {
    if s == [] then 0.0 else SumSquares(s[..|s| - 1]) + s[|s| - 1] * s[|s| - 1]
  }

  /** Outcome of computeMeanSquare: a value, 0/0 (NaN), or the exception `.at` throws. */
  datatype MeanSquare = Mean(value: real) | NotANumber | OutOfRange

  // ---------------------------------------------------------------------------
  // The grid object
  // ---------------------------------------------------------------------------

  class Grid3D {
    var sizeX: uint32
    var sizeY: uint32
    var sizeZ: uint32
    var numCells: uint32
    var data: array<real>

    /** The buffer holds exactly one cell per voxel (and that count is a valid 32-bit size). */
    ghost predicate Valid()
      reads this
    {
      data.Length == sizeX * sizeY * sizeZ < TwoTo32
    }

    /**
     * Grid3D(): deallocate() on a fresh object. deallocate() leaves numCells_ uninitialised; the
     * 0 here is a choice of the model, and no contract depends on it.
     */
    constructor Empty()
      ensures Valid() && sizeX == 0 && sizeY == 0 && sizeZ == 0 && data.Length == 0 && fresh(data)
    {
      sizeX, sizeY, sizeZ := 0, 0, 0;
      numCells := 0;
      data := new real[0];
    }

    /** Grid3D(dimX, dimY, dimZ): deallocate() then allocate(dimX, dimY, dimZ). */
    constructor (dimX: uint32, dimY: uint32, dimZ: uint32)
      ensures sizeX == dimX && sizeY == dimY && sizeZ == dimZ
      ensures numCells == Wrap32(dimX * dimY * dimZ) && data.Length == numCells && fresh(data)
      ensures forall i :: 0 <= i < data.Length ==> data[i] == 0.0
      ensures dimX * dimY * dimZ < TwoTo32 ==> Valid()
    {
      sizeX, sizeY, sizeZ := 0, 0, 0;
      numCells := 0;
      data := new real[0];
      new;
      Deallocate();
      Allocate(dimX, dimY, dimZ);
    }

    /** Stores the sizes, sets numCells to their (32-bit) product and gives a zeroed buffer of that length. */
    method Allocate(dimX: uint32, dimY: uint32, dimZ: uint32)
      modifies this
      ensures sizeX == dimX && sizeY == dimY && sizeZ == dimZ
      ensures numCells == Wrap32(dimX * dimY * dimZ) && data.Length == numCells && fresh(data)
      ensures forall i :: 0 <= i < data.Length ==> data[i] == 0.0
      ensures dimX * dimY * dimZ < TwoTo32 ==> Valid()
    {
      sizeX, sizeY, sizeZ := dimX, dimY, dimZ;
      numCells := Wrap32(sizeX * sizeY * sizeZ);
      data := new real[numCells];
      ResetGrid();
    }

    /** Sets the three sizes to zero and empties the buffer; numCells keeps its old value. */
    method Deallocate()
      modifies this
      ensures sizeX == 0 && sizeY == 0 && sizeZ == 0
      ensures data.Length == 0 && fresh(data) && numCells == old(numCells)
      ensures Valid()
    {
      sizeX, sizeY, sizeZ := 0, 0, 0;
      data := new real[0];
    }

    /** Zero-fills the buffer in place. */
    method ResetGrid()
      modifies data
      ensures forall i :: 0 <= i < data.Length ==> data[i] == 0.0
    {
      forall i | 0 <= i < data.Length {
        data[i] := 0.0;
      }
    }

    /** data_array_.at(ix + dimX*(iy + dimY*iz)) in 32-bit index arithmetic; None when `.at` throws. */
    function GetGridValueAt(ix: uint32, iy: uint32, iz: uint32): (r: Option<real>)
      reads this, data
      ensures r.None? <==> Wrap32(ix + sizeX * (iy + sizeY * iz)) >= data.Length
      ensures r.Some? ==> r.value == data[Wrap32(ix + sizeX * (iy + sizeY * iz))]
      ensures Valid() && sizeZ <= iz && Index(sizeX, sizeY, ix, iy, iz) < TwoTo32 ==> r.None?
      ensures Valid() && ix < sizeX && iy < sizeY && iz < sizeZ ==>
        Index(sizeX, sizeY, ix, iy, iz) < data.Length && r == Some(data[Index(sizeX, sizeY, ix, iy, iz)])
    {
      var i := Wrap32(ix + sizeX * (iy + sizeY * iz));
      // All branches compute the same value; the split only lets two of them call a lemma.
      if ix < sizeX && iy < sizeY && iz < sizeZ then
        IndexInRange(sizeX, sizeY, sizeZ, ix, iy, iz);
        if i < data.Length then Some(data[i]) else None
      else if sizeZ <= iz then
        IndexPastDepth(sizeX, sizeY, sizeZ, ix, iy, iz);
        if i < data.Length then Some(data[i]) else None
      else
        if i < data.Length then Some(data[i]) else None
    }

    /** The three sizes, as the `int`s the out-parameters receive. */
    function GetDimensions(): (r: (int, int, int))
      reads this
      ensures sizeX < 0x8000_0000 && sizeY < 0x8000_0000 && sizeZ < 0x8000_0000 ==>
        r == (sizeX as int, sizeY as int, sizeZ as int)
    {
      (AsInt32(sizeX), AsInt32(sizeY), AsInt32(sizeZ))
    }

    /** Offset of slice `layer` in the buffer: layer*dimX*dimY in unsigned arithmetic. */
    function GetPointerToSlice(layer: int): (offset: uint32)
      reads this
      ensures Valid() && 0 <= layer < sizeZ ==>
        offset == layer * sizeX * sizeY && offset + sizeX * sizeY <= data.Length
    {
      var o := layer * sizeX * sizeY;
      if 0 <= layer < sizeZ && sizeX * sizeY * sizeZ < TwoTo32 then
        SliceOffsetFits(sizeX, sizeY, sizeZ, layer);
        Wrap32(o)
      else
        Wrap32(o)
    }

    /** Bilinear voting of one unit at (xf, yf) into the slice that starts at offset `grid`. */
    method AccumulateGridValueAt(xf: real, yf: real, grid: nat)
      requires Valid()
      requires grid + sizeX * sizeY <= data.Length
      modifies data
      ensures data[..] == Vote(old(data[..]), sizeX, sizeY, grid, xf, yf)
    {
      if xf >= 0.0 && yf >= 0.0 {
        var x, y := xf.Floor, yf.Floor;
        if x + 1 < sizeX && y + 1 < sizeY {
          var g := grid + Corner(sizeX, sizeY, xf, yf);
          assert g == grid + x + y * sizeX;
          AddToNeighbourhood(g, BilinearWeights(xf, yf));
        }
      }
    }

    /** The four in-place additions of one accepted vote around flat position g. */
    method AddToNeighbourhood(g: nat, w: seq<real>)
      requires 2 <= sizeX && g + sizeX + 1 < data.Length && |w| == 4
      modifies data
      ensures data[..] == Deposit(old(data[..]), sizeX, g, w)
    {
      ghost var before := data[..];
      data[g] := data[g] + w[0];
      data[g + 1] := data[g + 1] + w[1];
      data[g + sizeX] := data[g + sizeX] + w[2];
      data[g + sizeX + 1] := data[g + sizeX + 1] + w[3];
      assert data[..] == before[g := before[g] + w[0]]
                               [g + 1 := before[g + 1] + w[1]]
                               [g + sizeX := before[g + sizeX] + w[2]]
                               [g + sizeX + 1 := before[g + sizeX + 1] + w[3]];
    }

    /** Copies the depth column at pixel (u, v) into `vals` through getGridValueAt. */
    method ReadColumn(u: uint32, v: uint32, vals: array<real>)
      requires Valid() && u < sizeX && v < sizeY && vals.Length == sizeZ && vals != data
      modifies vals
      ensures vals[..] == Column(old(data[..]), sizeX, sizeY, sizeZ, u, v)
    {
      ghost var cells := data[..];
      var k: uint32 := 0;
      while k < sizeZ
        invariant 0 <= k <= sizeZ
        invariant data[..] == cells
        invariant forall k' :: 0 <= k' < k ==> vals[k'] == CellAt(cells, sizeX, sizeY, sizeZ, u, v, k')
      {
        var val := GetGridValueAt(u, v, k);
        assert val == Some(cells[Index(sizeX, sizeY, u, v, k)]);
        vals[k] := val.value;
        k := k + 1;
      }
    }

    /**
     * For each pixel (u, v) of the dimY x dimX output: the maximum over the depth axis and the
     * index (stored as an 8-bit value) of its first occurrence.
     */
    method CollapseMaxZSlice() returns (maxVal: array2<real>, maxPos: array2<int>)
      requires Valid()
      requires sizeX == 0 || sizeY == 0 || sizeZ > 0
      ensures fresh(maxVal) && fresh(maxPos)
      ensures maxVal.Length0 == sizeY && maxVal.Length1 == sizeX
      ensures maxPos.Length0 == sizeY && maxPos.Length1 == sizeX
      ensures forall v, u :: 0 <= v < sizeY && 0 <= u < sizeX ==>
        CollapsedAt(data[..], sizeX, sizeY, sizeZ, u, v, maxVal[v, u], maxPos[v, u])
    {
      ghost var cells := data[..];
      maxVal := new real[sizeY, sizeX];
      maxPos := new int[sizeY, sizeX];
      var gridVals := new real[sizeZ];
      var v: uint32 := 0;
      while v < sizeY
        invariant 0 <= v <= sizeY
        invariant data[..] == cells
        invariant forall v', u' :: 0 <= v' < v && 0 <= u' < sizeX ==>
          CollapsedAt(cells, sizeX, sizeY, sizeZ, u', v', maxVal[v', u'], maxPos[v', u'])
      {
        CollapseRow(v, gridVals, maxVal, maxPos);
        v := v + 1;
      }
    }

    /** One row v of collapseMaxZSlice; the other rows keep what they hold. */
    method CollapseRow(v: uint32, gridVals: array<real>, maxVal: array2<real>, maxPos: array2<int>)
      requires Valid() && v < sizeY && (sizeX == 0 || 0 < sizeZ) && gridVals.Length == sizeZ && gridVals != data
      requires maxVal.Length0 == sizeY && maxVal.Length1 == sizeX
      requires maxPos.Length0 == sizeY && maxPos.Length1 == sizeX
      modifies gridVals, maxVal, maxPos
      ensures forall u :: 0 <= u < sizeX ==>
        CollapsedAt(data[..], sizeX, sizeY, sizeZ, u, v, maxVal[v, u], maxPos[v, u])
      ensures forall v', u' :: 0 <= v' < sizeY && v' != v && 0 <= u' < sizeX ==>
        maxVal[v', u'] == old(maxVal[v', u']) && maxPos[v', u'] == old(maxPos[v', u'])
    {
      ghost var cells := data[..];
      var u: uint32 := 0;
      while u < sizeX
        invariant 0 <= u <= sizeX
        invariant data[..] == cells
        invariant forall v', u' :: 0 <= v' < sizeY && v' != v && 0 <= u' < sizeX ==>
          maxVal[v', u'] == old(maxVal[v', u']) && maxPos[v', u'] == old(maxPos[v', u'])
        invariant forall u' :: 0 <= u' < u ==>
          CollapsedAt(cells, sizeX, sizeY, sizeZ, u', v, maxVal[v, u'], maxPos[v, u'])
      {
        ReadColumn(u, v, gridVals);
        var m := MaxElement(gridVals[..]);
        maxVal[v, u] := gridVals[m];
        maxPos[v, u] := m % 256;
        u := u + 1;
      }
    }

    method ComputeMeanSquare() returns (r: MeanSquare)
      ensures numCells > data.Length ==> r == OutOfRange
      ensures numCells == 0 ==> r == NotANumber
      ensures 0 < numCells <= data.Length ==> r == Mean(SumSquares(data[..numCells]) / numCells as real)
      ensures r.Mean? ==> r.value >= 0.0
    {
      var result := 0.0;
      var i := 0;
      while i < numCells
        invariant 0 <= i <= numCells && i <= data.Length
        invariant result == SumSquares(data[..i])
      {
        if i >= data.Length {
          return OutOfRange;
        }
        var tmp := data[i];
        assert data[..i + 1][..i] == data[..i];
        result := result + tmp * tmp;
        i := i + 1;
      }
      if numCells == 0 {
        return NotANumber;
      }
      return Mean(result / numCells as real);
    }
  }
}
