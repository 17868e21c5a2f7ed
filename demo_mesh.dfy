/** The integer layout of the demo's meshes (demo/src/main.cpp): the terrain
    grid of `CreateTerrain` and the cube of `Skybox::createSkyboxMesh`.
    Heights, colours and UV scaling are floating point and are left out; a
    vertex is the integer data it is built from. */
module DemoMesh {

  // ---------------------------------------------------------------------
  // Terrain

  /** A terrain vertex at grid point `(x, y)`. */
  datatype GridVertex = GridVertex(x: int, y: int)

  /** The six indices pushed for the cell whose top-left corner is grid point
      `base = y*sx + x`: two triangles over the cell. */
  function CellIndices(sx: int, base: int): (r: seq<int>)
    ensures |r| == 6
  {
    [base, base + 1, base + sx, base + 1, base + sx + 1, base + sx]
  }

  /** The vertices pushed for grid points `0..x-1` of row `y`. */
  function RowVertices(y: int, x: int): seq<GridVertex>
    requires x >= 0
  {
    if x == 0 then [] else RowVertices(y, x - 1) + [GridVertex(x - 1, y)]
  }

  /** The indices pushed for grid points `0..x-1` of row `y`. */
  function RowIndices(sx: int, sy: int, y: int, x: int): seq<int>
    requires x >= 0
  {
    if x == 0 then []
    else
      RowIndices(sx, sy, y, x - 1) +
      (if x - 1 < sx - 1 && y < sy - 1 then CellIndices(sx, y * sx + x - 1) else [])
  }

  /** The vertices pushed for rows `0..y-1`. */
  function GridVertices(sx: int, y: int): seq<GridVertex>
    requires sx >= 0 && y >= 0
  {
    if y == 0 then [] else GridVertices(sx, y - 1) + RowVertices(y - 1, sx)
  }

  /** The indices pushed for rows `0..y-1`. */
  function GridIndices(sx: int, sy: int, y: int): seq<int>
    requires sx >= 0 && y >= 0
  {
    if y == 0 then [] else GridIndices(sx, sy, y - 1) + RowIndices(sx, sy, y - 1, sx)
  }

  function Clamp(n: int): nat
  {
    if n < 0 then 0 else n
  }

  /** `CreateTerrain(sx, sy, height)`: a row-major grid of `sx*sy` vertices and
      two triangles for every cell. */
  method CreateTerrain(sx: int, sy: int) returns (vertices: seq<GridVertex>, indices: seq<int>)
    ensures vertices == GridVertices(Clamp(sx), Clamp(sy))
    ensures indices == GridIndices(Clamp(sx), sy, Clamp(sy))
  {
    vertices, indices := [], [];
    var y := 0;
    while y < sy
      invariant 0 <= y <= Clamp(sy)
      invariant vertices == GridVertices(Clamp(sx), y)
      invariant indices == GridIndices(Clamp(sx), sy, y)
    {
      vertices, indices := PushRow(vertices, indices, sx, sy, y);
      y := y + 1;
    }
  }

  /** One pass of the inner loop of `CreateTerrain`: the vertices of row `y`
      and the two triangles of each of its cells. */
  method PushRow(vertices0: seq<GridVertex>, indices0: seq<int>, sx: int, sy: int, y: int)
    returns (vertices: seq<GridVertex>, indices: seq<int>)
    ensures vertices == vertices0 + RowVertices(y, Clamp(sx))
    ensures indices == indices0 + RowIndices(Clamp(sx), sy, y, Clamp(sx))
  {
    vertices, indices := vertices0, indices0;
    var x := 0;
    while x < sx
      invariant 0 <= x <= Clamp(sx)
      invariant vertices == vertices0 + RowVertices(y, x)
      invariant indices == indices0 + RowIndices(Clamp(sx), sy, y, x)
    {
      vertices := vertices + [GridVertex(x, y)];
      if x < sx - 1 && y < sy - 1 {
        indices := PushCell(indices, sx, y * sx + x);
      }
      x := x + 1;
    }
  }

  /** Pushes `base + {0, 1, sx, 1, sx+1, sx}`, the two triangles of one cell. */
  method PushCell(indices0: seq<int>, sx: int, base: int) returns (indices: seq<int>)
    ensures indices == indices0 + CellIndices(sx, base)
  {
    indices := indices0;
    ghost var cell := CellIndices(sx, base);
    var offsets := [0, 1, sx, 1, sx + 1, sx];
    for k := 0 to 6
      invariant indices == indices0 + cell[..k]
    {
      assert cell[..k + 1] == cell[..k] + [base + offsets[k]];
      indices := indices + [base + offsets[k]];
    }
    assert cell[..6] == cell;
  }

  /** Row `y` holds grid points `(0, y) .. (x-1, y)` in order. */
  lemma {:induction false} RowVerticesAt(y: int, x: nat)
    ensures |RowVertices(y, x)| == x
    ensures forall k :: 0 <= k < x ==> RowVertices(y, x)[k] == GridVertex(k, y)
  {
    if x > 0 {
      RowVerticesAt(y, x - 1);
    }
  }

  /** `sx*sy` vertices in total. */
  lemma {:induction false} GridVerticesCount(sx: nat, y: nat)
    ensures |GridVertices(sx, y)| == y * sx
  {
    if y > 0 {
      GridVerticesCount(sx, y - 1);
      RowVerticesAt(y - 1, sx);
      assert (y - 1) * sx + sx == y * sx;
    }
  }

  /** Vertex `y*sx + x` is grid point `(x, y)`: the vertices are in row-major
      order. */
  lemma {:induction false} GridVertexAt(sx: nat, sy: nat, x: nat, y: nat)
    requires x < sx && y < sy
    ensures y * sx + x < |GridVertices(sx, sy)|
    ensures GridVertices(sx, sy)[y * sx + x] == GridVertex(x, y)
  {
    GridVerticesCount(sx, sy - 1);
    RowVerticesAt(sy - 1, sx);
    if y + 1 < sy {
      GridVertexAt(sx, sy - 1, x, y);
      assert y * sx + x < (sy - 1) * sx by { MulLeft(y, sy - 1, sx); }
    } else {
      assert (sy - 1) * sx == y * sx;
    }
  }

  lemma MulLeft(a: nat, b: nat, c: nat)
    requires a < b
    ensures a * c + c <= b * c
  {
    assert (b - a) * c >= c by {
      assert b - a >= 1;
    }
  }

  /** Row `y` contributes six indices per cell when it is not the last row,
      none otherwise. */
  lemma {:induction false} RowIndicesCount(sx: nat, sy: int, y: int, x: nat)
    requires 1 <= sx && x <= sx
    ensures |RowIndices(sx, sy, y, x)| ==
            if y < sy - 1 then 6 * (if x < sx then x else sx - 1) else 0
  {
    if x > 0 {
      RowIndicesCount(sx, sy, y, x - 1);
    }
  }

  /** `6*(sx-1)*(sy-1)` indices in total. */
  lemma {:induction false} GridIndicesCount(sx: nat, sy: nat, y: nat)
    requires sx >= 1 && 1 <= sy && y <= sy
    ensures |GridIndices(sx, sy, y)| == 6 * (sx - 1) * (if y < sy then y else sy - 1)
  {
    if y > 0 {
      GridIndicesCount(sx, sy, y - 1);
      RowIndicesCount(sx, sy, y - 1, sx);
      var c := 6 * (sx - 1);
      if y < sy {
        assert |RowIndices(sx, sy, y - 1, sx)| == c;
        assert c * y == c * (y - 1) + c;
      } else {
        assert |RowIndices(sx, sy, y - 1, sx)| == 0;
      }
    }
  }

  /** In row `y`, the indices of cell `x` sit at positions `6*x .. 6*x+5`. */
  lemma {:induction false} RowCellAt(sx: nat, sy: int, y: int, x: nat, n: nat)
    requires y < sy - 1 && x < sx - 1 && x < n <= sx
    ensures 6 * x + 6 <= |RowIndices(sx, sy, y, n)|
    ensures RowIndices(sx, sy, y, n)[6 * x .. 6 * x + 6] == CellIndices(sx, y * sx + x)
  {
    if n == x + 1 {
      RowIndicesCount(sx, sy, y, x);
    } else {
      RowCellAt(sx, sy, y, x, n - 1);
      var prev := RowIndices(sx, sy, y, n - 1);
      assert RowIndices(sx, sy, y, n)[..|prev|] == prev;
    }
  }

  /** Later rows only append: the indices of rows `0..y-1` stay a prefix. */
  lemma {:induction false} GridIndicesPrefix(sx: nat, sy: int, y: nat, y2: nat)
    requires y <= y2
    ensures |GridIndices(sx, sy, y)| <= |GridIndices(sx, sy, y2)|
    ensures GridIndices(sx, sy, y2)[..|GridIndices(sx, sy, y)|] == GridIndices(sx, sy, y)
  {
    if y < y2 {
      GridIndicesPrefix(sx, sy, y, y2 - 1);
      var prev := GridIndices(sx, sy, y2 - 1);
      assert GridIndices(sx, sy, y2)[..|prev|] == prev;
    }
  }

  /** Cell `(x, y)` owns the six indices at `6*(y*(sx-1) + x)`, in the order
      `base + {0, 1, sx, 1, sx+1, sx}` with `base = y*sx + x`. */
  lemma GridCellAt(sx: nat, sy: nat, x: nat, y: nat)
    requires x < sx - 1 && y < sy - 1
    ensures 6 * (y * (sx - 1) + x) + 6 <= |GridIndices(sx, sy, sy)|
    ensures GridIndices(sx, sy, sy)[6 * (y * (sx - 1) + x) .. 6 * (y * (sx - 1) + x) + 6] ==
            [y * sx + x, y * sx + x + 1, y * sx + x + sx,
             y * sx + x + 1, y * sx + x + sx + 1, y * sx + x + sx]
  {
    GridIndicesCount(sx, sy, y);
    assert |GridIndices(sx, sy, y)| == 6 * (y * (sx - 1)) by {
      assert 6 * (sx - 1) * y == 6 * (y * (sx - 1));
    }
    CellAfterRows(sx, sy, x, y, 6 * (y * (sx - 1) + x));
  }

  /** The cell's six indices follow the rows before it and the cells to its
      left, at position `start`. */
  lemma CellAfterRows(sx: nat, sy: nat, x: nat, y: nat, start: nat)
    requires x < sx - 1 && y < sy - 1
    requires start == |GridIndices(sx, sy, y)| + 6 * x
    ensures start + 6 <= |GridIndices(sx, sy, sy)|
    ensures GridIndices(sx, sy, sy)[start .. start + 6] == CellIndices(sx, y * sx + x)
  {
    var before := GridIndices(sx, sy, y);
    var row := RowIndices(sx, sy, y, sx);
    RowCellAt(sx, sy, y, x, sx);
    GridIndicesPrefix(sx, sy, y + 1, sy);
    SliceAfterPrefix(GridIndices(sx, sy, sy), before, row, 6 * x);
  }

  lemma SliceAfterPrefix(all: seq<int>, before: seq<int>, row: seq<int>, k: nat)
    requires k + 6 <= |row| && |before + row| <= |all| && all[..|before + row|] == before + row
    ensures all[|before| + k .. |before| + k + 6] == row[k .. k + 6]
  {
    assert all[|before| + k .. |before| + k + 6] == (before + row)[|before| + k .. |before| + k + 6];
  }

  /** Every index of a row names a grid point of the `sx` by `sy` grid. */
  lemma {:induction false} RowIndicesInGrid(sx: nat, sy: nat, y: nat, x: nat)
    requires x <= sx && y < sy
    ensures forall k :: 0 <= k < |RowIndices(sx, sy, y, x)| ==>
              0 <= RowIndices(sx, sy, y, x)[k] < sx * sy
  {
    if x > 0 {
      RowIndicesInGrid(sx, sy, y, x - 1);
      var cell := if x - 1 < sx - 1 && y < sy - 1 then CellIndices(sx, y * sx + x - 1) else [];
      if x - 1 < sx - 1 && y < sy - 1 {
        CellInGrid(sx, sy, x - 1, y, y * sx + x - 1);
      }
      assert RowIndices(sx, sy, y, x) == RowIndices(sx, sy, y, x - 1) + cell;
    }
  }

  /** The corners of a cell that is not in the last row or column are grid
      points. */
  lemma CellInGrid(sx: nat, sy: nat, x: nat, y: nat, base: int)
    requires x < sx - 1 && y < sy - 1 && base == y * sx + x
    ensures forall k :: 0 <= k < 6 ==> 0 <= CellIndices(sx, base)[k] < sx * sy
  {
    assert base + sx + 1 < sx * sy by {
      MulLeft(y, sy - 1, sx);
      assert (sy - 1) * sx + sx == sx * sy;
    }
  }

  /** For `sx, sy >= 1` every terrain index is below `sx*sy`. */
  lemma {:induction false} GridIndicesInGrid(sx: nat, sy: nat, y: nat)
    requires y <= sy
    ensures forall k :: 0 <= k < |GridIndices(sx, sy, y)| ==>
              0 <= GridIndices(sx, sy, y)[k] < sx * sy
  {
    if y > 0 {
      GridIndicesInGrid(sx, sy, y - 1);
      RowIndicesInGrid(sx, sy, y - 1, sx);
    }
  }

  // ---------------------------------------------------------------------
  // Skybox

  /** A corner of the unit cube, coordinates in {-1, 1}. */
  datatype Point = Point(x: int, y: int, z: int)

  /** A texture coordinate in quarter/third units of the atlas. */
  datatype UV = UV(u: int, v: int)

  datatype SkyVertex = SkyVertex(pos: Point, uv: UV)

  /** `positions`: the low ring clockwise, then the high ring. */
  const Positions: seq<Point> := [
    Point(-1, -1, -1), Point(-1, 1, -1), Point(1, 1, -1), Point(1, -1, -1),
    Point(-1, -1, 1), Point(-1, 1, 1), Point(1, 1, 1), Point(1, -1, 1)]

  const WallUV: seq<UV> := [
    UV(0, 2), UV(1, 2), UV(2, 2), UV(3, 2), UV(4, 2),
    UV(0, 1), UV(1, 1), UV(2, 1), UV(3, 1), UV(4, 1)]

  const FloorCeilingUV: seq<UV> := [
    UV(1, 3), UV(1, 2), UV(2, 2), UV(2, 3),
    UV(1, 0), UV(1, 1), UV(2, 1), UV(2, 0)]

  const FloorCeilingIndices: seq<int> := [0, 1, 2, 0, 2, 3, 4, 5, 6, 4, 6, 7]

  const WallIndices: seq<int> := [
    0, 1, 5, 1, 5, 6,
    1, 2, 6, 2, 6, 7,
    2, 3, 7, 3, 7, 8,
    3, 4, 8, 4, 8, 9]

  /** The cube corner wall vertex `i` stands on: vertices `0..4` walk the low
      ring and come back to its first corner, `5..9` do the same on the high
      ring. */
  function WallCorner(i: nat): (c: nat)
    requires i < 10
    ensures c < |Positions|
  {
    (i % 5) % 4 + 4 * (i / 5)
  }

  /** Wall vertex `i`: its corner of the cube and its place on the texture. */
  function WallVertex(i: nat): SkyVertex
    requires i < 10
  {
    SkyVertex(Positions[WallCorner(i)], WallUV[i])
  }

  /** The mesh indices of the floor and ceiling triangles. */
  function FloorCeilingMeshIndex(k: nat): int
    requires k < |FloorCeilingIndices|
  {
    FloorCeilingIndices[k] + |WallUV|
  }

  /** The index list of the skybox mesh: the wall triangles, then the floor
      and ceiling triangles shifted past the wall vertices. */
  function SkyboxMeshIndices(): (r: seq<int>)
    ensures |r| == 36
  {
    WallIndices + seq(|FloorCeilingIndices|, k requires 0 <= k < |FloorCeilingIndices| => FloorCeilingMeshIndex(k))
  }

  /** The two index loops of `createSkyboxMesh`, after `wallCount` wall
      vertices. */
  method SkyboxIndices(wallCount: int) returns (indices: seq<int>)
    requires wallCount == |WallUV|
    ensures indices == SkyboxMeshIndices()
  {
    indices := [];
    for k := 0 to |WallIndices|
      invariant indices == WallIndices[..k]
    {
      indices := indices + [WallIndices[k]];
    }
    assert indices == WallIndices;
    for k := 0 to |FloorCeilingIndices|
      invariant |indices| == 24 + k && indices[..24] == WallIndices
      invariant forall m :: 0 <= m < k ==> indices[24 + m] == FloorCeilingMeshIndex(m)
    {
      indices := indices + [FloorCeilingIndices[k] + wallCount];
    }
    assert indices[24..] == SkyboxMeshIndices()[24..];
  }

  /** The ten wall vertices. */
  function WallVertices(): (r: seq<SkyVertex>)
    ensures |r| == |WallUV|
  {
    seq(|WallUV|, i requires 0 <= i < |WallUV| => WallVertex(i))
  }

  /** The eight floor and ceiling vertices: the cube corners in table order. */
  function FloorCeilingVertices(): (r: seq<SkyVertex>)
    ensures |r| == |FloorCeilingUV|
  {
    seq(|FloorCeilingUV|, i requires 0 <= i < |FloorCeilingUV| => SkyVertex(Positions[i], FloorCeilingUV[i]))
  }

  /** `Skybox::createSkyboxMesh()`: the wall vertices then the floor/ceiling
      vertices, the wall indices then the floor/ceiling indices. */
  method CreateSkyboxMesh() returns (vertices: seq<SkyVertex>, indices: seq<int>)
    ensures vertices == WallVertices() + FloorCeilingVertices()
    ensures indices == SkyboxMeshIndices()
  {
    var wallVertices := NewWallVertices();
    var floorCeilingVertices := NewFloorCeilingVertices();
    vertices := [];
    for i := 0 to wallVertices.Length
      invariant vertices == wallVertices[..i]
    {
      vertices := vertices + [wallVertices[i]];
    }
    for i := 0 to floorCeilingVertices.Length
      invariant vertices == wallVertices[..] + floorCeilingVertices[..i]
    {
      vertices := vertices + [floorCeilingVertices[i]];
    }
    indices := SkyboxIndices(wallVertices.Length);
  }

  /** The `wallVertices` array: ring corner `(i % 5) % 4` of ring `i / 5`,
      with its atlas coordinate. */
  method NewWallVertices() returns (wallVertices: array<SkyVertex>)
    ensures fresh(wallVertices) && wallVertices[..] == WallVertices()
  {
    wallVertices := new SkyVertex[|WallUV|](_ => SkyVertex(Point(0, 0, 0), UV(0, 0)));
    for i := 0 to wallVertices.Length
      invariant wallVertices[..i] == WallVertices()[..i]
    {
      wallVertices[i] := SkyVertex(Positions[(i % 5) % 4 + 4 * (i / 5)], WallUV[i]);
      assert wallVertices[..i + 1] == wallVertices[..i] + [wallVertices[i]];
    }
    assert wallVertices[..] == wallVertices[..wallVertices.Length];
    assert WallVertices() == WallVertices()[..wallVertices.Length];
  }

  /** The `floorCeilingVertices` array: corner `i` with its atlas coordinate. */
  method NewFloorCeilingVertices() returns (floorCeilingVertices: array<SkyVertex>)
    ensures fresh(floorCeilingVertices) && floorCeilingVertices[..] == FloorCeilingVertices()
  {
    floorCeilingVertices := new SkyVertex[|FloorCeilingUV|](_ => SkyVertex(Point(0, 0, 0), UV(0, 0)));
    for i := 0 to floorCeilingVertices.Length
      invariant floorCeilingVertices[..i] == FloorCeilingVertices()[..i]
    {
      floorCeilingVertices[i] := SkyVertex(Positions[i], FloorCeilingUV[i]);
      assert floorCeilingVertices[..i + 1] == floorCeilingVertices[..i] + [floorCeilingVertices[i]];
    }
    assert floorCeilingVertices[..] == floorCeilingVertices[..floorCeilingVertices.Length];
    assert FloorCeilingVertices() == FloorCeilingVertices()[..floorCeilingVertices.Length];
  }

  /** The skybox mesh as `createSkyboxMesh` returns it. */
  function SkyboxMeshVertices(): (r: seq<SkyVertex>)
    ensures |r| == 18
  {
    WallVertices() + FloorCeilingVertices()
  }

  /** The cube corner of skybox vertex `k`. */
  function MeshCorner(k: nat): (c: nat)
    requires k < 18
    ensures c < 8
  {
    if k < 10 then WallCorner(k) else k - 10
  }

  /** Vertices `0..9` are the wall vertices and `10..17` the floor and
      ceiling vertices, each on its cube corner. */
  lemma SkyboxVertexAt(k: nat)
    requires k < 18
    ensures SkyboxMeshVertices()[k].pos == Positions[MeshCorner(k)]
    ensures k < 10 ==> SkyboxMeshVertices()[k] == WallVertex(k)
    ensures k >= 10 ==> SkyboxMeshVertices()[k].uv == FloorCeilingUV[k - 10]
  {
    if k < 10 {
      assert SkyboxMeshVertices()[k] == WallVertices()[k];
    } else {
      assert SkyboxMeshVertices()[k] == FloorCeilingVertices()[k - 10];
    }
  }

  /** Every skybox index names one of the 18 vertices; the wall triangles use
      the ten wall vertices and the floor and ceiling triangles the eight
      vertices after them. */
  lemma SkyboxIndicesInRange()
    ensures forall k :: 0 <= k < 24 ==> 0 <= SkyboxMeshIndices()[k] < 10
    ensures forall k :: 24 <= k < 36 ==> 10 <= SkyboxMeshIndices()[k] < 18
  {
    forall k | 24 <= k < 36
      ensures 10 <= SkyboxMeshIndices()[k] < 18
    {
      assert SkyboxMeshIndices()[k] == FloorCeilingMeshIndex(k - 24);
    }
  }

  /** The wall is two rings of five vertices: vertex `i + 5` stands on the
      corner straight above vertex `i`, and the fifth vertex of each ring
      returns to the ring's first corner, so the texture seam gets its own
      vertex. */
  lemma WallRings(i: nat)
    requires i < 5
    ensures WallCorner(i) < 4 && Positions[WallCorner(i)].z == -1
    ensures Positions[WallCorner(i + 5)] == Positions[WallCorner(i)].(z := 1)
    ensures i == 4 ==> WallCorner(i) == WallCorner(0)
  {
    assert WallCorner(i + 5) == WallCorner(i) + 4;
  }
}
