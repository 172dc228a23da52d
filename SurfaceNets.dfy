/** The Surface Nets chunk ASurfaceNets: a padded density buffer, the strides
    that address it, and the mesh the scan appends to. */
module SurfaceNets {
  import opened Vectors
  import opened SurfaceNetsTables
  import opened SurfaceNetsGrid
  import opened SurfaceNetsCell
  import opened SurfaceNetsMesh

  /** The block kind of an edit. Only Air is told apart: it raises the density
      (removes material); every other kind lowers it. */
  datatype Block = Air | Solid

  /** The brush radius. */
  const Radius: int := 2

  function Max(a: real, b: real): real
  {
    if a >= b then a else b
  }

  /** The brush weight `w` times the strength of `block`: +1 for Air, -1 for
      every other block. */
  function Strength(block: Block, w: real): real
  {
    if block == Air then w else -w
  }

  /** The offsets the brush loop visits: Z in [-2, 2], but Y and X in [-2, 2). */
  predicate InBrushBox(d: Int3)
  {
    -Radius <= d.z <= Radius && -Radius <= d.y < Radius && -Radius <= d.x < Radius
  }

  /** The grid points an edit may write: [0, Size]^3. */
  predicate Editable(size: int, q: Int3)
  {
    0 <= q.x <= size && 0 <= q.y <= size && 0 <= q.z <= size
  }

  /** The change an edit at `position` makes to grid point `q`: the strength
      times max(2 - |q - position|, 0), for an offset the loop visits and a
      point it may write; nothing otherwise. */
  function BrushDelta(sqrt: real -> real, size: int, position: Int3, block: Block, q: Int3): real
  {
    var d := q.Minus(position);
    if InBrushBox(d) && Editable(size, q) then
      Strength(block, Max(Radius as real - sqrt(d.LengthSquared() as real), 0.0))
    else 0.0
  }

  /** The brush offsets visited before offset (x, y, z) in the loop order
      (Z outer, Y middle, X inner). */
  predicate OffsetVisited(d: Int3, z: int, y: int, x: int)
  {
    InBrushBox(d) && (d.z < z || (d.z == z && (d.y < y || (d.y == y && d.x < x))))
  }

  /** The part of the edit applied once the loop has reached offset (x, y, z). */
  function PartialBrush(sqrt: real -> real, size: int, position: Int3, block: Block, q: Int3, z: int, y: int, x: int): real
  {
    if OffsetVisited(q.Minus(position), z, y, x) then BrushDelta(sqrt, size, position, block, q) else 0.0
  }

  /** Offset (x, y, z) is the next one the loop visits after the offsets
      before it: visiting it adds its delta and nothing else. */
  lemma PartialStep(sqrt: real -> real, size: int, position: Int3, block: Block, q: Int3, z: int, y: int, x: int)
    requires InBrushBox(Int3(x, y, z))
    ensures PartialBrush(sqrt, size, position, block, q, z, y, x + 1)
      == PartialBrush(sqrt, size, position, block, q, z, y, x)
         + if q.Minus(position) == Int3(x, y, z) then BrushDelta(sqrt, size, position, block, q) else 0.0
  {
  }

  /** The end of a row of X offsets is the start of the next row. */
  lemma PartialNextRow(sqrt: real -> real, size: int, position: Int3, block: Block, q: Int3, z: int, y: int)
    ensures PartialBrush(sqrt, size, position, block, q, z, y, Radius)
      == PartialBrush(sqrt, size, position, block, q, z, y + 1, -Radius)
  {
  }

  /** The end of a plane of offsets is the start of the next plane. */
  lemma PartialNextPlane(sqrt: real -> real, size: int, position: Int3, block: Block, q: Int3, z: int)
    ensures PartialBrush(sqrt, size, position, block, q, z, Radius, -Radius)
      == PartialBrush(sqrt, size, position, block, q, z + 1, -Radius, -Radius)
  {
  }

  /** Before the first offset nothing is applied; after the last, all of it. */
  lemma PartialEnds(sqrt: real -> real, size: int, position: Int3, block: Block, q: Int3)
    ensures PartialBrush(sqrt, size, position, block, q, -Radius, -Radius, -Radius) == 0.0
    ensures PartialBrush(sqrt, size, position, block, q, Radius + 1, -Radius, -Radius)
      == BrushDelta(sqrt, size, position, block, q)
  {
  }

  /** The buffer after an edit: every position moves by the brush delta of
      the grid point stored there. */
  function Brushed(s: seq<real>, P: int, sqrt: real -> real, size: int, position: Int3, block: Block): (r: seq<real>)
    requires P >= 1
    ensures |r| == |s|
  {
    seq(|s|, i requires 0 <= i < |s| => s[i] + BrushDelta(sqrt, size, position, block, PointOf(P, i)))
  }

  /** Read through grid points: an edit adds the brush delta at every grid
      point. */
  lemma BrushedAt(s: seq<real>, P: int, sqrt: real -> real, size: int, position: Int3, block: Block, q: Int3)
    requires P >= 1 && |s| == P * P * P && InGrid(P, q)
    ensures 0 <= Index(P, q) < |s|
    ensures Brushed(s, P, sqrt, size, position, block)[Index(P, q)] == s[Index(P, q)] + BrushDelta(sqrt, size, position, block, q)
  {
    IndexPointOf(P, q);
  }

  /** `sqrt` is the square root on the non-negative reals: the non-negative
      number whose square is `r` (0 at 0, stated on its own because the solver
      does not derive it from the square). */
  ghost predicate IsSqrt(sqrt: real -> real)
  {
    && NonNegativeRoot(sqrt)
    && forall r :: 0.0 <= r ==> sqrt(r) * sqrt(r) == r
  }

  /** The sign part of IsSqrt: 0 at 0 and never negative. */
  ghost predicate NonNegativeRoot(sqrt: real -> real)
  {
    && sqrt(0.0) == 0.0
    && forall r :: 0.0 <= r ==> 0.0 <= sqrt(r)
  }

  /** A non-negative square root is below 2 exactly when its square is below 4. */
  lemma SqrtBelowTwo(s: real, r: real)
    requires 0.0 <= s && s * s == r
    ensures s < 2.0 <==> r < 4.0
  {
    if s < 2.0 {
      assert s * s <= s * 2.0 < 4.0;
    } else {
      assert s * s >= 2.0 * s >= 4.0;
    }
  }

  /** An edit changes exactly the writable points strictly within distance 2 of
      `position` among the offsets the loop visits. */
  lemma BrushSupport(sqrt: real -> real, size: int, position: Int3, block: Block, q: Int3)
    requires IsSqrt(sqrt)
    ensures var d := q.Minus(position);
      BrushDelta(sqrt, size, position, block, q) != 0.0 <==>
        InBrushBox(d) && Editable(size, q) && d.LengthSquared() < 4
  {
    var r := q.Minus(position).LengthSquared() as real;
    SqrtBelowTwo(sqrt(r), r);
  }

  /** Air raises a point by at most 2, any other block lowers it by at most 2. */
  lemma BrushBounds(sqrt: real -> real, size: int, position: Int3, block: Block, q: Int3)
    requires NonNegativeRoot(sqrt)
    ensures var delta := BrushDelta(sqrt, size, position, block, q);
      if block == Air then 0.0 <= delta <= 2.0 else -2.0 <= delta <= 0.0
  {
    var r := q.Minus(position).LengthSquared() as real;
    var weight := Max(Radius as real - sqrt(r), 0.0);
    assert 0.0 <= weight <= 2.0 by {
      assert 0.0 <= sqrt(r);
    }
    assert BrushDelta(sqrt, size, position, block, q) == 0.0
        || BrushDelta(sqrt, size, position, block, q) == Strength(block, weight);
  }

  /** The amount the brush loop adds at offset `d`, computed as the loop
      computes it (sign times the clamped weight, with the squared length
      summed Z first), is the brush delta of the point it writes. */
  lemma BrushStepDelta(sqrt: real -> real, size: int, position: Int3, block: Block,
                       x: int, y: int, z: int, strength: real, distance: real)
    requires InBrushBox(Int3(x, y, z)) && Editable(size, Int3(x, y, z).Plus(position))
    requires strength == if block == Air then 1.0 else -1.0
    requires distance == sqrt((z * z + y * y + x * x) as real)
    ensures strength * Max(Radius as real - distance, 0.0)
      == BrushDelta(sqrt, size, position, block, Int3(x, y, z).Plus(position))
  {
    var d := Int3(x, y, z);
    assert d.Plus(position).Minus(position) == d;
    assert d.LengthSquared() == z * z + y * y + x * x;
  }

  /** The centre of the brush moves by the full 2. */
  lemma BrushCentre(sqrt: real -> real, size: int, position: Int3, block: Block)
    requires sqrt(0.0) == 0.0 && Editable(size, position)
    ensures BrushDelta(sqrt, size, position, block, position) == if block == Air then 2.0 else -2.0
  {
    var d := position.Minus(position);
    assert d == Int3(0, 0, 0);
  }

  /** The same edit with the symmetric box [-2, 2]^3. */
  function SymmetricBrushDelta(sqrt: real -> real, size: int, position: Int3, block: Block, q: Int3): real
  {
    var d := q.Minus(position);
    if -Radius <= d.x <= Radius && -Radius <= d.y <= Radius && -Radius <= d.z <= Radius && Editable(size, q) then
      Strength(block, Max(Radius as real - sqrt(d.LengthSquared() as real), 0.0))
    else 0.0
  }

  /** The asymmetric loop bounds change nothing: the offsets with Y or X equal
      to 2 that the loop skips lie at distance at least 2, where the weight is 0. */
  lemma BrushAsymmetryHarmless(sqrt: real -> real, size: int, position: Int3, block: Block, q: Int3)
    requires IsSqrt(sqrt)
    ensures BrushDelta(sqrt, size, position, block, q) == SymmetricBrushDelta(sqrt, size, position, block, q)
  {
    var d := q.Minus(position);
    var r := d.LengthSquared() as real;
    SqrtBelowTwo(sqrt(r), r);
    if d.x == Radius || d.y == Radius {
      assert d.LengthSquared() >= 4;
    }
  }

  lemma AppendAssoc(a: seq<int>, b: seq<int>, c: seq<int>)
    ensures (a + b) + c == a + (b + c)
  {
  }

  /** Two triangles appended one after the other: the quad's six indices. */
  lemma AppendTwoTriangles(s: seq<int>, v1: int, v2: int, v3: int, v4: int)
    ensures s + [v1, v2, v3] + [v1, v3, v4] == s + [v1, v2, v3, v1, v3, v4]
  {
    assert [v1, v2, v3] + [v1, v3, v4] == [v1, v2, v3, v1, v3, v4];
    AppendAssoc(s, [v1, v2, v3], [v1, v3, v4]);
  }

  /** A buffer resized to `n` elements: the old prefix is kept and new
      elements are zero. */
  function Resized(s: seq<real>, n: nat): (r: seq<real>)
    ensures |r| == n
    ensures forall i :: 0 <= i < n ==> r[i] == if i < |s| then s[i] else 0.0
  {
    if n <= |s| then s[..n] else s + seq(n - |s|, _ => 0.0)
  }

  class ASurfaceNets {
    /** Blocks per chunk edge. */
    const Size: int
    /** World units per block. */
    const BlockSize: real
    /** The strides (1, P, P^2) of the padded buffer, P = Size + 2. */
    var AxisOffsets: Int3
    /** The density buffer; negative means inside. */
    var Voxels: array<real>
    var VertexCount: int
    /** The mesh data: positions, normals and flattened triangle indices. */
    var Vertices: seq<Vec3>
    var Normals: seq<Vec3>
    var Triangles: seq<int>

    /** The padded edge length: one extra sample on each side. */
    function PaddedSize(): int
    {
      Size + 2
    }

    /** The state Setup establishes. */
    predicate Valid()
      reads this
    {
      && Size >= 0
      && AxisOffsets == AxisStrides(PaddedSize())
      && Voxels.Length == PaddedSize() * PaddedSize() * PaddedSize()
    }

    constructor (size: int, blockSize: real)
      ensures Size == size && BlockSize == blockSize
      ensures AxisOffsets == Int3(0, 0, 0) && Voxels.Length == 0 && VertexCount == 0
      ensures Vertices == [] && Normals == [] && Triangles == []
    {
      Size := size;
      BlockSize := blockSize;
      AxisOffsets := Int3(0, 0, 0);
      Voxels := new real[0];
      VertexCount := 0;
      Vertices := [];
      Normals := [];
      Triangles := [];
    }

    /** Sets the strides and sizes the buffer to P^3 samples, keeping the
        samples it already held and zeroing the new ones. */
    method Setup()
      requires Size >= 0
      modifies this`AxisOffsets, this`Voxels
      ensures Valid() && fresh(Voxels)
      ensures Voxels[..] == Resized(old(Voxels[..]), PaddedSize() * PaddedSize() * PaddedSize())
    {
      var paddedSize := Size + 2;
      AxisOffsets := Int3(1, paddedSize, paddedSize * paddedSize);
      var n := AxisOffsets.y * AxisOffsets.z;
      assert n == paddedSize * paddedSize * paddedSize;
      var voxels := Voxels;
      var resized := new real[n];
      var i := 0;
      while i < n
        modifies resized
        invariant 0 <= i <= n
        invariant forall j :: 0 <= j < i ==> resized[j] == Resized(voxels[..], n)[j]
      {
        resized[i] := if i < voxels.Length then voxels[i] else 0.0;
        i := i + 1;
      }
      Voxels := resized;
    }

    /** The flat index of grid point `p`: the grid layout's index, inside the
        buffer for every grid point. */
    function GetVoxelIndex(p: Int3): (i: int)
      reads this
      ensures Valid() ==> i == Index(PaddedSize(), p)
      ensures Valid() && InGrid(PaddedSize(), p) ==> 0 <= i < Voxels.Length
    {
      var i := p.z * AxisOffsets.z + p.y * AxisOffsets.y + p.x;
      if Valid() && InGrid(PaddedSize(), p) then IndexInRange(PaddedSize(), p); i else i
    }

    /** The surface point and normal of a cell: the mean of the edge
        crossings under `rule`, walking edges 15 down to 0 and stopping after
        edge 12 when the diagonals gave three crossings. `StrictProduct` is
        the test as written; the scan passes `SignBits`. The mean is taken
        only when the walk found a crossing. */
    method ComputeSDFSurface(rule: CrossingRule, cube: seq<real>) returns (outPosition: Vec3, outNormal: Vec3)
      requires |cube| == 8 && SurfaceAccum(rule, cube).Count >= 1
      ensures outPosition == SurfacePoint(rule, cube) && outPosition.Within(0.0, 1.0)
      ensures outNormal == NormalEstimate(cube)
    {
      var positionSum := Zero;
      var intersectionCount := 0;
      var edge := 15;
      while edge >= 0
        invariant -1 <= edge <= 15
        invariant Accum(positionSum, intersectionCount) == AccumFrom(rule, cube, edge + 1)
        invariant edge < 12 ==> AccumFrom(rule, cube, 12).Count < 3
        decreases edge
      {
        positionSum, intersectionCount := WalkEdge(rule, cube, edge, positionSum, intersectionCount);
        if edge == 12 {
          if intersectionCount >= 3 {
            WalkResult(rule, cube, 12, positionSum, intersectionCount);
            break;
          }
        }
        edge := edge - 1;
      }
      if edge < 0 {
        WalkResult(rule, cube, 0, positionSum, intersectionCount);
      }
      outPosition := positionSum.Scale(1.0 / intersectionCount as real);
      outNormal := Vec3(cube[1] - cube[0] + cube[7] - cube[6],
                        cube[2] - cube[0] + cube[7] - cube[5],
                        cube[4] - cube[0] + cube[7] - cube[3]);
    }

    /** One step of the edge walk in ComputeSDFSurface: adds the crossing
        point of edge `edge` to the running sum when the edge passes the
        crossing test of `rule`. */
    static method WalkEdge(rule: CrossingRule, cube: seq<real>, edge: nat, sum: Vec3, count: nat)
      returns (sum': Vec3, count': nat)
      requires |cube| == 8 && edge < 16
      requires Accum(sum, count) == AccumFrom(rule, cube, edge + 1)
      ensures Accum(sum', count') == AccumFrom(rule, cube, edge)
    {
      EdgeEndpoints(edge);
      var v0, v1 := Edges[edge].0, Edges[edge].1;
      var sdf0, sdf1 := cube[v0], cube[v1];
      if Crosses(rule, sdf0, sdf1) {
        var t := CrossingFraction(rule, sdf0, sdf1);
        var intersection := VertexFloats[v0].Plus(VertexFloats[v1].Minus(VertexFloats[v0]).Scale(t));
        WalkStep(rule, cube, edge, v0, v1, sdf0, sdf1, sum, count, t);
        sum', count' := sum.Plus(intersection), count + 1;
      } else {
        WalkStep(rule, cube, edge, v0, v1, sdf0, sdf1, sum, count, 0.0);
        sum', count' := sum, count;
      }
    }

    /** Appends one triangle. */
    method AddTriangle(indexA: int, indexB: int, indexC: int)
      modifies this`Triangles
      ensures Triangles == old(Triangles) + [indexA, indexB, indexC]
    {
      Triangles := Triangles + [indexA];
      Triangles := Triangles + [indexB];
      Triangles := Triangles + [indexC];
    }

    /** The corner loop of the scan: reads the eight corners of cell `p`
        through the precomputed offsets and builds the sign mask. */
    method ReadCube(indexOffsets: array<int>, p: Int3, index: int) returns (cube: array<real>, mask: bv8)
      requires Valid() && IsCell(PaddedSize(), p) && index == Index(PaddedSize(), p)
      requires indexOffsets.Length == 8
      requires forall c :: 0 <= c < 8 ==> indexOffsets[c] == CornerOffset(PaddedSize(), c)
      ensures fresh(cube)
      ensures cube[..] == CellCube(Voxels[..], PaddedSize(), p)
      ensures mask == CellMask(Voxels[..], PaddedSize(), p)
    {
      var P := PaddedSize();
      ghost var g := Voxels[..];
      cube := new real[8];
      mask := 0;
      for corner := 0 to 8
        invariant forall c :: 0 <= c < corner ==> cube[c] == CellCube(g, P, p)[c]
        invariant mask == MaskOf(CellCube(g, P, p), corner)
      {
        CornerInGrid(P, p, corner);
        var value := Voxels[index + indexOffsets[corner]];
        cube[corner] := value;
        mask := mask | SignBit(value, corner);
      }
    }

    /** The axis loop of the scan: for each flagged axis whose three neighbour
        cells exist, two triangles joining cell `p`'s vertex to theirs, read
        from the vertex table. */
    method EmitQuads(ghost g: seq<real>, vertexTable: array<int>, p: Int3, index: int, mask: bv8, vertex1: int)
      requires ValidGrid(g, PaddedSize()) && AxisOffsets == AxisStrides(PaddedSize())
      requires IsCell(PaddedSize(), p) && index == Index(PaddedSize(), p)
      requires mask == CellMask(g, PaddedSize(), p) && vertex1 == Rank(g, PaddedSize(), p)
      requires vertexTable.Length == |g|
      requires TableAgrees(vertexTable[..], g, PaddedSize(), p.z, p.y, p.x + 1)
      modifies this`Triangles
      ensures Triangles == old(Triangles) + QuadsBelow(g, PaddedSize(), p, 3)
    {
      var flags := AxisFlags[(mask & AxisMask) as int];
      for axis := 0 to 3
        invariant Triangles == old(Triangles) + QuadsBelow(g, PaddedSize(), p, axis)
      {
        EmitQuad(g, vertexTable, p, index, mask, flags, vertex1, axis);
        AppendAssoc(old(Triangles), QuadsBelow(g, PaddedSize(), p, axis), Quad(g, PaddedSize(), p, axis));
      }
    }

    /** One pass of the axis loop: the quad perpendicular to `axis`, or nothing
        when the flag is clear or a neighbour would lie outside the grid. */
    method EmitQuad(ghost g: seq<real>, vertexTable: array<int>, p: Int3, index: int, mask: bv8, flags: bv8, vertex1: int, axis: nat)
      requires ValidGrid(g, PaddedSize()) && AxisOffsets == AxisStrides(PaddedSize())
      requires IsCell(PaddedSize(), p) && index == Index(PaddedSize(), p) && axis < 3
      requires mask == CellMask(g, PaddedSize(), p) && vertex1 == Rank(g, PaddedSize(), p)
      requires flags == AxisFlags[(mask & AxisMask) as int]
      requires vertexTable.Length == |g|
      requires TableAgrees(vertexTable[..], g, PaddedSize(), p.z, p.y, p.x + 1)
      modifies this`Triangles
      ensures Triangles == old(Triangles) + Quad(g, PaddedSize(), p, axis)
    {
      var P := PaddedSize();
      FlagTest(flags, axis);
      if flags & ((1 as bv8) << axis) == 0 {
        QuadSkipped(g, P, p, axis);
        return;
      }
      if p.Get(axis) < 1 {
        QuadSkipped(g, P, p, axis);
        return;
      }
      var axisOrtho1 := (axis + 1) % 3;
      assert axisOrtho1 == NextAxis(axis);
      if p.Get(axisOrtho1) < 1 {
        QuadSkipped(g, P, p, axis);
        return;
      }
      var axisOrtho2 := (axis + 2) % 3;
      assert axisOrtho2 == NextAxis(axisOrtho1);
      if p.Get(axisOrtho2) < 1 {
        QuadSkipped(g, P, p, axis);
        return;
      }
      QuadReadsInRange(P, p, axis, index, AxisOffsets);
      var vertex2 := vertexTable[index - AxisOffsets.Get(axisOrtho1)];
      var vertex3 := vertexTable[index - AxisOffsets.Get(axisOrtho1) - AxisOffsets.Get(axisOrtho2)];
      var vertex4 := vertexTable[index - AxisOffsets.Get(axisOrtho2)];
      QuadFromTable(vertexTable[..], g, P, p, axis, mask, flags, index, AxisOffsets, vertex1, vertex2, vertex3, vertex4);
      ghost var quad := QuadOf(mask & 1 != 0, vertex1, vertex2, vertex3, vertex4);
      if mask & 1 != 0 {
        vertex2, vertex4 := vertex4, vertex2;
      }
      assert quad == [vertex1, vertex2, vertex3, vertex1, vertex3, vertex4];
      AddTriangle(vertex1, vertex2, vertex3);
      AddTriangle(vertex1, vertex3, vertex4);
      AppendTwoTriangles(old(Triangles), vertex1, vertex2, vertex3, vertex4);
    }

    /** One step of the scan: cell `p` gets vertex number VertexCount when its
        mask is mixed (recorded in the vertex table, -1 otherwise), its vertex
        and normal are appended, and its quads. */
    method VisitCell(ghost g: seq<real>, vertexTable: array<int>, indexOffsets: array<int>, p: Int3, index: int)
      requires Valid() && g == Voxels[..] && IsCell(PaddedSize(), p) && index == Index(PaddedSize(), p)
      requires indexOffsets.Length == 8 && indexOffsets != vertexTable
      requires forall c :: 0 <= c < 8 ==> indexOffsets[c] == CornerOffset(PaddedSize(), c)
      requires vertexTable.Length == |g|
      requires TableAgrees(vertexTable[..], g, PaddedSize(), p.z, p.y, p.x)
      requires VertexCount == Rank(g, PaddedSize(), p)
      modifies this`VertexCount, this`Vertices, this`Normals, this`Triangles, vertexTable
      ensures VertexCount == CountBefore(g, PaddedSize(), p.z, p.y, p.x + 1)
      ensures MeshData(Vertices, Normals, Triangles)
        == Visit(old(MeshData(Vertices, Normals, Triangles)), g, PaddedSize(), BlockSize, p)
      ensures TableAgrees(vertexTable[..], g, PaddedSize(), p.z, p.y, p.x + 1)
    {
      var P := PaddedSize();
      ghost var m0 := MeshData(Vertices, Normals, Triangles);
      ghost var table := vertexTable[..];
      ghost var hasVertex := CellHasVertex(g, P, p);
      TableRecord(table, g, P, p, index);
      assert CountBefore(g, P, p.z, p.y, p.x + 1) == Rank(g, P, p) + if hasVertex then 1 else 0;
      vertexTable[index] := -1;
      var cube, mask := ReadCube(indexOffsets, p, index);
      assert hasVertex == (mask != 0 && mask < 0xFF);
      if mask != 0 && mask < 0xFF {
        AddCellVertex(g, table, vertexTable, p, index, cube, mask);
      } else {
        assert vertexTable[..] == table[index := VertexId(g, P, p)];
      }
    }

    /** The mixed-cell branch of the scan: records the cell's vertex number,
        appends its vertex (surface point under the sign-bit crossing rule)
        and normal, and emits its quads. */
    method AddCellVertex(ghost g: seq<real>, ghost table: seq<int>, vertexTable: array<int>, p: Int3, index: int,
                         cube: array<real>, mask: bv8)
      requires Valid() && g == Voxels[..] && IsCell(PaddedSize(), p) && index == Index(PaddedSize(), p)
      requires vertexTable.Length == |g| && |table| == |g| && 0 <= index < |g|
      requires vertexTable[..] == table[index := -1]
      requires TableAgrees(table[index := VertexId(g, PaddedSize(), p)], g, PaddedSize(), p.z, p.y, p.x + 1)
      requires cube[..] == CellCube(g, PaddedSize(), p)
      requires mask == CellMask(g, PaddedSize(), p) && mask != 0 && mask < 0xFF
      requires VertexCount == Rank(g, PaddedSize(), p)
      modifies this`VertexCount, this`Vertices, this`Normals, this`Triangles, vertexTable
      ensures VertexCount == Rank(g, PaddedSize(), p) + 1
      ensures MeshData(Vertices, Normals, Triangles)
        == Visit(old(MeshData(Vertices, Normals, Triangles)), g, PaddedSize(), BlockSize, p)
      ensures TableAgrees(vertexTable[..], g, PaddedSize(), p.z, p.y, p.x + 1)
    {
      var P := PaddedSize();
      ghost var m0 := MeshData(Vertices, Normals, Triangles);
      var vertex1 := VertexCount;
      vertexTable[index] := VertexCount;
      assert vertexTable[..] == table[index := VertexId(g, P, p)];
      VertexCount := VertexCount + 1;
      SignBitsCountPositive(cube[..]);
      var vertex, normal := ComputeSDFSurface(SignBits, cube[..]);
      vertex := vertex.Plus(p.ToVec3());
      vertex := vertex.Scale(BlockSize);
      assert vertex == CellVertex(g, P, BlockSize, p);
      Vertices := Vertices + [vertex];
      Normals := Normals + [normal];
      EmitQuads(g, vertexTable, p, index, mask, vertex1);
      AllQuads(g, P, p);
    }

    /** The X loop of GenerateMesh: visits the cells of row (y, z) in order. */
    method MeshRow(vertexTable: array<int>, indexOffsets: array<int>, ghost m0: MeshData, z: int, y: int)
      requires Valid() && 0 <= z < PaddedSize() - 1 && 0 <= y < PaddedSize() - 1
      requires indexOffsets.Length == 8 && indexOffsets != vertexTable
      requires forall c :: 0 <= c < 8 ==> indexOffsets[c] == CornerOffset(PaddedSize(), c)
      requires vertexTable.Length == Voxels.Length
      requires VertexCount == CountBefore(Voxels[..], PaddedSize(), z, y, 0)
      requires MeshData(Vertices, Normals, Triangles) == Append(m0, MeshBefore(Voxels[..], PaddedSize(), BlockSize, z, y, 0))
      requires TableAgrees(vertexTable[..], Voxels[..], PaddedSize(), z, y, 0)
      modifies this`VertexCount, this`Vertices, this`Normals, this`Triangles, vertexTable
      ensures VertexCount == CountBefore(Voxels[..], PaddedSize(), z, y, PaddedSize() - 1)
      ensures MeshData(Vertices, Normals, Triangles) == Append(m0, MeshBefore(Voxels[..], PaddedSize(), BlockSize, z, y, PaddedSize() - 1))
      ensures TableAgrees(vertexTable[..], Voxels[..], PaddedSize(), z, y, PaddedSize() - 1)
    {
      var P := PaddedSize();
      ghost var g := Voxels[..];
      var maxSize := AxisOffsets.y - 1;
      var x := 0;
      var index := GetVoxelIndex(Int3(x, y, z));
      while x < maxSize
        modifies this`VertexCount, this`Vertices, this`Normals, this`Triangles, vertexTable
        invariant 0 <= x <= maxSize
        invariant index == Index(P, Int3(x, y, z))
        invariant VertexCount == CountBefore(g, P, z, y, x)
        invariant MeshData(Vertices, Normals, Triangles) == Append(m0, MeshBefore(g, P, BlockSize, z, y, x))
        invariant TableAgrees(vertexTable[..], g, P, z, y, x)
      {
        ghost var before := MeshBefore(g, P, BlockSize, z, y, x);
        VisitCell(g, vertexTable, indexOffsets, Int3(x, y, z), index);
        AppendVisit(m0, before, g, P, BlockSize, Int3(x, y, z));
        x := x + 1;
        index := index + 1;
      }
    }

    /** The Z/Y/X scan over all cells. VertexCount ends as the number of cells
        with a mixed mask, and the vertices, normals and triangles of the mesh
        are appended to the existing mesh data. */
    method GenerateMesh()
      requires Valid()
      modifies this`VertexCount, this`Vertices, this`Normals, this`Triangles
      ensures Valid()
      ensures VertexCount == CountBefore(Voxels[..], PaddedSize(), PaddedSize() - 1, 0, 0)
      ensures MeshData(Vertices, Normals, Triangles)
        == Append(old(MeshData(Vertices, Normals, Triangles)), Mesh(Voxels[..], PaddedSize(), BlockSize))
      ensures old(Vertices) == [] && old(Normals) == [] && old(Triangles) == [] ==>
        WellFormedMesh(MeshData(Vertices, Normals, Triangles), VertexCount)
    {
      var P := PaddedSize();
      ghost var g := Voxels[..];
      ghost var m0 := MeshData(Vertices, Normals, Triangles);
      var vertexTable := new int[Voxels.Length];
      VertexCount := 0;
      var maxSize := AxisOffsets.y - 1;
      var indexOffsets := new int[8];
      for corner := 0 to 8
        modifies indexOffsets
        invariant forall c :: 0 <= c < corner ==> indexOffsets[c] == CornerOffset(P, c)
      {
        indexOffsets[corner] := GetVoxelIndex(VertexOffset[corner]);
      }
      assert Append(m0, MeshBefore(g, P, BlockSize, 0, 0, 0)) == m0;
      TableStart(vertexTable[..], g, P);
      var z := 0;
      while z < maxSize
        modifies this`VertexCount, this`Vertices, this`Normals, this`Triangles, vertexTable
        invariant 0 <= z <= maxSize
        invariant VertexCount == CountBefore(g, P, z, 0, 0)
        invariant MeshData(Vertices, Normals, Triangles) == Append(m0, MeshBefore(g, P, BlockSize, z, 0, 0))
        invariant TableAgrees(vertexTable[..], g, P, z, 0, 0)
      {
        var y := 0;
        while y < maxSize
          modifies this`VertexCount, this`Vertices, this`Normals, this`Triangles, vertexTable
          invariant 0 <= y <= maxSize
          invariant VertexCount == CountBefore(g, P, z, y, 0)
          invariant MeshData(Vertices, Normals, Triangles) == Append(m0, MeshBefore(g, P, BlockSize, z, y, 0))
          invariant TableAgrees(vertexTable[..], g, P, z, y, 0)
        {
          MeshRow(vertexTable, indexOffsets, m0, z, y);
          TableNextRow(vertexTable[..], g, P, z, y);
          y := y + 1;
        }
        TableNextPlane(vertexTable[..], g, P, z);
        z := z + 1;
      }
      MeshWellFormed(g, P, BlockSize);
      assert m0 == MeshData([], [], []) ==> Append(m0, Mesh(g, P, BlockSize)) == Mesh(g, P, BlockSize);
    }

    /** The X loop of ModifyVoxelData for brush offsets (., countY, countZ). */
    method BrushRow(ghost orig: seq<real>, position: Int3, block: Block, sqrt: real -> real, strength: real,
                    countZ: int, countY: int)
      requires Valid() && |orig| == Voxels.Length
      requires strength == if block == Air then 1.0 else -1.0
      requires -Radius <= countZ <= Radius && -Radius <= countY < Radius
      requires forall j :: 0 <= j < Voxels.Length ==>
        Voxels[j] == orig[j] + PartialBrush(sqrt, Size, position, block, PointOf(PaddedSize(), j), countZ, countY, -Radius)
      modifies Voxels
      ensures forall j :: 0 <= j < Voxels.Length ==>
        Voxels[j] == orig[j] + PartialBrush(sqrt, Size, position, block, PointOf(PaddedSize(), j), countZ, countY, Radius)
    {
      var P := PaddedSize();
      var countX := -Radius;
      while countX < Radius
        invariant -Radius <= countX <= Radius
        invariant forall j :: 0 <= j < Voxels.Length ==>
          Voxels[j] == orig[j] + PartialBrush(sqrt, Size, position, block, PointOf(P, j), countZ, countY, countX)
      {
        var count := Int3(countX, countY, countZ);
        var coordinate := count.Plus(position);
        if coordinate.x >= 0 && coordinate.x <= Size &&
           coordinate.y >= 0 && coordinate.y <= Size &&
           coordinate.z >= 0 && coordinate.z <= Size
        {
          var distance := sqrt((countZ * countZ + countY * countY + countX * countX) as real);
          var i := GetVoxelIndex(coordinate);
          IndexPointOf(P, coordinate);
          BrushStepDelta(sqrt, Size, position, block, countX, countY, countZ, strength, distance);
          Voxels[i] := Voxels[i] + strength * Max(Radius as real - distance, 0.0);
          forall j | 0 <= j < Voxels.Length
            ensures Voxels[j] == orig[j] + PartialBrush(sqrt, Size, position, block, PointOf(P, j), countZ, countY, countX + 1)
          {
            PartialStep(sqrt, Size, position, block, PointOf(P, j), countZ, countY, countX);
            if j != i {
              PointOfIndex(P, j);
              assert PointOf(P, j) != coordinate;
            }
          }
        } else {
          forall j | 0 <= j < Voxels.Length
            ensures Voxels[j] == orig[j] + PartialBrush(sqrt, Size, position, block, PointOf(P, j), countZ, countY, countX + 1)
          {
            PartialStep(sqrt, Size, position, block, PointOf(P, j), countZ, countY, countX);
          }
        }
        countX := countX + 1;
      }
    }

    /** Adds the radius-2 brush around `position` in place: every sample
        moves by the brush delta of its grid point. `sqrt` stands for the
        square root the source calls. */
    method ModifyVoxelData(position: Int3, block: Block, sqrt: real -> real)
      requires Valid()
      modifies Voxels
      ensures Valid()
      ensures Voxels[..] == Brushed(old(Voxels[..]), PaddedSize(), sqrt, Size, position, block)
    {
      var P := PaddedSize();
      var strength := if block == Air then 1.0 else -1.0;
      var countZ := -Radius;
      forall j | 0 <= j < Voxels.Length
        ensures PartialBrush(sqrt, Size, position, block, PointOf(P, j), countZ, -Radius, -Radius) == 0.0
      {
        PartialEnds(sqrt, Size, position, block, PointOf(P, j));
      }
      while countZ <= Radius
        invariant -Radius <= countZ <= Radius + 1
        invariant forall j :: 0 <= j < Voxels.Length ==>
          Voxels[j] == old(Voxels[j]) + PartialBrush(sqrt, Size, position, block, PointOf(P, j), countZ, -Radius, -Radius)
      {
        var countY := -Radius;
        while countY < Radius
          invariant -Radius <= countY <= Radius
          invariant forall j :: 0 <= j < Voxels.Length ==>
            Voxels[j] == old(Voxels[j]) + PartialBrush(sqrt, Size, position, block, PointOf(P, j), countZ, countY, -Radius)
        {
          BrushRow(old(Voxels[..]), position, block, sqrt, strength, countZ, countY);
          forall j | 0 <= j < Voxels.Length
            ensures PartialBrush(sqrt, Size, position, block, PointOf(P, j), countZ, countY, Radius)
              == PartialBrush(sqrt, Size, position, block, PointOf(P, j), countZ, countY + 1, -Radius)
          {
            PartialNextRow(sqrt, Size, position, block, PointOf(P, j), countZ, countY);
          }
          countY := countY + 1;
        }
        forall j | 0 <= j < Voxels.Length
          ensures PartialBrush(sqrt, Size, position, block, PointOf(P, j), countZ, Radius, -Radius)
            == PartialBrush(sqrt, Size, position, block, PointOf(P, j), countZ + 1, -Radius, -Radius)
        {
          PartialNextPlane(sqrt, Size, position, block, PointOf(P, j), countZ);
        }
        countZ := countZ + 1;
      }
      forall j | 0 <= j < Voxels.Length
        ensures PartialBrush(sqrt, Size, position, block, PointOf(P, j), Radius + 1, -Radius, -Radius)
          == BrushDelta(sqrt, Size, position, block, PointOf(P, j))
      {
        PartialEnds(sqrt, Size, position, block, PointOf(P, j));
      }
    }

  }
}
