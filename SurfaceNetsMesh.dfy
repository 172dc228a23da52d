/** The mesh that one forward scan of the grid produces, defined without a
    vertex table: a cell's vertex number is its rank, the number of cells with
    a vertex that precede it in scan order (Z outer, Y middle, X inner). */
module SurfaceNetsMesh {
  import opened Vectors
  import opened SurfaceNetsTables
  import opened SurfaceNetsGrid
  import opened SurfaceNetsCell

  /** Vertex positions, normals (index-aligned) and flattened triangle indices. */
  datatype MeshData = MeshData(Vertices: seq<Vec3>, Normals: seq<Vec3>, Triangles: seq<int>)

  function CellMask(g: seq<real>, P: int, p: Int3): bv8
    requires ValidGrid(g, P) && IsCell(P, p)
  {
    CornerMask(CellCube(g, P, p))
  }

  /** A cell gets a vertex when the surface passes through it. */
  predicate CellHasVertex(g: seq<real>, P: int, p: Int3)
    requires ValidGrid(g, P) && IsCell(P, p)
  {
    HasSurface(CellMask(g, P, p))
  }

  /** A point of the scan: about to visit cell (x, y, z), where x == P - 1
      means "the row is finished" and y == P - 1 "the plane is finished". */
  predicate ScanPos(P: int, z: nat, y: nat, x: nat)
  {
    x <= P - 1 && y <= P - 1 && z <= P - 1 &&
    (x > 0 ==> y < P - 1) && (x > 0 || y > 0 ==> z < P - 1)
  }

  /** Cell `q` is visited before the scan reaches (x, y, z). */
  predicate ScanBefore(q: Int3, z: int, y: int, x: int)
  {
    q.z < z || (q.z == z && (q.y < y || (q.y == y && q.x < x)))
  }

  /** The number of cells with a vertex visited before (x, y, z). */
  function CountBefore(g: seq<real>, P: int, z: nat, y: nat, x: nat): nat
    requires ValidGrid(g, P) && ScanPos(P, z, y, x)
    decreases z, y, x
  {
    if x > 0 then
      CountBefore(g, P, z, y, x - 1) + (if CellHasVertex(g, P, Int3(x - 1, y, z)) then 1 else 0)
    else if y > 0 then CountBefore(g, P, z, y - 1, P - 1)
    else if z > 0 then CountBefore(g, P, z - 1, P - 1, 0)
    else 0
  }

  /** The number a vertex at cell `p` receives. */
  function Rank(g: seq<real>, P: int, p: Int3): nat
    requires ValidGrid(g, P) && IsCell(P, p)
  {
    CountBefore(g, P, p.z, p.y, p.x)
  }

  /** What the vertex table records for cell `q`: its vertex number, or -1. */
  function VertexId(g: seq<real>, P: int, q: Int3): int
    requires ValidGrid(g, P) && IsCell(P, q)
  {
    if CellHasVertex(g, P, q) then Rank(g, P, q) else -1
  }

  /** The two triangles a cell with a vertex emits perpendicular to `axis`:
      the quad joining its vertex to the vertices of the three cells behind it
      in the two other axes, wound the other way when corner 0 is inside.
      Both triangles start at the cell's own vertex. */
  function Quad(g: seq<real>, P: int, p: Int3, axis: nat): (q: seq<int>)
    requires ValidGrid(g, P) && IsCell(P, p) && axis < 3
    ensures |q| == 0 || (|q| == 6 && q[0] == Rank(g, P, p) && q[3] == Rank(g, P, p))
    ensures p.x == 0 || p.y == 0 || p.z == 0 ==> q == []
  {
    var mask := CellMask(g, P, p);
    var o1, o2 := NextAxis(axis), NextAxis(NextAxis(axis));
    if Bit(AxisFlags[(mask & AxisMask) as int], axis) && p.Get(axis) >= 1 && p.Get(o1) >= 1 && p.Get(o2) >= 1 then
      var v1 := Rank(g, P, p);
      var v2 := VertexId(g, P, p.Minus(Unit(o1)));
      var v3 := VertexId(g, P, p.Minus(Unit(o1)).Minus(Unit(o2)));
      var v4 := VertexId(g, P, p.Minus(Unit(o2)));
      QuadOf(Bit(mask, 0), v1, v2, v3, v4)
    else []
  }

  /** The two triangles (v1, v2, v3) and (v1, v3, v4) of a quad, with the
      winding reversed when `flip` holds. */
  function QuadOf(flip: bool, v1: int, v2: int, v3: int, v4: int): seq<int>
  {
    if flip then [v1, v4, v3, v1, v3, v2] else [v1, v2, v3, v1, v3, v4]
  }

  /** A quad's indices are its four vertex numbers, each used by a triangle. */
  lemma QuadOfIndices(flip: bool, v1: int, v2: int, v3: int, v4: int, hi: int)
    requires 0 <= v1 <= hi && 0 <= v2 <= hi && 0 <= v3 <= hi && 0 <= v4 <= hi
    ensures forall i :: 0 <= i < 6 ==> 0 <= QuadOf(flip, v1, v2, v3, v4)[i] <= hi
  {
  }

  /** The triangle indices cell `p` emits: whole quads, at most one per axis,
      and none for a cell without a vertex or on the minimum face of the grid. */
  function CellTriangles(g: seq<real>, P: int, p: Int3): (t: seq<int>)
    requires ValidGrid(g, P) && IsCell(P, p)
    ensures |t| % 6 == 0 && |t| <= 18
    ensures !CellHasVertex(g, P, p) || p.x == 0 || p.y == 0 || p.z == 0 ==> t == []
  {
    if CellHasVertex(g, P, p) then
      var q0, q1, q2 := Quad(g, P, p, 0), Quad(g, P, p, 1), Quad(g, P, p, 2);
      QuadLengths(|q0|, |q1|, |q2|);
      q0 + q1 + q2
    else []
  }

  lemma QuadLengths(a: nat, b: nat, c: nat)
    requires a in {0, 6} && b in {0, 6} && c in {0, 6}
    ensures (a + b + c) % 6 == 0 && a + b + c <= 18
  {
  }

  /** The quads of the axes below `n`, in axis order. */
  function QuadsBelow(g: seq<real>, P: int, p: Int3, n: nat): seq<int>
    requires ValidGrid(g, P) && IsCell(P, p) && n <= 3
  {
    if n == 0 then [] else QuadsBelow(g, P, p, n - 1) + Quad(g, P, p, n - 1)
  }

  /** The vertex position of a cell: its surface point (crossings read off
      the sign bits, as the mask reads them), moved to the cell and
      scaled by the block size. */
  function CellVertex(g: seq<real>, P: int, blockSize: real, p: Int3): Vec3
    requires ValidGrid(g, P) && IsCell(P, p) && CellHasVertex(g, P, p)
  {
    SignBitsCountPositive(CellCube(g, P, p));
    SurfacePoint(SignBits, CellCube(g, P, p)).Plus(p.ToVec3()).Scale(blockSize)
  }

  /** The output of visiting cell `p`. */
  function Visit(m: MeshData, g: seq<real>, P: int, blockSize: real, p: Int3): MeshData
    requires ValidGrid(g, P) && IsCell(P, p)
  {
    if CellHasVertex(g, P, p) then
      MeshData(m.Vertices + [CellVertex(g, P, blockSize, p)],
               m.Normals + [NormalEstimate(CellCube(g, P, p))],
               m.Triangles + CellTriangles(g, P, p))
    else m
  }

  /** `b` appended to mesh `a`, field by field. */
  function Append(a: MeshData, b: MeshData): MeshData
  {
    MeshData(a.Vertices + b.Vertices, a.Normals + b.Normals, a.Triangles + b.Triangles)
  }

  /** Visiting a cell after earlier output appends what the visit alone appends. */
  lemma AppendVisit(m0: MeshData, m: MeshData, g: seq<real>, P: int, blockSize: real, p: Int3)
    requires ValidGrid(g, P) && IsCell(P, p)
    ensures Append(m0, Visit(m, g, P, blockSize, p)) == Visit(Append(m0, m), g, P, blockSize, p)
  {
    if CellHasVertex(g, P, p) {
      var v, n, t := CellVertex(g, P, blockSize, p), NormalEstimate(CellCube(g, P, p)), CellTriangles(g, P, p);
      assert m0.Vertices + (m.Vertices + [v]) == (m0.Vertices + m.Vertices) + [v];
      assert m0.Normals + (m.Normals + [n]) == (m0.Normals + m.Normals) + [n];
      assert m0.Triangles + (m.Triangles + t) == (m0.Triangles + m.Triangles) + t;
    }
  }

  /** The vertex table after the scan has reached (x, y, z): every cell
      visited so far holds its vertex number, or -1. */
  ghost predicate TableAgrees(t: seq<int>, g: seq<real>, P: int, z: int, y: int, x: int)
    requires ValidGrid(g, P)
  {
    forall q {:trigger VertexId(g, P, q)} :: IsCell(P, q) && ScanBefore(q, z, y, x) ==>
      0 <= Index(P, q) < |t| && t[Index(P, q)] == VertexId(g, P, q)
  }

  /** Before the scan nothing has been visited, so any table agrees. */
  lemma TableStart(t: seq<int>, g: seq<real>, P: int)
    requires ValidGrid(g, P)
    ensures TableAgrees(t, g, P, 0, 0, 0)
  {
  }

  /** Recording cell `p`'s entry extends the table past `p`. */
  lemma TableRecord(t: seq<int>, g: seq<real>, P: int, p: Int3, index: int)
    requires ValidGrid(g, P) && IsCell(P, p) && |t| == |g| && index == Index(P, p)
    requires TableAgrees(t, g, P, p.z, p.y, p.x)
    ensures 0 <= index < |t|
    ensures TableAgrees(t[index := VertexId(g, P, p)], g, P, p.z, p.y, p.x + 1)
  {
    IndexInRange(P, p);
    var t' := t[index := VertexId(g, P, p)];
    forall q | IsCell(P, q) && ScanBefore(q, p.z, p.y, p.x + 1)
      ensures 0 <= Index(P, q) < |t'| && t'[Index(P, q)] == VertexId(g, P, q)
    {
      IndexInRange(P, q);
      if q != p {
        assert ScanBefore(q, p.z, p.y, p.x);
        if Index(P, q) == index {
          IndexInjective(P, q, p);
        }
        assert t'[Index(P, q)] == t[Index(P, q)];
      }
    }
  }

  /** A finished row (or plane) leaves the table agreeing at the start of the next. */
  lemma TableNextRow(t: seq<int>, g: seq<real>, P: int, z: int, y: int)
    requires ValidGrid(g, P) && TableAgrees(t, g, P, z, y, P - 1)
    ensures TableAgrees(t, g, P, z, y + 1, 0)
  {
    forall q | IsCell(P, q) && ScanBefore(q, z, y + 1, 0)
      ensures 0 <= Index(P, q) < |t| && t[Index(P, q)] == VertexId(g, P, q)
    {
      var id := VertexId(g, P, q);
      assert ScanBefore(q, z, y, P - 1);
    }
  }

  /** A finished plane leaves the table agreeing at the start of the next. */
  lemma TableNextPlane(t: seq<int>, g: seq<real>, P: int, z: int)
    requires ValidGrid(g, P) && TableAgrees(t, g, P, z, P - 1, 0)
    ensures TableAgrees(t, g, P, z + 1, 0, 0)
  {
    forall q | IsCell(P, q) && ScanBefore(q, z + 1, 0, 0)
      ensures 0 <= Index(P, q) < |t| && t[Index(P, q)] == VertexId(g, P, q)
    {
      var id := VertexId(g, P, q);
      assert ScanBefore(q, z, P - 1, 0);
    }
  }

  /** The three table positions the axis loop reads for a flagged quad lie
      inside the buffer: one stride (or two) below the cell's index. */
  lemma QuadReadsInRange(P: int, p: Int3, axis: nat, index: int, offsets: Int3)
    requires P >= 2 && IsCell(P, p) && axis < 3
    requires index == Index(P, p) && offsets == AxisStrides(P)
    requires p.Get(axis) >= 1 && p.Get((axis + 1) % 3) >= 1 && p.Get((axis + 2) % 3) >= 1
    ensures && 0 <= index - offsets.Get((axis + 1) % 3) < P * P * P
            && 0 <= index - offsets.Get((axis + 1) % 3) - offsets.Get((axis + 2) % 3) < P * P * P
            && 0 <= index - offsets.Get((axis + 2) % 3) < P * P * P
  {
    assert NextAxis(axis) == (axis + 1) % 3 && NextAxis(NextAxis(axis)) == (axis + 2) % 3;
    NeighbourIndices(P, p, axis);
    var o1, o2 := NextAxis(axis), NextAxis(NextAxis(axis));
    var n1, n3 := p.Minus(Unit(o1)), p.Minus(Unit(o2));
    IndexInRange(P, n1);
    IndexInRange(P, n1.Minus(Unit(o2)));
    IndexInRange(P, n3);
  }

  /** A flagged quad read through the vertex table: the three cells behind it
      were visited already, so the values the axis loop reads at one stride
      (or two) below the cell's index are their vertex numbers, and the quad
      it assembles, with the winding chosen by `mask & 1`, is the cell's quad.
      Stated with the loop's own tests: the flag bit and the axes
      (axis + 1) % 3 and (axis + 2) % 3. */
  lemma QuadFromTable(t: seq<int>, g: seq<real>, P: int, p: Int3, axis: nat,
                      mask: bv8, flags: bv8, index: int, offsets: Int3,
                      v1: int, v2: int, v3: int, v4: int)
    requires ValidGrid(g, P) && IsCell(P, p) && axis < 3
    requires TableAgrees(t, g, P, p.z, p.y, p.x + 1) && |t| == |g|
    requires mask == CellMask(g, P, p) && flags == AxisFlags[(mask & AxisMask) as int]
    requires index == Index(P, p) && offsets == AxisStrides(P)
    requires flags & ((1 as bv8) << axis) != 0
    requires p.Get(axis) >= 1 && p.Get((axis + 1) % 3) >= 1 && p.Get((axis + 2) % 3) >= 1
    requires && 0 <= index - offsets.Get((axis + 1) % 3) < |t|
             && 0 <= index - offsets.Get((axis + 1) % 3) - offsets.Get((axis + 2) % 3) < |t|
             && 0 <= index - offsets.Get((axis + 2) % 3) < |t|
    requires v1 == Rank(g, P, p)
    requires v2 == t[index - offsets.Get((axis + 1) % 3)]
    requires v3 == t[index - offsets.Get((axis + 1) % 3) - offsets.Get((axis + 2) % 3)]
    requires v4 == t[index - offsets.Get((axis + 2) % 3)]
    ensures Quad(g, P, p, axis) == QuadOf(mask & 1 != 0, v1, v2, v3, v4)
  {
    var o1, o2 := NextAxis(axis), NextAxis(NextAxis(axis));
    assert o1 == (axis + 1) % 3 && o2 == (axis + 2) % 3;
    FlagTest(flags, axis);
    WindingTest(mask);
    var n1, n3 := p.Minus(Unit(o1)), p.Minus(Unit(o2));
    var n2 := n1.Minus(Unit(o2));
    NeighbourIndices(P, p, axis);
    TableLookup(t, g, P, p, n1);
    TableLookup(t, g, P, p, n2);
    TableLookup(t, g, P, p, n3);
  }

  /** The three cells behind a flagged cell, in terms of the strides. */
  lemma NeighbourIndices(P: int, p: Int3, axis: nat)
    requires P >= 2 && IsCell(P, p) && axis < 3
    requires p.Get(axis) >= 1 && p.Get(NextAxis(axis)) >= 1 && p.Get(NextAxis(NextAxis(axis))) >= 1
    ensures var o1, o2 := NextAxis(axis), NextAxis(NextAxis(axis));
      var n1, n3 := p.Minus(Unit(o1)), p.Minus(Unit(o2));
      var n2 := n1.Minus(Unit(o2));
      && IsCell(P, n1) && IsCell(P, n2) && IsCell(P, n3)
      && ScanBefore(n1, p.z, p.y, p.x + 1) && ScanBefore(n2, p.z, p.y, p.x + 1) && ScanBefore(n3, p.z, p.y, p.x + 1)
      && Index(P, n1) == Index(P, p) - AxisStrides(P).Get(o1)
      && Index(P, n2) == Index(P, p) - AxisStrides(P).Get(o1) - AxisStrides(P).Get(o2)
      && Index(P, n3) == Index(P, p) - AxisStrides(P).Get(o2)
  {
    var o1, o2 := NextAxis(axis), NextAxis(NextAxis(axis));
    QuadGeometry(P, p, axis);
    var n1 := p.Minus(Unit(o1));
    StepBack(P, p, o1);
    StepBack(P, n1, o2);
    StepBack(P, p, o2);
  }

  /** An entry of an agreeing table for a cell visited already. */
  lemma TableLookup(t: seq<int>, g: seq<real>, P: int, p: Int3, q: Int3)
    requires ValidGrid(g, P) && IsCell(P, q) && ScanBefore(q, p.z, p.y, p.x + 1)
    requires TableAgrees(t, g, P, p.z, p.y, p.x + 1)
    ensures 0 <= Index(P, q) < |t| && t[Index(P, q)] == VertexId(g, P, q)
  {
    var id := VertexId(g, P, q);
  }

  /** No quad when the flag is clear or a neighbour along `axis` or one of
      the two other axes would lie below the grid. */
  lemma QuadSkipped(g: seq<real>, P: int, p: Int3, axis: nat)
    requires ValidGrid(g, P) && IsCell(P, p) && axis < 3
    requires || !Bit(AxisFlags[(CellMask(g, P, p) & AxisMask) as int], axis)
             || p.Get(axis) < 1 || p.Get(NextAxis(axis)) < 1 || p.Get(NextAxis(NextAxis(axis))) < 1
    ensures Quad(g, P, p, axis) == []
  {
  }

  /** The three axis passes together emit the cell's triangles. */
  lemma AllQuads(g: seq<real>, P: int, p: Int3)
    requires ValidGrid(g, P) && IsCell(P, p) && CellHasVertex(g, P, p)
    ensures QuadsBelow(g, P, p, 3) == CellTriangles(g, P, p)
  {
    assert QuadsBelow(g, P, p, 1) == Quad(g, P, p, 0);
  }

  /** The mesh produced by the cells visited before (x, y, z). */
  function MeshBefore(g: seq<real>, P: int, blockSize: real, z: nat, y: nat, x: nat): MeshData
    requires ValidGrid(g, P) && ScanPos(P, z, y, x)
    decreases z, y, x
  {
    if x > 0 then Visit(MeshBefore(g, P, blockSize, z, y, x - 1), g, P, blockSize, Int3(x - 1, y, z))
    else if y > 0 then MeshBefore(g, P, blockSize, z, y - 1, P - 1)
    else if z > 0 then MeshBefore(g, P, blockSize, z - 1, P - 1, 0)
    else MeshData([], [], [])
  }

  /** The mesh of the whole grid. */
  function Mesh(g: seq<real>, P: int, blockSize: real): MeshData
    requires ValidGrid(g, P)
  {
    MeshBefore(g, P, blockSize, P - 1, 0, 0)
  }

  /** Ranks follow scan order: a cell with a vertex visited before (x, y, z)
      has a rank below the count there. */
  lemma {:induction false} RankBelow(g: seq<real>, P: int, q: Int3, z: nat, y: nat, x: nat)
    requires ValidGrid(g, P) && IsCell(P, q) && ScanPos(P, z, y, x) && ScanBefore(q, z, y, x)
    ensures Rank(g, P, q) + (if CellHasVertex(g, P, q) then 1 else 0) <= CountBefore(g, P, z, y, x)
    decreases z, y, x
  {
    if x > 0 {
      if q != Int3(x - 1, y, z) {
        RankBelow(g, P, q, z, y, x - 1);
      }
    } else if y > 0 {
      RankBelow(g, P, q, z, y - 1, P - 1);
    } else {
      RankBelow(g, P, q, z - 1, P - 1, 0);
    }
  }

  /** A cell that flags axis `a` shares the edge from its corner 0 along `a`
      with cell `q`, where that edge runs from q's corner k0 to its corner k1;
      the sign change on that edge gives `q` a vertex. */
  lemma SharedEdgeHasVertex(g: seq<real>, P: int, p: Int3, a: nat, q: Int3, k0: nat, k1: nat)
    requires ValidGrid(g, P) && IsCell(P, p) && IsCell(P, q) && a < 3 && k0 < 8 && k1 < 8
    requires q.Plus(VertexOffset[k0]) == p && q.Plus(VertexOffset[k1]) == p.Plus(Unit(a))
    requires Bit(CellMask(g, P, p), 0) != Bit(CellMask(g, P, p), AxisCorner(a))
    ensures CellHasVertex(g, P, q)
  {
    var ca, e1 := AxisCorner(a), p.Plus(Unit(a));
    CornerValueAt(g, P, p, 0, p);
    CornerValueAt(g, P, p, ca, e1);
    CornerValueAt(g, P, q, k0, p);
    CornerValueAt(g, P, q, k1, e1);
    var cp, cq := CellCube(g, P, p), CellCube(g, P, q);
    CornerMaskBit(cp, 0);
    CornerMaskBit(cp, ca);
    SurfaceIffMixed(cq);
  }

  /** Corner `k` of cell `q` is the grid point `e`. */
  lemma CornerValueAt(g: seq<real>, P: int, q: Int3, k: nat, e: Int3)
    requires ValidGrid(g, P) && IsCell(P, q) && k < 8 && q.Plus(VertexOffset[k]) == e
    ensures InGrid(P, e) && 0 <= Index(P, e) < |g|
    ensures CellCube(g, P, q)[k] == g[Index(P, e)]
  {
    CornerInGrid(P, q, k);
  }

  /** Where the cells behind a quad sit: q1 = p - e_o1, q2 = p - e_o1 - e_o2
      and q3 = p - e_o2 are cells before `p`, and each holds the edge from `p`
      along `axis` between the two corners named here. */
  lemma QuadGeometry(P: int, p: Int3, axis: nat)
    requires IsCell(P, p) && axis < 3
    requires p.Get(axis) >= 1 && p.Get(NextAxis(axis)) >= 1 && p.Get(NextAxis(NextAxis(axis))) >= 1
    ensures var o1, o2 := NextAxis(axis), NextAxis(NextAxis(axis));
      var c1, c2, ca := AxisCorner(o1), AxisCorner(o2), AxisCorner(axis);
      var q1, q3 := p.Minus(Unit(o1)), p.Minus(Unit(o2));
      var q2 := q1.Minus(Unit(o2));
      && IsCell(P, q1) && IsCell(P, q2) && IsCell(P, q3)
      && q1.Plus(VertexOffset[c1]) == p && q1.Plus(VertexOffset[c1 + ca]) == p.Plus(Unit(axis))
      && q2.Plus(VertexOffset[c1 + c2]) == p && q2.Plus(VertexOffset[7]) == p.Plus(Unit(axis))
      && q3.Plus(VertexOffset[c2]) == p && q3.Plus(VertexOffset[c2 + ca]) == p.Plus(Unit(axis))
      && q1.x <= p.x && q1.y <= p.y && q1.z <= p.z && q1 != p
      && q2.x <= p.x && q2.y <= p.y && q2.z <= p.z && q2 != p
      && q3.x <= p.x && q3.y <= p.y && q3.z <= p.z && q3 != p
  {
    if axis == 0 {
    } else if axis == 1 {
    } else {
    }
  }

  /** The three cells behind a quad already have vertices. */
  lemma QuadNeighboursHaveVertices(g: seq<real>, P: int, p: Int3, a: nat)
    requires ValidGrid(g, P) && IsCell(P, p) && a < 3
    requires Bit(AxisFlags[(CellMask(g, P, p) & AxisMask) as int], a)
    requires p.Get(a) >= 1 && p.Get(NextAxis(a)) >= 1 && p.Get(NextAxis(NextAxis(a))) >= 1
    ensures var o1, o2 := NextAxis(a), NextAxis(NextAxis(a));
      && IsCell(P, p.Minus(Unit(o1))) && CellHasVertex(g, P, p.Minus(Unit(o1)))
      && IsCell(P, p.Minus(Unit(o2))) && CellHasVertex(g, P, p.Minus(Unit(o2)))
      && IsCell(P, p.Minus(Unit(o1)).Minus(Unit(o2))) && CellHasVertex(g, P, p.Minus(Unit(o1)).Minus(Unit(o2)))
  {
    AxisFlagsDecideQuads(CellMask(g, P, p), a);
    QuadGeometry(P, p, a);
    var o1, o2 := NextAxis(a), NextAxis(NextAxis(a));
    var c1, c2, ca := AxisCorner(o1), AxisCorner(o2), AxisCorner(a);
    SharedEdgeHasVertex(g, P, p, a, p.Minus(Unit(o1)), c1, c1 + ca);
    SharedEdgeHasVertex(g, P, p, a, p.Minus(Unit(o2)), c2, c2 + ca);
    SharedEdgeHasVertex(g, P, p, a, p.Minus(Unit(o1)).Minus(Unit(o2)), c1 + c2, 7);
  }

  /** A cell with a vertex, visited before cell `p`, has a vertex number below
      the rank of `p`. */
  lemma EarlierVertexId(g: seq<real>, P: int, p: Int3, n: Int3)
    requires ValidGrid(g, P) && IsCell(P, p) && IsCell(P, n) && CellHasVertex(g, P, n)
    requires n.x <= p.x && n.y <= p.y && n.z <= p.z && n != p
    ensures 0 <= VertexId(g, P, n) < Rank(g, P, p)
  {
    RankBelow(g, P, n, p.z, p.y, p.x);
  }

  /** The vertices behind a flagged quad are numbered below the cell's own. */
  lemma QuadNeighbourIds(g: seq<real>, P: int, p: Int3, a: nat)
    requires ValidGrid(g, P) && IsCell(P, p) && a < 3
    requires Bit(AxisFlags[(CellMask(g, P, p) & AxisMask) as int], a)
    requires p.Get(a) >= 1 && p.Get(NextAxis(a)) >= 1 && p.Get(NextAxis(NextAxis(a))) >= 1
    ensures var o1, o2 := NextAxis(a), NextAxis(NextAxis(a));
      && IsCell(P, p.Minus(Unit(o1))) && 0 <= VertexId(g, P, p.Minus(Unit(o1))) < Rank(g, P, p)
      && IsCell(P, p.Minus(Unit(o2))) && 0 <= VertexId(g, P, p.Minus(Unit(o2))) < Rank(g, P, p)
      && IsCell(P, p.Minus(Unit(o1)).Minus(Unit(o2)))
      && 0 <= VertexId(g, P, p.Minus(Unit(o1)).Minus(Unit(o2))) < Rank(g, P, p)
  {
    QuadNeighboursHaveVertices(g, P, p, a);
    QuadGeometry(P, p, a);
    var o1, o2 := NextAxis(a), NextAxis(NextAxis(a));
    var n1 := p.Minus(Unit(o1));
    EarlierVertexId(g, P, p, n1);
    EarlierVertexId(g, P, p, n1.Minus(Unit(o2)));
    EarlierVertexId(g, P, p, p.Minus(Unit(o2)));
  }

  /** Every index a quad emits names an existing vertex: one numbered at most
      the cell's own rank. */
  lemma QuadIndicesValid(g: seq<real>, P: int, p: Int3, a: nat)
    requires ValidGrid(g, P) && IsCell(P, p) && a < 3
    ensures forall i :: 0 <= i < |Quad(g, P, p, a)| ==> 0 <= Quad(g, P, p, a)[i] <= Rank(g, P, p)
  {
    var mask := CellMask(g, P, p);
    if Bit(AxisFlags[(mask & AxisMask) as int], a) && p.Get(a) >= 1 && p.Get(NextAxis(a)) >= 1 && p.Get(NextAxis(NextAxis(a))) >= 1 {
      QuadNeighbourIds(g, P, p, a);
      var o1, o2 := NextAxis(a), NextAxis(NextAxis(a));
      QuadOfIndices(Bit(mask, 0), Rank(g, P, p), VertexId(g, P, p.Minus(Unit(o1))),
        VertexId(g, P, p.Minus(Unit(o1)).Minus(Unit(o2))), VertexId(g, P, p.Minus(Unit(o2))), Rank(g, P, p));
    }
  }

  /** Every index a cell emits names a vertex numbered at most its own rank. */
  lemma CellTrianglesValid(g: seq<real>, P: int, p: Int3)
    requires ValidGrid(g, P) && IsCell(P, p)
    ensures forall i :: 0 <= i < |CellTriangles(g, P, p)| ==> 0 <= CellTriangles(g, P, p)[i] <= Rank(g, P, p)
  {
    if CellHasVertex(g, P, p) {
      QuadIndicesValid(g, P, p, 0);
      QuadIndicesValid(g, P, p, 1);
      QuadIndicesValid(g, P, p, 2);
      var q0, q1, q2 := Quad(g, P, p, 0), Quad(g, P, p, 1), Quad(g, P, p, 2);
      assert CellTriangles(g, P, p) == q0 + q1 + q2;
      forall i | 0 <= i < |q0 + q1 + q2| ensures 0 <= (q0 + q1 + q2)[i] <= Rank(g, P, p) {
        if i < |q0| {
        } else if i < |q0| + |q1| {
          assert (q0 + q1 + q2)[i] == q1[i - |q0|];
        } else {
          assert (q0 + q1 + q2)[i] == q2[i - |q0| - |q1|];
        }
      }
    }
  }

  /** A mesh with `n` vertices, as many normals, whole triangles, and every
      triangle index naming one of the vertices. */
  predicate WellFormedMesh(m: MeshData, n: nat)
  {
    && |m.Vertices| == n && |m.Normals| == n && |m.Triangles| % 3 == 0
    && forall i :: 0 <= i < |m.Triangles| ==> 0 <= m.Triangles[i] < n
  }

  lemma WholeTriangles(a: nat, b: nat)
    requires a % 3 == 0 && b % 6 == 0
    ensures (a + b) % 3 == 0
  {
  }

  /** Appending whole quads whose indices are at most `n` to whole triangles
      whose indices are below `n` leaves whole triangles with indices below n + 1. */
  lemma AppendTriangles(ts: seq<int>, t: seq<int>, n: nat)
    requires |ts| % 3 == 0 && |t| % 6 == 0
    requires forall i :: 0 <= i < |ts| ==> 0 <= ts[i] < n
    requires forall i :: 0 <= i < |t| ==> 0 <= t[i] <= n
    ensures |ts + t| % 3 == 0
    ensures forall i :: 0 <= i < |ts + t| ==> 0 <= (ts + t)[i] < n + 1
  {
    WholeTriangles(|ts|, |t|);
    forall i | 0 <= i < |ts + t| ensures 0 <= (ts + t)[i] < n + 1 {
      if i >= |ts| {
        assert (ts + t)[i] == t[i - |ts|];
      }
    }
  }

  /** Visiting a cell keeps the mesh well formed, with one more vertex when the
      cell has one. */
  lemma VisitKeepsWellFormed(m: MeshData, g: seq<real>, P: int, blockSize: real, p: Int3)
    requires ValidGrid(g, P) && IsCell(P, p) && WellFormedMesh(m, Rank(g, P, p))
    ensures WellFormedMesh(Visit(m, g, P, blockSize, p), Rank(g, P, p) + if CellHasVertex(g, P, p) then 1 else 0)
  {
    if CellHasVertex(g, P, p) {
      CellTrianglesValid(g, P, p);
      AppendTriangles(m.Triangles, CellTriangles(g, P, p), Rank(g, P, p));
    }
  }

  /** The mesh of a scan prefix is well formed, with one vertex per counted cell. */
  lemma {:induction false} MeshBeforeWellFormed(g: seq<real>, P: int, blockSize: real, z: nat, y: nat, x: nat)
    requires ValidGrid(g, P) && ScanPos(P, z, y, x)
    ensures WellFormedMesh(MeshBefore(g, P, blockSize, z, y, x), CountBefore(g, P, z, y, x))
    decreases z, y, x
  {
    if x > 0 {
      MeshBeforeWellFormed(g, P, blockSize, z, y, x - 1);
      VisitKeepsWellFormed(MeshBefore(g, P, blockSize, z, y, x - 1), g, P, blockSize, Int3(x - 1, y, z));
    } else if y > 0 {
      MeshBeforeWellFormed(g, P, blockSize, z, y - 1, P - 1);
    } else if z > 0 {
      MeshBeforeWellFormed(g, P, blockSize, z - 1, P - 1, 0);
    }
  }

  /** The whole mesh is well formed and has one vertex per cell with a surface. */
  lemma MeshWellFormed(g: seq<real>, P: int, blockSize: real)
    requires ValidGrid(g, P)
    ensures WellFormedMesh(Mesh(g, P, blockSize), CountBefore(g, P, P - 1, 0, 0))
  {
    MeshBeforeWellFormed(g, P, blockSize, P - 1, 0, 0);
  }

  /** A field with no negative density yields an empty mesh. */
  lemma AllOutsideGivesEmptyMesh(g: seq<real>, P: int, blockSize: real)
    requires ValidGrid(g, P)
    requires forall i :: 0 <= i < |g| ==> !Inside(g[i])
    ensures Mesh(g, P, blockSize) == MeshData([], [], [])
  {
    NoVertexBefore(g, P, blockSize, P - 1, 0, 0);
  }

  lemma {:induction false} NoVertexBefore(g: seq<real>, P: int, blockSize: real, z: nat, y: nat, x: nat)
    requires ValidGrid(g, P) && ScanPos(P, z, y, x)
    requires forall i :: 0 <= i < |g| ==> !Inside(g[i])
    ensures MeshBefore(g, P, blockSize, z, y, x) == MeshData([], [], [])
    decreases z, y, x
  {
    if x > 0 {
      NoVertexBefore(g, P, blockSize, z, y, x - 1);
      var p := Int3(x - 1, y, z);
      var cube := CellCube(g, P, p);
      forall c | 0 <= c < 8 ensures !Inside(cube[c]) {
        CornerInGrid(P, p, c);
      }
      SurfaceIffMixed(cube);
    } else if y > 0 {
      NoVertexBefore(g, P, blockSize, z, y - 1, P - 1);
    } else if z > 0 {
      NoVertexBefore(g, P, blockSize, z - 1, P - 1, 0);
    }
  }
}
