/** The constant lookup tables of the Surface Nets mesher, and the facts about
    them that the mesher relies on. Corner `c` of a cell is the grid point at
    offset (c & 1, (c >> 1) & 1, (c >> 2) & 1) from the cell's minimum corner. */
module SurfaceNetsTables {
  import opened Vectors

  /** Bit `i` of an 8-bit value. */
  predicate Bit(m: bv8, i: nat)
    requires i < 8
  {
    (m >> i) & 1 == 1
  }

  /** The corner reached from corner 0 by one step along `axis`: 1 << axis.
      Corners 1, 2 and 4 sit one unit step along X, Y and Z. */
  function AxisCorner(axis: nat): (c: nat)
    requires axis < 3
    ensures c < 8 && VertexOffset[c] == Unit(axis)
  {
    if axis == 0 then 1 else if axis == 1 then 2 else 4
  }

  /** The axis after `axis` in cyclic order, (axis + 1) % 3. */
  function NextAxis(axis: nat): (n: nat)
    requires axis < 3
    ensures n < 3 && n == (axis + 1) % 3
  {
    if axis == 2 then 0 else axis + 1
  }

  /** The source's flag test `Flags & (1 << Axis)` reads bit `axis`. */
  lemma FlagTest(flags: bv8, axis: nat)
    requires axis < 3
    ensures (flags & ((1 as bv8) << axis) != 0) == Bit(flags, axis)
  {
    assert axis in {0, 1, 2};
  }

  /** The source's winding test `Mask & 1` reads bit 0. */
  lemma WindingTest(mask: bv8)
    ensures (mask & 1 != 0) == Bit(mask, 0)
  {
  }

  /** Only the low five bits of a corner mask select the quad axes. */
  const AxisMask: bv8 := 0x1F

  /** Bit `a` of AxisFlags[m] asks for a quad perpendicular to axis `a`. */
  const AxisFlags: seq<bv8> :=
    [0, 7, 1, 6, 2, 5, 3, 4, 0, 7, 1, 6, 2, 5, 3, 4, 4, 3, 5, 2, 6, 1, 7, 0, 4, 3, 5, 2, 6, 1, 7, 0]

  /** Integer offsets of the eight cube corners. */
  const VertexOffset: seq<Int3> :=
    [Int3(0, 0, 0), Int3(1, 0, 0),
     Int3(0, 1, 0), Int3(1, 1, 0),
     Int3(0, 0, 1), Int3(1, 0, 1),
     Int3(0, 1, 1), Int3(1, 1, 1)]

  /** The same offsets as points of the unit cube. */
  const VertexFloats: seq<Vec3> :=
    [Vec3(0.0, 0.0, 0.0), Vec3(1.0, 0.0, 0.0),
     Vec3(0.0, 1.0, 0.0), Vec3(1.0, 1.0, 0.0),
     Vec3(0.0, 0.0, 1.0), Vec3(1.0, 0.0, 1.0),
     Vec3(0.0, 1.0, 1.0), Vec3(1.0, 1.0, 1.0)]

  /** Twelve cube edges (0..11) followed by the four space diagonals (12..15). */
  const Edges: seq<(nat, nat)> :=
    [(0, 1), (1, 3), (3, 2), (2, 0),
     (4, 5), (5, 7), (7, 6), (6, 4),
     (0, 4), (1, 5), (3, 7), (2, 6),
     (0, 7), (1, 6), (2, 5), (3, 4)]

  /** The quad decision read off the low five mask bits: bit `a` of the flags
      is set exactly when corner 0 and corner 1 << a lie on different sides of
      the surface. Bit 3 of the mask (corner 3) plays no part, which is why 32
      entries suffice and why entries m and m ^ 8 agree. */
  lemma AxisFlagsDecideQuads(mask: bv8, a: nat)
    requires a < 3
    ensures (mask & AxisMask) as int < |AxisFlags|
    ensures AxisFlags[(mask & AxisMask) as int] < 8
    ensures Bit(AxisFlags[(mask & AxisMask) as int], a) <==> Bit(mask, 0) != Bit(mask, AxisCorner(a))
  {
    var m := mask & AxisMask;
    assert Bit(m, 0) == Bit(mask, 0) && Bit(m, AxisCorner(a)) == Bit(mask, AxisCorner(a));
    AxisFlagsEntry(m);
  }

  /** The flags as a formula: bit `a` is corner 0 exclusive-or corner 1 << a. */
  function FlagsFormula(m: bv8): bv8
  {
    ((m ^ (m >> 1)) & 1) | (((m ^ (m >> 2)) & 1) << 1) | (((m ^ (m >> 4)) & 1) << 2)
  }

  /** Each of the 32 table entries is given by FlagsFormula. */
  lemma AxisFlagsEntry(m: bv8)
    requires m < 32
    ensures AxisFlags[m as int] == FlagsFormula(m)
  {
    assert m in {0, 1, 2, 3, 4, 5, 6, 7, 8, 9, 10, 11, 12, 13, 14, 15,
                 16, 17, 18, 19, 20, 21, 22, 23, 24, 25, 26, 27, 28, 29, 30, 31};
  }

  /** Corner 3 does not influence the quad decision. */
  lemma AxisFlagsIgnoreCorner3(m: bv8)
    requires m < 32
    ensures m ^ 8 < 32
    ensures AxisFlags[m as int] == AxisFlags[(m ^ 8) as int]
  {
    AxisFlagsEntry(m);
    AxisFlagsEntry(m ^ 8);
  }

  /** Masking with AxisMask always yields a valid AxisFlags index. */
  lemma AxisMaskIndexes(mask: bv8)
    ensures 0 <= (mask & AxisMask) as int < |AxisFlags|
  {
  }

  /** VertexOffset[c] spells out the bits of c. */
  lemma VertexOffsetBits(c: nat)
    requires c < 8
    ensures VertexOffset[c] == Int3((c as bv8 & 1) as int, ((c as bv8 >> 1) & 1) as int, ((c as bv8 >> 2) & 1) as int)
    ensures VertexFloats[c] == VertexOffset[c].ToVec3()
  {
  }

  /** Every edge joins two distinct corners. */
  lemma EdgeEndpoints(e: nat)
    requires e < 16
    ensures Edges[e].0 < 8 && Edges[e].1 < 8 && Edges[e].0 != Edges[e].1
  {
  }

  /** Edges 0..11 are unit-cube edges: their endpoints differ in exactly one coordinate. */
  lemma CubeEdgeIsAxisAligned(e: nat)
    requires e < 12
    ensures DifferingAxes(VertexOffset[Edges[e].0], VertexOffset[Edges[e].1]) == 1
  {
    assert e in {0, 1, 2, 3, 4, 5, 6, 7, 8, 9, 10, 11};
  }

  /** The number of coordinates in which two grid points differ. */
  function DifferingAxes(p: Int3, q: Int3): (n: nat)
    ensures n <= 3
    ensures n == 0 <==> p == q
  {
    (if p.x != q.x then 1 else 0) + (if p.y != q.y then 1 else 0) + (if p.z != q.z then 1 else 0)
  }

  /** Edges 0..11 list twelve different unordered corner pairs. */
  lemma CubeEdgesDistinct(e: nat, f: nat)
    requires e < f < 12
    ensures {Edges[e].0, Edges[e].1} != {Edges[f].0, Edges[f].1}
  {
  }

  /** Edges 12..15 join opposite corners. */
  lemma DiagonalsJoinOpposites(e: nat)
    requires 12 <= e < 16
    ensures Edges[e].1 == 7 - Edges[e].0
    ensures VertexOffset[Edges[e].0].Plus(VertexOffset[Edges[e].1]) == Int3(1, 1, 1)
  {
  }

  /** The twelve cube edges connect all eight corners: a labelling of the
      corners that is not constant differs across one of those edges. */
  lemma CubeEdgesConnect(inside: seq<bool>)
    requires |inside| == 8
    requires exists i, j :: 0 <= i < 8 && 0 <= j < 8 && inside[i] != inside[j]
    ensures exists e :: 0 <= e < 12 && inside[Edges[e].0] != inside[Edges[e].1]
  {
    if forall e :: 0 <= e < 12 ==> inside[Edges[e].0] == inside[Edges[e].1] {
      var E := Edges;
      assert E[0] == (0, 1) && E[1] == (1, 3) && E[2] == (3, 2) && E[8] == (0, 4);
      assert E[4] == (4, 5) && E[5] == (5, 7) && E[6] == (7, 6);
      assert forall i :: 0 <= i < 8 ==> inside[i] == inside[0];
    }
  }
}
