/** The padded density grid of a Surface Nets chunk: a flat buffer of P^3
    values, P = Size + 2, addressed through the strides (1, P, P^2). */
module SurfaceNetsGrid {
  import opened Vectors
  import opened SurfaceNetsTables

  /** The strides that Setup stores in AxisOffsets. */
  function AxisStrides(P: int): Int3
  {
    Int3(1, P, P * P)
  }

  /** GetVoxelIndex for given AxisOffsets: the X stride is taken to be 1. */
  function VoxelIndex(offsets: Int3, p: Int3): int
  {
    p.z * offsets.z + p.y * offsets.y + p.x
  }

  /** The flat index of grid point `p` in a grid of edge length P. */
  function Index(P: int, p: Int3): int
  {
    VoxelIndex(AxisStrides(P), p)
  }

  /** `p` is a grid point of the padded grid. */
  predicate InGrid(P: int, p: Int3)
  {
    0 <= p.x < P && 0 <= p.y < P && 0 <= p.z < P
  }

  /** `p` is the minimum corner of a cell the mesher scans: [0, P-1)^3. */
  predicate IsCell(P: int, p: Int3)
  {
    0 <= p.x < P - 1 && 0 <= p.y < P - 1 && 0 <= p.z < P - 1
  }

  /** A grid buffer of the size Setup allocates. */
  predicate ValidGrid(g: seq<real>, P: int)
  {
    P >= 2 && |g| == P * P * P
  }

  lemma MulMono(a: int, b: int, c: int)
    requires a <= b && c >= 0
    ensures a * c <= b * c
  {
  }

  /** Every grid point has an index inside the buffer. */
  lemma IndexInRange(P: int, p: Int3)
    requires InGrid(P, p)
    ensures 0 <= Index(P, p) < P * P * P
  {
    MulMono(0, p.z, P * P);
    MulMono(0, p.y, P);
    MulMono(p.z, P - 1, P * P);
    MulMono(p.y, P - 1, P);
    assert (P - 1) * (P * P) + (P - 1) * P + (P - 1) == P * P * P - 1;
  }

  /** Positional notation with base B: the leading digit decides the order. */
  lemma DigitOrder(B: int, a1: int, r1: int, a2: int, r2: int)
    requires B > 0 && 0 <= r1 < B && 0 <= r2 < B
    ensures a1 < a2 ==> a1 * B + r1 < a2 * B + r2
    ensures a1 * B + r1 == a2 * B + r2 ==> a1 == a2 && r1 == r2
  {
    if a1 < a2 {
      MulMono(a1 + 1, a2, B);
      assert (a1 + 1) * B == a1 * B + B;
    } else if a2 < a1 {
      MulMono(a2 + 1, a1, B);
      assert (a2 + 1) * B == a2 * B + B;
    }
  }

  /** The in-plane part of an index, y * P + x, lies in [0, P^2). */
  lemma RowPartInRange(P: int, p: Int3)
    requires InGrid(P, p)
    ensures 0 <= p.y * P + p.x < P * P
  {
    MulMono(0, p.y, P);
    MulMono(p.y, P - 1, P);
    assert (P - 1) * P == P * P - P;
  }

  /** Distinct grid points have distinct indices. */
  lemma IndexInjective(P: int, p: Int3, q: Int3)
    requires InGrid(P, p) && InGrid(P, q)
    requires Index(P, p) == Index(P, q)
    ensures p == q
  {
    RowPartInRange(P, p);
    RowPartInRange(P, q);
    DigitOrder(P * P, p.z, p.y * P + p.x, q.z, q.y * P + q.x);
    DigitOrder(P, p.y, p.x, q.y, q.x);
  }

  /** The grid point stored at buffer position `i`: the inverse of Index. */
  function PointOf(P: int, i: int): Int3
    requires P >= 1
  {
    Int3((i % (P * P)) % P, (i % (P * P)) / P, i / (P * P))
  }

  /** Splitting `i` by base B: quotient and remainder, the remainder in [0, B). */
  lemma DivMod(i: int, B: int)
    requires 0 <= i && B >= 1
    ensures i == (i / B) * B + i % B && 0 <= i % B < B && 0 <= i / B
  {
  }

  /** A quotient below `n` when the dividend is below n * B. */
  lemma QuotientBelow(i: int, B: int, n: int)
    requires 0 <= i < n * B && B >= 1
    ensures i / B < n
  {
    DivMod(i, B);
    if i / B >= n {
      MulMono(n, i / B, B);
    }
  }

  /** Every buffer position is the index of a grid point, the one PointOf names. */
  lemma PointOfIndex(P: int, i: int)
    requires P >= 1 && 0 <= i < P * P * P
    ensures InGrid(P, PointOf(P, i)) && Index(P, PointOf(P, i)) == i
  {
    var r := i % (P * P);
    DivMod(i, P * P);
    DivMod(r, P);
    QuotientBelow(r, P, P);
    assert P * P * P == P * (P * P);
    QuotientBelow(i, P * P, P);
  }

  /** PointOf recovers a grid point from its index. */
  lemma IndexPointOf(P: int, q: Int3)
    requires P >= 1 && InGrid(P, q)
    ensures 0 <= Index(P, q) < P * P * P && PointOf(P, Index(P, q)) == q
  {
    IndexInRange(P, q);
    PointOfIndex(P, Index(P, q));
    IndexInjective(P, PointOf(P, Index(P, q)), q);
  }

  /** Index is additive: offsetting a point offsets its index. */
  lemma IndexPlus(P: int, p: Int3, d: Int3)
    ensures Index(P, p.Plus(d)) == Index(P, p) + Index(P, d)
    ensures Index(P, p.Minus(d)) == Index(P, p) - Index(P, d)
  {
    assert (p.z + d.z) * (P * P) == p.z * (P * P) + d.z * (P * P);
    assert (p.y + d.y) * P == p.y * P + d.y * P;
    assert (p.z - d.z) * (P * P) == p.z * (P * P) - d.z * (P * P);
    assert (p.y - d.y) * P == p.y * P - d.y * P;
  }

  /** Stepping back one unit along `axis` lowers the index by that axis's stride. */
  lemma StepBack(P: int, p: Int3, axis: nat)
    requires axis < 3
    ensures Index(P, p.Minus(Unit(axis))) == Index(P, p) - AxisStrides(P).Get(axis)
  {
    IndexPlus(P, p, Unit(axis));
    assert Index(P, Unit(axis)) == AxisStrides(P).Get(axis);
  }

  /** The index offset of corner `c`, as GenerateMesh precomputes it. */
  function CornerOffset(P: int, c: nat): int
    requires c < 8
  {
    Index(P, VertexOffset[c])
  }

  /** Corner `c` of a scanned cell is a grid point, read at the cell's index
      plus the corner's offset. */
  lemma CornerInGrid(P: int, p: Int3, c: nat)
    requires IsCell(P, p) && c < 8
    ensures InGrid(P, p.Plus(VertexOffset[c]))
    ensures Index(P, p) + CornerOffset(P, c) == Index(P, p.Plus(VertexOffset[c]))
    ensures 0 <= Index(P, p) + CornerOffset(P, c) < P * P * P
  {
    IndexPlus(P, p, VertexOffset[c]);
    IndexInRange(P, p.Plus(VertexOffset[c]));
  }

  /** The density at corner `c` of cell `p`. */
  function CornerValue(g: seq<real>, P: int, p: Int3, c: nat): real
    requires ValidGrid(g, P) && IsCell(P, p) && c < 8
  {
    CornerInGrid(P, p, c);
    g[Index(P, p.Plus(VertexOffset[c]))]
  }

  /** The eight corner densities of cell `p` (the `Cube` array). */
  function CellCube(g: seq<real>, P: int, p: Int3): (cube: seq<real>)
    requires ValidGrid(g, P) && IsCell(P, p)
    ensures |cube| == 8
  {
    seq(8, c requires 0 <= c < 8 => CornerValue(g, P, p, c))
  }

  /** Scan order (Z outer, then Y, then X) agrees with index order. */
  lemma ScanOrderIsIndexOrder(P: int, p: Int3, q: Int3)
    requires InGrid(P, p) && InGrid(P, q)
    ensures (q.z < p.z || (q.z == p.z && (q.y < p.y || (q.y == p.y && q.x < p.x))))
            <==> Index(P, q) < Index(P, p)
  {
    RowPartInRange(P, p);
    RowPartInRange(P, q);
    DigitOrder(P * P, p.z, p.y * P + p.x, q.z, q.y * P + q.x);
    DigitOrder(P * P, q.z, q.y * P + q.x, p.z, p.y * P + p.x);
    DigitOrder(P, p.y, p.x, q.y, q.x);
    DigitOrder(P, q.y, q.x, p.y, p.x);
  }
}
