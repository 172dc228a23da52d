/** One cell of the grid: its corner mask and the surface point estimated
    from its eight corner densities. Densities are idealised as reals. */
module SurfaceNetsCell {
  import opened Vectors
  import opened SurfaceNetsTables

  /** A corner is inside the solid when its density is negative. The source
      reads the IEEE sign bit, which also counts -0.0 and NaNs with the sign
      bit set as inside; over reals this is `v < 0`. */
  predicate Inside(v: real)
  {
    v < 0.0
  }

  /** The contribution of corner `c` to the mask. */
  function SignBit(v: real, c: nat): bv8
    requires c < 8
  {
    if Inside(v) then (1 as bv8) << c else 0
  }

  /** The mask built from the first `n` corners: bit `c` is set exactly when
      corner `c` has been read and is inside. */
  function MaskOf(cube: seq<real>, n: nat): (m: bv8)
    requires n <= |cube| && n <= 8
    ensures forall c :: 0 <= c < 8 ==> (Bit(m, c) <==> c < n && Inside(cube[c]))
  {
    if n == 0 then 0
    else
      var prev := MaskOf(cube, n - 1);
      SetBit(prev, cube[n - 1], n - 1);
      prev | SignBit(cube[n - 1], n - 1)
  }

  /** Or-ing in corner `i`'s sign bit sets bit `i` when the corner is inside
      and leaves every other bit alone. */
  lemma SetBit(m: bv8, v: real, i: nat)
    requires i < 8
    ensures forall c :: 0 <= c < 8 ==> (Bit(m | SignBit(v, i), c) <==> Bit(m, c) || (Inside(v) && c == i))
  {
    forall c | 0 <= c < 8
      ensures Bit(m | SignBit(v, i), c) <==> Bit(m, c) || (Inside(v) && c == i)
    {
      assert c in {0, 1, 2, 3, 4, 5, 6, 7} && i in {0, 1, 2, 3, 4, 5, 6, 7};
    }
  }

  /** The 8-bit corner mask of a cell. */
  function CornerMask(cube: seq<real>): bv8
    requires |cube| == 8
  {
    MaskOf(cube, 8)
  }

  /** Bit `c` of the corner mask says whether corner `c` is inside. */
  lemma CornerMaskBit(cube: seq<real>, c: nat)
    requires |cube| == 8 && c < 8
    ensures Bit(CornerMask(cube), c) <==> Inside(cube[c])
  {
  }

  /** The surface passes through a cell: `Mask && Mask < 0xFF`. */
  predicate HasSurface(mask: bv8)
  {
    mask != 0 && mask < 0xFF
  }

  /** Two mask bits that differ make the mask neither 0 nor 0xFF. */
  lemma DifferingBitsHaveSurface(m: bv8, i: nat, j: nat)
    requires i < 8 && j < 8 && Bit(m, i) != Bit(m, j)
    ensures HasSurface(m)
  {
  }

  /** A mask with no bit set is 0; one with every bit set is 0xFF. */
  lemma UniformBits(m: bv8)
    ensures (forall c :: 0 <= c < 8 ==> !Bit(m, c)) ==> m == 0
    ensures (forall c :: 0 <= c < 8 ==> Bit(m, c)) ==> m == 0xFF
  {
    if forall c :: 0 <= c < 8 ==> !Bit(m, c) {
      assert !Bit(m, 0) && !Bit(m, 1) && !Bit(m, 2) && !Bit(m, 3);
      assert !Bit(m, 4) && !Bit(m, 5) && !Bit(m, 6) && !Bit(m, 7);
    }
    if forall c :: 0 <= c < 8 ==> Bit(m, c) {
      assert Bit(m, 0) && Bit(m, 1) && Bit(m, 2) && Bit(m, 3);
      assert Bit(m, 4) && Bit(m, 5) && Bit(m, 6) && Bit(m, 7);
    }
  }

  /** A cell has a surface exactly when some corner is inside and some is not. */
  lemma SurfaceIffMixed(cube: seq<real>)
    requires |cube| == 8
    ensures HasSurface(CornerMask(cube)) <==>
      (exists i :: 0 <= i < 8 && Inside(cube[i])) && (exists j :: 0 <= j < 8 && !Inside(cube[j]))
  {
    var m := CornerMask(cube);
    UniformBits(m);
    if i :| 0 <= i < 8 && Inside(cube[i]) {
      if j :| 0 <= j < 8 && !Inside(cube[j]) {
        DifferingBitsHaveSurface(m, i, j);
      }
    }
  }

  /** The edge-crossing test: as written (`SDF0 * SDF1 < 0`) or by the sign
      bits the mask uses. */
  datatype CrossingRule = StrictProduct | SignBits

  predicate Crosses(rule: CrossingRule, d0: real, d1: real)
  {
    match rule
    case StrictProduct => d0 * d1 < 0.0
    case SignBits => Inside(d0) != Inside(d1)
  }

  /** The crossing fraction `T = SDF0 / (SDF0 - SDF1)` of a crossing edge lies in [0, 1]. */
  function CrossingFraction(rule: CrossingRule, d0: real, d1: real): (t: real)
    requires Crosses(rule, d0, d1)
    ensures 0.0 <= t <= 1.0
    ensures rule == StrictProduct ==> 0.0 < t < 1.0
  {
    assert d0 - d1 != 0.0 && (d0 < 0.0 ==> d1 >= 0.0) && (d0 > 0.0 ==> d1 < 0.0);
    d0 / (d0 - d1)
  }

  /** The interpolated point where edge `e` meets the surface. */
  function EdgePoint(rule: CrossingRule, cube: seq<real>, e: nat): (q: Vec3)
    requires |cube| == 8 && e < 16
    requires Crosses(rule, cube[Edges[e].0], cube[Edges[e].1])
    ensures q.Within(0.0, 1.0)
  {
    var (v0, v1) := Edges[e];
    var t := CrossingFraction(rule, cube[v0], cube[v1]);
    var a, b := VertexFloats[v0], VertexFloats[v1];
    VertexOffsetBits(v0);
    VertexOffsetBits(v1);
    LerpInUnitCube(a, b, t);
    a.Plus(b.Minus(a).Scale(t))
  }

  /** Interpolating between corners of the unit cube stays inside it. */
  lemma LerpInUnitCube(a: Vec3, b: Vec3, t: real)
    requires a.Within(0.0, 1.0) && b.Within(0.0, 1.0) && 0.0 <= t <= 1.0
    ensures a.Plus(b.Minus(a).Scale(t)).Within(0.0, 1.0)
  {
    LerpInUnitInterval(a.x, b.x, t);
    LerpInUnitInterval(a.y, b.y, t);
    LerpInUnitInterval(a.z, b.z, t);
  }

  lemma LerpInUnitInterval(a: real, b: real, t: real)
    requires 0.0 <= a <= 1.0 && 0.0 <= b <= 1.0 && 0.0 <= t <= 1.0
    ensures 0.0 <= a + t * (b - a) <= 1.0
  {
    var ta, tb := t * a, t * b;
    assert t * (b - a) == tb - ta;
    ProductNonNegative(1.0 - a, 1.0 - t);
    assert (1.0 - a) * (1.0 - t) == 1.0 - a - t + ta;
    ProductNonNegative(a, 1.0 - t);
    assert a * (1.0 - t) == a - ta;
    ProductNonNegative(t, 1.0 - b);
    assert t * (1.0 - b) == t - tb;
    ProductNonNegative(t, b);
  }

  lemma ProductNonNegative(x: real, y: real)
    requires 0.0 <= x && 0.0 <= y
    ensures 0.0 <= x * y
  {
  }

  /** Running sum of crossing points and their number. */
  datatype Accum = Accum(Sum: Vec3, Count: nat)

  /** Visit edge `e`: a crossing adds its point and bumps the count. */
  function AddEdge(rule: CrossingRule, cube: seq<real>, acc: Accum, e: nat): Accum
    requires |cube| == 8 && e < 16
  {
    var (v0, v1) := Edges[e];
    if Crosses(rule, cube[v0], cube[v1]) then
      Accum(acc.Sum.Plus(EdgePoint(rule, cube, e)), acc.Count + 1)
    else acc
  }

  /** The walk over edges 15 down to `lo`. Each crossing point lies in the
      unit cube, so the sum lies in [0, Count]^3. */
  function AccumFrom(rule: CrossingRule, cube: seq<real>, lo: nat): (acc: Accum)
    requires |cube| == 8 && lo <= 16
    ensures acc.Count <= 16 - lo
    ensures acc.Sum.Within(0.0, acc.Count as real)
    decreases 16 - lo
  {
    if lo == 16 then Accum(Zero, 0) else AddEdge(rule, cube, AccumFrom(rule, cube, lo + 1), lo)
  }

  /** One step of the walk under `rule`, spelled out on the edge's corners:
      a crossing adds the point at fraction `t` along the edge. */
  lemma WalkStep(rule: CrossingRule, cube: seq<real>, e: nat, v0: nat, v1: nat, sdf0: real, sdf1: real,
                 sum: Vec3, count: nat, t: real)
    requires |cube| == 8 && e < 16 && v0 == Edges[e].0 && v1 == Edges[e].1 && v0 < 8 && v1 < 8
    requires sdf0 == cube[v0] && sdf1 == cube[v1]
    requires Accum(sum, count) == AccumFrom(rule, cube, e + 1)
    requires Crosses(rule, sdf0, sdf1) ==> t == CrossingFraction(rule, sdf0, sdf1)
    ensures AccumFrom(rule, cube, e) ==
      if Crosses(rule, sdf0, sdf1)
      then Accum(sum.Plus(VertexFloats[v0].Plus(VertexFloats[v1].Minus(VertexFloats[v0]).Scale(t))), count + 1)
      else Accum(sum, count)
  {
  }

  /** The edge walk of ComputeSDFSurface: the four diagonals (edges 15..12)
      are used alone when they yield at least three crossings; otherwise the
      twelve cube edges are added to them. */
  function SurfaceAccum(rule: CrossingRule, cube: seq<real>): Accum
    requires |cube| == 8
  {
    var diagonals := AccumFrom(rule, cube, 12);
    if diagonals.Count >= 3 then diagonals else AccumFrom(rule, cube, 0)
  }

  /** A crossing edge at or above `lo` is counted by the walk. */
  lemma {:induction false} CrossingIsCounted(rule: CrossingRule, cube: seq<real>, lo: nat, e: nat)
    requires |cube| == 8 && lo <= e < 16
    requires Crosses(rule, cube[Edges[e].0], cube[Edges[e].1])
    ensures AccumFrom(rule, cube, lo).Count >= 1
    decreases e - lo
  {
    if lo < e {
      CrossingIsCounted(rule, cube, lo + 1, e);
    }
  }

  /** With crossings read off the sign bits, every cell with a surface has at
      least one crossing: the twelve cube edges connect all corners. */
  lemma SignBitsCountPositive(cube: seq<real>)
    requires |cube| == 8 && HasSurface(CornerMask(cube))
    ensures SurfaceAccum(SignBits, cube).Count >= 1
  {
    var inside := seq(8, c requires 0 <= c < 8 => Inside(cube[c]));
    SurfaceIffMixed(cube);
    var i, j :| 0 <= i < 8 && 0 <= j < 8 && Inside(cube[i]) && !Inside(cube[j]);
    assert inside[i] != inside[j];
    CubeEdgesConnect(inside);
    var e :| 0 <= e < 12 && inside[Edges[e].0] != inside[Edges[e].1];
    EdgeEndpoints(e);
    CrossingIsCounted(SignBits, cube, 0, e);
  }

  /** Without exact zeros the two crossing rules agree edge by edge. */
  lemma {:induction false} RulesAgreeWithoutZeros(cube: seq<real>, lo: nat)
    requires |cube| == 8 && lo <= 16
    requires forall c :: 0 <= c < 8 ==> cube[c] != 0.0
    ensures AccumFrom(StrictProduct, cube, lo) == AccumFrom(SignBits, cube, lo)
    decreases 16 - lo
  {
    if lo < 16 {
      RulesAgreeWithoutZeros(cube, lo + 1);
      var (v0, v1) := Edges[lo];
      EdgeEndpoints(lo);
      var d0, d1 := cube[v0], cube[v1];
      assert Crosses(StrictProduct, d0, d1) <==> Crosses(SignBits, d0, d1) by {
        if d0 < 0.0 && d1 > 0.0 { assert d0 * d1 < 0.0; }
        if d0 > 0.0 && d1 < 0.0 { assert d0 * d1 < 0.0; }
        if d0 < 0.0 && d1 < 0.0 { assert d0 * d1 > 0.0; }
        if d0 > 0.0 && d1 > 0.0 { assert d0 * d1 > 0.0; }
      }
    }
  }

  /** As written, a cell with a surface and no exact zeros has a crossing. */
  lemma StrictCountPositiveWithoutZeros(cube: seq<real>)
    requires |cube| == 8 && HasSurface(CornerMask(cube))
    requires forall c :: 0 <= c < 8 ==> cube[c] != 0.0
    ensures SurfaceAccum(StrictProduct, cube).Count >= 1
  {
    RulesAgreeWithoutZeros(cube, 0);
    RulesAgreeWithoutZeros(cube, 12);
    SignBitsCountPositive(cube);
  }

  /** As written, exact zeros defeat the crossing count: one negative corner
      and seven zero corners make mask 1 (a surface) but no edge product is
      negative, so the average divides by zero. */
  lemma StrictProductMissesZeroCorners()
    ensures var cube := [-1.0, 0.0, 0.0, 0.0, 0.0, 0.0, 0.0, 0.0];
      HasSurface(CornerMask(cube)) && SurfaceAccum(StrictProduct, cube).Count == 0
  {
    var cube := [-1.0, 0.0, 0.0, 0.0, 0.0, 0.0, 0.0, 0.0];
    assert Bit(CornerMask(cube), 0) && !Bit(CornerMask(cube), 1);
    DifferingBitsHaveSurface(CornerMask(cube), 0, 1);
    forall lo | 0 <= lo <= 16 ensures AccumFrom(StrictProduct, cube, lo).Count == 0 {
      NoStrictCrossingFrom(cube, lo);
    }
  }

  lemma {:induction false} NoStrictCrossingFrom(cube: seq<real>, lo: nat)
    requires cube == [-1.0, 0.0, 0.0, 0.0, 0.0, 0.0, 0.0, 0.0] && lo <= 16
    ensures AccumFrom(StrictProduct, cube, lo).Count == 0
    decreases 16 - lo
  {
    if lo < 16 {
      NoStrictCrossingFrom(cube, lo + 1);
      EdgeEndpoints(lo);
      assert cube[Edges[lo].0] * cube[Edges[lo].1] == 0.0;
    }
  }

  /** The surface point of a cell: the mean of the crossing points found by
      the edge walk under `rule`, defined when the walk finds a crossing. It
      lies in the unit cube. */
  function SurfacePoint(rule: CrossingRule, cube: seq<real>): (q: Vec3)
    requires |cube| == 8 && SurfaceAccum(rule, cube).Count >= 1
    ensures q.Within(0.0, 1.0)
  {
    var acc := SurfaceAccum(rule, cube);
    MeanInUnitCube(acc);
    acc.Sum.Scale(1.0 / acc.Count as real)
  }

  /** Where the walk stops, after the diagonals with at least three crossings
      or after all sixteen edges otherwise, its mean is the surface point. */
  lemma WalkResult(rule: CrossingRule, cube: seq<real>, lo: nat, sum: Vec3, count: nat)
    requires |cube| == 8 && lo <= 16 && SurfaceAccum(rule, cube).Count >= 1
    requires Accum(sum, count) == AccumFrom(rule, cube, lo)
    requires (lo == 12 && count >= 3) || (lo == 0 && AccumFrom(rule, cube, 12).Count < 3)
    ensures count >= 1 && sum.Scale(1.0 / count as real) == SurfacePoint(rule, cube)
  {
    assert Accum(sum, count) == SurfaceAccum(rule, cube);
  }

  /** Without exact zeros the walk as written finds a crossing in every cell
      with a surface, and its surface point is the corrected one. */
  lemma AsWrittenPointWithoutZeros(cube: seq<real>)
    requires |cube| == 8 && HasSurface(CornerMask(cube))
    requires forall c :: 0 <= c < 8 ==> cube[c] != 0.0
    ensures SurfaceAccum(StrictProduct, cube).Count >= 1 && SurfaceAccum(SignBits, cube).Count >= 1
    ensures SurfacePoint(StrictProduct, cube) == SurfacePoint(SignBits, cube)
  {
    StrictCountPositiveWithoutZeros(cube);
    SignBitsCountPositive(cube);
    RulesAgreeWithoutZeros(cube, 0);
    RulesAgreeWithoutZeros(cube, 12);
  }

  lemma MeanInUnitCube(acc: Accum)
    requires acc.Count >= 1 && acc.Sum.Within(0.0, acc.Count as real)
    ensures acc.Sum.Scale(1.0 / acc.Count as real).Within(0.0, 1.0)
  {
    var n := acc.Count as real;
    var k := 1.0 / n;
    assert k * n == 1.0;
    assert 0.0 <= k * acc.Sum.x <= k * n;
    assert 0.0 <= k * acc.Sum.y <= k * n;
    assert 0.0 <= k * acc.Sum.z <= k * n;
  }

  /** The finite-difference normal estimate, before normalisation. */
  function NormalEstimate(cube: seq<real>): Vec3
    requires |cube| == 8
  {
    Vec3(cube[1] - cube[0] + cube[7] - cube[6],
         cube[2] - cube[0] + cube[7] - cube[5],
         cube[4] - cube[0] + cube[7] - cube[3])
  }
}
