/** The coordinate helpers of the voxel library: world position to block,
    chunk and chunk-local block coordinates. Positions are taken to be whole
    numbers and the block size a positive whole number, so every float-to-int
    conversion of the source is exact and the arithmetic is integer arithmetic
    with C++ truncating division. */
module VoxelFunctionLibrary {
  import opened Vectors

  /** C++ integer division: the quotient truncated toward zero. Dafny's `/`
      rounds down instead, so the two differ for negative `x`. */
  function TruncDiv(x: int, d: int): int
    requires d > 0
  {
    if x >= 0 then x / d else -((-x) / d)
  }

  /** Multiplying by a positive number keeps order. */
  lemma MulMonotone(a: int, b: int, d: int)
    requires d > 0
    ensures a <= b ==> a * d <= b * d
  {
  }

  /** Only the floor quotient puts `x` in [q * d, q * d + d). */
  lemma FloorUnique(x: int, d: int, q: int)
    requires d > 0 && q * d <= x < q * d + d
    ensures q == x / d && x % d == x - q * d
  {
    var f := x / d;
    assert x == f * d + x % d && 0 <= x % d < d;
    assert (q + 1) * d == q * d + d && (f + 1) * d == f * d + d;
    MulMonotone(q + 1, f, d);
    MulMonotone(f + 1, q, d);
  }

  /** The truncated quotient: below `x` by less than `d` for non-negative
      `x`, above it by less than `d` for negative `x`. */
  lemma TruncDivBounds(x: int, d: int)
    requires d > 0
    ensures x >= 0 ==> 0 <= TruncDiv(x, d) && TruncDiv(x, d) * d <= x < TruncDiv(x, d) * d + d
    ensures x < 0 ==> TruncDiv(x, d) <= 0 && TruncDiv(x, d) * d - d < x <= TruncDiv(x, d) * d
  {
    if x >= 0 {
      var q := x / d;
      assert x == q * d + x % d && 0 <= x % d < d;
      MulMonotone(q, -1, d);
    } else {
      var m := -x;
      var qm := m / d;
      assert m == qm * d + m % d && 0 <= m % d < d;
      MulMonotone(qm, -1, d);
      assert (-qm) * d == -(qm * d);
    }
  }

  /** Only the truncated quotient satisfies the bounds of TruncDivBounds. */
  lemma TruncDivUnique(x: int, d: int, q: int)
    requires d > 0
    requires x >= 0 ==> q * d <= x < q * d + d
    requires x < 0 ==> q * d - d < x <= q * d
    ensures q == TruncDiv(x, d)
  {
    if x >= 0 {
      FloorUnique(x, d, q);
    } else {
      assert (-q) * d == -(q * d);
      if q * d == x {
        FloorUnique(-x, d, -q);
      } else {
        assert (-q) * d < -x < (-q) * d + d;
        FloorUnique(-x, d, -q);
      }
    }
  }

  /** Truncation is symmetric about zero. */
  lemma TruncDivNegate(x: int, d: int)
    requires d > 0
    ensures TruncDiv(-x, d) == -TruncDiv(x, d)
  {
    if x == 0 {
      FloorUnique(0, d, 0);
    }
  }

  /** Floor division twice is floor division once by the product. */
  lemma FloorDivTwice(x: int, a: int, b: int)
    requires x >= 0 && a > 0 && b > 0
    ensures x / a >= 0 && (x / a) / b == x / (a * b)
  {
    var q1, r1 := x / a, x % a;
    assert x == q1 * a + r1 && 0 <= r1 < a;
    MulMonotone(q1, -1, a);
    var q2, r2 := q1 / b, q1 % b;
    assert q1 == q2 * b + r2 && 0 <= r2 < b;
    Recompose(q2, b, r2, a, r1);
    FloorUnique(x, a * b, q2);
  }

  /** A quotient q2 by b, then by a, with remainders r2 and r1, lies in the
      block [q2 * (a * b), q2 * (a * b) + a * b). */
  lemma Recompose(q2: int, b: int, r2: int, a: int, r1: int)
    requires a > 0 && b > 0 && 0 <= r2 < b && 0 <= r1 < a
    ensures q2 * (a * b) <= (q2 * b + r2) * a + r1 < q2 * (a * b) + a * b
  {
    assert (q2 * b + r2) * a == q2 * (a * b) + r2 * a;
    MulMonotone(r2, b - 1, a);
    MulMonotone(0, r2, a);
    assert (b - 1) * a == a * b - a;
  }

  /** Truncating twice is truncating once by the product: the block's chunk
      is the position's chunk. */
  lemma TruncDivTwice(x: int, a: int, b: int)
    requires a > 0 && b > 0
    ensures TruncDiv(TruncDiv(x, a), b) == TruncDiv(x, a * b)
  {
    if x >= 0 {
      FloorDivTwice(x, a, b);
    } else {
      FloorDivTwice(-x, a, b);
      TruncDivNegate((-x) / a, b);
    }
  }

  /** The chunk coordinate of world coordinate `x`: the truncated quotient by
      Factor = Size * BlockSize, lowered by one when the coordinate is negative. */
  function ChunkCoord(x: int, size: int, blockSize: int): int
    requires size > 0 && blockSize > 0
  {
    var factor := size * blockSize;
    if x < 0 then TruncDiv(x, factor) - 1 else TruncDiv(x, factor)
  }

  /** For a non-negative coordinate, the chunk spans it:
      chunk * Factor <= x < (chunk + 1) * Factor. */
  lemma ChunkCoordNonNegative(x: int, size: int, blockSize: int)
    requires size > 0 && blockSize > 0 && x >= 0
    ensures 0 <= ChunkCoord(x, size, blockSize)
    ensures ChunkCoord(x, size, blockSize) * (size * blockSize) <= x
    ensures x < ChunkCoord(x, size, blockSize) * (size * blockSize) + size * blockSize
  {
    TruncDivBounds(x, size * blockSize);
  }

  /** For a negative coordinate, the chunk is the floor of x / Factor, except
      at an exact multiple of the factor, where it is one below the floor. */
  lemma ChunkCoordNegative(x: int, size: int, blockSize: int)
    requires size > 0 && blockSize > 0 && x < 0
    ensures ChunkCoord(x, size, blockSize) == x / (size * blockSize) - (if x % (size * blockSize) == 0 then 1 else 0)
  {
    FloorFromTrunc(x, size * blockSize);
  }

  /** For negative `x`, the truncated quotient is the floor plus one unless
      the division is exact. */
  lemma FloorFromTrunc(x: int, d: int)
    requires x < 0 && d > 0
    ensures TruncDiv(x, d) == x / d + (if x % d == 0 then 0 else 1)
  {
    var m := -x;
    var qm, rm := m / d, m % d;
    assert m == qm * d + rm && 0 <= rm < d;
    assert (-qm) * d == -(qm * d);
    if rm == 0 {
      FloorUnique(x, d, -qm);
    } else {
      assert (-qm - 1) * d == -(qm * d) - d;
      FloorUnique(x, d, -qm - 1);
    }
  }

  /** At an exact negative multiple -k * Factor, the chunk coordinate is
      -k - 1, one below the chunk -k that starts there. */
  lemma ChunkAtNegativeMultiple(k: int, size: int, blockSize: int)
    requires size > 0 && blockSize > 0 && k > 0
    ensures ChunkCoord(-k * (size * blockSize), size, blockSize) == -k - 1
  {
    var factor := size * blockSize;
    var x := -k * factor;
    MulMonotone(1, k, factor);
    assert x == (-k) * factor;
    FloorUnique(x, factor, -k);
    ChunkCoordNegative(x, size, blockSize);
  }

  /** The chunk-local block coordinate: the block coordinate minus the
      chunk's first block, lowered by one when the chunk coordinate is
      negative (the source's "negative normalisation"). */
  function LocalCoord(x: int, size: int, blockSize: int): int
    requires size > 0 && blockSize > 0
  {
    var chunk := ChunkCoord(x, size, blockSize);
    TruncDiv(x, blockSize) - chunk * size - (if chunk < 0 then 1 else 0)
  }

  /** How block, chunk and local coordinate fit together: the local
      coordinate lies in [0, Size); the chunk is negative exactly for a
      negative coordinate; chunk * Size + local reassembles the block
      coordinate, one block low for a negative coordinate. */
  lemma LocalCoordInRange(x: int, size: int, blockSize: int)
    requires size > 0 && blockSize > 0
    ensures 0 <= LocalCoord(x, size, blockSize) < size
    ensures ChunkCoord(x, size, blockSize) < 0 <==> x < 0
    ensures ChunkCoord(x, size, blockSize) * size + LocalCoord(x, size, blockSize)
      == TruncDiv(x, blockSize) - (if x < 0 then 1 else 0)
  {
    var block := TruncDiv(x, blockSize);
    TruncDivTwice(x, blockSize, size);
    assert blockSize * size == size * blockSize;
    var q := TruncDiv(block, size);
    TruncDivBounds(x, blockSize);
    TruncDivBounds(block, size);
    if x >= 0 {
      assert ChunkCoord(x, size, blockSize) == q;
    } else {
      assert ChunkCoord(x, size, blockSize) == q - 1;
      assert (q - 1) * size == q * size - size;
    }
  }

  /** For a non-negative coordinate, the local coordinate is the block
      coordinate modulo Size, and the chunk its quotient. */
  lemma LocalCoordNonNegative(x: int, size: int, blockSize: int)
    requires size > 0 && blockSize > 0 && x >= 0
    ensures ChunkCoord(x, size, blockSize) == TruncDiv(x, blockSize) / size
    ensures LocalCoord(x, size, blockSize) == TruncDiv(x, blockSize) % size
  {
    var block := TruncDiv(x, blockSize);
    FloorDivTwice(x, blockSize, size);
    assert blockSize * size == size * blockSize;
    assert block == size * (block / size) + block % size;
  }

  /** WorldToBlockPosition: each coordinate divided by the block size,
      truncating toward zero. */
  function WorldToBlockPosition(position: Int3, blockSize: int): (r: Int3)
    requires blockSize > 0
    ensures forall a :: 0 <= a < 3 && position.Get(a) >= 0 ==>
      r.Get(a) * blockSize <= position.Get(a) < r.Get(a) * blockSize + blockSize
    ensures forall a :: 0 <= a < 3 && position.Get(a) < 0 ==>
      r.Get(a) * blockSize - blockSize < position.Get(a) <= r.Get(a) * blockSize
  {
    TruncDivBounds(position.x, blockSize);
    TruncDivBounds(position.y, blockSize);
    TruncDivBounds(position.z, blockSize);
    Int3(TruncDiv(position.x, blockSize), TruncDiv(position.y, blockSize), TruncDiv(position.z, blockSize))
  }

  /** WorldToChunkPosition: ChunkCoord on each axis independently. */
  function WorldToChunkPosition(position: Int3, size: int, blockSize: int): (r: Int3)
    requires size > 0 && blockSize > 0
    ensures forall a :: 0 <= a < 3 && position.Get(a) >= 0 ==>
      r.Get(a) * (size * blockSize) <= position.Get(a) < r.Get(a) * (size * blockSize) + size * blockSize
    ensures forall a :: 0 <= a < 3 && position.Get(a) < 0 ==>
      r.Get(a) == position.Get(a) / (size * blockSize) - (if position.Get(a) % (size * blockSize) == 0 then 1 else 0)
  {
    ChunkAxis(position.x, size, blockSize);
    ChunkAxis(position.y, size, blockSize);
    ChunkAxis(position.z, size, blockSize);
    Int3(ChunkCoord(position.x, size, blockSize), ChunkCoord(position.y, size, blockSize),
         ChunkCoord(position.z, size, blockSize))
  }

  lemma ChunkAxis(x: int, size: int, blockSize: int)
    requires size > 0 && blockSize > 0
    ensures x >= 0 ==>
      ChunkCoord(x, size, blockSize) * (size * blockSize) <= x < ChunkCoord(x, size, blockSize) * (size * blockSize) + size * blockSize
    ensures x < 0 ==>
      ChunkCoord(x, size, blockSize) == x / (size * blockSize) - (if x % (size * blockSize) == 0 then 1 else 0)
  {
    if x >= 0 {
      ChunkCoordNonNegative(x, size, blockSize);
    } else {
      ChunkCoordNegative(x, size, blockSize);
    }
  }

  /** WorldToLocalBlockPosition: the block position minus the chunk position
      times Size, then one less on each axis whose chunk coordinate is
      negative. Every component lies in [0, Size), and the chunk and local
      positions reassemble the block position, one block low on negative axes. */
  function WorldToLocalBlockPosition(position: Int3, size: int, blockSize: int): (r: Int3)
    requires size > 0 && blockSize > 0
    ensures forall a :: 0 <= a < 3 ==> 0 <= r.Get(a) < size
    ensures forall a :: 0 <= a < 3 ==>
      WorldToChunkPosition(position, size, blockSize).Get(a) * size + r.Get(a)
        == WorldToBlockPosition(position, blockSize).Get(a) - (if position.Get(a) < 0 then 1 else 0)
  {
    var chunkPos := WorldToChunkPosition(position, size, blockSize);
    var result := WorldToBlockPosition(position, blockSize).Minus(Int3(chunkPos.x * size, chunkPos.y * size, chunkPos.z * size));
    LocalCoordInRange(position.x, size, blockSize);
    LocalCoordInRange(position.y, size, blockSize);
    LocalCoordInRange(position.z, size, blockSize);
    Int3(if chunkPos.x < 0 then result.x - 1 else result.x,
         if chunkPos.y < 0 then result.y - 1 else result.y,
         if chunkPos.z < 0 then result.z - 1 else result.z)
  }
}
