/** Integer and real 3-vectors: the model's FIntVector and FVector (the latter
    idealised over real numbers instead of 32-bit floats). */
module Vectors {

  /** An integer grid coordinate (FIntVector). */
  datatype Int3 = Int3(x: int, y: int, z: int) {

    /** Component `axis` (0 = X, 1 = Y, 2 = Z), as `Position[Axis]`. */
    function Get(axis: nat): int
      requires axis < 3
    {
      if axis == 0 then x else if axis == 1 then y else z
    }

    function Plus(o: Int3): Int3 { Int3(x + o.x, y + o.y, z + o.z) }

    function Minus(o: Int3): Int3 { Int3(x - o.x, y - o.y, z - o.z) }

    /** The squared Euclidean length. */
    function LengthSquared(): (r: int)
      ensures r >= 0
    {
      x * x + y * y + z * z
    }

    function ToVec3(): Vec3 { Vec3(x as real, y as real, z as real) }
  }

  /** The unit vector along `axis`. */
  function Unit(axis: nat): (u: Int3)
    requires axis < 3
    ensures u.Get(axis) == 1
    ensures forall b :: 0 <= b < 3 && b != axis ==> u.Get(b) == 0
  {
    if axis == 0 then Int3(1, 0, 0) else if axis == 1 then Int3(0, 1, 0) else Int3(0, 0, 1)
  }

  /** A point or direction in space (FVector over reals). */
  datatype Vec3 = Vec3(x: real, y: real, z: real) {

    function Plus(o: Vec3): Vec3 { Vec3(x + o.x, y + o.y, z + o.z) }

    function Minus(o: Vec3): Vec3 { Vec3(x - o.x, y - o.y, z - o.z) }

    function Scale(k: real): Vec3 { Vec3(k * x, k * y, k * z) }

    /** Every component lies in [lo, hi]. */
    predicate Within(lo: real, hi: real) {
      lo <= x <= hi && lo <= y <= hi && lo <= z <= hi
    }
  }

  const Zero: Vec3 := Vec3(0.0, 0.0, 0.0)
}
