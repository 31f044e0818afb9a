/**
 Shared vocabulary of the engine model: failure-carrying results, integer
 triples (glm::ivec3), the 32-bit sentinel value and the C++ integer
 operators whose rounding differs from Dafny's Euclidean ones.
 */
module Base {

  /** An optional value (std::optional, or a pointer that may be null). */
  datatype Option<+T> = None | Some(value: T)

  /** A value or the reason the source gives up (an exception, an `exit`,
      a failed `assert`). */
  datatype Result<+T, +E> = Success(value: T) | Failure(error: E) {
    predicate IsFailure() { Failure? }

    function PropagateFailure<U>(): Result<U, E>
      requires Failure?
    {
      Failure(error)
    }

    function Extract(): T
      requires Success?
    {
      value
    }
  }

  /** UINT32_MAX, the "no slot" sentinel of the allocators and draw records. */
  const U32Max: nat := 0xFFFF_FFFF

  /** Number of distinct uint32 values. */
  const U32Modulus: nat := 0x1_0000_0000

  /** uint32_t. */
  type U32 = x: nat | x <= U32Max

  /** uint32_t addition, which wraps. */
  function AddU32(a: U32, b: U32): (r: U32)
    ensures a + b <= U32Max ==> r == a + b
    ensures a + b > U32Max ==> r == a + b - U32Modulus
  {
    (a + b) % U32Modulus
  }

  /** A C++ `int`. */
  type Int32 = x: int | -0x8000_0000 <= x < 0x8000_0000

  /** static_cast<uint32_t> of an int: negative values wrap. */
  function IntToU32(x: Int32): (r: U32)
    ensures x >= 0 ==> r == x
    ensures x < 0 ==> r == x + U32Modulus
  {
    if x >= 0 then x else x + U32Modulus
  }

  /** glm::ivec3: an integer triple (chunk coordinate, voxel coordinate, offset). */
  datatype IVec3 = IVec3(x: int, y: int, z: int) {
    function Plus(o: IVec3): IVec3 {
      IVec3(x + o.x, y + o.y, z + o.z)
    }

    function Minus(o: IVec3): IVec3 {
      IVec3(x - o.x, y - o.y, z - o.z)
    }

    /** Component `axis` (0 = x, 1 = y, 2 = z), as `v[axis]` in glm. */
    function Get(axis: nat): int
      requires axis < 3
    {
      if axis == 0 then x else if axis == 1 then y else z
    }
  }

  function Abs(a: int): (r: nat)
    ensures r == a || r == -a
  {
    if a < 0 then -a else a
  }

  /** C++ `/` on int: the quotient truncated toward zero. */
  function TruncDiv(a: int, b: int): int
    requires b > 0
  {
    if a >= 0 then a / b else -((-a) / b)
  }

  /** C++ `%` on int: the remainder takes the sign of the dividend. */
  function TruncRem(a: int, b: int): (r: int)
    requires b > 0
    ensures TruncDiv(a, b) * b + r == a
    ensures a >= 0 ==> 0 <= r < b
    ensures a < 0 ==> -b < r <= 0
  {
    if a >= 0 then a % b else -((-a) % b)
  }

  /** std::clamp(v, lo, hi), which the C++ standard only defines for lo <= hi. */
  function Clamp(v: int, lo: int, hi: int): (r: int)
    requires lo <= hi
    ensures lo <= r <= hi
    ensures lo <= v <= hi ==> r == v
    ensures v < lo ==> r == lo
    ensures v > hi ==> r == hi
  {
    if v < lo then lo else if hi < v then hi else v
  }
}
