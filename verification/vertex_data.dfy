/**
 Vertex records (Vulkan/vertexData.hpp). The chunk mesher emits `Vertex`
 values whose coordinates are whole numbers; `VoxelVertex` packs positions
 into 12.4 fixed point and a UV pair into two 4.4 fixed-point bytes. Floats
 are modelled as reals, so the packing functions are exact where the
 source's float arithmetic is exact (multiples of 1/16 in range).
 */
module VertexData {
  import opened Base

  /** Vertex with its colour left out (the mesher always writes white). */
  datatype Vertex = Vertex(pos: IVec3, texU: int, texV: int)

  /** The geometry a mesh component holds: vertex list and index list. */
  datatype MeshData = MeshData(vertices: seq<Vertex>, indices: seq<nat>)

  /** Largest UV component the packing keeps: 15 + 15/16. */
  const MaxUv: real := 15.9375

  /** glm::clamp(x, 0, 15.9375). */
  function ClampUv(x: real): (r: real)
    ensures 0.0 <= r <= MaxUv
    ensures 0.0 <= x <= MaxUv ==> r == x
  {
    if x < 0.0 then 0.0 else if x > MaxUv then MaxUv else x
  }

  /** One 4.4 fixed-point UV field: `uint16_t(clamp(x) * 16)`, truncated. */
  function UvField(x: real): (f: nat)
    ensures f <= 255
    ensures x <= 0.0 ==> f == 0
    ensures x >= MaxUv ==> f == 255
  {
    var scaled := ClampUv(x) * 16.0;
    assert scaled <= 255.0;
    scaled.Floor
  }

  /** VoxelVertex::packUVs: `(v << 8) | u` with both fields below 256. */
  function PackUvs(u: real, v: real): (packed: nat)
    ensures packed < 65536
    ensures packed % 256 == UvField(u) && packed / 256 == UvField(v)
  {
    UvField(v) * 256 + UvField(u)
  }

  /** The two UV components a packed value stands for. */
  function UnpackUvs(packed: nat): (real, real) {
    ((packed % 256) as real / 16.0, (packed / 256) as real / 16.0)
  }

  lemma UvFieldOfSixteenth(k: nat)
    requires k <= 255
    ensures UvField(k as real / 16.0) == k
  {
    assert k as real / 16.0 * 16.0 == k as real;
  }

  /** Every pair of UVs on the 1/16 grid inside [0, 15.9375] survives packing. */
  lemma PackUvsRoundTrip(ku: nat, kv: nat)
    requires ku <= 255 && kv <= 255
    ensures UnpackUvs(PackUvs(ku as real / 16.0, kv as real / 16.0)) == (ku as real / 16.0, kv as real / 16.0)
  {
    UvFieldOfSixteenth(ku);
    UvFieldOfSixteenth(kv);
  }

  /** float-to-int conversion: truncation toward zero. */
  function TruncReal(x: real): (r: int)
    ensures x >= 0.0 ==> r as real <= x < r as real + 1.0
    ensures x < 0.0 ==> r as real - 1.0 < x <= r as real
  {
    if x >= 0.0 then x.Floor else -((-x).Floor)
  }

  /** `static_cast<int16_t>(value * 16)` is defined only when the truncated
      value fits in int16; no clamp guards it. */
  predicate PositionPackable(value: real) {
    -32769.0 < value * 16.0 < 32768.0
  }

  /** VoxelVertex::packPosition: 12.4 fixed point, truncated toward zero. */
  function PackPosition(value: real): (fixed: int)
    requires PositionPackable(value)
    ensures -32768 <= fixed <= 32767
    ensures value >= 0.0 ==> 0 <= fixed && fixed as real <= value * 16.0 < fixed as real + 1.0
    ensures value < 0.0 ==> fixed <= 0 && fixed as real - 1.0 < value * 16.0 <= fixed as real
  {
    TruncReal(value * 16.0)
  }

  /** Every 12.4 value is reproduced exactly. */
  lemma PackPositionRoundTrip(k: int)
    requires -32768 <= k <= 32767
    ensures PositionPackable(k as real / 16.0)
    ensures PackPosition(k as real / 16.0) == k
  {
    assert k as real / 16.0 * 16.0 == k as real;
  }
}
