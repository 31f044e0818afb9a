/**
 The data records of the voxel world (Voxels/components.hpp and
 Voxels/voxel.hpp): block registry, chunk record, world defaults, chunk
 dimensions with the flat voxel index, and the coordinate hash used by the
 chunk map.
 */
module Components {
  import opened Base

  /** CHUNK_SIZE: side length the biome generator fills. */
  const ChunkSize: nat := 31

  /** Mesh state of a chunk. `Meshing` exists but nothing assigns it. */
  datatype ChunkState = Clean | NeedsMeshing | Meshing

  /** One registered block type; texture fields are texture-array layers. */
  datatype BlockType = BlockType(name: string, visible: bool, textureTop: int, textureBottom: int, textureSide: int)

  /** Ordered block list plus the name-to-index table. A voxel is the index of its block type. */
  datatype BlockRegistry = BlockRegistry(blocks: seq<BlockType>, nameToId: map<string, nat>)

  /** Every name maps to the block that carries it, and no id collides with the -1 sentinel. */
  ghost predicate RegistryConsistent(reg: BlockRegistry) {
    && |reg.blocks| < U32Max
    && forall n :: n in reg.nameToId ==> reg.nameToId[n] < |reg.blocks| && reg.blocks[reg.nameToId[n]].name == n
  }

  /** Every voxel of `voxels` names a registered block (so `registry.blocks[type]` is defined). */
  ghost predicate VoxelsRegistered(voxels: seq<nat>, reg: BlockRegistry) {
    forall k :: 0 <= k < |voxels| ==> voxels[k] < |reg.blocks|
  }

  /** Chunk dimensions in voxels: chunkWidth (x), chunkHeight (y), chunkLength (z). */
  datatype Dims = Dims(width: nat, height: nat, length: nat) {
    predicate Valid() { width > 0 && height > 0 && length > 0 }

    function Volume(): nat { width * height * length }

    /** Extent along `axis` (the mesher's `dims[axis]`). */
    function Along(axis: nat): nat
      requires axis < 3
    {
      if axis == 0 then width else if axis == 1 then height else length
    }

    predicate Contains(x: int, y: int, z: int) {
      0 <= x < width && 0 <= y < height && 0 <= z < length
    }
  }

  /** `x + w * (z + l * y)`: rows along x, then z planes, then y layers
      (VoxelSystem::getIndex and the mesher's Index3D). */
  function Index3D(x: int, y: int, z: int, w: int, l: int): int {
    x + w * (z + l * y)
  }

  lemma MulAtLeast(w: int, t: int)
    requires w > 0 && t >= 1
    ensures w * t >= w
  {
  }

  lemma DivModUnique(a: int, k: int, w: int)
    requires 0 <= a < w
    ensures (a + w * k) / w == k && (a + w * k) % w == a
  {
    var n := a + w * k;
    var q, r := n / w, n % w;
    assert n == w * q + r && 0 <= r < w;
    var t := q - k;
    assert w * t == a - r by {
      assert w * t == w * q - w * k;
    }
    if t >= 1 {
      MulAtLeast(w, t);
    } else if t <= -1 {
      MulAtLeast(w, -t);
    }
    assert t == 0;
  }

  /** The flat index of an in-chunk coordinate lies in [0, w*h*l). */
  lemma Index3DInRange(x: int, y: int, z: int, d: Dims)
    requires d.Contains(x, y, z)
    ensures 0 <= Index3D(x, y, z, d.width, d.length) < d.Volume()
  {
    var w, l, h := d.width, d.length, d.height;
    var k := z + l * y;
    MulMono(l, 0, y);
    MulMono(l, y, h - 1);
    assert l * (h - 1) == l * h - l;
    MulMono(w, 0, k);
    MulMono(w, k, l * h - 1);
    assert w * (l * h - 1) == w * (l * h) - w;
    assert w * (l * h) == d.Volume();
  }

  /** Index3D is one-to-one on in-chunk coordinates: decoding recovers (x, y, z). */
  lemma Index3DDecode(x: int, y: int, z: int, w: nat, l: nat)
    requires 0 <= x < w && 0 <= z < l && 0 <= y
    ensures Index3D(x, y, z, w, l) % w == x
    ensures Index3D(x, y, z, w, l) / w % l == z
    ensures Index3D(x, y, z, w, l) / w / l == y
  {
    DivModUnique(x, z + l * y, w);
    DivModUnique(z, y, l);
  }

  lemma Index3DInjective(x1: int, y1: int, z1: int, x2: int, y2: int, z2: int, w: nat, l: nat)
    requires 0 <= x1 < w && 0 <= z1 < l && 0 <= y1
    requires 0 <= x2 < w && 0 <= z2 < l && 0 <= y2
    requires Index3D(x1, y1, z1, w, l) == Index3D(x2, y2, z2, w, l)
    ensures x1 == x2 && y1 == y2 && z1 == z2
  {
    Index3DDecode(x1, y1, z1, w, l);
    Index3DDecode(x2, y2, z2, w, l);
  }

  lemma MulMono(w: int, a: int, b: int)
    requires w >= 0 && a <= b
    ensures w * a <= w * b
  {
    assert w * b - w * a == w * (b - a);
  }

  lemma DivBelow(i: int, w: int, m: int)
    requires w > 0 && 0 <= i < w * m
    ensures 0 <= i / w < m
  {
    var q := i / w;
    assert i == w * q + i % w;
    if q >= m {
      MulMono(w, m, q);
    }
    if q < 0 {
      MulMono(w, q, -1);
    }
  }

  /** Every index below the volume is the Index3D of its decoded coordinate. */
  lemma Index3DEncode(i: int, d: Dims)
    requires d.Valid() && 0 <= i < d.Volume()
    ensures d.Contains(i % d.width, i / d.width / d.length, i / d.width % d.length)
    ensures Index3D(i % d.width, i / d.width / d.length, i / d.width % d.length, d.width, d.length) == i
  {
    var w, l, h := d.width, d.length, d.height;
    var k := i / w;
    assert i == w * k + i % w;
    assert k == l * (k / l) + k % l;
    assert d.Volume() == w * (l * h);
    DivBelow(i, w, l * h);
    DivBelow(k, l, h);
  }

  /** ChunkComponent. `worldPosition` is an uninitialised glm::ivec3 in the
      source, so the model carries whatever it holds as a field. */
  datatype ChunkComponent = ChunkComponent(
    voxelData: seq<nat>,
    chunkState: ChunkState,
    chunkLOD: int,
    worldPosition: IVec3,
    gpuIndex: nat)

  /** `ChunkComponent()`: every field at its in-class default. */
  function DefaultChunk(position: IVec3): (c: ChunkComponent)
    ensures c.voxelData == [] && c.chunkState == Clean && c.chunkLOD == 0
    ensures c.gpuIndex == U32Max
    ensures c.worldPosition == position
  {
    ChunkComponent([], Clean, 0, position, U32Max)
  }

  /** `ChunkComponent(uniqueIndex)`: the default chunk with its GPU slot set. */
  function ChunkWithIndex(uniqueIndex: nat, position: IVec3): (c: ChunkComponent)
    requires uniqueIndex <= U32Max
    ensures c.gpuIndex == uniqueIndex
    ensures c.voxelData == [] && c.chunkState == Clean && c.chunkLOD == 0 && c.worldPosition == position
  {
    DefaultChunk(position).(gpuIndex := uniqueIndex)
  }

  /** The WorldComponent scalar settings (the render radii, chunk map and
      seed live elsewhere in the model). */
  datatype WorldSettings = WorldSettings(registry: BlockRegistry, waterLevel: int, minTerrainHeight: int, maxTerrainHeight: int, seed: nat)

  /** WorldComponent with its default levels. */
  function DefaultWorldSettings(registry: BlockRegistry, seed: nat): (w: WorldSettings)
    ensures w.minTerrainHeight < w.waterLevel < w.maxTerrainHeight
    ensures w.waterLevel == 48 && w.minTerrainHeight == 32 && w.maxTerrainHeight == 64
    ensures w.registry == registry && w.seed == seed
  {
    WorldSettings(registry, 48, 32, 64, seed)
  }

  /** WorldComponent::getBlockID: the registered id, or (uint32_t)-1. */
  function GetBlockId(reg: BlockRegistry, name: string): (id: nat)
    requires RegistryConsistent(reg)
    ensures id == U32Max <==> name !in reg.nameToId
    ensures id != U32Max ==> id < |reg.blocks| && reg.blocks[id].name == name
  {
    if name in reg.nameToId then reg.nameToId[name] else U32Max
  }

  const SizeModulus: int := 0x1_0000_0000_0000_0000

  /** std::hash<int> as libstdc++ and libc++ define it on a 64-bit size_t:
      the identity, sign-extended to 64 bits. The C++ standard leaves this
      hash to the implementation. */
  function HashInt(v: int): bv64 {
    (v % SizeModulus) as bv64
  }

  /** IVec3Hash: h(x) ^ (h(y) << 1) ^ (h(z) << 2). Its lowest bit is x's lowest bit. */
  function IVec3Hash(v: IVec3): (h: bv64)
    ensures h & 1 == HashInt(v.x) & 1
  {
    HashInt(v.x) ^ (HashInt(v.y) << 1) ^ (HashInt(v.z) << 2)
  }

  /** With the identity hash of int the combined hash is not injective:
      (2, 0, 0) and (0, 1, 0) share a bucket value, so the chunk map relies on
      key equality, not on the hash. */
  lemma IVec3HashCollides()
    ensures IVec3Hash(IVec3(2, 0, 0)) == IVec3Hash(IVec3(0, 1, 0))
  {
  }
}
