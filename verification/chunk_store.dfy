/**
 The chunk store of VoxelSystem (src/Voxels/voxelSystem.cpp): a map from
 chunk coordinates to chunk records, the conversions between world, chunk
 and chunk-local coordinates, single-voxel reads and writes with dirty
 marking of the owning and neighbouring chunks, and the flat column
 generator that fills a new chunk.

 The ECS indirection (chunk coordinate -> entity -> ChunkComponent) is
 collapsed into one map from coordinates to chunk entities.
 */
module ChunkStore {
  import opened Base
  import opened Components
  import opened VertexData

  /** glm::vec3 with real components (float rounding is not modelled). */
  datatype Vec3 = Vec3(x: real, y: real, z: real)

  /** A chunk entity: its ChunkComponent, and the MeshComponent geometry and
      TransformComponent translation it gains once it has been meshed. */
  datatype ChunkEntity = ChunkEntity(chunk: ChunkComponent, mesh: Option<MeshData>, translation: Option<IVec3>)

  /** The world as VoxelSystem sees it. `airVoxel` is the function-static
      voxel that reads of unloaded space return. */
  datatype World = World(dims: Dims, registry: BlockRegistry, chunks: map<IVec3, ChunkEntity>, airVoxel: nat)

  /** A chunk record stored under key `c` carries a full voxel buffer and knows its own coordinate. */
  ghost predicate ChunkShaped(dims: Dims, c: IVec3, e: ChunkEntity) {
    |e.chunk.voxelData| == dims.Volume() && e.chunk.worldPosition == c
  }

  ghost predicate Valid(w: World) {
    && w.dims.Valid()
    && forall c :: c in w.chunks ==> ChunkShaped(w.dims, c, w.chunks[c])
  }

  /** Every stored voxel names a registered block, as the mesher needs. */
  ghost predicate Registered(w: World) {
    forall c :: c in w.chunks ==> VoxelsRegistered(w.chunks[c].chunk.voxelData, w.registry)
  }

  /** VoxelSystem::ChunkExists. */
  predicate ChunkExists(w: World, c: IVec3) {
    c in w.chunks
  }

  // ---------------------------------------------------------------------
  // Coordinates
  // ---------------------------------------------------------------------

  /** `floor(a / d)` on a float and an int dimension. */
  function FloorDiv(a: real, d: nat): (q: int)
    requires d > 0
    ensures q as real * d as real <= a < (q + 1) as real * d as real
  {
    var dr := d as real;
    var t := a / dr;
    var f := t.Floor;
    RealScale(f as real, t, dr);
    RealScale(t, (f + 1) as real, dr);
    DivTimes(a, dr);
    f
  }

  lemma RealScale(x: real, y: real, k: real)
    requires x <= y && k > 0.0
    ensures x * k <= y * k && (x < y ==> x * k < y * k)
  {
  }

  lemma DivTimes(a: real, k: real)
    requires k > 0.0
    ensures a / k * k == a
  {
  }

  /** For an integral argument the float floor division is Euclidean division. */
  lemma FloorDivOfInt(a: int, d: nat)
    requires d > 0
    ensures FloorDiv(a as real, d) == a / d
  {
    var q := FloorDiv(a as real, d);
    assert (q * d) as real == q as real * d as real;
    assert ((q + 1) * d) as real == (q + 1) as real * d as real;
    assert q * d <= a < q * d + d;
    DivModUnique(a - d * q, q, d);
  }

  /** VoxelSystem::WorldToChunk. */
  function WorldToChunk(dims: Dims, pos: Vec3): IVec3
    requires dims.Valid()
  {
    IVec3(FloorDiv(pos.x, dims.width), FloorDiv(pos.y, dims.height), FloorDiv(pos.z, dims.length))
  }

  function ToVec3(p: IVec3): Vec3 {
    Vec3(p.x as real, p.y as real, p.z as real)
  }

  /** The chunk holding voxel `p` (the source converts the ivec3 to a vec3 first). */
  function VoxelChunk(dims: Dims, p: IVec3): IVec3
    requires dims.Valid()
  {
    WorldToChunk(dims, ToVec3(p))
  }

  /** VoxelSystem::WorldToLocal: C++ `%`, negative for negative coordinates. */
  function WorldToLocal(dims: Dims, p: IVec3): IVec3
    requires dims.Valid()
  {
    IVec3(TruncRem(p.x, dims.width), TruncRem(p.y, dims.height), TruncRem(p.z, dims.length))
  }

  /** The `if (local.x < 0) local.x += chunkWidth` correction of IsBorderVoxel. */
  function Normalize(l: int, dim: nat): int {
    if l < 0 then l + dim else l
  }

  /** WorldToLocal followed by the correction: the chunk-local coordinate. */
  function LocalCoord(dims: Dims, p: IVec3): IVec3
    requires dims.Valid()
  {
    var l := WorldToLocal(dims, p);
    IVec3(Normalize(l.x, dims.width), Normalize(l.y, dims.height), Normalize(l.z, dims.length))
  }

  /** On one axis the corrected remainder is the Euclidean one. */
  lemma NormalizedRemainder(a: int, d: nat)
    requires d > 0
    ensures Normalize(TruncRem(a, d), d) == a % d
  {
    if a < 0 {
      var m := -a;
      var q, r := m / d, m % d;
      assert m == d * q + r;
      if r == 0 {
        assert a == d * (-q);
        DivModUnique(0, -q, d);
      } else {
        assert a == d * (-q - 1) + (d - r);
        DivModUnique(d - r, -q - 1, d);
      }
    }
  }

  /** Every voxel coordinate splits into its chunk and a local coordinate
      inside the chunk: chunk * dim + local == p on each axis. */
  lemma LocalDecomposition(dims: Dims, p: IVec3)
    requires dims.Valid()
    ensures var l := LocalCoord(dims, p); dims.Contains(l.x, l.y, l.z)
    ensures var c, l := VoxelChunk(dims, p), LocalCoord(dims, p);
      && c.x * dims.width + l.x == p.x
      && c.y * dims.height + l.y == p.y
      && c.z * dims.length + l.z == p.z
  {
    AxisDecomposition(p.x, dims.width);
    AxisDecomposition(p.y, dims.height);
    AxisDecomposition(p.z, dims.length);
  }

  /** LocalDecomposition on one axis. */
  lemma AxisDecomposition(a: int, d: nat)
    requires d > 0
    ensures 0 <= Normalize(TruncRem(a, d), d) < d
    ensures FloorDiv(a as real, d) * d + Normalize(TruncRem(a, d), d) == a
  {
    FloorDivOfInt(a, d);
    NormalizedRemainder(a, d);
    assert a == d * (a / d) + a % d;
  }

  /** Two voxels of the same chunk with the same local coordinate are the same voxel. */
  lemma LocalCoordInjective(dims: Dims, p: IVec3, q: IVec3)
    requires dims.Valid()
    requires VoxelChunk(dims, p) == VoxelChunk(dims, q) && LocalCoord(dims, p) == LocalCoord(dims, q)
    ensures p == q
  {
    LocalDecomposition(dims, p);
    LocalDecomposition(dims, q);
  }

  /** The buffer index of voxel `p` inside its chunk (normalised local coordinate). */
  function VoxelIndex(dims: Dims, p: IVec3): (i: nat)
    requires dims.Valid()
    ensures i < dims.Volume()
  {
    LocalDecomposition(dims, p);
    var l := LocalCoord(dims, p);
    Index3DInRange(l.x, l.y, l.z, dims);
    Index3D(l.x, l.y, l.z, dims.width, dims.length)
  }

  /** Distinct voxels of one chunk occupy distinct buffer cells. */
  lemma VoxelIndexInjective(dims: Dims, p: IVec3, q: IVec3)
    requires dims.Valid()
    requires VoxelChunk(dims, p) == VoxelChunk(dims, q) && p != q
    ensures VoxelIndex(dims, p) != VoxelIndex(dims, q)
  {
    LocalDecomposition(dims, p);
    LocalDecomposition(dims, q);
    var lp, lq := LocalCoord(dims, p), LocalCoord(dims, q);
    if VoxelIndex(dims, p) == VoxelIndex(dims, q) {
      Index3DInjective(lp.x, lp.y, lp.z, lq.x, lq.y, lq.z, dims.width, dims.length);
      LocalCoordInjective(dims, p, q);
    }
  }

  /** The index GetVoxel computes: the raw truncated remainder, not normalised. */
  function VoxelIndexAsWritten(dims: Dims, p: IVec3): int
    requires dims.Valid()
  {
    var l := WorldToLocal(dims, p);
    Index3D(l.x, l.y, l.z, dims.width, dims.length)
  }

  /** For voxels with non-negative coordinates the raw index is the right one. */
  lemma VoxelIndexAsWrittenNonNegative(dims: Dims, p: IVec3)
    requires dims.Valid() && p.x >= 0 && p.y >= 0 && p.z >= 0
    ensures VoxelIndexAsWritten(dims, p) == VoxelIndex(dims, p)
  {
  }

  // ---------------------------------------------------------------------
  // Reads and writes
  // ---------------------------------------------------------------------

  /** GetVoxel with the local coordinate normalised: the voxel's type, or the
      shared air voxel when its chunk is not loaded. */
  function GetVoxel(w: World, p: IVec3): (v: nat)
    requires Valid(w)
    ensures VoxelChunk(w.dims, p) !in w.chunks ==> v == w.airVoxel
    ensures VoxelChunk(w.dims, p) in w.chunks ==> v == w.chunks[VoxelChunk(w.dims, p)].chunk.voxelData[VoxelIndex(w.dims, p)]
  {
    var c := VoxelChunk(w.dims, p);
    if c in w.chunks then w.chunks[c].chunk.voxelData[VoxelIndex(w.dims, p)] else w.airVoxel
  }

  /** GetVoxel as written (voxelSystem.cpp:138-152). `None` stands for an
      access outside the chunk's buffer, which C++ leaves undefined. */
  function GetVoxelAsWritten(w: World, p: IVec3): (v: Option<nat>)
    requires Valid(w)
    ensures v.None? <==> VoxelChunk(w.dims, p) in w.chunks && !(0 <= VoxelIndexAsWritten(w.dims, p) < w.dims.Volume())
  {
    var c := VoxelChunk(w.dims, p);
    var i := VoxelIndexAsWritten(w.dims, p);
    if c !in w.chunks then Some(w.airVoxel)
    else if 0 <= i < |w.chunks[c].chunk.voxelData| then Some(w.chunks[c].chunk.voxelData[i])
    else None
  }

  /** In a world of 31-voxel chunks, GetVoxel as written reads voxel (-1, 0, 0)
      when asked for (-1, 0, 1), and indexes before the buffer for (-1, 0, 0). */
  lemma GetVoxelNegativeCoordinates(w: World)
    requires Valid(w) && w.dims == Dims(31, 31, 31) && IVec3(-1, 0, 0) in w.chunks
    ensures VoxelIndexAsWritten(w.dims, IVec3(-1, 0, 1)) == 30
    ensures VoxelIndex(w.dims, IVec3(-1, 0, 1)) == 61
    ensures GetVoxelAsWritten(w, IVec3(-1, 0, 1)) == Some(GetVoxel(w, IVec3(-1, 0, 0)))
    ensures GetVoxelAsWritten(w, IVec3(-1, 0, 0)).None?
  {
    FloorDivOfInt(-1, 31);
    FloorDivOfInt(0, 31);
    FloorDivOfInt(1, 31);
  }

  /** GetVoxel as written agrees with the corrected read wherever it is defined
      on non-negative coordinates, and on every unloaded chunk. */
  lemma GetVoxelAsWrittenAgrees(w: World, p: IVec3)
    requires Valid(w)
    requires (p.x >= 0 && p.y >= 0 && p.z >= 0) || VoxelChunk(w.dims, p) !in w.chunks
    ensures GetVoxelAsWritten(w, p) == Some(GetVoxel(w, p))
  {
  }

  /** The entity with its chunk flagged for re-meshing. */
  function Dirtied(e: ChunkEntity): ChunkEntity {
    e.(chunk := e.chunk.(chunkState := NeedsMeshing))
  }

  /** MarkChunkDirty: flag a loaded chunk for re-meshing; an absent one is ignored. */
  function MarkChunkDirty(w: World, c: IVec3): (r: World)
    ensures c !in w.chunks ==> r == w
    ensures r.dims == w.dims && r.registry == w.registry && r.airVoxel == w.airVoxel
    ensures r.chunks.Keys == w.chunks.Keys
    ensures c in w.chunks ==> r.chunks[c].chunk.chunkState == NeedsMeshing
    ensures forall k :: k in w.chunks ==> r.chunks[k] == if k == c then Dirtied(w.chunks[k]) else w.chunks[k]
  {
    if c !in w.chunks then w
    else w.(chunks := w.chunks[c := Dirtied(w.chunks[c])])
  }

  /** Marking is idempotent. */
  lemma MarkChunkDirtyIdempotent(w: World, c: IVec3)
    ensures MarkChunkDirty(MarkChunkDirty(w, c), c) == MarkChunkDirty(w, c)
  {
  }

  /** VoxelSystem::IsBorderVoxel: the local coordinate touches a chunk face. */
  predicate IsBorderVoxel(dims: Dims, p: IVec3)
    requires dims.Valid()
  {
    var l := LocalCoord(dims, p);
    || l.x == 0 || l.y == 0 || l.z == 0
    || l.x == dims.width - 1 || l.y == dims.height - 1 || l.z == dims.length - 1
  }

  /** The neighbour step along one axis: -1 at the low face, otherwise +1 at the high face. */
  function AxisStep(l: int, dim: nat): int {
    if l == 0 then -1 else if l == dim - 1 then 1 else 0
  }

  /** Chunk `c` shifted by `s` along `axis`. */
  function Shift(c: IVec3, axis: nat, s: int): IVec3
    requires axis < 3
  {
    if axis == 0 then IVec3(c.x + s, c.y, c.z)
    else if axis == 1 then IVec3(c.x, c.y + s, c.z)
    else IVec3(c.x, c.y, c.z + s)
  }

  /** The neighbour chunks an edit of voxel `p` touches: across each face the
      local coordinate lies on, the low face winning when both apply. */
  function NeighbourTargets(dims: Dims, p: IVec3): (t: set<IVec3>)
    requires dims.Valid()
  {
    var c, l := VoxelChunk(dims, p), LocalCoord(dims, p);
    var sx, sy, sz := AxisStep(l.x, dims.width), AxisStep(l.y, dims.height), AxisStep(l.z, dims.length);
    (if sx != 0 then {Shift(c, 0, sx)} else {})
    + (if sy != 0 then {Shift(c, 1, sy)} else {})
    + (if sz != 0 then {Shift(c, 2, sz)} else {})
  }

  /** One axis of MarkNeighborChunksDirty: mark the neighbour `step` away, if any. */
  function MarkAxis(w: World, c: IVec3, axis: nat, step: int): (r: World)
    requires axis < 3
    ensures r.dims == w.dims && r.registry == w.registry && r.airVoxel == w.airVoxel
    ensures r.chunks.Keys == w.chunks.Keys
    ensures forall k :: k in w.chunks ==>
      r.chunks[k] == if step != 0 && k == Shift(c, axis, step) then Dirtied(w.chunks[k]) else w.chunks[k]
  {
    if step != 0 then MarkChunkDirty(w, Shift(c, axis, step)) else w
  }

  /** VoxelSystem::MarkNeighborChunksDirty: per axis, the chunk below when the
      local coordinate is 0, else the chunk above when it is dim - 1. */
  function MarkNeighborChunksDirty(w: World, p: IVec3): (r: World)
    requires w.dims.Valid()
    ensures r.dims == w.dims && r.registry == w.registry && r.airVoxel == w.airVoxel
    ensures r.chunks.Keys == w.chunks.Keys
    ensures forall k :: k in w.chunks ==> r.chunks[k] == w.chunks[k] || r.chunks[k] == Dirtied(w.chunks[k])
  {
    var c, l := VoxelChunk(w.dims, p), LocalCoord(w.dims, p);
    var w1 := MarkAxis(w, c, 0, AxisStep(l.x, w.dims.width));
    var w2 := MarkAxis(w1, c, 1, AxisStep(l.y, w.dims.height));
    MarkAxis(w2, c, 2, AxisStep(l.z, w.dims.length))
  }

  /** Exactly the neighbour targets are flagged; every other chunk is untouched. */
  lemma MarkNeighborChunksDirtyEffect(w: World, p: IVec3, k: IVec3)
    requires w.dims.Valid() && k in w.chunks
    ensures MarkNeighborChunksDirty(w, p).chunks[k] ==
      if k in NeighbourTargets(w.dims, p) then Dirtied(w.chunks[k]) else w.chunks[k]
  {
    var c, l := VoxelChunk(w.dims, p), LocalCoord(w.dims, p);
    var sx, sy, sz := AxisStep(l.x, w.dims.width), AxisStep(l.y, w.dims.height), AxisStep(l.z, w.dims.length);
    var w1 := MarkAxis(w, c, 0, sx);
    var w2 := MarkAxis(w1, c, 1, sy);
    assert MarkNeighborChunksDirty(w, p) == MarkAxis(w2, c, 2, sz);
    var hit := (sx != 0 && k == Shift(c, 0, sx)) || (sy != 0 && k == Shift(c, 1, sy)) || (sz != 0 && k == Shift(c, 2, sz));
    assert k in NeighbourTargets(w.dims, p) <==> hit;
  }

  /** Some neighbour is targeted exactly when the voxel is a border voxel; at
      most one per axis, each sharing a face with the voxel's chunk. */
  lemma NeighbourTargetsIffBorder(dims: Dims, p: IVec3)
    requires dims.Valid()
    ensures NeighbourTargets(dims, p) != {} <==> IsBorderVoxel(dims, p)
    ensures |NeighbourTargets(dims, p)| <= 3
    ensures forall t :: t in NeighbourTargets(dims, p) ==>
      var d := t.Minus(VoxelChunk(dims, p)); Abs(d.x) + Abs(d.y) + Abs(d.z) == 1
  {
    var c, l := VoxelChunk(dims, p), LocalCoord(dims, p);
    var sx, sy, sz := AxisStep(l.x, dims.width), AxisStep(l.y, dims.height), AxisStep(l.z, dims.length);
    var a: set<IVec3> := if sx != 0 then {Shift(c, 0, sx)} else {};
    var b: set<IVec3> := if sy != 0 then {Shift(c, 1, sy)} else {};
    var e: set<IVec3> := if sz != 0 then {Shift(c, 2, sz)} else {};
    assert NeighbourTargets(dims, p) == a + b + e;
    assert |a + b| <= |a| + |b|;
    assert |a + b + e| <= |a + b| + |e|;
    if IsBorderVoxel(dims, p) {
      assert sx != 0 || sy != 0 || sz != 0;
      if sx != 0 {
        assert Shift(c, 0, sx) in a + b + e;
      } else if sy != 0 {
        assert Shift(c, 1, sy) in a + b + e;
      } else {
        assert Shift(c, 2, sz) in a + b + e;
      }
    }
  }

  /** A world whose chunks were at most flagged for re-meshing stays valid. */
  lemma DirtiedStillValid(w: World, r: World)
    requires Valid(w) && r.dims == w.dims && r.chunks.Keys == w.chunks.Keys
    requires forall k :: k in w.chunks ==> r.chunks[k] == w.chunks[k] || r.chunks[k] == Dirtied(w.chunks[k])
    ensures Valid(r)
  {
    forall k | k in r.chunks
      ensures ChunkShaped(r.dims, k, r.chunks[k])
    {
      assert ChunkShaped(w.dims, k, w.chunks[k]);
    }
  }

  /** The buffer write of SetVoxel, corrected: it goes to the normalised local
      cell, and a write into an unloaded chunk is dropped. */
  function WriteVoxel(w: World, p: IVec3, blockId: nat): (r: World)
    requires Valid(w)
    ensures Valid(r)
    ensures r.dims == w.dims && r.registry == w.registry && r.airVoxel == w.airVoxel
    ensures r.chunks.Keys == w.chunks.Keys
    ensures forall k :: k in w.chunks && k != VoxelChunk(w.dims, p) ==> r.chunks[k] == w.chunks[k]
    ensures forall k :: k in w.chunks ==> r.chunks[k].chunk.chunkState == w.chunks[k].chunk.chunkState
    ensures VoxelChunk(w.dims, p) in w.chunks ==>
      r.chunks[VoxelChunk(w.dims, p)].chunk.voxelData == w.chunks[VoxelChunk(w.dims, p)].chunk.voxelData[VoxelIndex(w.dims, p) := blockId]
  {
    var c := VoxelChunk(w.dims, p);
    if c !in w.chunks then w
    else
      var e := w.chunks[c];
      var data := e.chunk.voxelData[VoxelIndex(w.dims, p) := blockId];
      var r := w.(chunks := w.chunks[c := e.(chunk := e.chunk.(voxelData := data))]);
      assert forall k :: k in r.chunks ==> ChunkShaped(r.dims, k, r.chunks[k]);
      r
  }

  /** VoxelSystem::SetVoxel with the corrected write: store, mark the owning
      chunk dirty, and on a border voxel mark the touched neighbours. */
  function SetVoxel(w: World, p: IVec3, blockId: nat): (r: World)
    requires Valid(w)
    ensures Valid(r)
    ensures r.dims == w.dims && r.registry == w.registry && r.airVoxel == w.airVoxel
    ensures r.chunks.Keys == w.chunks.Keys
  {
    var c := VoxelChunk(w.dims, p);
    var w1 := WriteVoxel(w, p, blockId);
    var w2 := MarkChunkDirty(w1, c);
    DirtiedStillValid(w1, w2);
    if IsBorderVoxel(w.dims, p) then
      var w3 := MarkNeighborChunksDirty(w2, p);
      DirtiedStillValid(w2, w3);
      w3
    else w2
  }

  /** Read-your-write: after SetVoxel(p, id) the voxel p of a loaded chunk reads
      id and every other voxel, loaded or not, reads what it read before. */
  lemma SetVoxelThenGetVoxel(w: World, p: IVec3, q: IVec3, blockId: nat)
    requires Valid(w)
    ensures VoxelChunk(w.dims, p) in w.chunks ==> GetVoxel(SetVoxel(w, p, blockId), p) == blockId
    ensures q != p ==> GetVoxel(SetVoxel(w, p, blockId), q) == GetVoxel(w, q)
  {
    var w1 := WriteVoxel(w, p, blockId);
    var r := SetVoxel(w, p, blockId);
    SetVoxelKeepsWrite(w, p, blockId, p);
    SetVoxelKeepsWrite(w, p, blockId, q);
    if q != p && VoxelChunk(w.dims, p) == VoxelChunk(w.dims, q) {
      VoxelIndexInjective(w.dims, p, q);
    }
  }

  /** Dirty marking leaves every buffer as the write left it. */
  lemma SetVoxelKeepsWrite(w: World, p: IVec3, blockId: nat, q: IVec3)
    requires Valid(w)
    ensures var c := VoxelChunk(w.dims, q);
      c in w.chunks ==> SetVoxel(w, p, blockId).chunks[c].chunk.voxelData == WriteVoxel(w, p, blockId).chunks[c].chunk.voxelData
  {
    var c := VoxelChunk(w.dims, q);
    if c in w.chunks {
      var w1 := WriteVoxel(w, p, blockId);
      var w2 := MarkChunkDirty(w1, VoxelChunk(w.dims, p));
      assert w2.chunks[c].chunk.voxelData == w1.chunks[c].chunk.voxelData;
      if IsBorderVoxel(w.dims, p) {
        assert SetVoxel(w, p, blockId) == MarkNeighborChunksDirty(w2, p);
        MarkNeighborChunksDirtyEffect(w2, p, c);
      }
    }
  }

  /** The states SetVoxel leaves: the owning chunk and the neighbours of a
      border voxel become NeedsMeshing; every other chunk keeps its state. */
  lemma SetVoxelDirtiesExactly(w: World, p: IVec3, blockId: nat, k: IVec3)
    requires Valid(w) && k in w.chunks
    ensures var c := VoxelChunk(w.dims, p);
      SetVoxel(w, p, blockId).chunks[k].chunk.chunkState ==
        if k == c || (IsBorderVoxel(w.dims, p) && k in NeighbourTargets(w.dims, p)) then NeedsMeshing
        else w.chunks[k].chunk.chunkState
  {
    var c := VoxelChunk(w.dims, p);
    var w1 := WriteVoxel(w, p, blockId);
    var w2 := MarkChunkDirty(w1, c);
    assert w2.chunks[k].chunk.chunkState == if k == c then NeedsMeshing else w.chunks[k].chunk.chunkState;
    if IsBorderVoxel(w.dims, p) {
      assert SetVoxel(w, p, blockId) == MarkNeighborChunksDirty(w2, p);
      MarkNeighborChunksDirtyEffect(w2, p, k);
    }
  }

  lemma LowFaceTargeted(dims: Dims, p: IVec3)
    requires dims.Valid() && LocalCoord(dims, p).x == 0
    ensures IsBorderVoxel(dims, p)
    ensures VoxelChunk(dims, p).Plus(IVec3(-1, 0, 0)) in NeighbourTargets(dims, p)
  {
    var c := VoxelChunk(dims, p);
    assert Shift(c, 0, -1) == c.Plus(IVec3(-1, 0, 0));
  }

  /** An interior edit dirties no chunk but its own; an edit on the low x face
      also dirties the chunk below it in x, when that chunk is loaded. */
  lemma SetVoxelNeighbourExamples(w: World, p: IVec3, blockId: nat, k: IVec3)
    requires Valid(w) && k in w.chunks
    ensures !IsBorderVoxel(w.dims, p) && k != VoxelChunk(w.dims, p) ==>
      SetVoxel(w, p, blockId).chunks[k].chunk.chunkState == w.chunks[k].chunk.chunkState
    ensures LocalCoord(w.dims, p).x == 0 && k == VoxelChunk(w.dims, p).Plus(IVec3(-1, 0, 0)) ==>
      SetVoxel(w, p, blockId).chunks[k].chunk.chunkState == NeedsMeshing
  {
    SetVoxelDirtiesExactly(w, p, blockId, k);
    var c := VoxelChunk(w.dims, p);
    if LocalCoord(w.dims, p).x == 0 && k == c.Plus(IVec3(-1, 0, 0)) {
      LowFaceTargeted(w.dims, p);
    }
  }

  /** SetVoxel as written: the write lands on the raw index and, for an
      unloaded chunk, on the shared air voxel. `None` is an out-of-buffer write. */
  function SetVoxelAsWritten(w: World, p: IVec3, blockId: nat): (r: Option<World>)
    requires Valid(w)
    ensures r.Some? ==> r.value.chunks.Keys == w.chunks.Keys && r.value.dims == w.dims
  {
    var c := VoxelChunk(w.dims, p);
    var i := VoxelIndexAsWritten(w.dims, p);
    if c in w.chunks && !(0 <= i < w.dims.Volume()) then None
    else
      var w1 := if c !in w.chunks then w.(airVoxel := blockId)
                else
                  var e := w.chunks[c];
                  w.(chunks := w.chunks[c := e.(chunk := e.chunk.(voxelData := e.chunk.voxelData[i := blockId]))]);
      var w2 := MarkChunkDirty(w1, c);
      Some(if IsBorderVoxel(w.dims, p) then MarkNeighborChunksDirty(w2, p) else w2)
  }

  /** SetVoxel as written on an unloaded chunk rewrites the shared air voxel:
      afterwards every read of any unloaded position returns the written type. */
  lemma SetVoxelAsWrittenPoisonsAir(w: World, p: IVec3, q: IVec3, blockId: nat)
    requires Valid(w)
    requires VoxelChunk(w.dims, p) !in w.chunks && VoxelChunk(w.dims, q) !in w.chunks
    ensures SetVoxelAsWritten(w, p, blockId).Some?
    ensures var r := SetVoxelAsWritten(w, p, blockId).value;
      Valid(r) && GetVoxelAsWritten(r, q) == Some(blockId)
  {
  }

  /** The corrected SetVoxel leaves unloaded space reading as it did. */
  lemma SetVoxelKeepsAir(w: World, p: IVec3, blockId: nat)
    requires Valid(w) && VoxelChunk(w.dims, p) !in w.chunks
    ensures SetVoxel(w, p, blockId).airVoxel == w.airVoxel
    ensures forall k :: k in w.chunks ==> SetVoxel(w, p, blockId).chunks[k].chunk.voxelData == w.chunks[k].chunk.voxelData
  {
  }

  // ---------------------------------------------------------------------
  // Flat generation and chunk creation
  // ---------------------------------------------------------------------

  /** `nameToId.at(name)` throws std::out_of_range for an unregistered name. */
  datatype GenError = UnknownBlockName

  /** The voxel at column (x, z), level y counted from the chunk's bottom, is stone. */
  predicate IsStone(dims: Dims, chunkY: int, height: (int, int) -> int, x: int, y: int, z: int) {
    y + dims.height * chunkY <= height(x, z)
  }

  /** The block name GenerateVoxelData looks up for that voxel. */
  function CellName(dims: Dims, chunkY: int, height: (int, int) -> int, x: int, y: int, z: int): string {
    if IsStone(dims, chunkY, height, x, y, z) then "Stone" else "Air"
  }

  /** Column (x, z) needs "Stone" iff its lowest voxel is stone and "Air" iff its highest is not. */
  predicate ColumnNamesPresent(dims: Dims, chunkY: int, height: (int, int) -> int, reg: BlockRegistry, x: int, z: int) {
    && (IsStone(dims, chunkY, height, x, 0, z) ==> "Stone" in reg.nameToId)
    && (!IsStone(dims, chunkY, height, x, dims.height - 1, z) ==> "Air" in reg.nameToId)
  }

  predicate NamesAvailable(dims: Dims, chunkY: int, height: (int, int) -> int, reg: BlockRegistry) {
    forall x, z | 0 <= x < dims.width && 0 <= z < dims.length :: ColumnNamesPresent(dims, chunkY, height, reg, x, z)
  }

  /** The block id GenerateVoxelData stores for level y of column (x, z). */
  function ColumnCell(dims: Dims, chunkY: int, height: (int, int) -> int, reg: BlockRegistry, x: int, y: int, z: int): nat
    requires 0 <= y < dims.height && ColumnNamesPresent(dims, chunkY, height, reg, x, z)
  {
    reg.nameToId[CellName(dims, chunkY, height, x, y, z)]
  }

  /** Buffer cell i: decoded as (x, row, z), holding level y = H - 1 - row of column (x, z). */
  function FlatCell(dims: Dims, chunkY: int, height: (int, int) -> int, reg: BlockRegistry, i: int): nat
    requires dims.Valid() && 0 <= i < dims.Volume() && NamesAvailable(dims, chunkY, height, reg)
  {
    Index3DEncode(i, dims);
    var x, row, z := i % dims.width, i / dims.width / dims.length, i / dims.width % dims.length;
    assert ColumnNamesPresent(dims, chunkY, height, reg, x, z);
    ColumnCell(dims, chunkY, height, reg, x, dims.height - 1 - row, z)
  }

  /** VoxelSystem::GenerateVoxelData, with the per-column random height
      (uniform in [12, 16] in the source) supplied as `height`. */
  function FlatGenerate(dims: Dims, chunkY: int, height: (int, int) -> int, reg: BlockRegistry): (r: Result<seq<nat>, GenError>)
    requires dims.Valid()
    ensures r.Failure? <==> !NamesAvailable(dims, chunkY, height, reg)
    ensures r.Success? ==> |r.value| == dims.Volume()
  {
    if !NamesAvailable(dims, chunkY, height, reg) then Failure(UnknownBlockName)
    else Success(seq(dims.Volume(), i requires 0 <= i < dims.Volume() => FlatCell(dims, chunkY, height, reg, i)))
  }

  /** The Y-flipped layout: level y of column (x, z) sits at buffer cell
      (x, H - 1 - y, z) and is Stone iff y + H * chunkY <= height(x, z). */
  lemma FlatGenerateLayout(dims: Dims, chunkY: int, height: (int, int) -> int, reg: BlockRegistry, x: int, y: int, z: int)
    requires dims.Valid() && dims.Contains(x, y, z)
    requires FlatGenerate(dims, chunkY, height, reg).Success?
    ensures var data, name := FlatGenerate(dims, chunkY, height, reg).value, CellName(dims, chunkY, height, x, y, z);
      && name in reg.nameToId
      && 0 <= Index3D(x, dims.height - 1 - y, z, dims.width, dims.length) < |data|
      && data[Index3D(x, dims.height - 1 - y, z, dims.width, dims.length)] == reg.nameToId[name]
  {
    var row := dims.height - 1 - y;
    var i := Index3D(x, row, z, dims.width, dims.length);
    Index3DInRange(x, row, z, dims);
    FlatGenerateCell(dims, chunkY, height, reg, i);
    assert ColumnNamesPresent(dims, chunkY, height, reg, x, z);
    FlatCellAt(dims, chunkY, height, reg, x, row, z);
  }

  /** FlatCell of an encoded index decodes back to its column and level. */
  lemma FlatCellAt(dims: Dims, chunkY: int, height: (int, int) -> int, reg: BlockRegistry, x: int, row: int, z: int)
    requires dims.Valid() && dims.Contains(x, row, z) && NamesAvailable(dims, chunkY, height, reg)
    requires ColumnNamesPresent(dims, chunkY, height, reg, x, z)
    ensures 0 <= Index3D(x, row, z, dims.width, dims.length) < dims.Volume()
    ensures FlatCell(dims, chunkY, height, reg, Index3D(x, row, z, dims.width, dims.length))
         == ColumnCell(dims, chunkY, height, reg, x, dims.height - 1 - row, z)
  {
    Index3DInRange(x, row, z, dims);
    Index3DDecode(x, row, z, dims.width, dims.length);
  }

  lemma FlatGenerateCell(dims: Dims, chunkY: int, height: (int, int) -> int, reg: BlockRegistry, i: int)
    requires dims.Valid() && 0 <= i < dims.Volume()
    requires FlatGenerate(dims, chunkY, height, reg).Success?
    ensures NamesAvailable(dims, chunkY, height, reg)
    ensures FlatGenerate(dims, chunkY, height, reg).value[i] == FlatCell(dims, chunkY, height, reg, i)
  {
  }

  /** The entity CreateChunk adds: a default chunk at `c`, flagged for meshing, with its voxels. */
  function NewChunk(c: IVec3, data: seq<nat>): ChunkEntity {
    ChunkEntity(DefaultChunk(c).(voxelData := data, chunkState := NeedsMeshing), None, None)
  }

  /** A chunk generator (the virtual GenerateVoxelData): the voxel buffer of
      the chunk at a coordinate, or the exception generation throws. */
  ghost predicate FillsChunks<E>(gen: IVec3 -> Result<seq<nat>, E>, dims: Dims) {
    forall c :: gen(c).Success? ==> |gen(c).value| == dims.Volume()
  }

  /** The base VoxelSystem::GenerateVoxelData as a generator, with the random
      column height of column (x, z) of chunk c supplied as `height(c, x, z)`. */
  function FlatGenerator(dims: Dims, reg: BlockRegistry, height: (IVec3, int, int) -> int): IVec3 -> Result<seq<nat>, GenError>
    requires dims.Valid()
  {
    (c: IVec3) => FlatGenerate(dims, c.y, (x, z) => height(c, x, z), reg)
  }

  /** The flat generator fills whole chunks, and fails for a chunk exactly
      when a block name its columns need is unregistered. */
  lemma FlatGeneratorFills(dims: Dims, reg: BlockRegistry, height: (IVec3, int, int) -> int, c: IVec3)
    requires dims.Valid()
    ensures FillsChunks(FlatGenerator(dims, reg, height), dims)
    ensures FlatGenerator(dims, reg, height)(c).Failure? <==> !NamesAvailable(dims, c.y, (x, z) => height(c, x, z), reg)
  {
  }

  /** An exception leaving the streaming pass, with the world as it stands
      when it is thrown. */
  datatype Thrown<E> = Thrown(error: E, world: World)

  /** `after` is `w` with chunk `c` (re)inserted as a fresh chunk flagged for
      meshing, and nothing else changed. */
  ghost predicate InsertedChunk(w: World, after: World, c: IVec3) {
    && after.dims == w.dims && after.registry == w.registry && after.airVoxel == w.airVoxel
    && after.chunks.Keys == w.chunks.Keys + {c}
    && (forall k :: k in w.chunks && k != c ==> after.chunks[k] == w.chunks[k])
    && var e := after.chunks[c];
      && e.chunk.chunkState == NeedsMeshing && e.chunk.worldPosition == c
      && e.chunk.chunkLOD == 0 && e.chunk.gpuIndex == U32Max && e.mesh.None? && e.translation.None?
  }

  /** VoxelSystem::CreateChunk: insert chunk `c` into the map, then generate
      its voxels. When generation throws, the chunk is already in the map;
      its buffer is recorded as empty. */
  function CreateChunk<E>(w: World, c: IVec3, gen: IVec3 -> Result<seq<nat>, E>): (r: Result<World, Thrown<E>>)
    requires Valid(w) && FillsChunks(gen, w.dims)
    ensures r.Failure? <==> gen(c).Failure?
    ensures r.Success? ==> Valid(r.value) && InsertedChunk(w, r.value, c)
    ensures r.Success? ==> r.value.chunks[c].chunk.voxelData == gen(c).value
    ensures r.Failure? ==> r.error.error == gen(c).error && InsertedChunk(w, r.error.world, c)
    ensures r.Failure? ==> r.error.world.chunks[c].chunk.voxelData == []
  {
    match gen(c)
    case Success(data) => Success(w.(chunks := w.chunks[c := NewChunk(c, data)]))
    case Failure(e) => Failure(Thrown(e, w.(chunks := w.chunks[c := NewChunk(c, [])])))
  }
}
