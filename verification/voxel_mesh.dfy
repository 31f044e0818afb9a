/**
 The GPU slot bookkeeping of one chunk mesh (src/Rendering/voxelMesh.cpp):
 Init takes room for the vertices and indices and one indirect draw command
 from the three shared free-list allocators and counts one more draw;
 Cleanup gives back whatever the mesh still holds. Buffer uploads are left
 out; the indirect command Init writes and the slot Cleanup zeroes are
 returned instead.
 */
module VoxelMesh {
  import opened Base
  import opened Allocator

  /** VoxelDrawInfo. The header stores these in `int` fields initialised
      with UINT32_MAX and compares them against UINT32_MAX, which converts
      back to the same uint32 value; they are modelled as uint32. */
  datatype DrawInfo = DrawInfo(vertexOffset: U32, vertexCount: U32, indexOffset: U32, indexCount: U32, indirectIndex: U32)

  /** A draw record holding no slot, as a new VoxelMesh starts. */
  const NoSlots: DrawInfo := DrawInfo(U32Max, 0, U32Max, 0, U32Max)

  /** VkDrawIndexedIndirectCommand. */
  datatype IndirectCommand = IndirectCommand(indexCount: U32, instanceCount: U32, firstIndex: U32, vertexOffset: U32, firstInstance: U32)

  /** The renderer's voxel buffers: three allocators and the draw counter
      (whose declared width is not part of this model; it is an int here). */
  datatype VoxelBuffers = VoxelBuffers(vertexAlloc: FreeList, indexAlloc: FreeList, indirectAlloc: FreeList, drawCount: int)

  /** The assert in Init that failed. */
  datatype InitError = VertexSpaceExhausted | IndexSpaceExhausted | IndirectSpaceExhausted

  /** Init's outcome: the mesh's draw record, the buffers after, and the
      command written into the indirect slot. */
  datatype Initialised = Initialised(info: DrawInfo, buffers: VoxelBuffers, command: IndirectCommand)

  /** VoxelMesh::Init for a mesh of vertexCount vertices and indexCount indices. */
  function Init(b: VoxelBuffers, vertexCount: U32, indexCount: U32, gpuIndex: U32): (r: Result<Initialised, InitError>)
    ensures r.Success? ==> r.value.buffers.drawCount == b.drawCount + 1
    ensures r.Success? ==>
      var i := r.value.info;
      && i.vertexCount == vertexCount && i.indexCount == indexCount
      && i.vertexOffset != U32Max && i.indexOffset != U32Max && i.indirectIndex != U32Max
    ensures r.Success? ==>
      var i, c := r.value.info, r.value.command;
      c == IndirectCommand(indexCount, 1, i.indexOffset, i.vertexOffset, gpuIndex)
  {
    var va := Allocate(b.vertexAlloc, vertexCount);
    var ia := Allocate(b.indexAlloc, indexCount);
    if va.offset == U32Max then Failure(VertexSpaceExhausted)
    else if ia.offset == U32Max then Failure(IndexSpaceExhausted)
    else
      var da := Allocate(b.indirectAlloc, 1);
      if da.offset == U32Max then Failure(IndirectSpaceExhausted)
      else
        var info := DrawInfo(va.offset, vertexCount, ia.offset, indexCount, da.offset);
        Success(Initialised(info, VoxelBuffers(va.ranges, ia.ranges, da.ranges, b.drawCount + 1),
                            IndirectCommand(indexCount, 1, ia.offset, va.offset, gpuIndex)))
  }

  /** Init on valid allocators fails exactly when one of the three requests
      finds no range large enough, checked in the source's order; on success
      each allocator is advanced by its own request. */
  lemma InitOutcome(b: VoxelBuffers, vertexCount: U32, indexCount: U32, gpuIndex: U32)
    requires Valid(b.vertexAlloc) && Valid(b.indexAlloc) && Valid(b.indirectAlloc)
    ensures var r := Init(b, vertexCount, indexCount, gpuIndex);
      && (r == Failure(VertexSpaceExhausted) <==> forall j :: 0 <= j < |b.vertexAlloc| ==> b.vertexAlloc[j].size < vertexCount)
      && (r.Success? <==>
            && (exists j :: 0 <= j < |b.vertexAlloc| && b.vertexAlloc[j].size >= vertexCount)
            && (exists j :: 0 <= j < |b.indexAlloc| && b.indexAlloc[j].size >= indexCount)
            && (exists j :: 0 <= j < |b.indirectAlloc| && b.indirectAlloc[j].size >= 1))
      && (r.Success? ==>
            && r.value.buffers.vertexAlloc == Allocate(b.vertexAlloc, vertexCount).ranges
            && r.value.buffers.indexAlloc == Allocate(b.indexAlloc, indexCount).ranges
            && r.value.buffers.indirectAlloc == Allocate(b.indirectAlloc, 1).ranges
            && r.value.info.vertexOffset == Allocate(b.vertexAlloc, vertexCount).offset
            && r.value.info.indexOffset == Allocate(b.indexAlloc, indexCount).offset
            && r.value.info.indirectIndex == Allocate(b.indirectAlloc, 1).offset)
  {
    AllocateSentinel(b.vertexAlloc, vertexCount);
    AllocateSentinel(b.indexAlloc, indexCount);
    AllocateSentinel(b.indirectAlloc, 1);
  }

  /** Cleanup's outcome: the mesh's draw record, the buffers after, and the
      indirect slot whose command was overwritten with a zero index count. */
  datatype Cleaned = Cleaned(info: DrawInfo, buffers: VoxelBuffers, zeroedSlot: Option<U32>)

  /** VoxelMesh::Cleanup: each held region is freed with its recorded size
      and its record reset. */
  function Cleanup(info: DrawInfo, b: VoxelBuffers): (r: Cleaned)
    ensures r.info.vertexOffset == U32Max && r.info.indexOffset == U32Max && r.info.indirectIndex == U32Max
    ensures r.info.vertexCount == if info.vertexOffset != U32Max then 0 else info.vertexCount
    ensures r.info.indexCount == if info.indexOffset != U32Max then 0 else info.indexCount
    ensures r.zeroedSlot.Some? <==> info.indirectIndex != U32Max
    ensures r.buffers.drawCount == if info.indirectIndex != U32Max then b.drawCount - 1 else b.drawCount
    ensures info.vertexOffset == U32Max ==> r.buffers.vertexAlloc == b.vertexAlloc
    ensures info.indexOffset == U32Max ==> r.buffers.indexAlloc == b.indexAlloc
    ensures info.indirectIndex == U32Max ==> r.buffers.indirectAlloc == b.indirectAlloc
  {
    var (ind, draws, zeroed) :=
      if info.indirectIndex != U32Max
      then (Free(b.indirectAlloc, info.indirectIndex, 1), b.drawCount - 1, Some(info.indirectIndex))
      else (b.indirectAlloc, b.drawCount, None);
    var (verts, vertexCount) :=
      if info.vertexOffset != U32Max then (Free(b.vertexAlloc, info.vertexOffset, info.vertexCount), 0)
      else (b.vertexAlloc, info.vertexCount);
    var (inds, indexCount) :=
      if info.indexOffset != U32Max then (Free(b.indexAlloc, info.indexOffset, info.indexCount), 0)
      else (b.indexAlloc, info.indexCount);
    Cleaned(DrawInfo(U32Max, vertexCount, U32Max, indexCount, U32Max), VoxelBuffers(verts, inds, ind, draws), zeroed)
  }

  /** A second Cleanup finds nothing held and changes nothing. */
  lemma CleanupIdempotent(info: DrawInfo, b: VoxelBuffers)
    ensures var once := Cleanup(info, b);
      Cleanup(once.info, once.buffers) == Cleaned(once.info, once.buffers, None)
  {
  }

  /** A record whose counts are zero wherever it holds no region ends as
      NoSlots; Init's records and NoSlots itself are such records. */
  lemma CleanupEmpties(info: DrawInfo, b: VoxelBuffers)
    requires info.vertexOffset == U32Max ==> info.vertexCount == 0
    requires info.indexOffset == U32Max ==> info.indexCount == 0
    ensures Cleanup(info, b).info == NoSlots
    ensures info == NoSlots ==> Cleanup(info, b) == Cleaned(NoSlots, b, None)
  {
  }

  /** Init followed by Cleanup leaves the same draw count and the same free
      units and totals in all three allocators, and a record holding nothing. */
  lemma InitCleanupRoundTrip(b: VoxelBuffers, vertexCount: U32, indexCount: U32, gpuIndex: U32)
    requires Valid(b.vertexAlloc) && Valid(b.indexAlloc) && Valid(b.indirectAlloc)
    requires Init(b, vertexCount, indexCount, gpuIndex).Success?
    ensures var s := Init(b, vertexCount, indexCount, gpuIndex).value;
      var c := Cleanup(s.info, s.buffers);
      && c.info == NoSlots
      && c.zeroedSlot == Some(s.info.indirectIndex)
      && c.buffers.drawCount == b.drawCount
      && Covered(c.buffers.vertexAlloc) == Covered(b.vertexAlloc)
      && Covered(c.buffers.indexAlloc) == Covered(b.indexAlloc)
      && Covered(c.buffers.indirectAlloc) == Covered(b.indirectAlloc)
      && Total(c.buffers.vertexAlloc) == Total(b.vertexAlloc)
      && Total(c.buffers.indexAlloc) == Total(b.indexAlloc)
      && Total(c.buffers.indirectAlloc) == Total(b.indirectAlloc)
  {
    InitOutcome(b, vertexCount, indexCount, gpuIndex);
    var s := Init(b, vertexCount, indexCount, gpuIndex).value;
    CleanupHeld(s.info, s.buffers);
    RoundTripOne(b.vertexAlloc, vertexCount);
    RoundTripOne(b.indexAlloc, indexCount);
    RoundTripOne(b.indirectAlloc, 1);
  }

  /** Cleanup of a record holding all three regions frees each with its
      recorded size and retires the draw. */
  lemma CleanupHeld(info: DrawInfo, b: VoxelBuffers)
    requires info.vertexOffset != U32Max && info.indexOffset != U32Max && info.indirectIndex != U32Max
    ensures var c := Cleanup(info, b);
      && c.info == DrawInfo(U32Max, 0, U32Max, 0, U32Max)
      && c.zeroedSlot == Some(info.indirectIndex)
      && c.buffers == VoxelBuffers(Free(b.vertexAlloc, info.vertexOffset, info.vertexCount),
                                   Free(b.indexAlloc, info.indexOffset, info.indexCount),
                                   Free(b.indirectAlloc, info.indirectIndex, 1), b.drawCount - 1)
  {
  }

  /** One allocator's share of the round trip. */
  lemma RoundTripOne(rs: FreeList, size: U32)
    requires Valid(rs)
    requires exists j :: 0 <= j < |rs| && rs[j].size >= size
    ensures var a := Allocate(rs, size);
      && Covered(Free(a.ranges, a.offset, size)) == Covered(rs)
      && Total(Free(a.ranges, a.offset, size)) == Total(rs)
  {
    var k := FirstFit(rs, size, 0).value;
    AllocateFreeRoundTrip(rs, size, k);
  }
}
