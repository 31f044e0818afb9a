/**
 The chunk mesher (src/Voxels/meshingSystem.cpp). For each axis it sweeps
 the planes between voxel layers d and d+1 for d = -1 .. dims[axis]-1,
 builds a signed face mask per plane, merges the mask into rectangles
 (module GreedyMerge) and emits one quad per rectangle.

 Solidity is read from the block registry. Coordinates outside the chunk
 count as empty, so faces on both chunk boundaries are produced.
 */
module Mesher {
  import opened Base
  import opened Components
  import opened GreedyMerge
  import opened VertexData
  import opened ChunkStore

  /** The voxels of one chunk, complete and naming registered blocks. */
  ghost predicate ChunkReady(voxels: seq<nat>, reg: BlockRegistry, dims: Dims) {
    dims.Valid() && |voxels| == dims.Volume() && VoxelsRegistered(voxels, reg)
  }

  /** The buffer index the mask records: Index3D with row length W and plane length D. */
  function FlatIndex(dims: Dims, p: IVec3): int {
    Index3D(p.x, p.y, p.z, dims.width, dims.length)
  }

  /** IsSolid, reading the voxel with the same (W, D) layout as the mask and
      the chunk buffer: false outside the chunk, else the block's `visible`. */
  function IsSolid(voxels: seq<nat>, reg: BlockRegistry, dims: Dims, p: IVec3): (s: bool)
    requires ChunkReady(voxels, reg, dims)
    ensures s ==> dims.Contains(p.x, p.y, p.z) && 0 <= FlatIndex(dims, p) < |voxels|
  {
    if !dims.Contains(p.x, p.y, p.z) then false
    else
      Index3DInRange(p.x, p.y, p.z, dims);
      reg.blocks[voxels[FlatIndex(dims, p)]].visible
  }

  /** IsSolid as written: `Index3D(x, y, z, w, h)`, with H as the plane
      length. `None` is a read outside the voxel buffer. */
  function IsSolidAsWritten(voxels: seq<nat>, reg: BlockRegistry, dims: Dims, p: IVec3): (s: Option<bool>)
    requires ChunkReady(voxels, reg, dims)
  {
    if !dims.Contains(p.x, p.y, p.z) then Some(false)
    else
      var idx := Index3D(p.x, p.y, p.z, dims.width, dims.height);
      if idx < |voxels| then Some(reg.blocks[voxels[idx]].visible) else None
  }

  /** When height and length agree (in particular for cubic chunks) the two
      layouts coincide and IsSolid as written reads the right voxel. */
  lemma IsSolidAsWrittenAgrees(voxels: seq<nat>, reg: BlockRegistry, dims: Dims, p: IVec3)
    requires ChunkReady(voxels, reg, dims) && dims.height == dims.length
    ensures IsSolidAsWritten(voxels, reg, dims, p) == Some(IsSolid(voxels, reg, dims, p))
  {
    if dims.Contains(p.x, p.y, p.z) {
      Index3DInRange(p.x, p.y, p.z, dims);
    }
  }

  /** In a 1x2x1 chunk, IsSolid as written reads index 2 of a two-voxel
      buffer for the upper voxel (0, 1, 0). */
  lemma IsSolidAsWrittenOutOfBounds(reg: BlockRegistry)
    requires |reg.blocks| > 0
    ensures ChunkReady([0, 0], reg, Dims(1, 2, 1))
    ensures IsSolidAsWritten([0, 0], reg, Dims(1, 2, 1), IVec3(0, 1, 0)).None?
    ensures IsSolid([0, 0], reg, Dims(1, 2, 1), IVec3(0, 1, 0)) == reg.blocks[0].visible
  {
    assert Index3D(0, 1, 0, 1, 2) == 2;
    assert Index3D(0, 1, 0, 1, 1) == 1;
  }

  /** The axes spanning the slice of `axis`: u = (axis+1) % 3 and v = (axis+2) % 3. */
  function UAxis(axis: nat): nat
    requires axis < 3
  {
    (axis + 1) % 3
  }

  function VAxis(axis: nat): nat
    requires axis < 3
  {
    (axis + 2) % 3
  }

  /** The point with component `a` on `axis`, `i` on u and `j` on v. */
  function SlicePoint(axis: nat, a: int, i: int, j: int): (p: IVec3)
    requires axis < 3
    ensures p.Get(axis) == a && p.Get(UAxis(axis)) == i && p.Get(VAxis(axis)) == j
  {
    if axis == 0 then IVec3(a, i, j) else if axis == 1 then IVec3(j, a, i) else IVec3(i, j, a)
  }

  lemma SlicePointInjective(axis: nat, a: int, i: int, j: int, a': int, i': int, j': int)
    requires axis < 3 && SlicePoint(axis, a, i, j) == SlicePoint(axis, a', i', j')
    ensures a == a' && i == i' && j == j'
  {
  }

  /** Slice extent along u and along v. */
  function USize(dims: Dims, axis: nat): nat
    requires axis < 3
  {
    dims.Along(UAxis(axis))
  }

  function VSize(dims: Dims, axis: nat): nat
    requires axis < 3
  {
    dims.Along(VAxis(axis))
  }

  /** A slice point with in-slice (i, j) lies in the chunk iff its layer does. */
  lemma SlicePointContains(dims: Dims, axis: nat, a: int, i: int, j: int)
    requires axis < 3 && 0 <= i < USize(dims, axis) && 0 <= j < VSize(dims, axis)
    ensures var p := SlicePoint(axis, a, i, j); dims.Contains(p.x, p.y, p.z) <==> 0 <= a < dims.Along(axis)
  {
  }

  /** One mask cell: 0 when layers d and d+1 agree in solidity, else the
      solid voxel's index plus one, negated when that voxel is on layer d+1. */
  function MaskCell(voxels: seq<nat>, reg: BlockRegistry, dims: Dims, axis: nat, d: int, i: int, j: int): (c: int)
    requires ChunkReady(voxels, reg, dims) && axis < 3
    ensures var x, y := SlicePoint(axis, d, i, j), SlicePoint(axis, d + 1, i, j);
      && (c == 0 <==> IsSolid(voxels, reg, dims, x) == IsSolid(voxels, reg, dims, y))
      && (c > 0 ==> IsSolid(voxels, reg, dims, x) && c - 1 == FlatIndex(dims, x))
      && (c < 0 ==> IsSolid(voxels, reg, dims, y) && -c - 1 == FlatIndex(dims, y))
      && (c != 0 ==> 0 <= Abs(c) - 1 < |voxels|)
  {
    var x, y := SlicePoint(axis, d, i, j), SlicePoint(axis, d + 1, i, j);
    var a, b := IsSolid(voxels, reg, dims, x), IsSolid(voxels, reg, dims, y);
    if a == b then 0
    else
      var idx := if a then FlatIndex(dims, x) else FlatIndex(dims, y);
      if a then idx + 1 else -(idx + 1)
  }

  /** The mask of sweep position d: row j, cell i is MaskCell(d, i, j). */
  function BuildMask(voxels: seq<nat>, reg: BlockRegistry, dims: Dims, axis: nat, d: int): (m: seq<seq<int>>)
    requires ChunkReady(voxels, reg, dims) && axis < 3
    ensures Shaped(m, USize(dims, axis), VSize(dims, axis))
    ensures forall i, j :: 0 <= i < USize(dims, axis) && 0 <= j < VSize(dims, axis) ==>
      m[j][i] == MaskCell(voxels, reg, dims, axis, d, i, j)
  {
    seq(VSize(dims, axis), j =>
      seq(USize(dims, axis), i => MaskCell(voxels, reg, dims, axis, d, i, j)))
  }

  /** Two cells of one slice with the same non-zero code would name the same
      voxel on the same layer, hence the same slice position. */
  lemma MaskCellsDistinct(voxels: seq<nat>, reg: BlockRegistry, dims: Dims, axis: nat, d: int, i1: int, j1: int, i2: int, j2: int)
    requires ChunkReady(voxels, reg, dims) && axis < 3
    requires MaskCell(voxels, reg, dims, axis, d, i1, j1) != 0
    requires MaskCell(voxels, reg, dims, axis, d, i1, j1) == MaskCell(voxels, reg, dims, axis, d, i2, j2)
    ensures i1 == i2 && j1 == j2
  {
    var c := MaskCell(voxels, reg, dims, axis, d, i1, j1);
    var layer := if c > 0 then d else d + 1;
    var p, q := SlicePoint(axis, layer, i1, j1), SlicePoint(axis, layer, i2, j2);
    assert FlatIndex(dims, p) == FlatIndex(dims, q);
    Index3DInjective(p.x, p.y, p.z, q.x, q.y, q.z, dims.width, dims.length);
    SlicePointInjective(axis, layer, i1, j1, layer, i2, j2);
  }

  /** The non-obvious fact behind the merge: non-zero mask values of one
      slice are pairwise distinct. */
  lemma MaskDistinct(voxels: seq<nat>, reg: BlockRegistry, dims: Dims, axis: nat, d: int)
    requires ChunkReady(voxels, reg, dims) && axis < 3
    ensures DistinctCodes(BuildMask(voxels, reg, dims, axis, d), USize(dims, axis), VSize(dims, axis))
  {
    var m := BuildMask(voxels, reg, dims, axis, d);
    var u, v := USize(dims, axis), VSize(dims, axis);
    forall i1, j1, i2, j2 |
      && 0 <= i1 < u && 0 <= j1 < v && 0 <= i2 < u && 0 <= j2 < v
      && (i1 != i2 || j1 != j2) && m[j1][i1] != 0
      ensures m[j1][i1] != m[j2][i2]
    {
      if m[j1][i1] == m[j2][i2] {
        MaskCellsDistinct(voxels, reg, dims, axis, d, i1, j1, i2, j2);
      }
    }
  }

  // ---------------------------------------------------------------------
  // Quads
  // ---------------------------------------------------------------------

  /** The arguments of one EmitQuad call. */
  datatype Quad = Quad(pos: IVec3, size: IVec3, axis: nat, backFace: bool, texture: int)

  /** Texture choice: top or bottom on the Y axis by facing, side otherwise. */
  function FaceTexture(block: BlockType, axis: nat, front: bool): int {
    if axis == 1 then (if front then block.textureTop else block.textureBottom) else block.textureSide
  }

  /** A code that names a voxel of the buffer. */
  predicate CodeNamesVoxel(code: int, voxels: seq<nat>) {
    code != 0 && Abs(code) - 1 < |voxels|
  }

  /** The quad CreateMesh emits for a merged rectangle. */
  function RectQuad(voxels: seq<nat>, reg: BlockRegistry, dims: Dims, axis: nat, d: int, r: Rect): Quad
    requires ChunkReady(voxels, reg, dims) && axis < 3 && CodeNamesVoxel(r.code, voxels)
  {
    var block := reg.blocks[voxels[Abs(r.code) - 1]];
    Quad(SlicePoint(axis, if r.code > 0 then d + 1 else d, r.i, r.j),
         SlicePoint(axis, 1, r.w, r.h),
         axis, r.code < 0, FaceTexture(block, axis, r.code > 0))
  }

  function RectQuads(voxels: seq<nat>, reg: BlockRegistry, dims: Dims, axis: nat, d: int, rects: seq<Rect>): seq<Quad>
    requires ChunkReady(voxels, reg, dims) && axis < 3
    requires forall k :: 0 <= k < |rects| ==> CodeNamesVoxel(rects[k].code, voxels)
  {
    if rects == [] then []
    else [RectQuad(voxels, reg, dims, axis, d, rects[0])] + RectQuads(voxels, reg, dims, axis, d, rects[1..])
  }

  /** The quads of sweep position d: the mask merged into rectangles. */
  function SliceQuads(voxels: seq<nat>, reg: BlockRegistry, dims: Dims, axis: nat, d: int): seq<Quad>
    requires ChunkReady(voxels, reg, dims) && axis < 3
  {
    var u, v := USize(dims, axis), VSize(dims, axis);
    var mask := BuildMask(voxels, reg, dims, axis, d);
    MaskDistinct(voxels, reg, dims, axis, d);
    DistinctMergeIsUnitCells(mask, u, v);
    CellsUnit(mask, u, v, 0, 0);
    RectQuads(voxels, reg, dims, axis, d, Merge(mask, u, v).rects)
  }

  /** Reference: the face between layers d and d+1 at slice cell (i, j), if
      exactly one side is solid. It belongs to the solid voxel, faces the
      empty side and takes that voxel's texture. */
  function FaceAt(voxels: seq<nat>, reg: BlockRegistry, dims: Dims, axis: nat, d: int, i: int, j: int): Option<Quad>
    requires ChunkReady(voxels, reg, dims) && axis < 3
  {
    var x, y := SlicePoint(axis, d, i, j), SlicePoint(axis, d + 1, i, j);
    var a, b := IsSolid(voxels, reg, dims, x), IsSolid(voxels, reg, dims, y);
    if a == b then None
    else
      var solid := if a then x else y;
      var block := reg.blocks[voxels[FlatIndex(dims, solid)]];
      Some(Quad(SlicePoint(axis, if a then d + 1 else d, i, j), SlicePoint(axis, 1, 1, 1), axis, !a, FaceTexture(block, axis, a)))
  }

  /** Reference: the exposed faces of a slice from cell (i, j) on, in scan order. */
  function SliceFaces(voxels: seq<nat>, reg: BlockRegistry, dims: Dims, axis: nat, d: int, i: nat, j: nat): seq<Quad>
    requires ChunkReady(voxels, reg, dims) && axis < 3 && i <= USize(dims, axis)
    decreases VSize(dims, axis) - j, USize(dims, axis) - i
  {
    if j >= VSize(dims, axis) then []
    else if i == USize(dims, axis) then SliceFaces(voxels, reg, dims, axis, d, 0, j + 1)
    else
      var face := FaceAt(voxels, reg, dims, axis, d, i, j);
      (if face.Some? then [face.value] else []) + SliceFaces(voxels, reg, dims, axis, d, i + 1, j)
  }

  lemma RectQuadsAppend(voxels: seq<nat>, reg: BlockRegistry, dims: Dims, axis: nat, d: int, a: seq<Rect>, b: seq<Rect>)
    requires ChunkReady(voxels, reg, dims) && axis < 3
    requires forall k :: 0 <= k < |a| ==> CodeNamesVoxel(a[k].code, voxels)
    requires forall k :: 0 <= k < |b| ==> CodeNamesVoxel(b[k].code, voxels)
    ensures forall k :: 0 <= k < |a + b| ==> CodeNamesVoxel((a + b)[k].code, voxels)
    ensures RectQuads(voxels, reg, dims, axis, d, a + b) == RectQuads(voxels, reg, dims, axis, d, a) + RectQuads(voxels, reg, dims, axis, d, b)
  {
    if a == [] {
      assert a + b == b;
    } else {
      assert (a + b)[0] == a[0];
      assert (a + b)[1..] == a[1..] + b;
      RectQuadsAppend(voxels, reg, dims, axis, d, a[1..], b);
    }
  }

  /** A mask cell and the reference face at the same slice position agree: no
      face for a zero cell, and for a non-zero code the face its unit
      rectangle turns into. */
  lemma CellIsFace(voxels: seq<nat>, reg: BlockRegistry, dims: Dims, axis: nat, d: int, i: nat, j: nat)
    requires ChunkReady(voxels, reg, dims) && axis < 3
    ensures var c := MaskCell(voxels, reg, dims, axis, d, i, j);
      && (c == 0 <==> FaceAt(voxels, reg, dims, axis, d, i, j).None?)
      && (c != 0 ==> CodeNamesVoxel(c, voxels))
      && (c != 0 ==> FaceAt(voxels, reg, dims, axis, d, i, j) == Some(RectQuad(voxels, reg, dims, axis, d, Rect(i, j, 1, 1, c))))
  {
  }

  /** The unit cells of the mask from (i, j) on name voxels and turn into
      the slice's exposed faces from (i, j) on. */
  ghost predicate CellsMatchFaces(voxels: seq<nat>, reg: BlockRegistry, dims: Dims, axis: nat, d: int, mask: seq<seq<int>>, i: nat, j: nat)
    requires ChunkReady(voxels, reg, dims) && axis < 3 && i <= USize(dims, axis)
    requires mask == BuildMask(voxels, reg, dims, axis, d)
  {
    var cells := Cells(mask, USize(dims, axis), VSize(dims, axis), i, j);
    && (forall k :: 0 <= k < |cells| ==> CodeNamesVoxel(cells[k].code, voxels))
    && RectQuads(voxels, reg, dims, axis, d, cells) == SliceFaces(voxels, reg, dims, axis, d, i, j)
  }

  /** One cell of the scan: if the cells after (i, j) match the faces after
      it, so do the cells from (i, j) on. */
  lemma CellStep(voxels: seq<nat>, reg: BlockRegistry, dims: Dims, axis: nat, d: int, mask: seq<seq<int>>, i: nat, j: nat)
    requires ChunkReady(voxels, reg, dims) && axis < 3 && i < USize(dims, axis) && j < VSize(dims, axis)
    requires mask == BuildMask(voxels, reg, dims, axis, d)
    requires CellsMatchFaces(voxels, reg, dims, axis, d, mask, i + 1, j)
    ensures CellsMatchFaces(voxels, reg, dims, axis, d, mask, i, j)
  {
    var u, v := USize(dims, axis), VSize(dims, axis);
    var rest := Cells(mask, u, v, i + 1, j);
    var c := mask[j][i];
    assert c == MaskCell(voxels, reg, dims, axis, d, i, j);
    CellIsFace(voxels, reg, dims, axis, d, i, j);
    var face := FaceAt(voxels, reg, dims, axis, d, i, j);
    assert SliceFaces(voxels, reg, dims, axis, d, i, j)
        == (if face.Some? then [face.value] else []) + SliceFaces(voxels, reg, dims, axis, d, i + 1, j);
    if c != 0 {
      var r := Rect(i, j, 1, 1, c);
      assert Cells(mask, u, v, i, j) == [r] + rest;
      assert RectQuads(voxels, reg, dims, axis, d, [r]) == [face.value];
      RectQuadsAppend(voxels, reg, dims, axis, d, [r], rest);
    } else {
      assert Cells(mask, u, v, i, j) == rest;
    }
  }

  /** Each unit cell of the mask turns into the exposed face at that cell. */
  lemma {:induction false} CellsAreFaces(voxels: seq<nat>, reg: BlockRegistry, dims: Dims, axis: nat, d: int, mask: seq<seq<int>>, i: nat, j: nat)
    requires ChunkReady(voxels, reg, dims) && axis < 3 && i <= USize(dims, axis)
    requires mask == BuildMask(voxels, reg, dims, axis, d)
    ensures CellsMatchFaces(voxels, reg, dims, axis, d, mask, i, j)
    decreases VSize(dims, axis) - j, USize(dims, axis) - i
  {
    var u, v := USize(dims, axis), VSize(dims, axis);
    if j >= v {
      assert Cells(mask, u, v, i, j) == [];
      assert SliceFaces(voxels, reg, dims, axis, d, i, j) == [];
    } else if i == u {
      CellsAreFaces(voxels, reg, dims, axis, d, mask, 0, j + 1);
      assert Cells(mask, u, v, i, j) == Cells(mask, u, v, 0, j + 1);
      assert SliceFaces(voxels, reg, dims, axis, d, i, j) == SliceFaces(voxels, reg, dims, axis, d, 0, j + 1);
    } else {
      CellsAreFaces(voxels, reg, dims, axis, d, mask, i + 1, j);
      CellStep(voxels, reg, dims, axis, d, mask, i, j);
    }
  }

  /** The merged quads of a slice are exactly its exposed faces, one unit quad
      per face, in scan order. */
  lemma SliceQuadsAreFaces(voxels: seq<nat>, reg: BlockRegistry, dims: Dims, axis: nat, d: int)
    requires ChunkReady(voxels, reg, dims) && axis < 3
    ensures SliceQuads(voxels, reg, dims, axis, d) == SliceFaces(voxels, reg, dims, axis, d, 0, 0)
  {
    var mask := BuildMask(voxels, reg, dims, axis, d);
    MaskDistinct(voxels, reg, dims, axis, d);
    DistinctMergeIsUnitCells(mask, USize(dims, axis), VSize(dims, axis));
    CellsAreFaces(voxels, reg, dims, axis, d, mask, 0, 0);
  }

  /** The sweep of one axis from position d to dims[axis] - 1. */
  function AxisQuads(voxels: seq<nat>, reg: BlockRegistry, dims: Dims, axis: nat, d: int): seq<Quad>
    requires ChunkReady(voxels, reg, dims) && axis < 3
    decreases dims.Along(axis) - d
  {
    if d >= dims.Along(axis) then []
    else SliceQuads(voxels, reg, dims, axis, d) + AxisQuads(voxels, reg, dims, axis, d + 1)
  }

  /** Reference: the exposed faces of one axis from position d on. */
  function AxisFaces(voxels: seq<nat>, reg: BlockRegistry, dims: Dims, axis: nat, d: int): seq<Quad>
    requires ChunkReady(voxels, reg, dims) && axis < 3
    decreases dims.Along(axis) - d
  {
    if d >= dims.Along(axis) then []
    else SliceFaces(voxels, reg, dims, axis, d, 0, 0) + AxisFaces(voxels, reg, dims, axis, d + 1)
  }

  lemma {:induction false} AxisQuadsAreFaces(voxels: seq<nat>, reg: BlockRegistry, dims: Dims, axis: nat, d: int)
    requires ChunkReady(voxels, reg, dims) && axis < 3
    ensures AxisQuads(voxels, reg, dims, axis, d) == AxisFaces(voxels, reg, dims, axis, d)
    decreases dims.Along(axis) - d
  {
    if d < dims.Along(axis) {
      SliceQuadsAreFaces(voxels, reg, dims, axis, d);
      AxisQuadsAreFaces(voxels, reg, dims, axis, d + 1);
    }
  }

  /** Every quad CreateMesh emits, axis by axis, sweeping d = -1 .. dims[axis]-1. */
  function AllQuads(voxels: seq<nat>, reg: BlockRegistry, dims: Dims): seq<Quad>
    requires ChunkReady(voxels, reg, dims)
  {
    AxisQuads(voxels, reg, dims, 0, -1) + AxisQuads(voxels, reg, dims, 1, -1) + AxisQuads(voxels, reg, dims, 2, -1)
  }

  /** Reference: the exposed faces of the chunk, in the same order. */
  function ExposedFaces(voxels: seq<nat>, reg: BlockRegistry, dims: Dims): seq<Quad>
    requires ChunkReady(voxels, reg, dims)
  {
    AxisFaces(voxels, reg, dims, 0, -1) + AxisFaces(voxels, reg, dims, 1, -1) + AxisFaces(voxels, reg, dims, 2, -1)
  }

  /** The greedy mesher emits exactly the exposed faces: the quad count is the
      number of exposed faces. */
  lemma MeshQuadsAreExposedFaces(voxels: seq<nat>, reg: BlockRegistry, dims: Dims)
    requires ChunkReady(voxels, reg, dims)
    ensures AllQuads(voxels, reg, dims) == ExposedFaces(voxels, reg, dims)
  {
    AxisQuadsAreFaces(voxels, reg, dims, 0, -1);
    AxisQuadsAreFaces(voxels, reg, dims, 1, -1);
    AxisQuadsAreFaces(voxels, reg, dims, 2, -1);
  }

  lemma {:induction false} SliceFacesShape(voxels: seq<nat>, reg: BlockRegistry, dims: Dims, axis: nat, d: int, i: nat, j: nat)
    requires ChunkReady(voxels, reg, dims) && axis < 3 && i <= USize(dims, axis)
    ensures forall q :: q in SliceFaces(voxels, reg, dims, axis, d, i, j) ==>
      && q.axis == axis && q.size == SlicePoint(axis, 1, 1, 1)
      && q.pos.Get(axis) + (if q.backFace then 1 else 0) == d + 1
    decreases VSize(dims, axis) - j, USize(dims, axis) - i
  {
    if j >= VSize(dims, axis) {
    } else if i == USize(dims, axis) {
      SliceFacesShape(voxels, reg, dims, axis, d, 0, j + 1);
    } else {
      SliceFacesShape(voxels, reg, dims, axis, d, i + 1, j);
    }
  }

  /** Every quad of sweep position d is a unit quad on plane d+1: a front face
      starts at d+1, a back face starts at d and is shifted by one. */
  lemma SliceQuadsOnPlane(voxels: seq<nat>, reg: BlockRegistry, dims: Dims, axis: nat, d: int, q: Quad)
    requires ChunkReady(voxels, reg, dims) && axis < 3
    requires q in SliceQuads(voxels, reg, dims, axis, d)
    ensures q.axis == axis && q.size == SlicePoint(axis, 1, 1, 1)
    ensures q.pos.Get(axis) + (if q.backFace then 1 else 0) == d + 1
  {
    SliceQuadsAreFaces(voxels, reg, dims, axis, d);
    SliceFacesShape(voxels, reg, dims, axis, d, 0, 0);
  }

  lemma {:induction false} SliceFacesHas(voxels: seq<nat>, reg: BlockRegistry, dims: Dims, axis: nat, d: int, i0: nat, j0: nat, i: nat, j: nat)
    requires ChunkReady(voxels, reg, dims) && axis < 3 && i0 <= USize(dims, axis)
    requires i < USize(dims, axis) && j < VSize(dims, axis) && !Before(i, j, i0, j0)
    requires FaceAt(voxels, reg, dims, axis, d, i, j).Some?
    ensures FaceAt(voxels, reg, dims, axis, d, i, j).value in SliceFaces(voxels, reg, dims, axis, d, i0, j0)
    decreases VSize(dims, axis) - j0, USize(dims, axis) - i0
  {
    if i0 == USize(dims, axis) {
      SliceFacesHas(voxels, reg, dims, axis, d, 0, j0 + 1, i, j);
      assert SliceFaces(voxels, reg, dims, axis, d, i0, j0) == SliceFaces(voxels, reg, dims, axis, d, 0, j0 + 1);
    } else {
      var face := FaceAt(voxels, reg, dims, axis, d, i0, j0);
      var rest := SliceFaces(voxels, reg, dims, axis, d, i0 + 1, j0);
      assert SliceFaces(voxels, reg, dims, axis, d, i0, j0) == (if face.Some? then [face.value] else []) + rest;
      if i != i0 || j != j0 {
        SliceFacesHas(voxels, reg, dims, axis, d, i0 + 1, j0, i, j);
      }
    }
  }

  lemma {:induction false} AxisFacesHas(voxels: seq<nat>, reg: BlockRegistry, dims: Dims, axis: nat, d0: int, d: int, q: Quad)
    requires ChunkReady(voxels, reg, dims) && axis < 3 && d0 <= d < dims.Along(axis)
    requires q in SliceFaces(voxels, reg, dims, axis, d, 0, 0)
    ensures q in AxisFaces(voxels, reg, dims, axis, d0)
    decreases d - d0
  {
    if d0 < d {
      AxisFacesHas(voxels, reg, dims, axis, d0 + 1, d, q);
    }
  }

  /** The sweep starts at d = -1 and ends at dims[axis] - 1, so a solid voxel
      on a chunk boundary gets its outward face: a back face on the low side
      and a front face on the high side, both among the emitted quads. */
  lemma BoundaryFacesEmitted(voxels: seq<nat>, reg: BlockRegistry, dims: Dims, axis: nat, p: IVec3)
    requires ChunkReady(voxels, reg, dims) && axis < 3
    requires IsSolid(voxels, reg, dims, p)
    ensures p.Get(axis) == 0 ==>
      var f := FaceAt(voxels, reg, dims, axis, -1, p.Get(UAxis(axis)), p.Get(VAxis(axis)));
      f.Some? && f.value.backFace && f.value in AllQuads(voxels, reg, dims)
    ensures p.Get(axis) == dims.Along(axis) - 1 ==>
      var f := FaceAt(voxels, reg, dims, axis, dims.Along(axis) - 1, p.Get(UAxis(axis)), p.Get(VAxis(axis)));
      f.Some? && !f.value.backFace && f.value in AllQuads(voxels, reg, dims)
  {
    if p.Get(axis) == 0 {
      LowBoundaryFace(voxels, reg, dims, axis, p);
    }
    if p.Get(axis) == dims.Along(axis) - 1 {
      HighBoundaryFace(voxels, reg, dims, axis, p);
    }
  }

  lemma LowBoundaryFace(voxels: seq<nat>, reg: BlockRegistry, dims: Dims, axis: nat, p: IVec3)
    requires ChunkReady(voxels, reg, dims) && axis < 3
    requires IsSolid(voxels, reg, dims, p) && p.Get(axis) == 0
    ensures var f := FaceAt(voxels, reg, dims, axis, -1, p.Get(UAxis(axis)), p.Get(VAxis(axis)));
      f.Some? && f.value.backFace && f.value in AllQuads(voxels, reg, dims)
  {
    var i, j := p.Get(UAxis(axis)), p.Get(VAxis(axis));
    assert 0 <= i < USize(dims, axis) && 0 <= j < VSize(dims, axis);
    assert SlicePoint(axis, 0, i, j) == p;
    SlicePointContains(dims, axis, -1, i, j);
    FaceOnSweep(voxels, reg, dims, axis, -1, i, j);
  }

  lemma HighBoundaryFace(voxels: seq<nat>, reg: BlockRegistry, dims: Dims, axis: nat, p: IVec3)
    requires ChunkReady(voxels, reg, dims) && axis < 3
    requires IsSolid(voxels, reg, dims, p) && p.Get(axis) == dims.Along(axis) - 1
    ensures var f := FaceAt(voxels, reg, dims, axis, dims.Along(axis) - 1, p.Get(UAxis(axis)), p.Get(VAxis(axis)));
      f.Some? && !f.value.backFace && f.value in AllQuads(voxels, reg, dims)
  {
    var i, j := p.Get(UAxis(axis)), p.Get(VAxis(axis));
    var top := dims.Along(axis) - 1;
    assert 0 <= i < USize(dims, axis) && 0 <= j < VSize(dims, axis);
    assert SlicePoint(axis, top, i, j) == p;
    SlicePointContains(dims, axis, top + 1, i, j);
    FaceOnSweep(voxels, reg, dims, axis, top, i, j);
  }

  /** A face found at a sweep position is among the quads of its axis. */
  lemma FaceOnSweep(voxels: seq<nat>, reg: BlockRegistry, dims: Dims, axis: nat, d: int, i: int, j: int)
    requires ChunkReady(voxels, reg, dims) && axis < 3 && -1 <= d < dims.Along(axis)
    requires 0 <= i < USize(dims, axis) && 0 <= j < VSize(dims, axis)
    requires FaceAt(voxels, reg, dims, axis, d, i, j).Some?
    ensures FaceAt(voxels, reg, dims, axis, d, i, j).value in AllQuads(voxels, reg, dims)
  {
    var q := FaceAt(voxels, reg, dims, axis, d, i, j).value;
    SliceFacesHas(voxels, reg, dims, axis, d, 0, 0, i, j);
    AxisFacesHas(voxels, reg, dims, axis, -1, d, q);
    AxisQuadsAreFaces(voxels, reg, dims, axis, -1);
    AxisQuadsInAll(voxels, reg, dims, axis, q);
  }

  lemma AxisQuadsInAll(voxels: seq<nat>, reg: BlockRegistry, dims: Dims, axis: nat, q: Quad)
    requires ChunkReady(voxels, reg, dims) && axis < 3
    requires q in AxisQuads(voxels, reg, dims, axis, -1)
    ensures q in AllQuads(voxels, reg, dims)
  {
    var a0, a1, a2 := AxisQuads(voxels, reg, dims, 0, -1), AxisQuads(voxels, reg, dims, 1, -1), AxisQuads(voxels, reg, dims, 2, -1);
    assert AllQuads(voxels, reg, dims) == a0 + a1 + a2;
    if axis == 0 { assert q in a0; } else if axis == 1 { assert q in a1; } else { assert q in a2; }
  }

  // ---------------------------------------------------------------------
  // Emission
  // ---------------------------------------------------------------------

  /** `v[axis]` of a vector that is `s` on `axis` and 0 elsewhere. */
  function AxisVector(axis: nat, s: int): (r: IVec3)
    requires axis < 3
    ensures r.Get(axis) == s
    ensures forall b :: 0 <= b < 3 && b != axis ==> r.Get(b) == 0
  {
    if axis == 0 then IVec3(s, 0, 0) else if axis == 1 then IVec3(0, s, 0) else IVec3(0, 0, s)
  }

  /** The four corners EmitQuad pushes, with their UVs; a back face is moved
      one unit along its axis. The texture argument is not used, and the
      constant colour (1, 1, 1) of every corner is left out of Vertex. */
  function QuadVertices(q: Quad): (vs: seq<Vertex>)
    requires q.axis < 3
    ensures |vs| == 4
    ensures forall k :: 0 <= k < 4 ==> vs[k].pos.Get(q.axis) == q.pos.Get(q.axis) + (if q.backFace then 1 else 0)
    ensures forall k :: 0 <= k < 4 ==>
      && vs[k].pos.Get(UAxis(q.axis)) == q.pos.Get(UAxis(q.axis)) + vs[k].texU * q.size.Get(UAxis(q.axis))
      && vs[k].pos.Get(VAxis(q.axis)) == q.pos.Get(VAxis(q.axis)) + vs[k].texV * q.size.Get(VAxis(q.axis))
    ensures (vs[0].texU, vs[0].texV) == (0, 0) && (vs[1].texU, vs[1].texV) == (1, 0)
    ensures (vs[2].texU, vs[2].texV) == (1, 1) && (vs[3].texU, vs[3].texV) == (0, 1)
  {
    [QuadCorner(q, 0, 0), QuadCorner(q, 1, 0), QuadCorner(q, 1, 1), QuadCorner(q, 0, 1)]
  }

  /** The corner with UV (tu, tv): the (shifted) origin p plus tu times du
      plus tv times dv, so p, p+du, p+du+dv and p+dv for the four UVs. */
  function QuadCorner(q: Quad, tu: nat, tv: nat): (c: Vertex)
    requires q.axis < 3 && tu <= 1 && tv <= 1
    ensures c.texU == tu && c.texV == tv
    ensures c.pos.Get(q.axis) == q.pos.Get(q.axis) + (if q.backFace then 1 else 0)
    ensures c.pos.Get(UAxis(q.axis)) == q.pos.Get(UAxis(q.axis)) + tu * q.size.Get(UAxis(q.axis))
    ensures c.pos.Get(VAxis(q.axis)) == q.pos.Get(VAxis(q.axis)) + tv * q.size.Get(VAxis(q.axis))
  {
    var u, v := UAxis(q.axis), VAxis(q.axis);
    var du, dv := AxisVector(u, tu * q.size.Get(u)), AxisVector(v, tv * q.size.Get(v));
    var shift := AxisVector(q.axis, if q.backFace then 1 else 0);
    var p := q.pos.Plus(shift);
    PlusGet(q.pos, shift);
    PlusGet(p, du);
    PlusGet(p.Plus(du), dv);
    Vertex(p.Plus(du).Plus(dv), tu, tv)
  }

  /** Each component of a sum is the sum of the components. */
  lemma PlusGet(a: IVec3, b: IVec3)
    ensures forall i :: 0 <= i < 3 ==> a.Plus(b).Get(i) == a.Get(i) + b.Get(i)
  {
  }

  /** Corner order of the two triangles, front faces counter-clockwise. */
  const FrontPattern: seq<nat> := [0, 1, 2, 2, 3, 0]
  const BackPattern: seq<nat> := [0, 2, 1, 0, 3, 2]

  /** Triangle t of a six-entry pattern. */
  function Triangle(pattern: seq<nat>, t: nat): seq<nat>
    requires |pattern| == 6 && t < 2
  {
    pattern[3 * t .. 3 * t + 3]
  }

  /** `b` lists the corners of `a` in the opposite rotational order. */
  predicate OppositeWinding(a: seq<nat>, b: seq<nat>)
    requires |a| == 3 && |b| == 3
  {
    var rev := [a[2], a[1], a[0]];
    b == rev || b == [rev[1], rev[2], rev[0]] || b == [rev[2], rev[0], rev[1]]
  }

  /** Back faces use the front triangles with their winding reversed. */
  lemma BackFacesReverseWinding()
    ensures forall t :: 0 <= t < 2 ==> OppositeWinding(Triangle(FrontPattern, t), Triangle(BackPattern, t))
  {
    assert Triangle(FrontPattern, 0) == [0, 1, 2] && Triangle(BackPattern, 0) == [0, 2, 1];
    assert Triangle(FrontPattern, 1) == [2, 3, 0] && Triangle(BackPattern, 1) == [0, 3, 2];
  }

  /** Number of uint16 index values. */
  const U16Modulus: nat := 65536

  /** The uint16 values of `start + 0 .. start + 3`. */
  function CornerIndices(start: nat): set<nat> {
    {start % U16Modulus, (start + 1) % U16Modulus, (start + 2) % U16Modulus, (start + 3) % U16Modulus}
  }

  /** EmitQuad: append the four corners and six indices. `start` is the
      vertex count; each index is `start + k` stored into a uint16. */
  function EmitQuad(mesh: MeshData, q: Quad): (r: MeshData)
    requires q.axis < 3
    ensures |r.vertices| == |mesh.vertices| + 4 && |r.indices| == |mesh.indices| + 6
    ensures r.vertices[..|mesh.vertices|] == mesh.vertices && r.indices[..|mesh.indices|] == mesh.indices
    ensures forall k :: |mesh.indices| <= k < |r.indices| ==> r.indices[k] in CornerIndices(|mesh.vertices|)
    ensures r.vertices[|mesh.vertices|..] == QuadVertices(q)
    ensures r.indices[|mesh.indices|..] == QuadIndices(|mesh.vertices|, q.backFace)
  {
    var added := QuadIndices(|mesh.vertices|, q.backFace);
    var r := MeshData(mesh.vertices + QuadVertices(q), mesh.indices + added);
    assert forall k :: |mesh.indices| <= k < |r.indices| ==> r.indices[k] == added[k - |mesh.indices|];
    r
  }

  /** The six uint16 indices of a quad whose corners start at vertex `start`:
      the front pattern for a front face, the reversed-winding back pattern
      for a back face. */
  function QuadIndices(start: nat, backFace: bool): (added: seq<nat>)
    ensures |added| == 6
    ensures forall k :: 0 <= k < 6 ==> added[k] == (start + (if backFace then BackPattern else FrontPattern)[k]) % U16Modulus
    ensures forall k :: 0 <= k < 6 ==> added[k] in CornerIndices(start)
  {
    var c0, c1, c2, c3 := start % U16Modulus, (start + 1) % U16Modulus, (start + 2) % U16Modulus, (start + 3) % U16Modulus;
    if backFace then [c0, c2, c1, c0, c3, c2] else [c0, c1, c2, c2, c3, c0]
  }

  /** The emitted triangles of a back face are those of the front face on
      the same corners, each with its winding reversed. */
  lemma QuadIndicesReverseWinding(start: nat)
    ensures OppositeWinding(Triangle(QuadIndices(start, false), 0), Triangle(QuadIndices(start, true), 0))
    ensures OppositeWinding(Triangle(QuadIndices(start, false), 1), Triangle(QuadIndices(start, true), 1))
  {
    var f, b := QuadIndices(start, false), QuadIndices(start, true);
    Reversals(f[0], f[1], f[2]);
    Reversals(f[3], f[4], f[5]);
    assert Triangle(f, 0) == [f[0], f[1], f[2]] && Triangle(b, 0) == [f[0], f[2], f[1]];
    assert Triangle(f, 1) == [f[3], f[4], f[5]] && Triangle(b, 1) == [f[5], f[4], f[3]];
  }

  /** Reversing a triangle, and swapping its last two corners, both flip its winding. */
  lemma Reversals(x: nat, y: nat, z: nat)
    ensures OppositeWinding([x, y, z], [z, y, x])
    ensures OppositeWinding([x, y, z], [x, z, y])
  {
  }

  lemma QuadIndicesExact(start: nat, backFace: bool)
    requires start + 4 <= U16Modulus
    ensures forall k :: 0 <= k < 6 ==> start <= QuadIndices(start, backFace)[k] < start + 4
  {
    var pattern := if backFace then BackPattern else FrontPattern;
    forall k | 0 <= k < 6
      ensures start <= QuadIndices(start, backFace)[k] < start + 4
    {
      assert 0 <= pattern[k] < 4;
      SmallMod(start + pattern[k]);
    }
  }

  lemma SmallMod(x: nat)
    requires x < U16Modulus
    ensures x % U16Modulus == x
  {
  }

  lemma CornerIndexIn(start: nat, c: nat)
    requires c < 4
    ensures (start + c) % U16Modulus in CornerIndices(start)
  {
  }

  /** While fewer than 65536 vertices precede it, a quad's indices point at
      its own four corners exactly. */
  lemma EmitQuadIndicesExact(mesh: MeshData, q: Quad)
    requires q.axis < 3 && |mesh.vertices| + 4 <= U16Modulus
    ensures var r := EmitQuad(mesh, q);
      forall k :: |mesh.indices| <= k < |r.indices| ==> |mesh.vertices| <= r.indices[k] < |mesh.vertices| + 4
  {
    var r := EmitQuad(mesh, q);
    var added := QuadIndices(|mesh.vertices|, q.backFace);
    QuadIndicesExact(|mesh.vertices|, q.backFace);
    forall k | |mesh.indices| <= k < |r.indices|
      ensures |mesh.vertices| <= r.indices[k] < |mesh.vertices| + 4
    {
      assert r.indices[k] == added[k - |mesh.indices|];
    }
  }

  /** Past 65535 vertices the stored indices wrap: the quad whose corners start
      at vertex 65536 is indexed from 0. */
  lemma EmitQuadIndicesWrap(mesh: MeshData, q: Quad)
    requires q.axis < 3 && |mesh.vertices| == U16Modulus && !q.backFace
    ensures EmitQuad(mesh, q).indices[|mesh.indices|..] == [0, 1, 2, 2, 3, 0]
  {
  }

  /** Emit a run of quads in order. */
  function EmitAll(mesh: MeshData, quads: seq<Quad>): (r: MeshData)
    requires forall k :: 0 <= k < |quads| ==> quads[k].axis < 3
    ensures |r.vertices| == |mesh.vertices| + 4 * |quads|
    ensures |r.indices| == |mesh.indices| + 6 * |quads|
    decreases |quads|
  {
    if quads == [] then mesh else EmitAll(EmitQuad(mesh, quads[0]), quads[1..])
  }

  lemma {:induction false} AxisQuadsAxis(voxels: seq<nat>, reg: BlockRegistry, dims: Dims, axis: nat, d: int)
    requires ChunkReady(voxels, reg, dims) && axis < 3
    ensures forall q :: q in AxisQuads(voxels, reg, dims, axis, d) ==> q.axis == axis
    decreases dims.Along(axis) - d
  {
    if d < dims.Along(axis) {
      AxisQuadsAxis(voxels, reg, dims, axis, d + 1);
      forall q | q in SliceQuads(voxels, reg, dims, axis, d)
        ensures q.axis == axis
      {
        SliceQuadsOnPlane(voxels, reg, dims, axis, d, q);
      }
    }
  }

  /** CreateMesh's geometry: every quad of every sweep, emitted in order. */
  function CreateMesh(voxels: seq<nat>, reg: BlockRegistry, dims: Dims): (m: MeshData)
    requires ChunkReady(voxels, reg, dims)
    ensures |m.vertices| == 4 * |ExposedFaces(voxels, reg, dims)|
    ensures |m.indices| == 6 * |ExposedFaces(voxels, reg, dims)|
    ensures var faces := ExposedFaces(voxels, reg, dims);
      (forall k :: 0 <= k < |faces| ==> faces[k].axis < 3) && m == EmitAll(MeshData([], []), faces)
  {
    var quads := AllQuads(voxels, reg, dims);
    AxisQuadsAxis(voxels, reg, dims, 0, -1);
    AxisQuadsAxis(voxels, reg, dims, 1, -1);
    AxisQuadsAxis(voxels, reg, dims, 2, -1);
    assert forall k :: 0 <= k < |quads| ==> quads[k] in quads;
    MeshQuadsAreExposedFaces(voxels, reg, dims);
    EmitAll(MeshData([], []), quads)
  }

  // ---------------------------------------------------------------------
  // The meshing pass
  // ---------------------------------------------------------------------

  /** TransformComponent translation of a chunk: (x W, -y H, z L). */
  function ChunkTranslation(dims: Dims, c: IVec3): IVec3 {
    IVec3(c.x * dims.width, -(c.y * dims.height), c.z * dims.length)
  }

  /** CreateMesh followed by `chunkState = Clean`: new mesh, new transform. */
  function Remesh(w: World, e: ChunkEntity): ChunkEntity
    requires ChunkReady(e.chunk.voxelData, w.registry, w.dims)
  {
    ChunkEntity(e.chunk.(chunkState := Clean),
                Some(CreateMesh(e.chunk.voxelData, w.registry, w.dims)),
                Some(ChunkTranslation(w.dims, e.chunk.worldPosition)))
  }

  /** The outcome of MeshingSystem::Update: the world, and the chunks whose
      previous mesh was cleaned up before being replaced. */
  datatype MeshPass = MeshPass(world: World, cleaned: set<IVec3>)

  lemma ValidChunkReady(w: World, c: IVec3)
    requires Valid(w) && Registered(w) && c in w.chunks
    ensures ChunkReady(w.chunks[c].chunk.voxelData, w.registry, w.dims)
  {
    assert ChunkShaped(w.dims, c, w.chunks[c]);
  }

  /** MeshingSystem::Update: re-mesh exactly the chunks that need it. */
  function MeshDirtyChunks(w: World): (r: MeshPass)
    requires Valid(w) && Registered(w)
    ensures r.world.dims == w.dims && r.world.registry == w.registry && r.world.airVoxel == w.airVoxel
    ensures r.world.chunks.Keys == w.chunks.Keys
  {
    var chunks := map c | c in w.chunks ::
      if w.chunks[c].chunk.chunkState == NeedsMeshing then (ValidChunkReady(w, c); Remesh(w, w.chunks[c])) else w.chunks[c];
    var cleaned := set c | c in w.chunks && w.chunks[c].chunk.chunkState == NeedsMeshing && w.chunks[c].mesh.Some?;
    MeshPass(w.(chunks := chunks), cleaned)
  }

  /** After the pass no chunk needs meshing; each chunk that needed it is
      Clean with the mesh of its own voxels and its translation; every other
      chunk is untouched; voxels never change; only replaced meshes are cleaned. */
  lemma MeshDirtyChunksEffect(w: World, c: IVec3)
    requires Valid(w) && Registered(w) && c in w.chunks
    ensures var r := MeshDirtyChunks(w); var e, e' := w.chunks[c], r.world.chunks[c];
      && e'.chunk.chunkState != NeedsMeshing
      && e'.chunk.voxelData == e.chunk.voxelData
      && e'.chunk.worldPosition == e.chunk.worldPosition
      && (e.chunk.chunkState == NeedsMeshing ==>
            && e'.chunk.chunkState == Clean
            && ChunkReady(e.chunk.voxelData, w.registry, w.dims)
            && e'.mesh == Some(CreateMesh(e.chunk.voxelData, w.registry, w.dims))
            && e'.translation == Some(ChunkTranslation(w.dims, c)))
      && (e.chunk.chunkState != NeedsMeshing ==> e' == e)
      && (c in r.cleaned <==> e.chunk.chunkState == NeedsMeshing && e.mesh.Some?)
  {
    ValidChunkReady(w, c);
    assert ChunkShaped(w.dims, c, w.chunks[c]);
  }

  /** The pass keeps the world valid, and a second pass changes nothing. */
  lemma MeshDirtyChunksIdempotent(w: World)
    requires Valid(w) && Registered(w)
    ensures Valid(MeshDirtyChunks(w).world) && Registered(MeshDirtyChunks(w).world)
    ensures MeshDirtyChunks(MeshDirtyChunks(w).world) == MeshPass(MeshDirtyChunks(w).world, {})
  {
    var once := MeshDirtyChunks(w).world;
    forall c | c in once.chunks
      ensures ChunkShaped(once.dims, c, once.chunks[c])
      ensures VoxelsRegistered(once.chunks[c].chunk.voxelData, once.registry)
      ensures once.chunks[c].chunk.chunkState != NeedsMeshing
    {
      MeshDirtyChunksEffect(w, c);
      assert ChunkShaped(w.dims, c, w.chunks[c]);
    }
    var twice := MeshDirtyChunks(once);
    assert twice.world.chunks == once.chunks;
  }
}
