/**
 The decision logic of src/Vulkan/vulkanImages.cpp: the layout-transition
 table of transitionImageLayout and the layer checks and byte layout of
 createTextureArrayImage. Image loading is an input (what stbi_load
 reported for each path); the command recording and copies are left out,
 and the barrier and copy regions they would receive are returned. A call
 to `exit` is a Failure.
 */
module Images {
  import opened Base

  type Flags = bv32

  datatype Layout = Undefined | TransferDstOptimal | ShaderReadOnlyOptimal | DepthStencilAttachmentOptimal
                  | OtherLayout(code: nat)

  /** VkImageAspectFlagBits. */
  const AspectColor: Flags := 0x1
  const AspectDepth: Flags := 0x2
  const AspectStencil: Flags := 0x4

  /** VkAccessFlagBits. */
  const AccessShaderRead: Flags := 0x20
  const AccessDepthStencilRead: Flags := 0x200
  const AccessDepthStencilWrite: Flags := 0x400
  const AccessTransferWrite: Flags := 0x1000

  /** VkPipelineStageFlagBits. */
  const StageTopOfPipe: Flags := 0x1
  const StageFragmentShader: Flags := 0x80
  const StageEarlyFragmentTests: Flags := 0x100
  const StageTransfer: Flags := 0x1000

  /** The image memory barrier and the two stages passed to vkCmdPipelineBarrier. */
  datatype Barrier = Barrier(
    oldLayout: Layout, newLayout: Layout, aspectMask: Flags,
    baseMipLevel: nat, levelCount: nat, baseArrayLayer: nat, layerCount: U32,
    srcAccess: Flags, dstAccess: Flags, srcStage: Flags, dstStage: Flags)

  datatype ImageError = UnsupportedLayoutTransition | EmptyLayerList | LoadFailed(layer: nat)
                      | LayerSizeMismatch(layer: nat) | LayerChannelMismatch(layer: nat)

  /** The three transitions the table knows. */
  predicate Supported(oldLayout: Layout, newLayout: Layout) {
    || (oldLayout == Undefined && newLayout == TransferDstOptimal)
    || (oldLayout == TransferDstOptimal && newLayout == ShaderReadOnlyOptimal)
    || (oldLayout == Undefined && newLayout == DepthStencilAttachmentOptimal)
  }

  /** transitionImageLayout. `hasStencil` is what hasStencilComponent
      reports for the format; `layers` is the int parameter, stored into a
      uint32 field. */
  function TransitionImageLayout(oldLayout: Layout, newLayout: Layout, hasStencil: bool, layers: Int32): (r: Result<Barrier, ImageError>)
    ensures r.Failure? <==> !Supported(oldLayout, newLayout)
    ensures r.Failure? ==> r.error == UnsupportedLayoutTransition
    ensures r.Success? ==>
      var b := r.value;
      && b.oldLayout == oldLayout && b.newLayout == newLayout
      && b.baseMipLevel == 0 && b.levelCount == 1 && b.baseArrayLayer == 0 && b.layerCount == IntToU32(layers)
    ensures r.Success? ==>
      (r.value.aspectMask & AspectDepth != 0 <==> newLayout == DepthStencilAttachmentOptimal)
      && (r.value.aspectMask & AspectStencil != 0 <==> newLayout == DepthStencilAttachmentOptimal && hasStencil)
      && (r.value.aspectMask & AspectColor != 0 <==> newLayout != DepthStencilAttachmentOptimal)
    ensures r.Success? && newLayout == TransferDstOptimal ==>
      r.value.srcAccess == 0 && r.value.dstAccess == AccessTransferWrite
      && r.value.srcStage == StageTopOfPipe && r.value.dstStage == StageTransfer
    ensures r.Success? && newLayout == ShaderReadOnlyOptimal ==>
      r.value.srcAccess == AccessTransferWrite && r.value.dstAccess == AccessShaderRead
      && r.value.srcStage == StageTransfer && r.value.dstStage == StageFragmentShader
    ensures r.Success? && newLayout == DepthStencilAttachmentOptimal ==>
      r.value.srcAccess == 0 && r.value.dstAccess == AccessDepthStencilRead | AccessDepthStencilWrite
      && r.value.srcStage == StageTopOfPipe && r.value.dstStage == StageEarlyFragmentTests
  {
    var aspect :=
      if newLayout == DepthStencilAttachmentOptimal
      then (if hasStencil then AspectDepth | AspectStencil else AspectDepth)
      else AspectColor;
    var barrier := Barrier(oldLayout, newLayout, aspect, 0, 1, 0, IntToU32(layers), 0, 0, 0, 0);
    if oldLayout == Undefined && newLayout == TransferDstOptimal then
      Success(barrier.(dstAccess := AccessTransferWrite, srcStage := StageTopOfPipe, dstStage := StageTransfer))
    else if oldLayout == TransferDstOptimal && newLayout == ShaderReadOnlyOptimal then
      Success(barrier.(srcAccess := AccessTransferWrite, dstAccess := AccessShaderRead,
                       srcStage := StageTransfer, dstStage := StageFragmentShader))
    else if oldLayout == Undefined && newLayout == DepthStencilAttachmentOptimal then
      Success(barrier.(dstAccess := AccessDepthStencilRead | AccessDepthStencilWrite,
                       srcStage := StageTopOfPipe, dstStage := StageEarlyFragmentTests))
    else Failure(UnsupportedLayoutTransition)
  }

  /** The texture upload's two transitions chain: the first makes the
      transfer's writes the thing the second waits for, at the transfer
      stage, over the same layers. */
  lemma UploadTransitionsChain(layers: Int32, hasStencil: bool)
    ensures var first := TransitionImageLayout(Undefined, TransferDstOptimal, hasStencil, layers);
      var second := TransitionImageLayout(TransferDstOptimal, ShaderReadOnlyOptimal, hasStencil, layers);
      && first.Success? && second.Success?
      && first.value.newLayout == second.value.oldLayout
      && first.value.dstAccess == second.value.srcAccess
      && first.value.dstStage == second.value.srcStage
      && first.value.aspectMask == second.value.aspectMask == AspectColor
      && first.value.layerCount == second.value.layerCount
  {
  }

  /** No transition leaves a layout other than the three it was written for,
      and none returns an image to Undefined. */
  lemma TransitionTargets(oldLayout: Layout, newLayout: Layout, hasStencil: bool, layers: Int32)
    requires TransitionImageLayout(oldLayout, newLayout, hasStencil, layers).Success?
    ensures oldLayout == Undefined || oldLayout == TransferDstOptimal
    ensures newLayout != Undefined && newLayout != oldLayout
  {
  }

  /** What stbi_load reported for one path: whether pixels came back, and
      the width, height and channel count left in the output variables. */
  datatype LoadReport = LoadReport(loaded: bool, width: int, height: int, channels: int)

  /** The first layer after layer 0, from i on, that the loop rejects, with
      the check that rejects it; the size check comes first and the null
      check last. */
  function FirstBadLayer(loads: seq<LoadReport>, i: nat): (r: Option<ImageError>)
    requires 1 <= i <= |loads|
    ensures r.None? <==> forall j :: i <= j < |loads| ==> LayerMatches(loads, j)
    ensures r.Some? ==> (r.value.LayerSizeMismatch? || r.value.LayerChannelMismatch? || r.value.LoadFailed?) && r.value.layer >= i
    ensures r.Some? ==> var j := r.value.layer;
      && j < |loads| && LayerCheck(loads, j) == r
      && forall k :: i <= k < j ==> LayerMatches(loads, k)
    decreases |loads| - i
  {
    if i == |loads| then None
    else if LayerCheck(loads, i).Some? then LayerCheck(loads, i)
    else FirstBadLayer(loads, i + 1)
  }

  /** The three checks of the loop body for layer i, in order. */
  function LayerCheck(loads: seq<LoadReport>, i: nat): (r: Option<ImageError>)
    requires 1 <= i < |loads|
    ensures r.None? <==> LayerMatches(loads, i)
    ensures r.Some? ==> (r.value.LayerSizeMismatch? || r.value.LayerChannelMismatch? || r.value.LoadFailed?) && r.value.layer == i
  {
    var l, first := loads[i], loads[0];
    if l.width != first.width || l.height != first.height then Some(LayerSizeMismatch(i))
    else if l.channels != first.channels then Some(LayerChannelMismatch(i))
    else if !l.loaded then Some(LoadFailed(i))
    else None
  }

  /** Layer i loaded with layer 0's width, height and channel count. */
  predicate LayerMatches(loads: seq<LoadReport>, i: nat)
    requires i < |loads|
  {
    loads[i].loaded && loads[i].width == loads[0].width && loads[i].height == loads[0].height
    && loads[i].channels == loads[0].channels
  }

  /** The staging layout of a texture array: each layer's bytes at its offset. */
  datatype TextureLayout = TextureLayout(width: int, height: int, layerCount: nat, layerSize: int, imageSize: int,
                                         offsets: seq<int>)

  /** The checks and byte arithmetic of createTextureArrayImage. */
  function TextureArrayLayout(loads: seq<LoadReport>): (r: Result<TextureLayout, ImageError>)
    ensures r == Failure(EmptyLayerList) <==> |loads| == 0
    ensures r == Failure(LoadFailed(0)) <==> |loads| > 0 && !loads[0].loaded
    ensures r.Success? <==> |loads| > 0 && forall j :: 0 <= j < |loads| ==> LayerMatches(loads, j)
    ensures r.Success? ==>
      && r.value.width == loads[0].width && r.value.height == loads[0].height
      && r.value.layerCount == |loads| == |r.value.offsets|
      && r.value.layerSize == loads[0].width * loads[0].height * 4
      && r.value.imageSize == r.value.layerSize * |loads|
    ensures r.Success? ==> forall i :: 0 <= i < |loads| ==> r.value.offsets[i] == r.value.layerSize * i
    ensures r.Failure? && |loads| > 0 && loads[0].loaded ==>
      && (r.error.LayerSizeMismatch? || r.error.LayerChannelMismatch? || r.error.LoadFailed?)
      && 1 <= r.error.layer < |loads|
      && LayerCheck(loads, r.error.layer) == Some(r.error)
      && forall k :: 1 <= k < r.error.layer ==> LayerMatches(loads, k)
  {
    if |loads| == 0 then Failure(EmptyLayerList)
    else if !loads[0].loaded then
      assert !LayerMatches(loads, 0);
      Failure(LoadFailed(0))
    else
      match FirstBadLayer(loads, 1)
      case Some(e) => Failure(e)
      case None =>
        var first := loads[0];
        var layerSize := first.width * first.height * 4;
        Success(TextureLayout(first.width, first.height, |loads|, layerSize, layerSize * |loads|,
                              seq(|loads|, i requires 0 <= i < |loads| => layerSize * i)))
  }


  /** The layers' byte ranges follow one another from offset 0 without gap
      or overlap and end at the staging buffer's size. */
  lemma {:induction false} TextureLayersTile(loads: seq<LoadReport>)
    requires TextureArrayLayout(loads).Success?
    ensures var t := TextureArrayLayout(loads).value;
      && t.offsets[0] == 0
      && (forall i :: 0 <= i < |loads| - 1 ==> t.offsets[i] + t.layerSize == t.offsets[i + 1])
      && t.offsets[|loads| - 1] + t.layerSize == t.imageSize
  {
    var t := TextureArrayLayout(loads).value;
    forall i | 0 <= i < |loads| - 1
      ensures t.offsets[i] + t.layerSize == t.offsets[i + 1]
    {
      assert t.layerSize * (i + 1) == t.layerSize * i + t.layerSize;
    }
    assert t.layerSize * (|loads| - 1) + t.layerSize == t.layerSize * |loads|;
  }

  /** A failed load is reported as a size mismatch when the variables it
      left behind disagree with layer 0: the size check runs first. */
  lemma SizeCheckBeforeLoadCheck()
    ensures TextureArrayLayout([LoadReport(true, 16, 16, 4), LoadReport(false, 0, 0, 0)]) == Failure(LayerSizeMismatch(1))
    ensures TextureArrayLayout([LoadReport(true, 16, 16, 4), LoadReport(false, 16, 16, 4)]) == Failure(LoadFailed(1))
  {
    assert FirstBadLayer([LoadReport(true, 16, 16, 4), LoadReport(false, 0, 0, 0)], 1) == Some(LayerSizeMismatch(1));
    assert FirstBadLayer([LoadReport(true, 16, 16, 4), LoadReport(false, 16, 16, 4)], 1) == Some(LoadFailed(1));
  }

  /** VkBufferImageCopy, the fields that vary. */
  datatype CopyRegion = CopyRegion(bufferOffset: int, baseArrayLayer: nat, layerCount: nat, width: int, height: int, depth: nat)

  /** The copy regions: region i copies the bytes at layer i's offset into
      array layer i. */
  function CopyRegions(t: TextureLayout): (r: seq<CopyRegion>)
    requires |t.offsets| == t.layerCount
    ensures |r| == t.layerCount
    ensures forall i :: 0 <= i < |r| ==>
      r[i] == CopyRegion(t.offsets[i], i, 1, t.width, t.height, 1)
  {
    seq(t.layerCount, i requires 0 <= i < t.layerCount => CopyRegion(t.offsets[i], i, 1, t.width, t.height, 1))
  }
}
