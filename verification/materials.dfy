/**
  `Material` (Common/d3dUtil.h): a named material with its constant-buffer
  and shader-resource-view heap slots and a per-frame-resource dirty count.
  The float shading constants are not modelled.
*/
module Materials {
  import opened WinTypes

  /** The value an index field holds while no slot has been assigned. */
  const Unassigned: Int32 := -1

  datatype Material = Material(
    name: string,
    materialConstantBufferIndex: Int32,
    diffuseSrvHeapIndex: Int32,
    normalSrvHeapIndex: Int32,
    numFramesDirty: Int32)

  /**
    A default-constructed `Material`. `numFrameResources` is the value of the
    global `gNumFrameResources`, which is defined outside this header.
  */
  function NewMaterial(numFrameResources: Int32): (m: Material)
    ensures m.name == []
    ensures m.materialConstantBufferIndex == Unassigned
    ensures m.diffuseSrvHeapIndex == Unassigned
    ensures m.normalSrvHeapIndex == Unassigned
    ensures m.numFramesDirty == numFrameResources
  {
    Material([], Unassigned, Unassigned, Unassigned, numFrameResources)
  }
}
