/**
  `SubmeshGeometry` and `MeshGeometry` (Common/d3dUtil.h): one vertex and one
  index buffer, each held as a CPU copy, a GPU default-heap buffer and the
  upload-heap buffer that fed it, plus the sub-ranges drawn separately.
*/
module Geometry {
  import opened WinTypes
  import opened UintArith

  /** A `ComPtr`: either `nullptr` or a reference to some COM object. */
  datatype Handle = Null | Object(id: nat)

  /** A `DXGI_FORMAT` enumeration value, as its numeric code. */
  type DxgiFormat = nat

  /** The code of `DXGI_FORMAT_R16_UINT`: 16-bit unsigned indices. */
  const R16Uint: DxgiFormat := 57

  /** A sub-range of the shared vertex/index buffers (its float bounding box is not modelled). */
  datatype SubmeshGeometry = SubmeshGeometry(
    indexCount: Uint,
    startIndexLocation: Uint,
    baseVertexLocation: Int32)

  /**
    A default-initialised `SubmeshGeometry`: no indices, starting at index 0.
    `BaseVertexLocation` has no initialiser, so whatever it holds is a parameter.
  */
  function NewSubmeshGeometry(baseVertexLocation: Int32): (s: SubmeshGeometry)
    ensures s.indexCount == 0 && s.startIndexLocation == 0
    ensures s.baseVertexLocation == baseVertexLocation
  {
    SubmeshGeometry(0, 0, baseVertexLocation)
  }

  datatype MeshGeometry = MeshGeometry(
    name: string,
    vertexBufferCpu: Handle,
    indexBufferCpu: Handle,
    vertexBufferGpu: Handle,
    indexBufferGpu: Handle,
    vertexBufferUploader: Handle,
    indexBufferUploader: Handle,
    vertexByteStride: Uint,
    vertexBufferByteSize: Uint,
    indexBufferByteSize: Uint,
    indexFormat: DxgiFormat,
    drawArgs: map<string, SubmeshGeometry>)

  /** A default-initialised `MeshGeometry`: every handle null, every size 0, 16-bit indices, no submeshes. */
  function NewMeshGeometry(): (g: MeshGeometry)
    ensures g.name == []
    ensures g.vertexBufferCpu == Null && g.indexBufferCpu == Null
    ensures g.vertexBufferGpu == Null && g.indexBufferGpu == Null
    ensures !HoldsUploaders(g)
    ensures g.vertexByteStride == 0 && g.vertexBufferByteSize == 0 && g.indexBufferByteSize == 0
    ensures g.indexFormat == R16Uint
    ensures g.drawArgs == map[]
  {
    MeshGeometry([], Null, Null, Null, Null, Null, Null, 0, 0, 0, R16Uint, map[])
  }

  /** The mesh still keeps at least one upload-heap buffer alive. */
  predicate HoldsUploaders(g: MeshGeometry) {
    g.vertexBufferUploader != Null || g.indexBufferUploader != Null
  }

  /** `g` and `h` agree on every field except the two uploader handles. */
  predicate SameExceptUploaders(g: MeshGeometry, h: MeshGeometry) {
    && g.name == h.name
    && g.vertexBufferCpu == h.vertexBufferCpu
    && g.indexBufferCpu == h.indexBufferCpu
    && g.vertexBufferGpu == h.vertexBufferGpu
    && g.indexBufferGpu == h.indexBufferGpu
    && g.vertexByteStride == h.vertexByteStride
    && g.vertexBufferByteSize == h.vertexBufferByteSize
    && g.indexBufferByteSize == h.indexBufferByteSize
    && g.indexFormat == h.indexFormat
    && g.drawArgs == h.drawArgs
  }

  /** Sets both upload-buffer handles to null; callers do this once the GPU copy has finished. Nothing else changes. */
  function DisposeUploaders(g: MeshGeometry): (r: MeshGeometry)
    ensures r.vertexBufferUploader == Null && r.indexBufferUploader == Null
    ensures SameExceptUploaders(g, r)
  {
    g.(vertexBufferUploader := Null, indexBufferUploader := Null)
  }

  /**
    Two meshes dispose to the same mesh exactly when they differ at most in
    their uploaders: the result forgets the uploaders and keeps everything else.
  */
  lemma DisposeForgetsOnlyUploaders(g: MeshGeometry, h: MeshGeometry)
    ensures DisposeUploaders(g) == DisposeUploaders(h) <==> SameExceptUploaders(g, h)
  {
  }

  /** Disposing twice is disposing once, and a mesh without uploaders is left as it is. */
  lemma DisposeIdempotent(g: MeshGeometry)
    ensures DisposeUploaders(DisposeUploaders(g)) == DisposeUploaders(g)
    ensures !HoldsUploaders(g) ==> DisposeUploaders(g) == g
  {
  }
}
