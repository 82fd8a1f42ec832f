# Direct3D 12 book helpers and the InitD3D frame loop, in Dafny

This project models two pieces of the DirectX 12 book practice code.

- **The helpers in `Common/d3dUtil.h`**:
  - `d3dUtil::CalcConstantBufferByteSize` rounds a byte size up to a multiple of the
    minimum hardware allocation size. It uses `(byteSize + alignment - 1) & ~(alignment - 1)`
    on 32-bit `UINT`s.
  - `DxException` and the `ThrowIfFailed` macro.
  - `MeshGeometry` and its `DisposeUploaders`.
  - The default field values of `Material`.
- **The InitD3D demo in `InitD3D/InitD3D/InitD3D.cpp`**. Each frame, `InitDirect3DApp::Draw`:
  1. resets the command allocator and the command list;
  2. records a barrier, the viewport, the scissor, the clears, the render targets and a barrier;
  3. closes and submits the list;
  4. presents;
  5. advances the back-buffer index;
  6. flushes the queue.

  `WinMain` catches any `DxException` once at the top, shows it and returns 0.

Modules:

- `UintArith` (`uint_arith.dfy`) — `UINT` arithmetic over the integers.
  - Wrap-around is an explicit `% 2^32`.
  - `~x` is `2^32 - 1 - x`.
  - `&` is a bit-by-bit recursive function over 32 bits.
  - It also holds the low-bit-mask facts.
- `WinTypes` (`win_types.dfy`) — `int`, `HRESULT`, the status codes used, and `FAILED`.
- `D3dUtil` (`d3d_util.dfy`) — the constant-buffer rounding, written exactly as the source writes it, with its properties.
- `DxErrors` (`dx_errors.dfy`) — `DxException`, `ThrowIfFailed` as a function that returns `Pass` or `Fail(exception)`, and a run of several checked calls that stops at the first failure.
- `Geometry` (`geometry.dfy`) — `SubmeshGeometry`, `MeshGeometry` and `DisposeUploaders`. COM pointers are opaque `Handle`s.
- `Materials` (`materials.dfy`) — `Material` defaults.
- `CommandProtocol` (`command_protocol.dfy`) — the Direct3D 12 usage rules the frame must obey, as a state machine over a trace of calls:
  - the allocator is reset only while the GPU is idle;
  - recording happens only while the list is open;
  - barriers name the buffer's actual state;
  - clears and render targets need the render-target state;
  - only the current back buffer is presented, and only in the present state;
  - submission makes the GPU busy, and a flush makes it idle.
- `InitD3D` (`init_d3d.dfy`) — `Draw`, the render loop (`RunFrames`) and `WinMain`.
  - The four checked calls of a frame return the statuses given in a `FrameStatus`.
  - A frame yields its trace of calls, its outcome and the new application state.
- `Wrappers` (`wrappers.dfy`) — `Option` and `Outcome`.

Two modelling choices about the frame:

- **`ExecuteCommandLists` has no failure path.** It returns `void` and is not wrapped in `ThrowIfFailed` (InitD3D.cpp:83), so a submission never throws in this model.
- **The back-buffer index is taken modulo `SwapChainBufferCount`.** The model reproduces the source's `(mCurrBackBuffer + 1) % SwapChainBufferCount` (InitD3D.cpp:87). It assumes the swap chain's own current buffer advances in the same ring order, as `CommandProtocol.Apply` states for `PresentBuffer`.

## Model

| member | source | states |
|---|---|---|
| D3dUtil.CalcConstantBufferByteSize | Common/d3dUtil.h:99-113 | no contract of its own: `(byteSize + alignment - 1) & ~(alignment - 1)` on 32-bit `UINT`s with wrap-around, default alignment 256; its properties are the `Calc*` lemmas below |
| D3dUtil.CalcIsMultiple | Common/d3dUtil.h:99-112 | for every alignment 2^k (k < 32) the rounded size is a multiple of the alignment, with or without 32-bit overflow |
| D3dUtil.CalcBounds | Common/d3dUtil.h:101-112 | when `byteSize + alignment - 1` fits in 32 bits the result lies in `[byteSize, byteSize + alignment)` and equals the integer round-up `alignment * ceil(byteSize / alignment)` |
| D3dUtil.CalcIsLeast | Common/d3dUtil.h:101-112 | without overflow, no multiple of the alignment that is at least `byteSize` is smaller than the result: it is the least such multiple |
| D3dUtil.CalcKeepsAligned | Common/d3dUtil.h:112 | a size that is already a multiple of the power-of-two alignment is returned unchanged, including sizes near 2^32 |
| D3dUtil.CalcIdempotent | Common/d3dUtil.h:112 | rounding the rounded size again changes nothing |
| D3dUtil.CalcWrapsToZero | Common/d3dUtil.h:112 | when `byteSize + alignment - 1` overflows 32 bits, the `UINT` sum wraps and the result is 0, not a multiple above `byteSize` |
| D3dUtil.CalcZeroAlignment | Common/d3dUtil.h:112 | an alignment of 0 makes the mask `~0xFFFFFFFF` and every size rounds to 0 |
| D3dUtil.CalcExample300 | Common/d3dUtil.h:99-111 | with the default alignment 256, 300 bytes round to 512, as in the worked example |
| D3dUtil.CalcNeedsPowerOfTwo | Common/d3dUtil.h:112 | for alignment 3 the mask trick returns 1 for size 1, which is not a multiple of 3: the power-of-two assumption is needed |
| D3dUtil.RoundsPaddedDown | Common/d3dUtil.h:112 | for a power-of-two alignment `& ~(alignment - 1)` clears exactly the low bits: the result is the wrapped padded sum minus its remainder modulo the alignment |
| UintArith.ClearLowBits | Common/d3dUtil.h:112 | anding a value of `width` bits with the mask of bits `k` and above rounds it down to a multiple of 2^k |
| DxErrors.DefaultDxException | Common/d3dUtil.h:134-147 | a default-constructed exception has `ErrorCode == S_OK` (not a failure), `LineNumber == -1` and empty function and file names |
| DxErrors.ThrowIfFailed | Common/d3dUtil.h:284-290 | it throws exactly when the status is negative (`FAILED`), and the exception carries the status, the expression text, the file name and the line |
| DxErrors.ThrownIsNeverDefault | Common/d3dUtil.h:284-290 | a thrown exception always holds a failure code, so it never equals the default-constructed one |
| DxErrors.ThrowIfFailedExamples | Common/d3dUtil.h:284-290 | `S_FALSE` is a success and does not throw; `DXGI_ERROR_DEVICE_REMOVED` throws with that code |
| DxErrors.RunChecks | InitD3D/InitD3D/InitD3D.cpp:53-86 | a sequence of checked calls passes exactly when every call succeeds, and otherwise throws the exception of the first failing call, with every earlier call successful |
| Geometry.NewSubmeshGeometry | Common/d3dUtil.h:154-162 | a default submesh draws no indices and starts at index 0; its base vertex location, which has no initialiser, is whatever value it is given |
| Geometry.NewMeshGeometry | Common/d3dUtil.h:165-190 | a default mesh has every handle null (so it holds no uploaders), every size 0, 16-bit indices and no submeshes |
| Geometry.DisposeUploaders | Common/d3dUtil.h:215-219 | both uploader handles become null and every other field (name, CPU blobs, GPU buffers, stride, sizes, index format, draw arguments) is unchanged |
| Geometry.DisposeForgetsOnlyUploaders | Common/d3dUtil.h:215-219 | two meshes dispose to the same mesh exactly when they agree on every field except the uploaders |
| Geometry.DisposeIdempotent | Common/d3dUtil.h:215-219 | disposing twice is disposing once, and a mesh without uploaders is left unchanged |
| Materials.NewMaterial | Common/d3dUtil.h:246-264 | a fresh material has an empty name, all three heap or buffer indices equal to -1 (unassigned), and `NumFramesDirty == gNumFrameResources` |
| CommandProtocol.ResetWaitsForFlush | InitD3D/InitD3D/InitD3D.cpp:51-92 | in any trace that obeys the usage rules, a queue flush lies between every submission and any later allocator reset |
| CommandProtocol.BusyUntilFlush | InitD3D/InitD3D/InitD3D.cpp:51-92 | from a device with work in flight, a legal trace reaches an allocator reset only after a flush |
| CommandProtocol.RecordingNeedsOpenList | InitD3D/InitD3D/InitD3D.cpp:55-79 | in a legal trace every recording call happens while the list is open: it was open from the start with no `Close` since, or a list reset opened it with no `Close` in between |
| CommandProtocol.RecordsAfterListReset | InitD3D/InitD3D/InitD3D.cpp:55-79 | from a closed list, every recording call follows a list reset with no `Close` in between |
| InitD3D.Checks | InitD3D/InitD3D/InitD3D.cpp:53-86 | no contract of its own: the four `ThrowIfFailed` sites of a frame in program order, with their expression text and lines 53, 57, 79 and 86; `FrameSucceedsIffChecks` and `DrawThrowsFirstFailure` state what they mean |
| InitD3D.FrameCommands | InitD3D/InitD3D/InitD3D.cpp:53-92 | no contract of its own: the thirteen calls of a frame in program order; `FrameIsAllowed`, `FrameSetsViewportAndScissor` and `FramePrefixPresents` state what they mean |
| InitD3D.FrameSucceedsIffChecks | InitD3D/InitD3D/InitD3D.cpp:53-86 | a frame's four statuses are all non-negative exactly when every one of its four `ThrowIfFailed` sites passes |
| InitD3D.Draw | InitD3D/InitD3D/InitD3D.cpp:49-93 | a frame completes exactly when its four checked calls succeed. Completing advances the back-buffer index to `(index + 1) % SwapChainBufferCount`, which stays in range. A frame that throws leaves the index unchanged |
| InitD3D.DrawTrace | InitD3D/InitD3D/InitD3D.cpp:49-93 | a frame's calls are a prefix of the full frame sequence: all of it when the frame completes, and up to the failing checked call when it throws. The exception records the line of that call |
| InitD3D.DrawThrowsFirstFailure | InitD3D/InitD3D/InitD3D.cpp:53-86 | a frame ends as running its four checked calls (allocator reset, list reset, `Close`, `Present`) in order does: it completes when all succeed and otherwise throws the first failure |
| InitD3D.ResetsAllowed | InitD3D/InitD3D/InitD3D.cpp:51-57 | between frames, the allocator reset followed by the list reset obeys the rules and opens the list |
| InitD3D.RecordingAllowed | InitD3D/InitD3D/InitD3D.cpp:59-79 | the recording moves the back buffer from PRESENT to RENDER_TARGET before the clears and target binding, and back to PRESENT after; it closes the list and leaves every buffer as it was |
| InitD3D.DrawingAllowed | InitD3D/InitD3D/InitD3D.cpp:63-72 | with the back buffer in the render-target state, setting the viewport and scissor, clearing and binding the targets obey the rules and change no state |
| InitD3D.FinishAllowed | InitD3D/InitD3D/InitD3D.cpp:75-79 | the barrier back to PRESENT and the `Close` obey the rules and return the device to between frames |
| InitD3D.SubmitAllowed | InitD3D/InitD3D/InitD3D.cpp:81-92 | submitting a closed list, presenting the current back buffer and flushing obey the rules, leave the GPU idle and move the swap chain one buffer on |
| InitD3D.FrameIsAllowed | InitD3D/InitD3D/InitD3D.cpp:49-93 | a complete frame obeys every usage rule from a device between frames and returns it to between frames: list closed, GPU idle, every buffer presentable, swap chain one buffer further |
| InitD3D.FrameSetsViewportAndScissor | InitD3D/InitD3D/InitD3D.cpp:57-68 | in the calls any frame makes, including one that throws later, every clear of the back buffer comes after a list reset, a viewport and a scissor call, with no `Close` between that reset and the clear |
| InitD3D.RunFrames | InitD3D/InitD3D/InitD3D.cpp:86-87 | the render loop stops at the first frame that throws. It completes exactly when every frame does. The back-buffer index is the start plus the number of completed frames, modulo the buffer count. A failed run throws the first failure of the frame that failed |
| InitD3D.RunFramesAllowed | InitD3D/InitD3D/InitD3D.cpp:49-93 | every call of every frame obeys the usage rules, including the calls of a frame that throws; after a run with no exception the device is between frames on the application's back buffer |
| InitD3D.RunResetsAfterFlush | InitD3D/InitD3D/InitD3D.cpp:51-92 | across frames, the allocator is reset only after a flush has waited for every earlier submission |
| InitD3D.RunRecordsWhileOpen | InitD3D/InitD3D/InitD3D.cpp:55-79 | across frames, every recorded call lies between a list reset and the next `Close` |
| InitD3D.FramePrefixPresents | InitD3D/InitD3D/InitD3D.cpp:85-87 | the first `k` calls of a frame present its back buffer once if they reach `Present`, and nothing otherwise |
| InitD3D.FramePresents | InitD3D/InitD3D/InitD3D.cpp:85-87 | a complete frame presents exactly its current back buffer, once; a frame that throws presents at most that buffer |
| InitD3D.CycleAt | InitD3D/InitD3D/InitD3D.cpp:87 | entry `i` of the back-buffer ring starting at `c` is `(c + i) % n` |
| InitD3D.PresentsCycle | InitD3D/InitD3D/InitD3D.cpp:86-87 | the frames present the back buffers in ring order from the current one, one per completed frame; when no frame throws, that ring is everything presented |
| InitD3D.PresentsCycleStep | InitD3D/InitD3D/InitD3D.cpp:86-87 | a completed first frame presents the current buffer and the remaining frames continue the ring from the advanced index |
| InitD3D.TwoBuffersAlternate | InitD3D/InitD3D/InitD3D.cpp:86-87 | with two buffers starting at 0, five successful frames present buffers 0, 1, 0, 1, 0 |
| InitD3D.WinMain | InitD3D/InitD3D/InitD3D.cpp:95-119 | a failed initialisation returns 0. An exception from initialisation or from any frame is shown, and the process returns 0. Otherwise it returns the message loop's code. After a successful initialisation, an exception is shown exactly when some frame fails |
| InitD3D.WinMainShowsFirstFailure | InitD3D/InitD3D/InitD3D.cpp:102-118 | the exception shown is the one built by the first failing checked call of the first failing frame, and every earlier frame succeeded |
| InitD3D.WinMainShowsCloseFailure | InitD3D/InitD3D/InitD3D.cpp:79-118 | a `Close` that fails with `E_FAIL` in the first frame ends the program with code 0, showing the exception for `mCommandList->Close()` at line 79 |

## Left out

- `GameTimer` (Common/GameTimer.h): only declarations are visible, and the timing is double-precision floating point. `Draw` ignores its timer argument.
- `D3DSetDebugName` and `AnsiToWString`: thin Win32 and COM wrappers (`SetPrivateData`; `MultiByteToWideChar` into a fixed 512-character buffer).
- `DxException::ToString`, `ToString`, `LoadBinary`, `CreateDefaultBuffer`, `CompileShader` and `IsKeyDown`: only declared here. Their bodies do file, GPU, shader-compiler or keyboard I/O.
- The `DxException` constructor with arguments is only declared. The model assumes it stores its four arguments in the four fields.
- `MeshGeometry::VertexBufferView` and `IndexBufferView`: they read GPU virtual addresses.
- `Light`, `MaterialConstants`, the float fields of `Material`, and `SubmeshGeometry::BoundingBox`: float data holders with no logic.
- `Texture` and the `ReleaseCom` macro: plain holders or COM reference counting.
- `ComPtr` release and reference counts: setting a handle to null in `Geometry.DisposeUploaders` does not model the `Release` call that assigning `nullptr` performs, nor when the object is freed.
- `SubmeshGeometry::BaseVertexLocation` has no default initialiser in the source, so its value is indeterminate: `Geometry.NewSubmeshGeometry` takes it as a parameter.
- `__FILE__` is the compiler's path string, converted by `AnsiToWString`. The model uses the fixed string `InitD3D/InitD3D/InitD3D.cpp` as `InitD3D.SourceFile`.
- `FlushCommandQueue`, `D3DApp::Initialize`, `D3DApp::Run` and `SwapChainBufferCount` live in the base application class, which is not part of this model.
  - The flush is an infallible call that leaves the GPU idle.
  - Initialisation's result is an input: success, `false`, or a thrown exception.
  - The message loop is a finite list of frames plus the exit code it returns.
  - The buffer count is a field of `App`.
- The `Update` and `OnResize` overrides: `Update` is empty, and `OnResize` only forwards to the base class.
- `gNumFrameResources` is declared at Common/d3dUtil.h:29 and defined outside this header. It is a parameter of `Materials.NewMaterial`.
- The GPU's actual execution, fences, the swap chain's internals, the window, `MessageBox` and `_CrtSetDbgFlag` are abstracted away:
  - submission, presentation and flush are events of the state machine;
  - showing the message box is the `shown` field of `Exit`.
- Which failure the GPU returns is not modelled: a frame's statuses are inputs.
- `InitD3D.FramePresents`: a frame that throws may stop before `Present`, so for that case the contract only bounds the presented buffers by the current one.
