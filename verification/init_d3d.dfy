/**
  The InitD3D demo (InitD3D/InitD3D/InitD3D.cpp): every frame `Draw` records
  a command list that clears the current back buffer, submits it, presents,
  advances the back-buffer index and waits for the GPU; any failed checked
  call throws a `DxException` that `WinMain` catches and displays.

  The Direct3D objects are abstracted away: a frame's checked calls return
  the statuses in a `FrameStatus`, and the calls the frame makes are recorded
  as a trace of `CommandProtocol.Command`s.
*/
module InitD3D {
  import opened WinTypes
  import opened Wrappers
  import opened DxErrors
  import opened CommandProtocol
  import opened UintArith

  /** The file name `ThrowIfFailed` records for the checks in this file. */
  const SourceFile: string := "InitD3D/InitD3D/InitD3D.cpp"

  /**
    The application state `Draw` reads and writes: the index of the current
    back buffer and the number of buffers in the swap chain (a constant of
    the base application class).
  */
  datatype App = App(currBackBuffer: nat, swapChainBufferCount: nat)

  predicate Valid(app: App) {
    0 < app.swapChainBufferCount && app.currBackBuffer < app.swapChainBufferCount
  }

  /**
    What the four checked calls of one frame return: the allocator reset, the
    command-list reset, `Close` and `Present`.
  */
  datatype FrameStatus = FrameStatus(allocatorReset: HResult, listReset: HResult, close: HResult, present: HResult)

  /** The source lines of the four `ThrowIfFailed` sites of `Draw`. */
  const AllocatorResetLine: Int32 := 53
  const ListResetLine: Int32 := 57
  const CloseLine: Int32 := 79
  const PresentLine: Int32 := 86

  /** The `ThrowIfFailed` sites of `Draw`, in program order. */
  function Checks(s: FrameStatus): (r: seq<CheckedCall>) {
    [ CheckedCall(s.allocatorReset, "mDirectCmdListAllocator->Reset()", AllocatorResetLine),
      CheckedCall(s.listReset, "mCommandList->Reset(mDirectCmdListAllocator.Get(), nullptr)", ListResetLine),
      CheckedCall(s.close, "mCommandList->Close()", CloseLine),
      CheckedCall(s.present, "mSwapChain->Present(0, 0)", PresentLine) ]
  }

  /** All four checked calls of the frame succeed. */
  predicate FrameSucceeds(s: FrameStatus) {
    !Failed(s.allocatorReset) && !Failed(s.listReset) && !Failed(s.close) && !Failed(s.present)
  }

  /** A frame succeeds exactly when every one of its `ThrowIfFailed` sites does. */
  lemma FrameSucceedsIffChecks(s: FrameStatus)
    ensures FrameSucceeds(s) <==> AllSucceed(Checks(s))
  {
    var calls := Checks(s);
    assert calls[0].status == s.allocatorReset && calls[1].status == s.listReset;
    assert calls[2].status == s.close && calls[3].status == s.present;
  }

  /** The line of the `ThrowIfFailed` that guards `c`, if any. */
  function CheckedLine(c: Command): (r: Option<Int32>) {
    match c
    case ResetAllocator => Some(AllocatorResetLine)
    case ResetList => Some(ListResetLine)
    case CloseList => Some(CloseLine)
    case PresentBuffer(_) => Some(PresentLine)
    case _ => None
  }

  /** Every call of a frame that draws into back buffer `b`, in program order. */
  function FrameCommands(b: nat): (t: seq<Command>) {
    [ ResetAllocator,
      ResetList,
      Barrier(b, PresentState, RenderTargetState),
      SetViewports,
      SetScissorRects,
      ClearRenderTarget(b),
      ClearDepthStencil,
      SetRenderTargets(b),
      Barrier(b, RenderTargetState, PresentState),
      CloseList,
      ExecuteLists,
      PresentBuffer(b),
      FlushQueue ]
  }

  /** Positions in `FrameCommands` of the four checked calls. */
  const AllocatorResetAt: nat := 0
  const ListResetAt: nat := 1
  const CloseAt: nat := 9
  const PresentAt: nat := 11

  /** The allocator and command-list resets that open a frame. */
  function ResetCommands(b: nat): (r: seq<Command>) {
    FrameCommands(b)[..ListResetAt + 1]
  }

  /** The calls recorded between the command-list reset and `Close` (inclusive). */
  function RecordedCommands(b: nat): (r: seq<Command>) {
    FrameCommands(b)[ListResetAt + 1..CloseAt + 1]
  }

  /** The recorded calls that set up, clear and bind back buffer `b` while it is a render target. */
  function DrawingCommands(b: nat): (r: seq<Command>) {
    FrameCommands(b)[ListResetAt + 2..CloseAt - 1]
  }

  /** The barrier back to the present state and the `Close` that end the recording. */
  function ClosingCommands(b: nat): (r: seq<Command>) {
    FrameCommands(b)[CloseAt - 1..CloseAt + 1]
  }

  /** Submission, presentation and the queue flush. */
  function SubmitCommands(b: nat): (r: seq<Command>) {
    FrameCommands(b)[CloseAt + 1..]
  }

  /** The calls a frame made, how it ended, and the application state afterwards. */
  datatype Frame = Frame(trace: seq<Command>, outcome: Outcome<DxException>, app: App)

  /**
    `InitDirect3DApp::Draw`: each `ThrowIfFailed` either lets the frame go on
    or ends it with the exception; the back-buffer index moves only after
    `Present` succeeded.
  */
  function Draw(app: App, status: FrameStatus): (f: Frame)
    requires Valid(app)
    ensures Valid(f.app) && f.app.swapChainBufferCount == app.swapChainBufferCount
    ensures f.outcome.Pass? <==> FrameSucceeds(status)
    ensures f.outcome.Pass? ==> f.app.currBackBuffer == (app.currBackBuffer + 1) % app.swapChainBufferCount
    ensures f.outcome.Fail? ==> f.app == app
  {
    var b := app.currBackBuffer;
    var calls, all := Checks(status), FrameCommands(b);
    match ThrowIfFailed(calls[0].status, calls[0].expression, SourceFile, calls[0].line)
    case Fail(e) => Frame(all[..AllocatorResetAt + 1], Fail(e), app)
    case Pass =>
      match ThrowIfFailed(calls[1].status, calls[1].expression, SourceFile, calls[1].line)
      case Fail(e) => Frame(all[..ListResetAt + 1], Fail(e), app)
      case Pass =>
        match ThrowIfFailed(calls[2].status, calls[2].expression, SourceFile, calls[2].line)
        case Fail(e) => Frame(all[..CloseAt + 1], Fail(e), app)
        case Pass =>
          match ThrowIfFailed(calls[3].status, calls[3].expression, SourceFile, calls[3].line)
          case Fail(e) => Frame(all[..PresentAt + 1], Fail(e), app)
          case Pass => Frame(all, Pass, app.(currBackBuffer := (b + 1) % app.swapChainBufferCount))
  }

  /**
    The calls a frame makes are the frame's full call sequence up to the
    point where it stopped: all of it when the frame completes, and up to the
    failing checked call, whose line the exception records, when it throws.
  */
  lemma DrawTrace(app: App, status: FrameStatus)
    requires Valid(app)
    ensures var f := Draw(app, status);
            f.trace <= FrameCommands(app.currBackBuffer)
    ensures var f := Draw(app, status);
            f.outcome.Pass? ==> f.trace == FrameCommands(app.currBackBuffer)
    ensures var f := Draw(app, status);
            f.outcome.Fail? ==> |f.trace| > 0 && CheckedLine(f.trace[|f.trace| - 1]) == Some(f.outcome.error.lineNumber)
  {
  }

  /**
    A frame ends exactly as running its four `ThrowIfFailed` sites in order
    does: it completes when all four succeed and otherwise throws the
    exception of the first that failed.
  */
  lemma DrawThrowsFirstFailure(app: App, status: FrameStatus)
    requires Valid(app)
    ensures Draw(app, status).outcome == RunChecks(Checks(status), SourceFile)
  {
    var calls := Checks(status);
    assert calls[1..] == calls[1..4] && calls[1..][1..] == calls[2..4] && calls[2..4][1..] == calls[3..4];
    assert calls[3..4][1..] == [];
    if Failed(status.allocatorReset) {
      assert RunChecks(calls, SourceFile) == Fail(ExceptionOf(calls[0], SourceFile));
    } else if Failed(status.listReset) {
      assert RunChecks(calls, SourceFile) == Fail(ExceptionOf(calls[1], SourceFile));
    } else if Failed(status.close) {
      assert RunChecks(calls, SourceFile) == Fail(ExceptionOf(calls[2], SourceFile));
    } else if Failed(status.present) {
      assert RunChecks(calls, SourceFile) == Fail(ExceptionOf(calls[3], SourceFile));
    }
  }

  /** The device is between frames and agrees with the application about the swap chain. */
  predicate InSync(app: App, d: Device) {
    Quiescent(d) && |d.buffers| == app.swapChainBufferCount && d.swapIndex == app.currBackBuffer
  }

  /** Resetting the allocator and the list opens the list for recording. */
  lemma ResetsAllowed(d: Device, b: nat)
    requires Quiescent(d)
    ensures Run(d, ResetCommands(b)) == Some(d.(list := Recording))
  {
    var t := ResetCommands(b);
    assert t[0] == ResetAllocator && t[1] == ResetList;
    RunFrom(d, t, 0);
    RunFrom(d, t, 1);
    assert t[2..] == [] && t[0..] == t;
  }

  /** With the back buffer in the render-target state, setting up, clearing and binding it is allowed and changes nothing. */
  lemma DrawingAllowed(e: Device, b: nat)
    requires e.list == Recording && b < |e.buffers| && e.buffers[b] == RenderTargetState
    ensures Run(e, DrawingCommands(b)) == Some(e)
  {
    var t := DrawingCommands(b);
    assert t[0] == SetViewports && t[1] == SetScissorRects && t[2] == ClearRenderTarget(b);
    assert t[3] == ClearDepthStencil && t[4] == SetRenderTargets(b);
    RunFrom(e, t, 0);
    RunFrom(e, t, 1);
    RunFrom(e, t, 2);
    RunFrom(e, t, 3);
    RunFrom(e, t, 4);
    assert t[5..] == [] && t[0..] == t;
  }

  /** Moving the back buffer back to the present state and closing the list ends the recording. */
  lemma FinishAllowed(d: Device, b: nat)
    requires Quiescent(d) && b == d.swapIndex
    ensures Run(d.(list := Recording, buffers := d.buffers[b := RenderTargetState]), ClosingCommands(b)) == Some(d)
  {
    var drawing := d.(list := Recording, buffers := d.buffers[b := RenderTargetState]);
    var t := ClosingCommands(b);
    assert t[0] == Barrier(b, RenderTargetState, PresentState) && t[1] == CloseList;
    assert d.buffers[b := RenderTargetState][b := PresentState] == d.buffers;
    RunFrom(drawing, t, 0);
    RunFrom(d.(list := Recording), t, 1);
    assert t[2..] == [] && t[0..] == t;
  }

  /**
    The recording moves back buffer `b` to the render-target state before it
    is cleared and bound, back to the present state afterwards, and closes
    the list: the device is left as it was before the list reset.
  */
  lemma RecordingAllowed(d: Device, b: nat)
    requires Quiescent(d) && b == d.swapIndex
    ensures Run(d.(list := Recording), RecordedCommands(b)) == Some(d)
  {
    var recording := d.(list := Recording);
    var drawing := d.(list := Recording, buffers := d.buffers[b := RenderTargetState]);
    var all := FrameCommands(b);
    var opening, middle, closing := all[2..3], DrawingCommands(b), ClosingCommands(b);
    assert RecordedCommands(b) == opening + middle + closing;
    assert opening[0] == Barrier(b, PresentState, RenderTargetState);
    RunFrom(recording, opening, 0);
    assert opening[1..] == [] && opening[0..] == opening;
    DrawingAllowed(drawing, b);
    FinishAllowed(d, b);
    RunAppend(recording, opening, middle);
    RunAppend(recording, opening + middle, closing);
  }

  /** Submitting, presenting and flushing leave the GPU idle with the swap chain one buffer further. */
  lemma SubmitAllowed(d: Device, b: nat)
    requires Quiescent(d) && b == d.swapIndex
    ensures Run(d, SubmitCommands(b)) == Some(d.(swapIndex := (b + 1) % |d.buffers|))
  {
    var after := d.(swapIndex := (b + 1) % |d.buffers|);
    var t := SubmitCommands(b);
    assert t[0] == ExecuteLists && t[1] == PresentBuffer(b) && t[2] == FlushQueue;
    RunFrom(d, t, 0);
    RunFrom(d.(gpuIdle := false), t, 1);
    RunFrom(after.(gpuIdle := false), t, 2);
    assert t[3..] == [] && t[0..] == t;
  }

  /**
    A complete frame obeys every usage rule and leaves the device between
    frames again, with the swap chain one buffer further on.
  */
  lemma FrameIsAllowed(d: Device, b: nat)
    requires Quiescent(d) && b == d.swapIndex
    ensures Run(d, FrameCommands(b)) == Some(d.(swapIndex := (b + 1) % |d.buffers|))
  {
    var head, rec, tail := ResetCommands(b), RecordedCommands(b), SubmitCommands(b);
    assert FrameCommands(b) == head + rec + tail;
    ResetsAllowed(d, b);
    RecordingAllowed(d, b);
    SubmitAllowed(d, b);
    RunAppend(d, head, rec);
    RunAppend(d, head + rec, tail);
  }

  /**
    Every frame that reaches the clear of its back buffer, including one
    that throws later, has set the viewport and the scissor rectangle after
    the list reset and before that clear, with no `Close` in between.
  */
  lemma FrameSetsViewportAndScissor(app: App, status: FrameStatus, l: nat)
    requires Valid(app)
    requires l < |Draw(app, status).trace| && Draw(app, status).trace[l] == ClearRenderTarget(app.currBackBuffer)
    ensures var t := Draw(app, status).trace;
            exists i: nat, j: nat, k: nat ::
              && i < j < l && i < k < l
              && t[i] == ResetList && t[j] == SetViewports && t[k] == SetScissorRects
              && NoCloseBetween(t, i + 1, l)
  {
    DrawTrace(app, status);
    PrefixSetsViewportAndScissor(app.currBackBuffer, Draw(app, status).trace, l);
  }

  /** The same, for any prefix `t` of a frame's call sequence. */
  lemma PrefixSetsViewportAndScissor(b: nat, t: seq<Command>, l: nat)
    requires t <= FrameCommands(b) && l < |t| && t[l] == ClearRenderTarget(b)
    ensures exists i: nat, j: nat, k: nat ::
              && i < j < l && i < k < l
              && t[i] == ResetList && t[j] == SetViewports && t[k] == SetScissorRects
              && NoCloseBetween(t, i + 1, l)
  {
    var all := FrameCommands(b);
    assert t[l] == all[l];
    OnlyOneClear(b, l);
    assert t[1] == ResetList && t[3] == SetViewports && t[4] == SetScissorRects;
    assert NoCloseBetween(t, 2, 5);
  }

  /** A frame clears its back buffer once, right after the viewport and scissor calls. */
  lemma OnlyOneClear(b: nat, l: nat)
    requires l < |FrameCommands(b)| && FrameCommands(b)[l].ClearRenderTarget?
    ensures l == ListResetAt + 4
  {
  }

  /** The calls of a run of frames, how it ended, the final state and how many frames completed. */
  datatype Session = Session(trace: seq<Command>, outcome: Outcome<DxException>, app: App, framesDrawn: nat)

  /**
    The render loop: `Draw` once per element of `frames` (whose statuses the
    GPU returns for that frame), stopping at the first frame that throws.
  */
  function RunFrames(app: App, frames: seq<FrameStatus>): (s: Session)
    requires Valid(app)
    ensures Valid(s.app) && s.app.swapChainBufferCount == app.swapChainBufferCount
    ensures s.framesDrawn <= |frames|
    ensures s.outcome.Pass? <==> s.framesDrawn == |frames|
    ensures s.app.currBackBuffer == (app.currBackBuffer + s.framesDrawn) % app.swapChainBufferCount
    ensures forall i | 0 <= i < s.framesDrawn :: FrameSucceeds(frames[i])
    ensures s.outcome.Fail? ==> s.outcome == Draw(s.app, frames[s.framesDrawn]).outcome
    decreases |frames|
  {
    if frames == [] then Session([], Pass, app, 0)
    else
      var f := Draw(app, frames[0]);
      if f.outcome.Fail? then Session(f.trace, f.outcome, f.app, 0)
      else
        var rest := RunFrames(f.app, frames[1..]);
        NextIndex(app.currBackBuffer, rest.framesDrawn, app.swapChainBufferCount);
        Session(f.trace + rest.trace, rest.outcome, rest.app, rest.framesDrawn + 1)
  }

  /** Advancing by one and then by `k` is advancing by `k + 1`, modulo `n`. */
  lemma NextIndex(c: nat, k: nat, n: nat)
    requires n > 0
    ensures ((c + 1) % n + k) % n == (c + k + 1) % n
  {
    var q := (c + 1) / n;
    assert c + k + 1 == n * q + ((c + 1) % n + k);
    ModShift((c + 1) % n + k, q, n);
  }

  /** Adding a multiple of `n` does not change the remainder. */
  lemma ModShift(x: nat, q: nat, n: nat)
    requires n > 0
    ensures (n * q + x) % n == x % n
  {
    assert x == n * (x / n) + x % n;
    assert n * q + x == n * (q + x / n) + x % n;
    ModUnique(n * q + x, n, q + x / n, x % n);
  }

  /**
    Every call of every frame obeys the usage rules, including the calls of a
    frame that throws, and after a run in which no frame threw the device is
    between frames again, with the swap chain on the application's back buffer.
  */
  lemma {:induction false} RunFramesAllowed(app: App, frames: seq<FrameStatus>, d: Device)
    requires Valid(app) && InSync(app, d)
    ensures Run(d, RunFrames(app, frames).trace).Some?
    ensures RunFrames(app, frames).outcome.Pass? ==>
              exists e :: Run(d, RunFrames(app, frames).trace) == Some(e) && InSync(RunFrames(app, frames).app, e)
    decreases |frames|
  {
    if frames != [] {
      var b := app.currBackBuffer;
      var f := Draw(app, frames[0]);
      FrameIsAllowed(d, b);
      if f.outcome.Fail? {
        var all := FrameCommands(b);
        assert f.trace == all[..|f.trace|];
        PrefixAllowed(d, all, |f.trace|);
      } else {
        var next := d.(swapIndex := (b + 1) % |d.buffers|);
        RunFramesAllowed(f.app, frames[1..], next);
        RunAppend(d, f.trace, RunFrames(f.app, frames[1..]).trace);
      }
    } else {
      assert InSync(RunFrames(app, frames).app, d);
    }
  }

  /**
    Across frames the allocator is reset only after the GPU has finished the
    previous frame: between a submission and any later allocator reset in a
    run there is a queue flush.
  */
  lemma RunResetsAfterFlush(app: App, frames: seq<FrameStatus>, d: Device, i: nat, j: nat)
    requires Valid(app) && InSync(app, d)
    requires var t := RunFrames(app, frames).trace; i < j < |t| && t[i] == ExecuteLists && t[j] == ResetAllocator
    ensures exists k: nat :: i < k < j && RunFrames(app, frames).trace[k] == FlushQueue
  {
    RunFramesAllowed(app, frames, d);
    ResetWaitsForFlush(d, RunFrames(app, frames).trace, i, j);
  }

  /**
    Every call recorded in a run of frames lies between a command-list reset
    and the `Close` that follows it.
  */
  lemma RunRecordsWhileOpen(app: App, frames: seq<FrameStatus>, d: Device, j: nat)
    requires Valid(app) && InSync(app, d)
    requires j < |RunFrames(app, frames).trace| && Records(RunFrames(app, frames).trace[j])
    ensures var t := RunFrames(app, frames).trace;
            exists i: nat :: i < j && t[i] == ResetList && NoCloseBetween(t, i + 1, j)
  {
    RunFramesAllowed(app, frames, d);
    RecordsAfterListReset(d, RunFrames(app, frames).trace, j);
  }

  /** The back buffers presented in `t`, in order. */
  function PresentedBuffers(t: seq<Command>): (r: seq<nat>)
    decreases |t|
  {
    if t == [] then []
    else (match t[0] case PresentBuffer(b) => [b] case _ => []) + PresentedBuffers(t[1..])
  }

  lemma {:induction false} PresentedAppend(t1: seq<Command>, t2: seq<Command>)
    ensures PresentedBuffers(t1 + t2) == PresentedBuffers(t1) + PresentedBuffers(t2)
    decreases |t1|
  {
    if t1 == [] {
      assert t1 + t2 == t2;
    } else {
      assert (t1 + t2)[0] == t1[0] && (t1 + t2)[1..] == t1[1..] + t2;
      PresentedAppend(t1[1..], t2);
    }
  }

  /** A trace without a present presents nothing. */
  lemma {:induction false} PresentedNone(t: seq<Command>)
    requires forall i | 0 <= i < |t| :: !t[i].PresentBuffer?
    ensures PresentedBuffers(t) == []
    decreases |t|
  {
    if t != [] {
      assert forall i | 0 <= i < |t| - 1 :: t[1..][i] == t[i + 1];
      PresentedNone(t[1..]);
    }
  }

  /**
    The first `k` calls of a frame present its back buffer once if they reach
    the `Present` call, and nothing otherwise.
  */
  lemma FramePrefixPresents(b: nat, k: nat)
    requires k <= |FrameCommands(b)|
    ensures PresentedBuffers(FrameCommands(b)[..k]) == (if k > PresentAt then [b] else [])
  {
    var all := FrameCommands(b);
    if k <= PresentAt {
      PresentedNone(all[..k]);
    } else {
      var tail := all[PresentAt..k];
      assert all[..k] == all[..PresentAt] + tail;
      PresentedNone(all[..PresentAt]);
      PresentedAppend(all[..PresentAt], tail);
      assert tail[0] == PresentBuffer(b);
      if k == PresentAt + 1 {
        assert tail[1..] == [];
      } else {
        assert tail[1..] == [FlushQueue];
      }
      PresentedNone(tail[1..]);
    }
  }

  /** A frame that completes presents its own back buffer exactly once; one that throws presents at most that buffer. */
  lemma FramePresents(app: App, status: FrameStatus)
    requires Valid(app)
    ensures var f := Draw(app, status);
            f.outcome.Pass? ==> PresentedBuffers(f.trace) == [app.currBackBuffer]
    ensures PresentedBuffers(Draw(app, status).trace) <= [app.currBackBuffer]
  {
    var all, t := FrameCommands(app.currBackBuffer), Draw(app, status).trace;
    DrawTrace(app, status);
    assert t == all[..|t|];
    FramePrefixPresents(app.currBackBuffer, |t|);
  }

  /** The back-buffer indices `c, c+1, c+2, ...` modulo `n`, `k` of them. */
  function Cycle(c: nat, n: nat, k: nat): (r: seq<nat>)
    requires c < n
    ensures |r| == k
    decreases k
  {
    if k == 0 then [] else [c] + Cycle((c + 1) % n, n, k - 1)
  }

  /** Entry `i` of the cycle is `(c + i) % n`. */
  lemma {:induction false} CycleAt(c: nat, n: nat, k: nat, i: nat)
    requires c < n && i < k
    ensures Cycle(c, n, k)[i] == (c + i) % n
    decreases k
  {
    if i > 0 {
      CycleAt((c + 1) % n, n, k - 1, i - 1);
      NextIndex(c, i - 1, n);
    } else {
      ModUnique(c, n, 0, c);
    }
  }

  /**
    The frames present the back buffers in ring order, starting from the
    current one; when no frame throws, there is exactly one present per frame.
  */
  lemma {:induction false} PresentsCycle(app: App, frames: seq<FrameStatus>)
    requires Valid(app)
    ensures CyclePresented(app, frames)
    decreases |frames|
  {
    if frames != [] {
      var f := Draw(app, frames[0]);
      if f.outcome.Pass? {
        PresentsCycle(f.app, frames[1..]);
        PresentsCycleStep(app, frames);
      } else {
        assert RunFrames(app, frames).framesDrawn == 0;
      }
    }
  }

  /**
    The presents of a run of frames start with the ring of back buffers from
    the current one, one per completed frame, and are exactly that ring when
    no frame throws.
  */
  predicate CyclePresented(app: App, frames: seq<FrameStatus>)
    requires Valid(app)
  {
    var s := RunFrames(app, frames);
    && Cycle(app.currBackBuffer, app.swapChainBufferCount, s.framesDrawn) <= PresentedBuffers(s.trace)
    && (s.outcome.Pass? ==> PresentedBuffers(s.trace) == Cycle(app.currBackBuffer, app.swapChainBufferCount, |frames|))
  }

  /** A completed first frame extends the ring presented by the frames after it. */
  lemma PresentsCycleStep(app: App, frames: seq<FrameStatus>)
    requires Valid(app) && frames != [] && Draw(app, frames[0]).outcome.Pass?
    requires CyclePresented(Draw(app, frames[0]).app, frames[1..])
    ensures CyclePresented(app, frames)
  {
    var f := Draw(app, frames[0]);
    var rest := RunFrames(f.app, frames[1..]);
    assert RunFrames(app, frames) == Session(f.trace + rest.trace, rest.outcome, rest.app, rest.framesDrawn + 1);
    FramePresents(app, frames[0]);
    RingExtends(app.currBackBuffer, app.swapChainBufferCount, f.trace, rest.trace, rest.framesDrawn);
    if rest.outcome.Pass? {
      RingExtends(app.currBackBuffer, app.swapChainBufferCount, f.trace, rest.trace, |frames| - 1);
    }
  }

  /**
    A trace that presents buffer `c` followed by one whose presents start
    with the ring from the next buffer presents the ring from `c`, one longer.
  */
  lemma RingExtends(c: nat, n: nat, head: seq<Command>, tail: seq<Command>, k: nat)
    requires c < n && PresentedBuffers(head) == [c]
    ensures Cycle((c + 1) % n, n, k) <= PresentedBuffers(tail) ==> Cycle(c, n, k + 1) <= PresentedBuffers(head + tail)
    ensures Cycle((c + 1) % n, n, k) == PresentedBuffers(tail) ==> Cycle(c, n, k + 1) == PresentedBuffers(head + tail)
  {
    PresentedAppend(head, tail);
    assert Cycle(c, n, k + 1) == [c] + Cycle((c + 1) % n, n, k);
    if Cycle((c + 1) % n, n, k) <= PresentedBuffers(tail) {
      PrefixCons(c, Cycle((c + 1) % n, n, k), PresentedBuffers(tail));
    }
  }

  lemma PrefixCons<T>(c: T, x: seq<T>, y: seq<T>)
    requires x <= y
    ensures [c] + x <= [c] + y
  {
    assert forall i | 0 <= i < |x| :: ([c] + x)[i + 1] == x[i];
  }

  /** With a two-buffer swap chain starting at buffer 0, five frames present buffers 0, 1, 0, 1, 0. */
  lemma {:induction false} TwoBuffersAlternate(frames: seq<FrameStatus>)
    requires |frames| == 5 && forall i | 0 <= i < 5 :: FrameSucceeds(frames[i])
    ensures RunFrames(App(0, 2), frames).outcome.Pass?
    ensures PresentedBuffers(RunFrames(App(0, 2), frames).trace) == [0, 1, 0, 1, 0]
  {
    PresentsCycle(App(0, 2), frames);
    var cycle := Cycle(0, 2, 5);
    forall i | 0 <= i < 5
      ensures cycle[i] == i % 2
    {
      CycleAt(0, 2, 5, i);
    }
  }

  /** What `D3DApp::Initialize` did: succeeded, returned false, or threw. */
  datatype InitResult = Initialized | InitFailed | InitThrew(error: DxException)

  /** How the process ends: the exit code and the exception shown in the message box, if any. */
  datatype Exit = Exit(code: Int32, shown: Option<DxException>)

  /**
    `WinMain`: initialise, run the frames, and catch a `DxException` once at
    the top, showing it and returning 0. `quitCode` is what the message loop
    returns when it ends normally.
  */
  function WinMain(init: InitResult, start: App, frames: seq<FrameStatus>, quitCode: Int32): (r: Exit)
    requires Valid(start)
    ensures r.shown.Some? ==> r.code == 0
    ensures init.InitFailed? ==> r == Exit(0, None)
    ensures init.InitThrew? ==> r == Exit(0, Some(init.error))
    ensures init.Initialized? ==>
              (r.shown.None? <==> forall i | 0 <= i < |frames| :: FrameSucceeds(frames[i]))
    ensures init.Initialized? && r.shown.None? ==> r.code == quitCode
  {
    match init
    case InitThrew(e) => Exit(0, Some(e))
    case InitFailed => Exit(0, None)
    case Initialized =>
      var s := RunFrames(start, frames);
      if s.outcome.Fail? then Exit(0, Some(s.outcome.error))
      else Exit(quitCode, None)
  }

  /**
    The exception `WinMain` shows after a successful initialisation is the
    one thrown by the first failing checked call of the first failing frame.
  */
  lemma WinMainShowsFirstFailure(start: App, frames: seq<FrameStatus>, quitCode: Int32)
    requires Valid(start)
    ensures var r := WinMain(Initialized, start, frames, quitCode);
            r.shown.Some? ==>
              exists i: nat, j: nat ::
                && i < |frames|
                && (forall h | 0 <= h < i :: FrameSucceeds(frames[h]))
                && FirstFailedAt(Checks(frames[i]), j)
                && r.shown.value == ExceptionOf(Checks(frames[i])[j], SourceFile)
  {
    var s := RunFrames(start, frames);
    if s.outcome.Fail? {
      var i := s.framesDrawn;
      DrawThrowsFirstFailure(s.app, frames[i]);
      var j: nat :| FirstFailedAt(Checks(frames[i]), j) && s.outcome.error == ExceptionOf(Checks(frames[i])[j], SourceFile);
    }
  }

  /**
    A `Close` that fails with `E_FAIL` in the first frame ends the program
    with exit code 0, showing the exception raised at line 79.
  */
  lemma WinMainShowsCloseFailure(later: seq<FrameStatus>, quitCode: Int32)
    ensures var closeFails := FrameStatus(S_OK, S_OK, E_FAIL, S_OK);
            WinMain(Initialized, App(0, 2), [closeFails] + later, quitCode)
            == Exit(0, Some(DxException(E_FAIL, "mCommandList->Close()", SourceFile, 79)))
  {
    var closeFails := FrameStatus(S_OK, S_OK, E_FAIL, S_OK);
    var frames := [closeFails] + later;
    assert frames[0] == closeFails;
    assert Draw(App(0, 2), closeFails).outcome.Fail?;
  }
}
