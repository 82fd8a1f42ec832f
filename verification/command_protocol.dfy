/**
  The Direct3D 12 usage rules that the draw loop of InitD3D/InitD3D/InitD3D.cpp
  must obey, as a state machine over the calls the application makes.

  - The command allocator may be reset only when the GPU has finished all
    submitted work and the command list is not recording into it.
  - The command list may be reset only when it is closed; every recording
    command needs an open list; `Close` ends the recording.
  - A resource barrier must name the state the buffer is actually in.
  - A back buffer is cleared and bound as a render target only while it is in
    the render-target state, and presented only while it is in the present
    state and is the swap chain's current back buffer.
  - `ExecuteCommandLists` submits a closed list and makes the GPU busy; the
    queue flush waits until the GPU is idle again.
*/
module CommandProtocol {
  import opened Wrappers

  datatype ResourceState = PresentState | RenderTargetState

  /** One call the application makes on the allocator, command list, queue or swap chain. */
  datatype Command =
    | ResetAllocator
    | ResetList
    | Barrier(buffer: nat, before: ResourceState, after: ResourceState)
    | SetViewports
    | SetScissorRects
    | ClearRenderTarget(buffer: nat)
    | ClearDepthStencil
    | SetRenderTargets(buffer: nat)
    | CloseList
    | ExecuteLists
    | PresentBuffer(buffer: nat)
    | FlushQueue

  datatype ListState = Closed | Recording

  /**
    What the device knows: whether the list is recording, whether the GPU has
    finished all submitted work, the state of each swap-chain buffer and the
    swap chain's current back buffer.
  */
  datatype Device = Device(list: ListState, gpuIdle: bool, buffers: seq<ResourceState>, swapIndex: nat)

  /** A device between frames: list closed, GPU idle, every buffer presentable. */
  predicate Quiescent(d: Device) {
    && d.list == Closed
    && d.gpuIdle
    && d.swapIndex < |d.buffers|
    && forall i | 0 <= i < |d.buffers| :: d.buffers[i] == PresentState
  }

  /** Whether `c` is allowed on `d`. */
  predicate Allowed(d: Device, c: Command) {
    match c
    case ResetAllocator => d.gpuIdle && d.list == Closed
    case ResetList => d.list == Closed
    case Barrier(b, before, after) =>
      d.list == Recording && b < |d.buffers| && d.buffers[b] == before && before != after
    case SetViewports => d.list == Recording
    case SetScissorRects => d.list == Recording
    case ClearDepthStencil => d.list == Recording
    case ClearRenderTarget(b) => d.list == Recording && b < |d.buffers| && d.buffers[b] == RenderTargetState
    case SetRenderTargets(b) => d.list == Recording && b < |d.buffers| && d.buffers[b] == RenderTargetState
    case CloseList => d.list == Recording
    case ExecuteLists => d.list == Closed
    case PresentBuffer(b) => b == d.swapIndex && b < |d.buffers| && d.buffers[b] == PresentState
    case FlushQueue => true
  }

  /** The device after an allowed call. */
  function Apply(d: Device, c: Command): (e: Device)
    requires Allowed(d, c)
  {
    match c
    case ResetList => d.(list := Recording)
    case Barrier(b, _, after) => d.(buffers := d.buffers[b := after])
    case CloseList => d.(list := Closed)
    case ExecuteLists => d.(gpuIdle := false)
    case PresentBuffer(b) => d.(swapIndex := (b + 1) % |d.buffers|)
    case FlushQueue => d.(gpuIdle := true)
    case _ => d
  }

  /** Replays `trace` from `d`; `None` when some call in it breaks a rule. */
  function Run(d: Device, trace: seq<Command>): (r: Option<Device>)
    decreases |trace|
  {
    if trace == [] then Some(d)
    else if Allowed(d, trace[0]) then Run(Apply(d, trace[0]), trace[1..])
    else None
  }

  /** Replaying two traces one after the other is replaying their concatenation. */
  lemma {:induction false} RunAppend(d: Device, t1: seq<Command>, t2: seq<Command>)
    ensures Run(d, t1 + t2) == (match Run(d, t1) case None => None case Some(e) => Run(e, t2))
    decreases |t1|
  {
    if t1 != [] {
      assert (t1 + t2)[0] == t1[0] && (t1 + t2)[1..] == t1[1..] + t2;
      if Allowed(d, t1[0]) {
        RunAppend(Apply(d, t1[0]), t1[1..], t2);
      }
    } else {
      assert t1 + t2 == t2;
    }
  }

  /** Replaying `t` from position `k` takes the call at `k` and goes on from `k + 1`. */
  lemma RunFrom(d: Device, t: seq<Command>, k: nat)
    requires k < |t| && Allowed(d, t[k])
    ensures Run(d, t[k..]) == Run(Apply(d, t[k]), t[k + 1..])
  {
    assert t[k..][0] == t[k] && t[k..][1..] == t[k + 1..];
  }

  /** Every prefix of a legal trace is legal. */
  lemma PrefixAllowed(d: Device, t: seq<Command>, n: nat)
    requires n <= |t| && Run(d, t).Some?
    ensures Run(d, t[..n]).Some?
  {
    assert t == t[..n] + t[n..];
    RunAppend(d, t[..n], t[n..]);
  }

  /**
    In a legal trace the allocator is never reset between a submission and
    the flush that waits for it: once `ExecuteLists` has run, a later
    `ResetAllocator` needs a `FlushQueue` in between.
  */
  lemma {:induction false} ResetWaitsForFlush(d: Device, t: seq<Command>, i: nat, j: nat)
    requires Run(d, t).Some?
    requires i < j < |t| && t[i] == ExecuteLists && t[j] == ResetAllocator
    ensures exists k: nat :: i < k < j && t[k] == FlushQueue
    decreases |t|
  {
    if i > 0 {
      ResetWaitsForFlush(Apply(d, t[0]), t[1..], i - 1, j - 1);
      var k: nat :| i - 1 < k < j - 1 && t[1..][k] == FlushQueue;
      assert t[k + 1] == FlushQueue;
    } else {
      BusyUntilFlush(Apply(d, t[0]), t[1..], j - 1);
      var k: nat :| k < j - 1 && t[1..][k] == FlushQueue;
      assert t[k + 1] == FlushQueue;
    }
  }

  /** From a busy device, a legal trace reaches `ResetAllocator` at `j` only after a `FlushQueue`. */
  lemma {:induction false} BusyUntilFlush(d: Device, t: seq<Command>, j: nat)
    requires !d.gpuIdle && Run(d, t).Some?
    requires j < |t| && t[j] == ResetAllocator
    ensures exists k: nat :: k < j && t[k] == FlushQueue
    decreases |t|
  {
    assert Allowed(d, t[0]);
    if t[0] != FlushQueue {
      assert j > 0;
      BusyUntilFlush(Apply(d, t[0]), t[1..], j - 1);
      var k: nat :| k < j - 1 && t[1..][k] == FlushQueue;
      assert t[k + 1] == FlushQueue;
    }
  }

  /** The calls that record into the command list (every call between its reset and `Close`). */
  predicate Records(c: Command) {
    c.Barrier? || c.SetViewports? || c.SetScissorRects? || c.ClearRenderTarget?
    || c.ClearDepthStencil? || c.SetRenderTargets?
  }

  /** No `CloseList` at positions `from` (inclusive) to `to` (exclusive) of `t`. */
  predicate NoCloseBetween(t: seq<Command>, from: nat, to: nat)
    requires from <= to <= |t|
  {
    forall k | from <= k < to :: t[k] != CloseList
  }

  /**
    In a legal trace a recording call at `j` happens while the list is open:
    either the list was already recording at the start and has not been
    closed since, or some `ResetList` before `j` opened it and no `Close`
    came in between.
  */
  lemma {:induction false} RecordingNeedsOpenList(d: Device, t: seq<Command>, j: nat)
    requires Run(d, t).Some? && j < |t| && Records(t[j])
    ensures || (d.list == Recording && NoCloseBetween(t, 0, j))
            || exists i: nat :: i < j && t[i] == ResetList && NoCloseBetween(t, i + 1, j)
    decreases |t|
  {
    assert Allowed(d, t[0]);
    if j > 0 {
      var e := Apply(d, t[0]);
      RecordingNeedsOpenList(e, t[1..], j - 1);
      if exists i: nat :: i < j - 1 && t[1..][i] == ResetList && NoCloseBetween(t[1..], i + 1, j - 1) {
        var i: nat :| i < j - 1 && t[1..][i] == ResetList && NoCloseBetween(t[1..], i + 1, j - 1);
        assert t[i + 1] == ResetList;
        assert NoCloseBetween(t, i + 2, j) by {
          forall k | i + 2 <= k < j
            ensures t[k] != CloseList
          {
            assert t[k] == t[1..][k - 1];
          }
        }
      } else if t[0] == ResetList {
        assert NoCloseBetween(t, 1, j) by {
          forall k | 1 <= k < j
            ensures t[k] != CloseList
          {
            assert t[k] == t[1..][k - 1];
          }
        }
      } else {
        assert e.list == Recording && NoCloseBetween(t[1..], 0, j - 1);
        assert NoCloseBetween(t, 0, j) by {
          forall k | 0 <= k < j
            ensures t[k] != CloseList
          {
            if k > 0 {
              assert t[k] == t[1..][k - 1];
            }
          }
        }
      }
    }
  }

  /** Starting from a closed list, every recording call follows a `ResetList` with no `Close` in between. */
  lemma RecordsAfterListReset(d: Device, t: seq<Command>, j: nat)
    requires d.list == Closed && Run(d, t).Some? && j < |t| && Records(t[j])
    ensures exists i: nat :: i < j && t[i] == ResetList && NoCloseBetween(t, i + 1, j)
  {
    RecordingNeedsOpenList(d, t, j);
  }
}
