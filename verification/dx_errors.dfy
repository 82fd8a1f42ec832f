/**
  `DxException` and the `ThrowIfFailed` macro (Common/d3dUtil.h): a failed
  `HRESULT` becomes an exception that records the status, the text of the
  checked expression, the source file and the line.
*/
module DxErrors {
  import opened WinTypes
  import opened Wrappers

  /** The exception every checked Direct3D call throws. */
  datatype DxException = DxException(
    errorCode: HResult,
    functionName: string,
    fileName: string,
    lineNumber: Int32)

  /** A default-constructed `DxException`: success status, empty strings, line -1. */
  function DefaultDxException(): (e: DxException)
    ensures e.errorCode == S_OK && !Failed(e.errorCode)
    ensures e.lineNumber == -1
    ensures e.functionName == [] && e.fileName == []
  {
    DxException(S_OK, [], [], -1)
  }

  /**
    `ThrowIfFailed(x)` at `fileName:line`, where `hr` is the value of the
    expression whose text is `expression`.
  */
  function ThrowIfFailed(hr: HResult, expression: string, fileName: string, line: Int32): (o: Outcome<DxException>)
    ensures o.Fail? <==> Failed(hr)
    ensures o.Fail? ==> (o.error.errorCode == hr && o.error.functionName == expression
                         && o.error.fileName == fileName && o.error.lineNumber == line)
  {
    if Failed(hr) then Fail(DxException(hr, expression, fileName, line)) else Pass
  }

  /** An exception that `ThrowIfFailed` throws always carries a failure code, so it is never the default one. */
  lemma ThrownIsNeverDefault(hr: HResult, expression: string, fileName: string, line: Int32)
    ensures var o := ThrowIfFailed(hr, expression, fileName, line);
            o.Fail? ==> Failed(o.error.errorCode) && o.error != DefaultDxException()
  {
  }

  /**
    Only the sign matters: `S_FALSE` is a success and passes, while a
    removed device fails with its own code.
  */
  lemma ThrowIfFailedExamples()
    ensures ThrowIfFailed(S_FALSE, "x", "f.cpp", 7) == Pass
    ensures ThrowIfFailed(DXGI_ERROR_DEVICE_REMOVED, "x", "f.cpp", 7)
         == Fail(DxException(DXGI_ERROR_DEVICE_REMOVED, "x", "f.cpp", 7))
  {
  }

  /** One `ThrowIfFailed` site: the status its expression returned, the expression text and its line. */
  datatype CheckedCall = CheckedCall(status: HResult, expression: string, line: Int32)

  /** Every call in `calls` succeeded. */
  predicate AllSucceed(calls: seq<CheckedCall>) {
    forall i | 0 <= i < |calls| :: !Failed(calls[i].status)
  }

  /** `calls[i]` is the first call in `calls` that failed. */
  predicate FirstFailedAt(calls: seq<CheckedCall>, i: nat) {
    i < |calls| && Failed(calls[i].status) && AllSucceed(calls[..i])
  }

  /** The exception `ThrowIfFailed` builds for `call`. */
  function ExceptionOf(call: CheckedCall, fileName: string): (r: DxException) {
    DxException(call.status, call.expression, fileName, call.line)
  }

  /**
    Running the `ThrowIfFailed` sites of `calls` in order: the first failure
    throws and nothing after it runs.
  */
  function RunChecks(calls: seq<CheckedCall>, fileName: string): (o: Outcome<DxException>)
    ensures o.Pass? <==> AllSucceed(calls)
    ensures o.Fail? ==> exists i: nat :: FirstFailedAt(calls, i) && o.error == ExceptionOf(calls[i], fileName)
  {
    if calls == [] then Pass
    else
      match ThrowIfFailed(calls[0].status, calls[0].expression, fileName, calls[0].line)
      case Fail(e) =>
        assert FirstFailedAt(calls, 0);
        Fail(e)
      case Pass =>
        var rest := RunChecks(calls[1..], fileName);
        assert forall i | 0 <= i < |calls| - 1 :: calls[1..][i] == calls[i + 1];
        if rest.Fail? then
          var i: nat :| FirstFailedAt(calls[1..], i) && rest.error == ExceptionOf(calls[1..][i], fileName);
          assert calls[..i + 1] == [calls[0]] + calls[1..][..i];
          assert FirstFailedAt(calls, i + 1);
          rest
        else
          rest
  }
}
