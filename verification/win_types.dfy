/** The Win32 scalar types the helpers rely on: `int` and `HRESULT`. */
module WinTypes {

  const Int32Min: int := -0x8000_0000
  const Int32Max: int := 0x7FFF_FFFF

  /** A C `int` (32 bits, two's complement). */
  newtype Int32 = x: int | Int32Min <= x <= Int32Max

  /** `HRESULT` is a 32-bit signed status code. */
  type HResult = Int32

  /** The success code. */
  const S_OK: HResult := 0

  /** `S_FALSE`: a success code that is not `S_OK`. */
  const S_FALSE: HResult := 1

  /** `E_FAIL` (0x80004005 reinterpreted as a signed 32-bit value). */
  const E_FAIL: HResult := -0x7FFF_BFFB

  /** `DXGI_ERROR_DEVICE_REMOVED` (0x887A0005 reinterpreted as a signed 32-bit value). */
  const DXGI_ERROR_DEVICE_REMOVED: HResult := -0x7785_FFFB

  /** The `FAILED` macro: a status is a failure exactly when its sign bit is set. */
  predicate Failed(hr: HResult) {
    hr < 0
  }
}
