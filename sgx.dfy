/**
 * Types shared by the host side of the SGX runtime: the fixed-width integers
 * of the foreign-call interface, the SGX status codes, and the result type that
 * every call across the enclave boundary produces.
 */
module SgxTypes {

  newtype u8 = x: int | 0 <= x < 0x100
  newtype u16 = x: int | 0 <= x < 0x1_0000
  newtype u32 = x: int | 0 <= x < 0x1_0000_0000
  newtype u64 = x: int | 0 <= x < 0x1_0000_0000_0000_0000
  newtype i32 = x: int | -0x8000_0000 <= x < 0x8000_0000

  type byte = u8

  /** `sgx_status_t`: a 32-bit code, zero meaning success (values of the SGX SDK's sgx_error.h). */
  newtype Status = x: int | 0 <= x < 0x1_0000_0000

  const SGX_SUCCESS: Status := 0x0000
  const SGX_ERROR_UNEXPECTED: Status := 0x0001
  const SGX_ERROR_INVALID_ENCLAVE: Status := 0x2001

  datatype Option<+T> = None | Some(value: T)

  /** `SgxResult<T>`: a value, or the status code that made the operation fail. */
  datatype SgxResult<+T> = Ok(value: T) | Err(status: Status)

  /**
   * The two statuses an enclave call yields: `transport`, returned by the
   * generated bridge function (did the call cross the boundary and come back),
   * and `retval`, which the enclave itself wrote through its out-pointer.
   */
  datatype EcallStatus = EcallStatus(transport: Status, retval: Status)

  /**
   * The check every caller of an enclave call performs: the transport status
   * first, then the enclave's own status; success only when both succeed.
   * An error never carries SGX_SUCCESS, so the two failure kinds stay apart
   * from success.
   */
  function CheckEcall(call: EcallStatus): (r: SgxResult<()>)
    ensures r.Ok? <==> call.transport == SGX_SUCCESS && call.retval == SGX_SUCCESS
    ensures call.transport != SGX_SUCCESS ==> r == Err(call.transport)
    ensures call.transport == SGX_SUCCESS && call.retval != SGX_SUCCESS ==> r == Err(call.retval)
    ensures r.Err? ==> r.status != SGX_SUCCESS
  {
    if call.transport != SGX_SUCCESS then Err(call.transport)
    else if call.retval != SGX_SUCCESS then Err(call.retval)
    else Ok(())
  }

  /** A failed transport hides the enclave's own status: whatever `retval` holds, the outcome is the same. */
  lemma TransportFailureIgnoresRetval(transport: Status, retval1: Status, retval2: Status)
    requires transport != SGX_SUCCESS
    ensures CheckEcall(EcallStatus(transport, retval1)) == CheckEcall(EcallStatus(transport, retval2))
  {
  }
}
