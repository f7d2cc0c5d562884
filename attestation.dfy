/**
 * Host-side attestation plumbing from attestation.rs: turning the dual status
 * of the report and seed enclave calls into a result, and servicing the
 * outside calls the enclave makes while it attests (quote initialisation,
 * quote retrieval, platform update info, and the choice of the attestation
 * server's address).
 *
 * Every SGX primitive and enclave call is an oracle: its outcome is a
 * parameter.
 */
module Attestation {
  import opened SgxTypes

  /** `inner_create_report`: Ok(SGX_SUCCESS) when the report call and the enclave both succeed. */
  function InnerCreateReport(call: EcallStatus): (r: SgxResult<Status>)
    ensures call.transport != SGX_SUCCESS ==> r == Err(call.transport)
    ensures call.transport == SGX_SUCCESS && call.retval != SGX_SUCCESS ==> r == Err(call.retval)
    ensures r.Ok? <==> call.transport == SGX_SUCCESS && call.retval == SGX_SUCCESS
    ensures r.Ok? ==> r.value == SGX_SUCCESS
  {
    match CheckEcall(call)
    case Ok(_) => Ok(SGX_SUCCESS)
    case Err(status) => Err(status)
  }

  /**
   * What `ecall_get_encrypted_seed` leaves behind: its dual status and the
   * contents of the seed buffer it was given.
   */
  datatype SeedCall = SeedCall(status: EcallStatus, seed: seq<byte>)

  /**
   * `inner_get_encrypted_seed`. The buffer is an array of exactly
   * `encryptedSeedSize` bytes (ENCRYPTED_SEED_SIZE, a constant defined outside
   * this model); after the status checks an empty buffer is rejected with
   * SGX_ERROR_UNEXPECTED, and otherwise the buffer is returned as filled.
   */
  function InnerGetEncryptedSeed(encryptedSeedSize: nat, call: SeedCall): (r: SgxResult<seq<byte>>)
    requires |call.seed| == encryptedSeedSize
    ensures call.status.transport != SGX_SUCCESS ==> r == Err(call.status.transport)
    ensures call.status.transport == SGX_SUCCESS && call.status.retval != SGX_SUCCESS ==>
      r == Err(call.status.retval)
    ensures CheckEcall(call.status).Ok? && encryptedSeedSize == 0 ==> r == Err(SGX_ERROR_UNEXPECTED)
    ensures r.Ok? <==> CheckEcall(call.status).Ok? && encryptedSeedSize > 0
    // never an empty seed on success; always exactly the buffer the enclave filled
    ensures r.Ok? ==> r.value == call.seed && |r.value| == encryptedSeedSize && r.value != []
  {
    match CheckEcall(call.status)
    case Err(status) => Err(status)
    case Ok(_) =>
      if |call.seed| == 0 then Err(SGX_ERROR_UNEXPECTED) else Ok(call.seed)
  }

  /**
   * Because the buffer has a fixed size, the empty-seed check can only ever
   * fire when that size is zero: for any positive size a successful call
   * always yields its buffer, whatever bytes it holds (all zeros included).
   */
  lemma EmptySeedCheckOnlyForZeroSize(encryptedSeedSize: nat, status: EcallStatus, seed: seq<byte>)
    requires encryptedSeedSize > 0 && |seed| == encryptedSeedSize
    requires status == EcallStatus(SGX_SUCCESS, SGX_SUCCESS)
    ensures InnerGetEncryptedSeed(encryptedSeedSize, SeedCall(status, seed)) == Ok(seed)
  {
  }

  /** What `sgx_calc_quote_size` yields: its status and the size it wrote. */
  datatype QuoteSize = QuoteSize(status: Status, size: u32)

  /** The observable steps of `ocall_get_quote`, in the order they happen. */
  datatype QuoteStep =
    | CalcQuoteSize
    | WriteQuoteLen(len: u32)  // the store through `p_quote_len`
    | GetQuote(len: u32)       // the call to `sgx_get_quote` with this buffer length

  /**
   * `ocall_get_quote`: compute the quote size; on failure return its status
   * at once. Otherwise publish the size through `p_quote_len`, then ask for
   * the quote with that same size and return that call's status.
   */
  method OcallGetQuote(calcQuoteSize: QuoteSize, getQuote: u32 -> Status)
    returns (ret: Status, steps: seq<QuoteStep>)
    ensures calcQuoteSize.status != SGX_SUCCESS ==> ret == calcQuoteSize.status && steps == [CalcQuoteSize]
    ensures calcQuoteSize.status == SGX_SUCCESS ==>
      ret == getQuote(calcQuoteSize.size)
      && steps == [CalcQuoteSize, WriteQuoteLen(calcQuoteSize.size), GetQuote(calcQuoteSize.size)]
    ensures ret == SGX_SUCCESS <==>
      calcQuoteSize.status == SGX_SUCCESS && getQuote(calcQuoteSize.size) == SGX_SUCCESS
  {
    var realQuoteLen: u32 := 0;
    steps := [CalcQuoteSize];
    ret := calcQuoteSize.status;
    realQuoteLen := calcQuoteSize.size;
    if ret != SGX_SUCCESS {
      return;
    }
    steps := steps + [WriteQuoteLen(realQuoteLen)];
    ret := getQuote(realQuoteLen);
    steps := steps + [GetQuote(realQuoteLen)];
  }

  /** What `sgx_init_quote` yields: its status and the target info and group id it wrote. */
  datatype QuoteInit = QuoteInit(status: Status, targetInfo: seq<byte>, groupId: seq<byte>)

  /** `ocall_sgx_init_quote`: the primitive's status and outputs, passed on unchanged. */
  function OcallSgxInitQuote(initQuote: QuoteInit): (r: QuoteInit)
    ensures r.status == initQuote.status
    ensures r.targetInfo == initQuote.targetInfo && r.groupId == initQuote.groupId
  {
    initQuote
  }

  /** What `sgx_report_attestation_status` yields: its status and the update info it wrote. */
  datatype UpdateInfo = UpdateInfo(status: Status, updateInfo: seq<byte>)

  /**
   * `ocall_get_update_info`: the platform blob and trust flag go to
   * `sgx_report_attestation_status` unchanged, and its result comes back
   * unchanged.
   */
  function OcallGetUpdateInfo(platformBlob: seq<byte>, enclaveTrusted: i32,
                              reportStatus: (seq<byte>, i32) -> UpdateInfo): (r: UpdateInfo)
    ensures r == reportStatus(platformBlob, enclaveTrusted)
  {
    reportStatus(platformBlob, enclaveTrusted)
  }

  /** A resolved socket address. */
  datatype SocketAddr =
    | V4(octets: seq<u8>, port: u16)
    | V6(segments: seq<u16>, port: u16)

  /**
   * `lookup_ipv4`: the first IPv4 address in resolution order. An IPv6
   * address is never chosen; a list without any IPv4 address is a panic in
   * the source, excluded here by the precondition.
   */
  method LookupIpv4(addrs: seq<SocketAddr>) returns (addr: SocketAddr)
    requires exists k :: 0 <= k < |addrs| && addrs[k].V4?
    ensures addr.V4?
    ensures exists k :: 0 <= k < |addrs| && addrs[k] == addr && forall j :: 0 <= j < k ==> !addrs[j].V4?
  {
    var i := 0;
    while i < |addrs|
      invariant 0 <= i <= |addrs|
      invariant forall j :: 0 <= j < i ==> !addrs[j].V4?
    {
      if addrs[i].V4? {
        return addrs[i];
      }
      i := i + 1;
    }
    assert false;
  }
}
