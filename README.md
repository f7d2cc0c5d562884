# SGX host runtime: trust gating, modelled in Dafny

This project models the host side of the SGX runtime of a CosmWasm-based chain. On that side, the runtime:

- finds the signed enclave image (`librust_cosmwasm_enclave.signed.so`) and creates the enclave once per process, caching the outcome;
- makes the one-shot runtime-configuration enclave call;
- limits concurrent entry into the enclave with a doorbell of TCS (thread-control-structure) slots;
- turns the dual status of the attestation enclave calls (the transport status, then the enclave's own `retval`) into results;
- services the outside calls the enclave makes while it attests.

Files and modules:

- `sgx.dfy`, module `SgxTypes`: fixed-width integers, `sgx_status_t` and its constants (SGX_SUCCESS 0x0000, SGX_ERROR_UNEXPECTED 0x0001, SGX_ERROR_INVALID_ENCLAVE 0x2001, as in the SGX SDK's `sgx_error.h`), `SgxResult`, and `CheckEcall`. `CheckEcall` is the status check that every caller of an enclave call performs: transport status first, then `retval`.
- `doorbell.dfy`, module `EnclaveDoorbell`: the doorbell. `Bell` is the abstract state: capacity, the free count, and the number of live non-recursive tokens. `Admit` and `Release` are its transitions. `Run` folds a sequence of requests over it. Class `Doorbell` holds the `count` that `wait_for` and the token's `drop` update in place.
- `enclave.dfy`, module `Enclave`: the directory search and `init_enclave`, `to_ffi_type`, and class `Runtime`. `Runtime` holds the process-wide statics: the memoised `SGX_ENCLAVE`, the `SGX_ENCLAVE_CONFIGURED` flag and `QUERY_DOORBELL`. It also holds ghost counters for creation attempts and for configuration calls issued.
- `attestation.dfy`, module `Attestation`: `inner_create_report`, `inner_get_encrypted_seed`, the outside calls `ocall_get_quote`, `ocall_sgx_init_quote` and `ocall_get_update_info`, and `lookup_ipv4`.

Every foreign call is an oracle:

- The file system and `SgxEnclave::create` are the `present` and `create` fields of `Host`.
- The value of `SCRT_ENCLAVE_DIR` is `Host.enclaveDir`.
- An enclave call's outcome is an `EcallStatus` (or a `SeedCall`, which adds the filled seed buffer).
- SGX primitives are status values or functions passed in.
- The condition-variable wait is a `Wake`: whether it timed out, and the count found on waking.

## What is proved, in the system's terms

- **Doorbell capacity.** Every slot is either free or held by exactly one live non-recursive token (`Inv`). `RunKeepsInv` proves that any paired sequence of acquisitions and drops keeps this. "Paired" means a non-recursive drop always has a live token behind it. As a result the free count and the live-token count both stay within `[0, TCS_NUM]`, and the `u8` increment in `drop` never wraps.
- **Recursive bypass.** `RecursiveOpsLeaveBell` proves that recursive acquisitions and drops never move the counter.
- **Saturation.** `FreeSlotsAdmit` and `Saturation` prove two things. While slots are free, each acquisition takes exactly one. Once all are taken, a further acquisition is denied, with nothing changed, whenever its wait sees no release. It is admitted whenever the wait ends before the timeout having seen slots come back.
- **No upper-bound check.** `drop` does not check the counter against the capacity. `Release` shows that an unpaired drop would simply add one.
- **Configuration gate.** `Runtime.Valid` holds before and after every call. Under it, the configuration call has been issued at most once, only after the flag was set, and only to the created enclave. The flag is set before the call and never cleared, including on failure. `ConfigureIsSetOnce` shows this over two calls: the second always returns Ok, even when the first failed.
- **Memoisation.** `init_enclave` runs at most once. Every `GetEnclave` call returns the same cached handle or the same cached error.
- **Directory search.** `init_enclave` uses the first directory, in the order [override or ".", "/lib", "/usr/lib", "/usr/local/lib"], whose joined path exists. When none exists it fails with SGX_ERROR_INVALID_ENCLAVE without calling `create`.
- **Status order.** In `configure_enclave`, `inner_create_report` and `inner_get_encrypted_seed`, a transport failure is reported before, and regardless of, the enclave's own status.
- **Seed on success.** `inner_get_encrypted_seed` succeeds only with a non-empty seed of exactly the buffer's size, namely the buffer the enclave filled.
- **Quote sequencing.** In `ocall_get_quote`, a failed size computation returns at once: nothing is written and `sgx_get_quote` is not called. Otherwise the size is written through `p_quote_len`, and `sgx_get_quote` is then called with that same size.
- **Address choice.** `lookup_ipv4` returns the first IPv4 address in resolution order.

Three facts about the code shape the error model:

- A missing enclave image is reported as the status SGX_ERROR_INVALID_ENCLAVE.
- A transport failure and an enclave rejection are both `Err(status)`. Only the status value tells them apart.
- The empty-seed check is applied to a fixed-size array, so it can fire only when ENCRYPTED_SEED_SIZE is 0 (`EmptySeedCheckOnlyForZeroSize`). For any positive size, a successful call returns the buffer whatever its contents, including an untouched all-zero buffer.

## Model

| member | source | states |
|---|---|---|
| `SgxTypes.CheckEcall` | cosmwasm/packages/sgx-vm/src/enclave.rs:120-128 | success exactly when transport and `retval` are both SGX_SUCCESS; a failed transport is returned first, otherwise a failed `retval`; an error never carries SGX_SUCCESS |
| `SgxTypes.TransportFailureIgnoresRetval` | cosmwasm/lib/sgx-vm/src/attestation.rs:125-131 | once the transport failed, the enclave's `retval` does not influence the outcome |
| `EnclaveDoorbell.WrappingInc` | cosmwasm/packages/sgx-vm/src/enclave.rs:200 | the `u8` increment stays below 256, is exact below 255, and wraps 255 to 0 |
| `EnclaveDoorbell.Admit` | cosmwasm/packages/sgx-vm/src/enclave.rs:153-173 | recursive: a token, counter untouched; free slot: a token, count down by exactly one; none free: denied with the count as found on waking if the wait timed out or found 0, else admitted taking one released slot; the slot invariant is preserved |
| `EnclaveDoorbell.Release` | cosmwasm/packages/sgx-vm/src/enclave.rs:190-205 | a recursive drop changes nothing; a non-recursive one adds exactly one to the count, with no upper-bound check, and preserves the slot invariant when it returns a live token |
| `EnclaveDoorbell.RunKeepsInv` | cosmwasm/packages/sgx-vm/src/enclave.rs:134-205 | over any paired sequence of acquisitions and drops, free slots plus live tokens equal the capacity, so both stay within [0, capacity] |
| `EnclaveDoorbell.RecursiveOpsLeaveBell` | cosmwasm/packages/sgx-vm/src/enclave.rs:155-172 | any sequence of recursive acquisitions and drops is possible and leaves the doorbell as it was |
| `EnclaveDoorbell.FreeSlotsAdmit` | cosmwasm/packages/sgx-vm/src/enclave.rs:162-172 | `k` acquisitions with at least `k` free slots take exactly `k` slots |
| `EnclaveDoorbell.Saturation` | cosmwasm/packages/sgx-vm/src/enclave.rs:162-170 | after `n` acquisitions on a fresh doorbell of capacity `n` all slots are held; then every wait that sees no release is denied with nothing changed, and every wait that ends before the timeout having seen between 1 and `n` slots come back is admitted, keeping the slot invariant |
| `EnclaveDoorbell.Doorbell.constructor` | cosmwasm/packages/sgx-vm/src/enclave.rs:146-151 | all slots free, no live tokens |
| `EnclaveDoorbell.Doorbell.WaitFor` | cosmwasm/packages/sgx-vm/src/enclave.rs:153-173 | the token returned and the new counter are those of `Admit`; the invariant is kept; nobody is notified |
| `EnclaveDoorbell.Doorbell.DropToken` | cosmwasm/packages/sgx-vm/src/enclave.rs:190-205 | the new counter is that of `Release`; exactly one `notify_one` for a non-recursive token, none for a recursive one |
| `Enclave.Join` | cosmwasm/packages/sgx-vm/src/enclave.rs:46 | the joined path starts with the directory and ends with the file name; one separator is inserted between them exactly when the directory is non-empty and does not already end in one |
| `Enclave.SearchDirs` | cosmwasm/packages/sgx-vm/src/enclave.rs:36-44 | four directories: `SCRT_ENCLAVE_DIR` or ".", then "/lib", "/usr/lib", "/usr/local/lib" |
| `Enclave.FirstExisting` | cosmwasm/packages/sgx-vm/src/enclave.rs:45-52 | the index of a directory whose candidate exists with none before it existing; none exactly when no candidate exists |
| `Enclave.FirstMatchIsFirstExisting` | cosmwasm/packages/sgx-vm/src/enclave.rs:45-52 | when the loop breaks at directory `i`, that is the first existing candidate |
| `Enclave.InitEnclave` | cosmwasm/packages/sgx-vm/src/enclave.rs:23-69 | creation is tried with the first existing candidate path and its result returned; when no candidate exists, SGX_ERROR_INVALID_ENCLAVE and no creation attempt |
| `Enclave.OverrideDirWins` | cosmwasm/packages/sgx-vm/src/enclave.rs:36-52 | an image in the `SCRT_ENCLAVE_DIR` directory is used, whatever the other directories hold |
| `Enclave.DefaultDirIsCurrent` | cosmwasm/packages/sgx-vm/src/enclave.rs:36-46 | without the override, an image at "./librust_cosmwasm_enclave.signed.so" is used |
| `Enclave.SearchOrder` | cosmwasm/packages/sgx-vm/src/enclave.rs:45-52 | the search stops at a directory holding the image exactly when no earlier directory holds it |
| `Enclave.EnclaveRuntimeConfig.ToFfiType` | cosmwasm/packages/sgx-vm/src/enclave.rs:98-102 | `module_cache_size` is copied unchanged |
| `Enclave.Runtime.constructor` | cosmwasm/packages/sgx-vm/src/enclave.rs:72-76 | nothing created, not configured, no configuration call, the doorbell at TCS_NUM free slots |
| `Enclave.Runtime.GetEnclave` | cosmwasm/packages/sgx-vm/src/enclave.rs:72-83 | the first call stores and returns `init_enclave`'s outcome; later calls return the stored handle or error and attempt nothing |
| `Enclave.Runtime.ConfigureEnclave` | cosmwasm/packages/sgx-vm/src/enclave.rs:105-129 | already configured: Ok, no call; otherwise the flag is set first and stays set, an enclave error is returned without a call, else exactly one call with the enclave's id and `to_ffi_type()` and the `CheckEcall` outcome; at most one call ever |
| `Enclave.Runtime.GetQueryToken` | cosmwasm/packages/sgx-vm/src/enclave.rs:207-209 | an acquisition on the process-wide doorbell, as `Admit` |
| `Enclave.ConfigureIsSetOnce` | cosmwasm/packages/sgx-vm/src/enclave.rs:105-129 | over two `configure_enclave` calls with any arguments, at most one configuration call and one creation attempt are made, and the second call returns Ok even when the first failed; on a fresh runtime the first returns the creation error or the `CheckEcall` outcome |
| `Attestation.InnerCreateReport` | cosmwasm/lib/sgx-vm/src/attestation.rs:119-134 | transport failure first, then `retval` failure; Ok(SGX_SUCCESS) exactly when both succeed |
| `Attestation.InnerGetEncryptedSeed` | cosmwasm/lib/sgx-vm/src/attestation.rs:136-157 | same status order; an empty buffer after two successes is SGX_ERROR_UNEXPECTED; success returns exactly the filled buffer, non-empty, of ENCRYPTED_SEED_SIZE bytes |
| `Attestation.EmptySeedCheckOnlyForZeroSize` | cosmwasm/lib/sgx-vm/src/attestation.rs:140-156 | for a positive seed size, two successes always yield the buffer |
| `Attestation.OcallGetQuote` | cosmwasm/lib/sgx-vm/src/attestation.rs:74-106 | a failed size computation is returned at once with nothing written and no quote call; otherwise the size is written, then `sgx_get_quote` is called with it and its status returned |
| `Attestation.OcallSgxInitQuote` | cosmwasm/lib/sgx-vm/src/attestation.rs:24-30 | `sgx_init_quote`'s status and outputs are returned verbatim |
| `Attestation.OcallGetUpdateInfo` | cosmwasm/lib/sgx-vm/src/attestation.rs:109-117 | the blob and trust flag reach `sgx_report_attestation_status` unchanged and its result is returned verbatim |
| `Attestation.LookupIpv4` | cosmwasm/lib/sgx-vm/src/attestation.rs:33-44 | an IPv4 address from the list, with no IPv4 address before it |

## Left out

- Condition-variable timing, lock acquisition and the fairness of `notify_one` are concurrency. A wait is the abstract outcome `Wake`. What other threads do meanwhile is summarised as drops of outstanding tokens (`WakeFits`). `ENCLAVE_LOCK_TIMEOUT` (30 seconds) is only documented, since no clock is modelled.
- `WrappingInc`: models the `u8` increment as it behaves with overflow checks off (it wraps). With overflow checks on, a debug build would panic instead. Under the slot invariant neither case occurs.
- `QueryToken` is a value and carries no reference to its doorbell. Rust's rule that a token is dropped exactly once is the precondition of `DropToken`: a live token must exist.
- `SgxEnclave::create` itself, the launch token, the misc attributes and the `ENCLAVE_DEBUG` build flag are foreign calls or build-time constants. Creation is the `Host.create` oracle, keyed by the image path.
- Environment lookup: `SCRT_ENCLAVE_DIR` is `Host.enclaveDir`. An unset or unreadable variable is None.
- `ENCRYPTED_SEED_SIZE` is defined in a crate root that is not part of this model. It is a parameter of `InnerGetEncryptedSeed`.
- The enclave-call and outside-call signatures, and the raw pointer writes other than the one through `p_quote_len`: their inputs (eid, certificate, sigrl, report, SPID, nonce) go to the oracles; their outputs are oracle values.
- `OcallGetQuote`: the `_maxlen` argument, the size of the caller's `p_quote` buffer, is not modelled. The code (cosmwasm/lib/sgx-vm/src/attestation.rs:70, 86-97) never compares it with the computed quote size before `sgx_get_quote` writes the quote, so no outcome of the model depends on it.
- `ocall_get_ias_socket`: DNS resolution, its `unwrap`, the TCP connect and its `expect` are network I/O. Only the `lookup_ipv4` selection rule is modelled.
- `LookupIpv4`: the `unreachable!` panic for a list without an IPv4 address is a precondition, not an error result.
- Logging (`info!`, `warn!`, `trace!`, `error!`, `println!`) and the disabled tests at the end of attestation.rs.
- cosmwasm/packages/wasmi-runtime/src/tests.rs: an in-enclave test harness built on panic catching and printing, with no gating logic.
