/**
 * Enclave acquisition and configuration from enclave.rs: finding the signed
 * enclave image, creating the enclave once per process and caching the
 * outcome, the one-shot runtime-configuration call, and the process-wide
 * doorbell behind `get_query_token`.
 *
 * The file system and `SgxEnclave::create` are oracles carried by `Host`; the
 * process-wide statics are the fields of one `Runtime` object.
 */
module Enclave {
  import opened SgxTypes
  import opened EnclaveDoorbell

  /** File name of the signed enclave image. */
  const ENCLAVE_FILE: string := "librust_cosmwasm_enclave.signed.so"

  /** The created enclave; `eid` is what `geteid` gives. */
  datatype EnclaveHandle = EnclaveHandle(eid: u64)

  /**
   * What enclave creation sees of the process: the value of SCRT_ENCLAVE_DIR
   * (None when unset or unreadable), which paths exist, and what
   * `SgxEnclave::create` yields for a given image path.
   */
  datatype Host = Host(
    enclaveDir: Option<string>,
    present: string -> bool,
    create: string -> SgxResult<EnclaveHandle>)

  /**
   * `Path::new(dir).join(file)` for a relative `file`: a separator is put in
   * between unless `dir` is empty or already ends with one.
   */
  function Join(dir: string, file: string): (p: string)
    ensures |p| == |dir| + |file| || (|p| == |dir| + 1 + |file| && p[|dir|] == '/')
    ensures p[..|dir|] == dir && p[|p| - |file|..] == file
    // the separator is inserted exactly when `dir` is non-empty and does not already end with one
    ensures (|dir| == 0 || dir[|dir| - 1] == '/') <==> |p| == |dir| + |file|
  {
    if |dir| == 0 || dir[|dir| - 1] == '/' then dir + file else dir + "/" + file
  }

  function CandidatePath(dir: string): string {
    Join(dir, ENCLAVE_FILE)
  }

  /** The directories searched, in order: the override (default "."), then the system library directories. */
  function SearchDirs(enclaveDir: Option<string>): (dirs: seq<string>)
    ensures |dirs| == 4
    ensures dirs[0] == (if enclaveDir.Some? then enclaveDir.value else ".")
    ensures dirs[1..] == ["/lib", "/usr/lib", "/usr/local/lib"]
  {
    [if enclaveDir.Some? then enclaveDir.value else ".", "/lib", "/usr/lib", "/usr/local/lib"]
  }

  /** Index of the first directory whose candidate path exists. */
  function FirstExisting(dirs: seq<string>, present: string -> bool): (r: Option<nat>)
    ensures r.Some? ==>
      r.value < |dirs| && present(CandidatePath(dirs[r.value]))
      && forall j :: 0 <= j < r.value ==> !present(CandidatePath(dirs[j]))
    ensures r.None? <==> forall j :: 0 <= j < |dirs| ==> !present(CandidatePath(dirs[j]))
    decreases |dirs|
  {
    if |dirs| == 0 then None
    else if present(CandidatePath(dirs[0])) then Some(0)
    else
      match FirstExisting(dirs[1..], present)
      case None => None
      case Some(i) => Some(i + 1)
  }

  /** The image path `init_enclave` settles on, if any. */
  function EnclaveFilePath(host: Host): (path: Option<string>) {
    var dirs := SearchDirs(host.enclaveDir);
    match FirstExisting(dirs, host.present)
    case None => None
    case Some(i) => Some(CandidatePath(dirs[i]))
  }

  /** The outcome of `init_enclave` for a given host. */
  function InitOutcome(host: Host): SgxResult<EnclaveHandle> {
    match EnclaveFilePath(host)
    case None => Err(SGX_ERROR_INVALID_ENCLAVE)
    case Some(path) => host.create(path)
  }

  /**
   * `init_enclave`: search the directories in order, stop at the first one
   * holding the image, and create the enclave from it. `attempted` is the path
   * handed to `create`, None when creation was not tried.
   */
  method InitEnclave(host: Host) returns (r: SgxResult<EnclaveHandle>, attempted: Option<string>)
    ensures attempted == EnclaveFilePath(host) && r == InitOutcome(host)
    ensures attempted.None? <==>
      forall i :: 0 <= i < 4 ==> !host.present(CandidatePath(SearchDirs(host.enclaveDir)[i]))
    ensures attempted.None? ==> r == Err(SGX_ERROR_INVALID_ENCLAVE)
    ensures attempted.Some? ==> host.present(attempted.value) && r == host.create(attempted.value)
  {
    var dirs := SearchDirs(host.enclaveDir);
    var enclaveFilePath: Option<string> := None;
    var i := 0;
    while i < |dirs|
      invariant 0 <= i <= |dirs|
      invariant enclaveFilePath.None?
      invariant forall j :: 0 <= j < i ==> !host.present(CandidatePath(dirs[j]))
    {
      var candidate := CandidatePath(dirs[i]);
      if host.present(candidate) {
        enclaveFilePath := Some(candidate);
        break;
      }
      i := i + 1;
    }
    if enclaveFilePath.None? {
      assert FirstExisting(dirs, host.present).None?;
      return Err(SGX_ERROR_INVALID_ENCLAVE), None;
    }
    FirstMatchIsFirstExisting(dirs, host.present, i);
    attempted := enclaveFilePath;
    r := host.create(enclaveFilePath.value);
  }

  /** A present candidate with none before it is the one `FirstExisting` finds. */
  lemma {:induction false} FirstMatchIsFirstExisting(dirs: seq<string>, present: string -> bool, i: nat)
    requires i < |dirs| && present(CandidatePath(dirs[i]))
    requires forall j :: 0 <= j < i ==> !present(CandidatePath(dirs[j]))
    ensures FirstExisting(dirs, present) == Some(i)
    decreases i
  {
    if i > 0 {
      assert !present(CandidatePath(dirs[0]));
      assert dirs[1..][i - 1] == dirs[i];
      forall j | 0 <= j < i - 1
        ensures !present(CandidatePath(dirs[1..][j]))
      {
        assert dirs[1..][j] == dirs[j + 1];
      }
      FirstMatchIsFirstExisting(dirs[1..], present, i - 1);
    }
  }

  /** The override directory always wins: an image there is the one created, whatever the other directories hold. */
  lemma OverrideDirWins(host: Host)
    requires host.enclaveDir.Some? && host.present(CandidatePath(host.enclaveDir.value))
    ensures EnclaveFilePath(host) == Some(CandidatePath(host.enclaveDir.value))
    ensures InitOutcome(host) == host.create(CandidatePath(host.enclaveDir.value))
  {
    assert SearchDirs(host.enclaveDir)[0] == host.enclaveDir.value;
  }

  /** Without the override the current directory is searched first. */
  lemma DefaultDirIsCurrent(host: Host)
    requires host.enclaveDir.None? && host.present("./" + ENCLAVE_FILE)
    ensures EnclaveFilePath(host) == Some("./" + ENCLAVE_FILE)
  {
    assert CandidatePath(".") == "./" + ENCLAVE_FILE;
    assert SearchDirs(host.enclaveDir)[0] == ".";
  }

  /**
   * Search order: when directory `k` holds the image, the search stops at `k`
   * exactly when no earlier directory holds it, and then `k`'s image is used.
   */
  lemma SearchOrder(host: Host, k: nat)
    requires k < 4 && host.present(CandidatePath(SearchDirs(host.enclaveDir)[k]))
    ensures FirstExisting(SearchDirs(host.enclaveDir), host.present) == Some(k) <==>
      forall j :: 0 <= j < k ==> !host.present(CandidatePath(SearchDirs(host.enclaveDir)[j]))
    ensures (forall j :: 0 <= j < k ==> !host.present(CandidatePath(SearchDirs(host.enclaveDir)[j]))) ==>
      EnclaveFilePath(host) == Some(CandidatePath(SearchDirs(host.enclaveDir)[k]))
  {
  }

  /** `EnclaveRuntimeConfig`: the host-side runtime parameters. */
  datatype EnclaveRuntimeConfig = EnclaveRuntimeConfig(moduleCacheSize: u8) {
    /** `to_ffi_type`: the record passed across the boundary carries the same cache size. */
    function ToFfiType(): (r: RuntimeConfiguration)
      ensures r.moduleCacheSize == moduleCacheSize
    {
      RuntimeConfiguration(moduleCacheSize)
    }
  }

  /** `RuntimeConfiguration`: the fixed-width record the configuration enclave call takes. */
  datatype RuntimeConfiguration = RuntimeConfiguration(moduleCacheSize: u8)

  /** One issued `ecall_configure_runtime`: the enclave it went to and the record it carried. */
  datatype ConfigureCall = ConfigureCall(eid: u64, config: RuntimeConfiguration)

  /** What `get_enclave` gives when the memo cell holds `memo`. */
  function Cached(memo: Option<SgxResult<EnclaveHandle>>, host: Host): SgxResult<EnclaveHandle> {
    if memo.Some? then memo.value else InitOutcome(host)
  }

  /**
   * The process-wide state of enclave.rs: the memoised `SGX_ENCLAVE`, the
   * `SGX_ENCLAVE_CONFIGURED` flag and `QUERY_DOORBELL`. Ghost fields count
   * the creation attempts and record the configuration calls issued.
   */
  class Runtime {
    const doorbell: Doorbell
    var enclave: Option<SgxResult<EnclaveHandle>>
    ghost var initAttempts: nat
    var configured: bool
    ghost var configureCalls: seq<ConfigureCall>

    ghost predicate Valid()
      reads this, doorbell
    {
      && doorbell.Valid() && doorbell.capacity == TCS_NUM
      // the image is searched for and created at most once
      && initAttempts == (if enclave.Some? then 1 else 0)
      // the configuration call is made at most once, and only after the flag was set
      && |configureCalls| <= (if configured then 1 else 0)
      // and only to an enclave that was created
      && (configureCalls != [] ==>
            enclave.Some? && enclave.value.Ok? && configureCalls[0].eid == enclave.value.value.eid)
    }

    constructor ()
      ensures Valid() && fresh(doorbell)
      ensures enclave.None? && !configured && configureCalls == []
      ensures doorbell.State() == Bell(TCS_NUM as nat, TCS_NUM as nat, 0)
    {
      doorbell := new Doorbell(TCS_NUM);
      enclave := None;
      initAttempts := 0;
      configured := false;
      configureCalls := [];
    }

    /**
     * `get_enclave`: the first call runs `init_enclave` and stores its
     * outcome; every later call returns that same handle or that same error,
     * whatever the host looks like by then.
     */
    method GetEnclave(host: Host) returns (r: SgxResult<EnclaveHandle>)
      requires Valid()
      modifies this`enclave, this`initAttempts
      ensures Valid()
      ensures enclave == Some(Cached(old(enclave), host)) && r == enclave.value
      ensures old(enclave).Some? ==> r == old(enclave).value && initAttempts == old(initAttempts)
      ensures old(enclave).None? ==> r == InitOutcome(host)
    {
      if enclave.None? {
        var outcome, _ := InitEnclave(host);
        enclave := Some(outcome);
        initAttempts := initAttempts + 1;
      }
      r := enclave.value;
    }

    /**
     * `configure_enclave`: if the flag is set, succeed without any call.
     * Otherwise set the flag first, then get the enclave and make the
     * configuration call, passing on a transport failure before an enclave
     * failure. The flag is never cleared, so a failed attempt is not retried.
     */
    method ConfigureEnclave(config: EnclaveRuntimeConfig, host: Host, call: EcallStatus) returns (r: SgxResult<()>)
      requires Valid()
      modifies this`enclave, this`initAttempts, this`configured, this`configureCalls
      ensures Valid()
      ensures configured
      ensures old(configured) ==>
        r == Ok(()) && enclave == old(enclave) && configureCalls == old(configureCalls)
      ensures !old(configured) ==> enclave == Some(Cached(old(enclave), host))
      ensures !old(configured) && Cached(old(enclave), host).Err? ==>
        r == Err(Cached(old(enclave), host).status) && configureCalls == []
      ensures !old(configured) && Cached(old(enclave), host).Ok? ==>
        configureCalls == [ConfigureCall(Cached(old(enclave), host).value.eid, config.ToFfiType())]
        && r == CheckEcall(call)
    {
      if configured {
        return Ok(());
      }
      configured := true;
      var e := GetEnclave(host);
      if e.Err? {
        return Err(e.status);
      }
      configureCalls := configureCalls + [ConfigureCall(e.value.eid, config.ToFfiType())];
      var status := call.transport;
      if status != SGX_SUCCESS {
        return Err(status);
      }
      var retval := call.retval;
      if retval != SGX_SUCCESS {
        return Err(retval);
      }
      r := Ok(());
    }

    /** `get_query_token`: an acquisition on the process-wide doorbell, waiting at most ENCLAVE_LOCK_TIMEOUT seconds. */
    method GetQueryToken(recursive: bool, wake: Wake) returns (token: Option<QueryToken>)
      requires Valid() && CanAcquire(doorbell.State(), recursive, wake)
      modifies doorbell
      ensures Valid()
      ensures token == Admit(old(doorbell.State()), recursive, wake).token
      ensures doorbell.State() == Admit(old(doorbell.State()), recursive, wake).after
    {
      token := doorbell.WaitFor(recursive, wake);
    }
  }

  /**
   * `configure_enclave` is set-once across calls: of two calls, whatever
   * either is given, at most one configuration call reaches the enclave, and
   * the second call succeeds without doing anything, even when the first one
   * failed.
   */
  method ConfigureIsSetOnce(rt: Runtime, config1: EnclaveRuntimeConfig, config2: EnclaveRuntimeConfig,
                            host1: Host, host2: Host, call1: EcallStatus, call2: EcallStatus)
    returns (r1: SgxResult<()>, r2: SgxResult<()>)
    requires rt.Valid()
    modifies rt`enclave, rt`initAttempts, rt`configured, rt`configureCalls
    ensures rt.Valid() && rt.configured
    ensures r2 == Ok(())
    ensures |rt.configureCalls| <= 1 && rt.initAttempts <= 1
    ensures !old(rt.configured) && old(rt.enclave).None? ==>
      r1 == (match InitOutcome(host1)
             case Err(status) => Err(status)
             case Ok(_) => CheckEcall(call1))
  {
    r1 := rt.ConfigureEnclave(config1, host1, call1);
    r2 := rt.ConfigureEnclave(config2, host2, call2);
  }
}
