/**
 * The query doorbell of enclave.rs: a counter of free thread-control-structure
 * (TCS) slots guarding entry into the enclave. A non-recursive caller takes a
 * slot, waiting once on a condition variable when none is free; a recursive
 * caller bypasses the counter; dropping a non-recursive token gives its slot
 * back and wakes one waiter.
 *
 * `Bell` is the abstract state and `Admit`/`Release` its transitions; class
 * `Doorbell` is the object with its `count` field updated in place, specified
 * against those transitions.
 */
module EnclaveDoorbell {
  import opened SgxTypes

  /** Number of TCS slots compiled into the enclave. */
  const TCS_NUM: u8 := 16
  /** Seconds `get_query_token` lets a caller wait; the outcome of the wait is given by a `Wake`. */
  const ENCLAVE_LOCK_TIMEOUT: nat := 6 * 5

  /** The capability handed to an admitted caller. */
  datatype QueryToken = QueryToken(recursive: bool)

  /**
   * How one wait on the condition variable ended: whether it timed out, and
   * the slot count found once the lock was taken again (other threads may have
   * released slots meanwhile).
   */
  datatype Wake = Wake(timedOut: bool, countAfter: u8)

  /**
   * Doorbell state: its capacity, the free-slot counter, and the number of
   * live non-recursive tokens (which the running system does not store).
   */
  datatype Bell = Bell(capacity: nat, count: nat, outstanding: nat)

  /** Every slot is either free or held by exactly one live non-recursive token. */
  predicate Inv(b: Bell) {
    b.count + b.outstanding == b.capacity
  }

  /**
   * While a caller waits, the only thing other threads can do to a saturated
   * doorbell is drop some of the outstanding tokens; `countAfter` counts them.
   */
  predicate WakeFits(b: Bell, wake: Wake) {
    wake.countAfter as nat <= b.outstanding
  }

  /** The result of one acquisition: the token, if any, and the state after. */
  datatype Admission = Admission(token: Option<QueryToken>, after: Bell)

  /** Adds one to an 8-bit counter the way an unchecked `+= 1` on a `u8` does. */
  function WrappingInc(c: nat): (r: nat)
    ensures r < 0x100
    ensures c < 0xFF ==> r == c + 1
    ensures c == 0xFF ==> r == 0
  {
    (c + 1) % 0x100
  }

  /** `Doorbell::wait_for`: one acquisition attempt. */
  function Admit(b: Bell, recursive: bool, wake: Wake): (r: Admission)
    requires CanAcquire(b, recursive, wake)
    ensures r.after.capacity == b.capacity
    ensures r.token.Some? ==> r.token.value.recursive == recursive
    // a recursive caller always gets a token and never touches the counter
    ensures recursive ==> r.token.Some? && r.after == b
    // a free slot is taken at once, by exactly one
    ensures !recursive && b.count > 0 ==>
      r.token.Some? && r.after.count == b.count - 1 && r.after.outstanding == b.outstanding + 1
    // no free slot: denied, without consuming anything, if the wait timed out or still found none
    ensures !recursive && b.count == 0 && (wake.timedOut || wake.countAfter == 0) ==>
      r.token.None? && r.after.count == wake.countAfter as nat
    // no free slot: admitted, taking one of the released slots, if the wake found one
    ensures !recursive && b.count == 0 && !wake.timedOut && wake.countAfter > 0 ==>
      r.token.Some? && r.after.count == wake.countAfter as nat - 1
    ensures Inv(b) ==> Inv(r.after)
  {
    if recursive then
      Admission(Some(QueryToken(true)), b)
    else if b.count > 0 then
      Admission(Some(QueryToken(false)), b.(count := b.count - 1, outstanding := b.outstanding + 1))
    else
      var woke := b.(count := wake.countAfter as nat, outstanding := b.outstanding - wake.countAfter as nat);
      if wake.timedOut || woke.count == 0 then
        Admission(None, woke)
      else
        Admission(Some(QueryToken(false)), woke.(count := woke.count - 1, outstanding := woke.outstanding + 1))
  }

  /**
   * `EnclaveQueryToken::drop`. There is no upper-bound check on the counter:
   * it stays within the capacity only because every non-recursive drop is
   * paired with an earlier admission.
   */
  function Release(b: Bell, token: QueryToken): (r: Bell)
    ensures r.capacity == b.capacity
    ensures token.recursive ==> r == b
    ensures !token.recursive && b.count < 0xFF ==> r.count == b.count + 1
    ensures !token.recursive && Inv(b) && b.outstanding > 0 && b.capacity <= 0xFF ==>
      Inv(r) && r.count == b.count + 1 && r.outstanding == b.outstanding - 1
  {
    if token.recursive then b
    else b.(count := WrappingInc(b.count), outstanding := if b.outstanding > 0 then b.outstanding - 1 else 0)
  }

  /** A request made to the doorbell by some thread. */
  datatype Op = Acquire(recursive: bool, wake: Wake) | Drop(token: QueryToken)

  /** An acquisition can happen in this state: a wait it makes fits. */
  predicate CanAcquire(b: Bell, recursive: bool, wake: Wake) {
    !recursive && b.count == 0 ==> WakeFits(b, wake)
  }

  /** A drop can happen in this state: a non-recursive token dropped is a live one. */
  predicate CanDrop(b: Bell, token: QueryToken) {
    !token.recursive ==> b.outstanding > 0
  }

  /** The request can happen in this state. */
  predicate Enabled(b: Bell, op: Op) {
    if op.Acquire? then CanAcquire(b, op.recursive, op.wake) else CanDrop(b, op.token)
  }

  function Step(b: Bell, op: Op): (r: Bell)
    requires Enabled(b, op)
  {
    match op
    case Acquire(recursive, wake) => Admit(b, recursive, wake).after
    case Drop(token) => Release(b, token)
  }

  /** Every request in `ops`, issued in order from `b`, is enabled when it is made. */
  predicate Paired(b: Bell, ops: seq<Op>)
    decreases |ops|
  {
    ops == [] || (Enabled(b, ops[0]) && Paired(Step(b, ops[0]), ops[1..]))
  }

  function Run(b: Bell, ops: seq<Op>): (r: Bell)
    requires Paired(b, ops)
    decreases |ops|
  {
    if ops == [] then b else Run(Step(b, ops[0]), ops[1..])
  }

  predicate IsRecursive(op: Op) {
    match op
    case Acquire(recursive, _) => recursive
    case Drop(token) => token.recursive
  }

  /**
   * Capacity invariant: over any paired sequence of acquisitions and drops the
   * free count stays within [0, capacity] and so does the number of live
   * non-recursive tokens.
   */
  lemma {:induction false} RunKeepsInv(b: Bell, ops: seq<Op>)
    requires Inv(b) && b.capacity <= 0xFF && Paired(b, ops)
    ensures Inv(Run(b, ops)) && Run(b, ops).capacity == b.capacity
    ensures Run(b, ops).count <= b.capacity && Run(b, ops).outstanding <= b.capacity
    decreases |ops|
  {
    if ops != [] {
      RunKeepsInv(Step(b, ops[0]), ops[1..]);
    }
  }

  /** Recursive acquisitions and their drops are always possible and never move the counter. */
  lemma {:induction false} RecursiveOpsLeaveBell(b: Bell, ops: seq<Op>)
    requires forall i :: 0 <= i < |ops| ==> IsRecursive(ops[i])
    ensures Paired(b, ops) && Run(b, ops) == b
    decreases |ops|
  {
    if ops != [] {
      assert IsRecursive(ops[0]);
      RecursiveOpsLeaveBell(b, ops[1..]);
    }
  }

  /** `k` non-recursive acquisitions. */
  function Acquisitions(k: nat, wake: Wake): (ops: seq<Op>)
    ensures |ops| == k
    ensures forall i :: 0 <= i < k ==> ops[i] == Acquire(false, wake)
  {
    if k == 0 then [] else [Acquire(false, wake)] + Acquisitions(k - 1, wake)
  }

  /** While slots are free, each non-recursive acquisition takes exactly one of them. */
  lemma {:induction false} FreeSlotsAdmit(b: Bell, k: nat, wake: Wake)
    requires k <= b.count
    ensures Paired(b, Acquisitions(k, wake))
    ensures Run(b, Acquisitions(k, wake)) == b.(count := b.count - k, outstanding := b.outstanding + k)
    decreases k
  {
    if k > 0 {
      var ops := Acquisitions(k, wake);
      assert ops[0] == Acquire(false, wake);
      assert ops[1..] == Acquisitions(k - 1, wake);
      FreeSlotsAdmit(Step(b, ops[0]), k - 1, wake);
    }
  }

  /**
   * Saturation: after `n` acquisitions on a fresh doorbell of capacity `n`,
   * one more is denied, consuming nothing, whenever its wait sees no release,
   * and admitted whenever the wait ends before the timeout having seen some
   * of the `n` slots come back.
   */
  lemma Saturation(n: nat, wake: Wake)
    requires 0 < n <= 0xFF
    ensures Paired(Bell(n, n, 0), Acquisitions(n, wake))
    ensures Run(Bell(n, n, 0), Acquisitions(n, wake)) == Bell(n, 0, n)
    ensures forall w: Wake :: w.countAfter == 0 ==>
      Admit(Bell(n, 0, n), false, w) == Admission(None, Bell(n, 0, n))
    ensures forall w: Wake :: !w.timedOut && 0 < w.countAfter as nat <= n ==>
      Admit(Bell(n, 0, n), false, w).token == Some(QueryToken(false))
      && Inv(Admit(Bell(n, 0, n), false, w).after)
  {
    FreeSlotsAdmit(Bell(n, n, 0), n, wake);
  }

  /** The doorbell object: `count` under its lock, plus the ghost bookkeeping `Bell` describes. */
  class Doorbell {
    const capacity: u8
    var count: u8
    ghost var outstanding: nat
    /** How many times `notify_one` was called. */
    ghost var notifications: nat

    ghost function State(): Bell
      reads this
    {
      Bell(capacity as nat, count as nat, outstanding)
    }

    /** `Inv` of `State()`, stated on the fields themselves. */
    ghost predicate Valid()
      reads this
    {
      count as nat + outstanding == capacity as nat
    }

    /** `Doorbell::new`: every slot free. */
    constructor (n: u8)
      ensures Valid()
      ensures State() == Bell(n as nat, n as nat, 0) && notifications == 0
    {
      capacity := n;
      count := n;
      outstanding := 0;
      notifications := 0;
    }

    /** `Doorbell::wait_for`; the wait on the condition variable ends as `wake` says. */
    method WaitFor(recursive: bool, wake: Wake) returns (token: Option<QueryToken>)
      requires Valid() && CanAcquire(State(), recursive, wake)
      modifies this
      ensures Valid()
      ensures token == Admit(old(State()), recursive, wake).token
      ensures State() == Admit(old(State()), recursive, wake).after
      ensures notifications == old(notifications)
    {
      if !recursive {
        if count == 0 {
          // the lock is released for the wait; on waking, the slots other threads released are free
          outstanding := outstanding - wake.countAfter as nat;
          count := wake.countAfter;
          if wake.timedOut || count == 0 {
            return None;
          }
        }
        count := count - 1;
        outstanding := outstanding + 1;
      }
      token := Some(QueryToken(recursive));
    }

    /** `EnclaveQueryToken::drop`: give the slot back, then wake one waiter. */
    method DropToken(token: QueryToken)
      requires Valid() && CanDrop(State(), token)
      modifies this
      ensures Valid()
      ensures State() == Release(old(State()), token)
      ensures notifications == old(notifications) + (if token.recursive then 0 else 1)
    {
      if !token.recursive {
        count := WrappingInc(count as nat) as u8;
        outstanding := outstanding - 1;
        notifications := notifications + 1;
      }
    }
  }
}
