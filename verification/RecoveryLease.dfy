/** The lease state machine and the two activation sequences that drive it. */
module RecoveryLease {
  import opened Options
  import opened Bits
  import opened LeaseRecords

  datatype LeasePhase =
    Requested | OwnershipPublishing | Owned | PoolInitializing | PoolVerified | PoolActive | Invalid

  datatype FreeSnapshot = FreeSnapshot(valid: bool, pool0: U64, pool1: U64)

  /** What the native reservation reports; element 0 is the null pointer. */
  datatype Evidence = Evidence(returned: bool, element: nat, pool0Start: U64, pool1Start: U64)

  const NO_SNAPSHOT := FreeSnapshot(false, 0, 0)
  const NO_EVIDENCE := Evidence(false, 0, 0, 0)

  datatype Activation = Activation(
    nativeResult: U32, active: bool, fullAddress: U64, reason: U64,
    before: FreeSnapshot, after: FreeSnapshot, reserve: Evidence)

  /** Only the low byte of the native result is its Boolean. */
  predicate NativeSucceeded(raw: U32) {
    raw % TWO8 == 1
  }

  lemma NativeSucceededIff(low: nat, rest: nat)
    requires low < 256 && low + 256 * rest < TWO32
    ensures NativeSucceeded(low + 256 * rest) <==> low == 1
  {
  }

  /** The address the whole lease must be reserved at, unless it does not fit 64 bits. */
  predicate AddressKnown(before: FreeSnapshot, memoryBase: U64, owned: Ownership) {
    before.valid && CheckedAdd(memoryBase, owned.leaseOffset).Some?
  }

  /** Everything the checks before the first publication demand. */
  predicate Earned(raw: U32, before: FreeSnapshot, memoryBase: U64, owned: Ownership, e: Evidence, after: FreeSnapshot) {
    && NativeSucceeded(raw) && AddressKnown(before, memoryBase, owned)
    && e.returned && e.element != 0
    && e.pool0Start == memoryBase + owned.leaseOffset && e.pool1Start == memoryBase + owned.leaseOffset
    && after.valid && ExactDecrease(before.pool0, after.pool0) && ExactDecrease(before.pool1, after.pool1)
  }

  /** The conditions finishPoolInit checks again. */
  predicate Rechecked(status: PoolStatus, owned: Ownership, element: nat, fullAddress: U64, start0: U64, start1: U64) {
    && element != 0 && start0 == fullAddress && start1 == fullAddress
    && status.state == POOL_ACTIVE && ValidPoolStatus(status, owned)
  }

  /** They hold exactly of a made ACTIVE status with two exact decreases, and of an element whose both
      halves start at the full address. */
  lemma RecheckedIff(status: PoolStatus, owned: Ownership, element: nat, fullAddress: U64, start0: U64, start1: U64)
    ensures Rechecked(status, owned, element, fullAddress, start0, start1) <==>
            && element > 0 && {start0, start1} == {fullAddress}
            && ExactDecrease(status.pool0Before, status.pool0After) && ExactDecrease(status.pool1Before, status.pool1After)
            && status == MakePoolStatus(owned, POOL_ACTIVE, status.pool0Before, status.pool0After,
                                        status.pool1Before, status.pool1After, REASON_NONE)
  {
    assert PoolChecksum(status) == PoolChecksum(status.(checksum := 0));
    MadePoolStatusValidIff(owned, POOL_ACTIVE, status.pool0Before, status.pool0After,
                           status.pool1Before, status.pool1After, REASON_NONE);
    assert start0 in {start0, start1} && start1 in {start0, start1};
  }

  /** What the outer checks accepted, the inner recheck accepts too. */
  lemma EarnedIsRechecked(raw: U32, before: FreeSnapshot, memoryBase: U64, owned: Ownership, e: Evidence, after: FreeSnapshot)
    requires Earned(raw, before, memoryBase, owned, e, after)
    ensures Rechecked(MakePoolStatus(owned, POOL_ACTIVE, before.pool0, after.pool0, before.pool1, after.pool1, REASON_NONE),
                      owned, e.element, memoryBase + owned.leaseOffset, e.pool0Start, e.pool1Start)
  {
    MadePoolStatusValidIff(owned, POOL_ACTIVE, before.pool0, after.pool0, before.pool1, after.pool1, REASON_NONE);
  }

  /** The lease as its owner drives it. `outside` scripts invalidations by other callers: one entry
      is consumed before each access to the phase. */
  class LeaseState {
    var phase: LeasePhase
    var owned: Ownership
    var retainedElement: nat
    var outside: seq<bool>

    constructor (outside: seq<bool>)
      ensures phase == Requested && retainedElement == 0 && this.outside == outside
    {
      phase := Requested;
      owned := Ownership(0, 0, 0, 0, 0, 0, 0, 0, 0, 0, 0);
      retainedElement := 0;
      this.outside := outside;
    }

    /** Nobody else invalidates from here on. */
    predicate Alone()
      reads this
    {
      outside == []
    }

    method Outside()
      modifies this`phase, this`outside
      ensures phase == old(phase) || phase == Invalid
      ensures old(Alone()) ==> phase == old(phase) && Alone()
    {
      if |outside| > 0 {
        if outside[0] {
          phase := Invalid;
        }
        outside := outside[1..];
      }
    }

    /** A compare and exchange of the phase. */
    method Transition(from: LeasePhase, to: LeasePhase) returns (moved: bool)
      requires from != Invalid
      modifies this`phase, this`outside
      ensures moved ==> old(phase) == from && phase == to
      ensures !moved ==> phase == old(phase) || phase == Invalid
      ensures !moved ==> phase != from
      ensures old(phase) == Invalid ==> phase == Invalid && !moved
      ensures old(Alone()) ==> Alone() && moved == (old(phase) == from)
    {
      Outside();
      moved := phase == from;
      if moved {
        phase := to;
      }
    }

    method CurrentPhase() returns (p: LeasePhase)
      modifies this`phase, this`outside
      ensures p == phase && (phase == old(phase) || phase == Invalid)
      ensures old(Alone()) ==> Alone() && p == old(phase)
    {
      Outside();
      p := phase;
    }

    method Invalidate()
      modifies this`phase, this`outside
      ensures phase == Invalid && (old(Alone()) ==> Alone())
    {
      Outside();
      phase := Invalid;
    }

    method FinishOwnershipPublication(value: Ownership) returns (ok: bool)
      modifies this
      ensures ok ==> old(phase) == OwnershipPublishing && phase == Owned && owned == value
      ensures !ok ==> phase == old(phase) || phase == Invalid
      ensures !ok ==> phase != OwnershipPublishing
      ensures old(phase) == Invalid ==> phase == Invalid
      ensures retainedElement == old(retainedElement)
      ensures owned == value || owned == old(owned)
      ensures old(phase) != OwnershipPublishing ==> owned == old(owned)
      ensures old(Alone()) ==> Alone() && ok == (old(phase) == OwnershipPublishing)
    {
      var p := CurrentPhase();
      if p != OwnershipPublishing {
        return false;
      }
      owned := value;
      ok := Transition(OwnershipPublishing, Owned);
    }

    method FinishPoolInit(status: PoolStatus, element: nat, fullAddress: U64, start0: U64, start1: U64) returns (ok: bool)
      modifies this
      ensures owned == old(owned)
      ensures ok ==> old(phase) == PoolInitializing && phase == PoolVerified && retainedElement == element &&
                     Rechecked(status, owned, element, fullAddress, start0, start1)
      ensures !ok ==> phase == Invalid || (phase == old(phase) && old(phase) != PoolInitializing)
      ensures old(phase) == Invalid ==> phase == Invalid
      ensures retainedElement == element || retainedElement == old(retainedElement)
      ensures old(phase) != PoolInitializing ==> retainedElement == old(retainedElement)
      ensures old(Alone()) && old(phase) != PoolInitializing ==> phase == old(phase)
      ensures old(Alone()) ==> Alone() && ok == (old(phase) == PoolInitializing &&
                                                 Rechecked(status, owned, element, fullAddress, start0, start1))
    {
      var p := CurrentPhase();
      if p != PoolInitializing {
        return false;
      }
      if !Rechecked(status, owned, element, fullAddress, start0, start1) {
        Invalidate();
        return false;
      }
      retainedElement := element;
      ok := Transition(PoolInitializing, PoolVerified);
    }
  }

  /** The native driver and the publication channel. Every answer is scripted and every published
      status is logged, with the phase it was published in; `admitted` holds the statuses clients were authorized under. */
  class PoolHost {
    const native: U32
    const before: FreeSnapshot
    const evidence: Evidence
    const after: FreeSnapshot
    const publishes: bool
    const authorizes: bool
    var published: seq<PoolStatus>
    ghost var during: seq<LeasePhase>
    var admitted: seq<PoolStatus>
    var reservedAt: Option<U64>

    constructor (native: U32, before: FreeSnapshot, evidence: Evidence, after: FreeSnapshot, publishes: bool, authorizes: bool)
      ensures published == [] && during == [] && admitted == [] && reservedAt == None
      ensures this.native == native && this.before == before && this.evidence == evidence && this.after == after
      ensures this.publishes == publishes && this.authorizes == authorizes
    {
      this.native := native;
      this.before := before;
      this.evidence := evidence;
      this.after := after;
      this.publishes := publishes;
      this.authorizes := authorizes;
      published := [];
      during := [];
      admitted := [];
      reservedAt := None;
    }

    method Reserve(address: U64, size: U64) returns (e: Evidence)
      requires size == LEASE_SIZE
      modifies this`reservedAt
      ensures e == evidence && reservedAt == Some(address)
    {
      reservedAt := Some(address);
      e := evidence;
    }

    method Publish(status: PoolStatus, ghost phase: LeasePhase) returns (ok: bool)
      modifies this`published, this`during
      ensures published == old(published) + [status] && during == old(during) + [phase] && ok == publishes
    {
      published := published + [status];
      during := during + [phase];
      ok := publishes;
    }

    method AuthorizeClients(status: PoolStatus) returns (ok: bool)
      modifies this`admitted
      ensures admitted == old(admitted) + [status] && ok == authorizes
    {
      admitted := admitted + [status];
      ok := authorizes;
    }
  }

  /** The reason the checks before the first publication give. */
  function OuterReason(raw: U32, before: FreeSnapshot, memoryBase: U64, owned: Ownership, e: Evidence, after: FreeSnapshot): U64 {
    if !NativeSucceeded(raw) then REASON_NATIVE_ENABLE
    else if !AddressKnown(before, memoryBase, owned) then REASON_POOL_ADDRESS
    else if !e.returned then REASON_NATIVE_RESERVE
    else if e.element == 0 || e.pool0Start != memoryBase + owned.leaseOffset ||
            e.pool1Start != memoryBase + owned.leaseOffset then REASON_ELEMENT
    else if !after.valid || !ExactDecrease(before.pool0, after.pool0) ||
            !ExactDecrease(before.pool1, after.pool1) then REASON_POOL_DELTA
    else REASON_NONE
  }

  /** No reason is given exactly when everything was earned; otherwise it is a reason INVALID may carry. */
  lemma OuterReasonExact(raw: U32, before: FreeSnapshot, memoryBase: U64, owned: Ownership, e: Evidence, after: FreeSnapshot)
    ensures OuterReason(raw, before, memoryBase, owned, e, after) == REASON_NONE <==>
            Earned(raw, before, memoryBase, owned, e, after)
    ensures forall after0, after1 ::
              var r := OuterReason(raw, before, memoryBase, owned, e, after);
              r != REASON_NONE ==>
              ValidPoolStatus(MakePoolStatus(owned, POOL_INVALID, before.pool0, after0, before.pool1, after1, r), owned)
  {
    var r := OuterReason(raw, before, memoryBase, owned, e, after);
    forall after0, after1 | r != REASON_NONE
      ensures ValidPoolStatus(MakePoolStatus(owned, POOL_INVALID, before.pool0, after0, before.pool1, after1, r), owned)
    {
      MadePoolStatusValidIff(owned, POOL_INVALID, before.pool0, after0, before.pool1, after1, r);
    }
  }

  /** Each reason stands for the first of five demands that is not met. */
  lemma OuterReasonMeans(raw: U32, before: FreeSnapshot, memoryBase: U64, owned: Ownership, e: Evidence, after: FreeSnapshot)
    ensures var reason := OuterReason(raw, before, memoryBase, owned, e, after);
            var enabled := NativeSucceeded(raw);
            var known := enabled && before.valid && memoryBase + owned.leaseOffset < TWO64;
            var reserved := known && e.returned;
            var placed := reserved && e.element > 0 && {e.pool0Start, e.pool1Start} == {memoryBase + owned.leaseOffset};
            && (reason == 1 <==> !enabled) && (reason == 2 <==> enabled && !known) && (reason == 3 <==> known && !reserved)
            && (reason == 5 <==> reserved && !placed)
            && (reason == 4 <==> placed && !(after.valid && after.pool0 + LEASE_SIZE == before.pool0 && after.pool1 + LEASE_SIZE == before.pool1))
  {
    assert e.pool0Start in {e.pool0Start, e.pool1Start} && e.pool1Start in {e.pool0Start, e.pool1Start};
  }

  /** The result carries what was measured, and the lease was reserved at its full address, exactly when the
      native manager was enabled and the address is known; the record is otherwise left blank. */
  ghost predicate Measured(result: Activation, host: PoolHost, memoryBase: U64, owned: Ownership, reservedBefore: Option<U64>)
    reads host
  {
    && result.before == host.before && result.nativeResult == (if NativeSucceeded(host.native) then 1 else 0)
    && if NativeSucceeded(host.native) && AddressKnown(host.before, memoryBase, owned) then
         result.fullAddress == memoryBase + owned.leaseOffset && host.reservedAt == Some(result.fullAddress) &&
         result.reserve == host.evidence && result.after == host.after
       else
         result.fullAddress == 0 && host.reservedAt == reservedBefore &&
         result.reserve == NO_EVIDENCE && result.after == NO_SNAPSHOT
  }

  /** A status carries both snapshots. */
  predicate Reports(s: PoolStatus, before: FreeSnapshot, after: FreeSnapshot) {
    && s.pool0Before == before.pool0 && s.pool0After == after.pool0
    && s.pool1Before == before.pool1 && s.pool1After == after.pool1
  }

  /** ACTIVE is published only while the phase is verified, clients are authorised only after it was, and
      every status carries what was measured. */
  ghost predicate InOrder(host: PoolHost, after: FreeSnapshot)
    reads host
  {
    && |host.during| == |host.published|
    && (forall i :: 0 <= i < |host.published| ==>
          Reports(host.published[i], host.before, after) &&
          (host.published[i].state == POOL_ACTIVE ==> i == 0 && host.during[i] == PoolVerified))
    && (host.admitted != [] ==> |host.published| > 0 && host.publishes &&
                                host.admitted == [host.published[0]] && host.published[0].state == POOL_ACTIVE)
  }

  /** The checks up to the first publication; reserves only once the address is known. */
  method CheckPools(state: LeaseState, host: PoolHost, memoryBase: U64) returns (result: Activation)
    modifies host`reservedAt
    ensures result.reason == OuterReason(host.native, host.before, memoryBase, state.owned, host.evidence, host.after)
    ensures !result.active && result.before == host.before
    ensures result.reason == REASON_NONE ==>
              result.after == host.after && result.reserve == host.evidence &&
              result.fullAddress == memoryBase + state.owned.leaseOffset
    ensures Measured(result, host, memoryBase, state.owned, old(host.reservedAt))
  {
    result := Activation(if NativeSucceeded(host.native) then 1 else 0, false, 0, REASON_NONE, host.before, NO_SNAPSHOT, NO_EVIDENCE);
    if result.nativeResult == 0 {
      result := result.(reason := REASON_NATIVE_ENABLE);
    } else if !AddressKnown(host.before, memoryBase, state.owned) {
      result := result.(reason := REASON_POOL_ADDRESS);
    } else {
      var address := memoryBase + state.owned.leaseOffset;
      var e := host.Reserve(address, LEASE_SIZE);
      result := result.(fullAddress := address, reserve := e, after := host.after);
      if !e.returned {
        result := result.(reason := REASON_NATIVE_RESERVE);
      } else if e.element == 0 || e.pool0Start != address || e.pool1Start != address {
        result := result.(reason := REASON_ELEMENT);
      } else if !host.after.valid || !ExactDecrease(host.before.pool0, host.after.pool0) ||
                !ExactDecrease(host.before.pool1, host.after.pool1) {
        result := result.(reason := REASON_POOL_DELTA);
      }
    }
  }

  /** The last published status is a valid INVALID record of this lease with that reason. */
  ghost predicate RefusalPublished(host: PoolHost, owned: Ownership, reason: U64)
    reads host
  {
    && |host.published| > 0
    && var last := host.published[|host.published| - 1];
       last.state == POOL_INVALID && last.reason == reason && ValidPoolStatus(last, owned)
  }

  /** establishPools, for every behaviour of the callbacks and any outside invalidation. */
  method EstablishPools(state: LeaseState, host: PoolHost, memoryBase: U64) returns (result: Activation)
    requires host.published == [] && host.during == [] && host.admitted == []
    modifies state, host
    ensures state.owned == old(state.owned)
    ensures InOrder(host, result.after)
    ensures result.reason != REASON_DUPLICATE_EPOCH ==> Measured(result, host, memoryBase, state.owned, old(host.reservedAt))
    ensures result.active <==> result.reason == REASON_NONE
    ensures result.active ==>
              old(state.phase) == Owned && state.phase == PoolActive && state.retainedElement == host.evidence.element &&
              Earned(host.native, host.before, memoryBase, state.owned, host.evidence, host.after) &&
              |host.published| == 1 && host.published[0].state == POOL_ACTIVE &&
              ValidPoolStatus(host.published[0], state.owned) && host.admitted == host.published
    ensures !result.active ==> state.phase == Invalid
    ensures !result.active && result.reason == REASON_DUPLICATE_EPOCH ==>
              host.published == [] && host.admitted == [] && host.reservedAt == old(host.reservedAt)
    ensures !result.active && result.reason != REASON_DUPLICATE_EPOCH ==>
              RefusalPublished(host, state.owned, result.reason)
    ensures old(state.Alone()) ==>
              (result.reason == REASON_DUPLICATE_EPOCH <==> old(state.phase) != Owned) &&
              (result.active <==>
                 old(state.phase) == Owned && host.publishes && host.authorizes &&
                 Earned(host.native, host.before, memoryBase, state.owned, host.evidence, host.after)) &&
              (result.reason == REASON_WRITEBACK <==>
                 old(state.phase) == Owned && !(host.publishes && host.authorizes) &&
                 Earned(host.native, host.before, memoryBase, state.owned, host.evidence, host.after))
  {
    var began := state.Transition(Owned, PoolInitializing);
    if !began {
      result := Activation(0, false, 0, REASON_DUPLICATE_EPOCH, NO_SNAPSHOT, NO_SNAPSHOT, NO_EVIDENCE);
      state.Invalidate();
      return;
    }
    OuterReasonExact(host.native, host.before, memoryBase, state.owned, host.evidence, host.after);
    result := CheckPools(state, host, memoryBase);
    if result.reason == REASON_NONE {
      var committed := Admit(state, host, memoryBase, result);
      if committed {
        result := result.(active := true);
        return;
      }
      result := result.(reason := REASON_WRITEBACK);
    }
    var invalid := MakePoolStatus(state.owned, POOL_INVALID, result.before.pool0, result.after.pool0,
                                  result.before.pool1, result.after.pool1, result.reason);
    MadePoolStatusValidIff(state.owned, POOL_INVALID, result.before.pool0, result.after.pool0,
                           result.before.pool1, result.after.pool1, result.reason);
    var _ := host.Publish(invalid, state.phase);
    state.Invalidate();
  }

  /** The success path: verify, publish ACTIVE, authorize, then open the phase to clients. */
  method Admit(state: LeaseState, host: PoolHost, memoryBase: U64, result: Activation) returns (committed: bool)
    requires host.published == [] && host.during == [] && host.admitted == []
    requires Earned(host.native, host.before, memoryBase, state.owned, host.evidence, host.after)
    requires result.before == host.before && result.after == host.after && result.reserve == host.evidence
    requires result.fullAddress == memoryBase + state.owned.leaseOffset
    requires state.phase == PoolInitializing
    modifies state, host`published, host`during, host`admitted
    ensures state.owned == old(state.owned) && InOrder(host, result.after)
    ensures |host.published| <= 1
    ensures committed ==>
              state.phase == PoolActive && state.retainedElement == host.evidence.element &&
              |host.published| == 1 && host.published[0].state == POOL_ACTIVE &&
              ValidPoolStatus(host.published[0], state.owned) && host.admitted == host.published
    ensures old(state.Alone()) ==> state.Alone() && committed == (host.publishes && host.authorizes)
  {
    var status := MakePoolStatus(state.owned, POOL_ACTIVE, result.before.pool0, result.after.pool0,
                                 result.before.pool1, result.after.pool1, REASON_NONE);
    EarnedIsRechecked(host.native, host.before, memoryBase, state.owned, host.evidence, host.after);
    committed := state.FinishPoolInit(status, result.reserve.element, result.fullAddress,
                                      result.reserve.pool0Start, result.reserve.pool1Start);
    if committed {
      committed := host.Publish(status, state.phase);
    }
    if committed {
      committed := host.AuthorizeClients(status);
    }
    if committed {
      committed := state.Transition(PoolVerified, PoolActive);
    }
  }

  /** The answers of the callbacks around the native memory manager, and what they saw. */
  class VmmHost {
    const preflight: bool
    const appended: U64
    const validates: bool
    const publishes: bool
    var published: seq<Ownership>
    var vmmStarted: nat

    constructor (preflight: bool, appended: U64, validates: bool, publishes: bool)
      ensures this.preflight == preflight && this.appended == appended
      ensures this.validates == validates && this.publishes == publishes && published == [] && vmmStarted == 0
    {
      this.preflight := preflight;
      this.appended := appended;
      this.validates := validates;
      this.publishes := publishes;
      published := [];
      vmmStarted := 0;
    }

    method Publish(owned: Ownership) returns (ok: bool)
      modifies this`published
      ensures published == old(published) + [owned] && ok == publishes
    {
      published := published + [owned];
      ok := publishes;
    }

    method NativeVmm()
      modifies this`vmmStarted
      ensures vmmStarted == old(vmmStarted) + 1
    {
      vmmStarted := vmmStarted + 1;
    }
  }

  /** establishBeforeVmm: the native manager starts at most once, and only under a published, valid
      OWNED descriptor of a page-aligned lease inside the visible bytes; otherwise the lease is Invalid. */
  method EstablishBeforeVmm(state: LeaseState, host: VmmHost, nonceLo: U64, nonceHi: U64, visibleBytes: U64) returns (ok: bool)
    modifies state, host
    ensures ok ==>
              old(state.phase) == Requested && state.phase == Owned &&
              ValidOwnership(state.owned, nonceLo, nonceHi, visibleBytes) &&
              host.published == old(host.published) + [state.owned] && host.vmmStarted == old(host.vmmStarted) + 1
    ensures !ok ==> state.phase == Invalid && host.vmmStarted == old(host.vmmStarted)
    ensures old(state.Alone()) ==>
              (ok <==> old(state.phase) == Requested && host.preflight && host.validates && host.publishes &&
                       host.appended != 0 && host.appended % PAGE == 0 && host.appended + LEASE_SIZE <= visibleBytes)
  {
    var began := state.Transition(Requested, OwnershipPublishing);
    if !began || !host.preflight {
      state.Invalidate();
      return false;
    }
    var owned := MakeOwnership(host.appended, nonceLo, nonceHi);
    MadeOwnershipValidIff(host.appended, nonceLo, nonceHi, visibleBytes);
    ok := ValidOwnership(owned, nonceLo, nonceHi, visibleBytes) && host.validates;
    if ok {
      ok := host.Publish(owned);
    }
    if ok {
      ok := state.FinishOwnershipPublication(owned);
    }
    if !ok {
      state.Invalidate();
    } else {
      host.NativeVmm();
    }
  }
}
