/** The schema-2 OWNED and POOL records: their field rules and their XOR checksums. */
module LeaseRecords {
  import opened Options
  import opened Bits

  const CHECKSUM_DOMAIN: U64 := 0x9e37_79b9_7f4a_7c15
  const OWNERSHIP_MAGIC: U64 := 0x3252_494b_5550_4752
  const POOL_MAGIC: U64 := 0x3253_504b_5550_4752
  const VERSION: U32 := 2
  const OWNED: U32 := 0x444e_574f
  const POOL_ACTIVE: U32 := 0x5654_4341
  const POOL_INVALID: U32 := 0x4c56_4e49
  const GENERATION: U64 := 1
  const LEASE_SIZE: U64 := 0x15000
  const SCRATCH_RELATIVE: U64 := 0x1000
  const SCRATCH_END_RELATIVE: U64 := 0x14004
  const PAGE: nat := 0x1000

  const REASON_NONE: U64 := 0
  const REASON_NATIVE_ENABLE: U64 := 1
  const REASON_POOL_ADDRESS: U64 := 2
  const REASON_NATIVE_RESERVE: U64 := 3
  const REASON_POOL_DELTA: U64 := 4
  const REASON_ELEMENT: U64 := 5
  const REASON_DUPLICATE_EPOCH: U64 := 6
  const REASON_WRITEBACK: U64 := 7

  datatype Ownership = Ownership(
    magic: U64, version: U32, state: U32, leaseOffset: U64, leaseEnd: U64,
    scratchOffset: U64, scratchEnd: U64, nonceLo: U64, nonceHi: U64, generation: U64, checksum: U64)

  datatype PoolStatus = PoolStatus(
    magic: U64, version: U32, state: U32, leaseOffset: U64, leaseEnd: U64,
    nonceLo: U64, nonceHi: U64, generation: U64,
    pool0Before: U64, pool0After: U64, pool1Before: U64, pool1After: U64, reason: U64, checksum: U64)

  function CheckedAdd(a: U64, b: U64): Option<U64> {
    if a > MAX_U64 - b then None else Some(a + b)
  }

  /** The checked sum is the sum when it fits 64 bits, and nothing otherwise. */
  lemma CheckedAddIff(a: U64, b: U64, sum: U64)
    ensures CheckedAdd(a, b) == Some(sum) <==> a + b == sum
    ensures CheckedAdd(a, b).None? <==> a + b >= TWO64
  {
  }

  function OwnershipChecksum(v: Ownership): U64 {
    XorAll(CHECKSUM_DOMAIN, [v.magic, v.version, v.state, v.leaseOffset, v.leaseEnd,
                             v.scratchOffset, v.scratchEnd, v.nonceLo, v.nonceHi, v.generation])
  }

  function PoolChecksum(v: PoolStatus): U64 {
    XorAll(CHECKSUM_DOMAIN, [v.magic, v.version, v.state, v.leaseOffset, v.leaseEnd,
                             v.nonceLo, v.nonceHi, v.generation, v.pool0Before, v.pool0After,
                             v.pool1Before, v.pool1After, v.reason])
  }

  /** A sum that overflows leaves the field zero, as the out-parameter of the failed addition does. */
  function AddOrZero(a: U64, b: U64): U64 {
    match CheckedAdd(a, b)
    case Some(sum) => sum
    case None => 0
  }

  function MakeOwnership(leaseOffset: U64, nonceLo: U64, nonceHi: U64): Ownership {
    var v := Ownership(OWNERSHIP_MAGIC, VERSION, OWNED, leaseOffset, AddOrZero(leaseOffset, LEASE_SIZE),
                       AddOrZero(leaseOffset, SCRATCH_RELATIVE), AddOrZero(leaseOffset, SCRATCH_END_RELATIVE),
                       nonceLo, nonceHi, GENERATION, 0);
    v.(checksum := OwnershipChecksum(v))
  }

  predicate ValidOwnership(v: Ownership, nonceLo: U64, nonceHi: U64, visibleBytes: U64) {
    && v.magic == OWNERSHIP_MAGIC && v.version == VERSION && v.state == OWNED
    && v.generation == GENERATION && v.nonceLo == nonceLo && v.nonceHi == nonceHi
    && v.leaseOffset != 0 && v.leaseOffset != MAX_U64 && v.leaseOffset % PAGE == 0
    && CheckedAdd(v.leaseOffset, LEASE_SIZE) == Some(v.leaseEnd)
    && CheckedAdd(v.leaseOffset, SCRATCH_RELATIVE) == Some(v.scratchOffset)
    && CheckedAdd(v.leaseOffset, SCRATCH_END_RELATIVE) == Some(v.scratchEnd)
    && v.scratchEnd <= v.leaseEnd && v.leaseEnd <= visibleBytes
    && v.checksum == OwnershipChecksum(v)
  }

  function MakePoolStatus(owned: Ownership, state: U32, pool0Before: U64, pool0After: U64,
                          pool1Before: U64, pool1After: U64, reason: U64): PoolStatus {
    var v := PoolStatus(POOL_MAGIC, VERSION, state, owned.leaseOffset, owned.leaseEnd,
                        owned.nonceLo, owned.nonceHi, owned.generation,
                        pool0Before, pool0After, pool1Before, pool1After, reason, 0);
    v.(checksum := PoolChecksum(v))
  }

  predicate ExactDecrease(before: U64, after: U64) {
    before >= after && before - after == LEASE_SIZE
  }

  predicate ValidPoolStatus(v: PoolStatus, owned: Ownership) {
    && v.magic == POOL_MAGIC && v.version == VERSION
    && v.leaseOffset == owned.leaseOffset && v.leaseEnd == owned.leaseEnd
    && v.nonceLo == owned.nonceLo && v.nonceHi == owned.nonceHi
    && v.generation == owned.generation && v.checksum == PoolChecksum(v)
    && if v.state == POOL_ACTIVE then
         v.reason == REASON_NONE && ExactDecrease(v.pool0Before, v.pool0After) &&
         ExactDecrease(v.pool1Before, v.pool1After)
       else
         v.state == POOL_INVALID && REASON_NATIVE_ENABLE <= v.reason <= REASON_WRITEBACK
  }

  /** The maker and the checker agree exactly: a made descriptor is accepted iff the offset is a
      nonzero page boundary whose whole lease fits the visible bytes. */
  lemma MadeOwnershipValidIff(leaseOffset: U64, nonceLo: U64, nonceHi: U64, visibleBytes: U64)
    ensures ValidOwnership(MakeOwnership(leaseOffset, nonceLo, nonceHi), nonceLo, nonceHi, visibleBytes) <==>
            leaseOffset != 0 && leaseOffset % PAGE == 0 && leaseOffset + LEASE_SIZE <= visibleBytes
  {
    var v := MakeOwnership(leaseOffset, nonceLo, nonceHi);
    assert OwnershipChecksum(v) == OwnershipChecksum(v.(checksum := 0));
  }

  /** A made pool status is accepted iff it is ACTIVE with no reason and two exact decreases, or
      INVALID with a listed reason. */
  lemma MadePoolStatusValidIff(owned: Ownership, state: U32, pool0Before: U64, pool0After: U64,
                               pool1Before: U64, pool1After: U64, reason: U64)
    ensures ValidPoolStatus(MakePoolStatus(owned, state, pool0Before, pool0After,
                                           pool1Before, pool1After, reason), owned) <==>
            (state == POOL_ACTIVE && reason == REASON_NONE &&
             ExactDecrease(pool0Before, pool0After) && ExactDecrease(pool1Before, pool1After)) ||
            (state == POOL_INVALID && REASON_NATIVE_ENABLE <= reason <= REASON_WRITEBACK)
  {
    var v := MakePoolStatus(owned, state, pool0Before, pool0After, pool1Before, pool1After, reason);
    assert PoolChecksum(v) == PoolChecksum(v.(checksum := 0));
  }

  /** Every accepted descriptor is the made one for its offset: the wire form has no other freedom. */
  lemma ValidOwnershipIsMade(v: Ownership, nonceLo: U64, nonceHi: U64, visibleBytes: U64)
    requires ValidOwnership(v, nonceLo, nonceHi, visibleBytes)
    ensures v == MakeOwnership(v.leaseOffset, nonceLo, nonceHi)
  {
    assert OwnershipChecksum(v) == OwnershipChecksum(v.(checksum := 0));
  }
}
