/** Where the native memory manager will put its arena: a top-down reservation, predicted before the manager
    runs, that must stay clear of the lease. */
module VmmRange {
  import opened Bits
  import opened LeaseRecords
  import opened Options

  /** One bit set. */
  predicate PowerOfTwo(n: nat) {
    n == 1 || (n > 1 && n % 2 == 0 && PowerOfTwo(n / 2))
  }

  lemma {:induction false} PowerOfTwoIff(n: nat)
    ensures PowerOfTwo(n) <==> exists k: nat :: Pow2(k) == n
  {
    if n == 1 {
      assert Pow2(0) == n;
    } else if n > 1 && n % 2 == 0 {
      PowerOfTwoIff(n / 2);
      if k: nat :| Pow2(k) == n / 2 {
        assert Pow2(k + 1) == n;
      }
      if k: nat :| Pow2(k) == n {
        assert Pow2(k - 1) == n / 2;
      }
    }
  }

  /** Reserves at the top, rounding the start down to the alignment, which must be a power of two;
      address zero is never handed out. */
  function TopDownReserve(cursor: U64, size: U64, alignment: U32): (r: Option<U64>) {
    if !PowerOfTwo(alignment) || cursor <= size then None
    else
      var value := (cursor - size) / alignment * alignment;
      AlignedDown(cursor - size, alignment);
      if value == 0 then None else Some(value)
  }

  lemma AlignedDown(x: nat, d: nat)
    requires d > 0
    ensures x / d * d <= x && x - x / d * d < d && (x / d * d) % d == 0
    ensures x / d * d == 0 <==> x < d
  {
    assert x == x / d * d + x % d;
    MultipleMod(x / d, d);
    if x >= d {
      DivAtLeast(x, d, 1);
      MulAtLeast(x / d, d);
    }
  }

  /** The reservation is the highest aligned one that fits under the cursor, and it fails exactly when
      there is none above address zero. */
  lemma ReserveIsHighest(cursor: U64, size: U64, alignment: U32, start: nat)
    requires PowerOfTwo(alignment) && start > 0 && start % alignment == 0 && start + size <= cursor
    ensures TopDownReserve(cursor, size, alignment).Some? && start <= TopDownReserve(cursor, size, alignment).value
  {
    HighestMultiple(cursor - size, start, alignment);
  }

  lemma HighestMultiple(x: nat, start: nat, d: nat)
    requires d > 0 && start % d == 0 && start <= x
    ensures start <= x / d * d
  {
    var k := start / d;
    assert start == k * d;
    DivAtLeast(x, d, k);
    MulMono(x / d, k, d);
  }

  lemma ReserveFits(cursor: U64, size: U64, alignment: U32)
    requires TopDownReserve(cursor, size, alignment).Some?
    ensures var start := TopDownReserve(cursor, size, alignment).value;
            PowerOfTwo(alignment) && 0 < start && start % alignment == 0 && start + size <= cursor
  {
    AlignedDown(cursor - size, alignment);
  }

  /** A request: its size and alignment. */
  datatype Request = Request(size: U64, alignment: U32)

  /** Successive reservations from one cursor, each below the last. */
  function ReserveAll(cursor: U64, requests: seq<Request>): (r: Option<seq<U64>>)
    ensures r.Some? ==> |r.value| == |requests|
  {
    if requests == [] then Some([])
    else
      match ReserveAll(cursor, requests[..|requests| - 1])
      case None => None
      case Some(starts) =>
        var last := requests[|requests| - 1];
        var from := if starts == [] then cursor else starts[|starts| - 1];
        match TopDownReserve(from, last.size, last.alignment)
        case None => None
        case Some(start) => Some(starts + [start])
  }

  /** All the ranges ever handed out from one cursor are disjoint: each ends where an earlier one starts,
      or below it. */
  lemma {:induction false} ReservationsDisjoint(cursor: U64, requests: seq<Request>, i: nat, j: nat)
    requires i < j < |requests| && ReserveAll(cursor, requests).Some?
    ensures var starts := ReserveAll(cursor, requests).value;
            0 < starts[j] && starts[j] + requests[j].size <= starts[i]
    decreases |requests|
  {
    var front, last := requests[..|requests| - 1], requests[|requests| - 1];
    var starts := ReserveAll(cursor, front).value;
    ReserveFits(starts[|starts| - 1], last.size, last.alignment);
    if j < |requests| - 1 {
      ReservationsDisjoint(cursor, front, i, j);
    } else if i < j - 1 {
      ReservationsDisjoint(cursor, front, i, j - 1);
    }
  }

  /** The two pools of the native manager and the sizes around them. */
  datatype Layout = Layout(primaryCursor: U64, secondaryCursor: U64, visibleBytes: U64, logicalBytes: U64, total: U64, visible: U64)

  /** The range the manager's arena will take: from the upper pool when there is one. */
  function Predict(l: Layout, bytes: U64, alignment: U32): Option<U64> {
    var cursor := if l.total > l.visible then l.secondaryCursor else l.primaryCursor;
    match TopDownReserve(cursor, bytes, alignment)
    case None => None
    case Some(start) =>
      if l.logicalBytes == 0 || l.logicalBytes < l.visibleBytes || l.visible > l.total || l.visible > l.logicalBytes || cursor > l.total
      then None
      else if CheckedAdd(start, bytes) == None || start + bytes > l.logicalBytes then None
      else if (if l.total > l.visible then start >= l.visible else start + bytes <= l.visible) then Some(start)
      else None
  }

  /** The arena is predicted exactly where the reservation lies whole in the pool it is taken from: the
      upper pool up to the logical end, or the only pool. */
  lemma PredictedIff(l: Layout, bytes: U64, alignment: U32, start: U64)
    ensures var upper := l.total > l.visible;
            var cursor := if upper then l.secondaryCursor else l.primaryCursor;
            var (low, high) := if upper then (l.visible, l.logicalBytes) else (0, l.visible);
            Predict(l, bytes, alignment) == Some(start) <==>
            && TopDownReserve(cursor, bytes, alignment) == Some(start)
            && 0 < l.logicalBytes && l.visibleBytes <= l.logicalBytes && l.visible <= l.logicalBytes
            && l.visible <= l.total && cursor <= l.total && low <= start && start + bytes <= high
  {
  }

  /** Whether a range of the logical framebuffer is clear of a valid lease. */
  predicate LogicallyDisjoint(owned: Ownership, start: U64, bytes: U64, logicalBytes: U64, visibleBytes: U64) {
    && ValidOwnership(owned, owned.nonceLo, owned.nonceHi, visibleBytes)
    && bytes != 0 && logicalBytes >= visibleBytes && CheckedAdd(start, bytes).Some? && start + bytes <= logicalBytes
    && (owned.leaseEnd <= start || start + bytes <= owned.leaseOffset)
  }

  /** Disjointness is about every byte: the range is whole in the logical framebuffer, and no offset is in
      both the range and the lease. */
  lemma DisjointIsBytewise(owned: Ownership, start: U64, bytes: U64, logicalBytes: U64, visibleBytes: U64)
    ensures LogicallyDisjoint(owned, start, bytes, logicalBytes, visibleBytes) <==>
            && ValidOwnership(owned, owned.nonceLo, owned.nonceHi, visibleBytes)
            && 0 < bytes && start + bytes <= logicalBytes && visibleBytes <= logicalBytes
            && !exists x: nat :: InRange(x, start, start + bytes) && InRange(x, owned.leaseOffset, owned.leaseEnd)
  {
    if ValidOwnership(owned, owned.nonceLo, owned.nonceHi, visibleBytes) && bytes > 0 {
      assert owned.leaseOffset < owned.leaseEnd;
      var x := if start <= owned.leaseOffset then owned.leaseOffset else start;
      assert start < owned.leaseEnd && owned.leaseOffset < start + bytes ==>
               InRange(x, start, start + bytes) && InRange(x, owned.leaseOffset, owned.leaseEnd);
    }
  }

  predicate InRange(x: nat, from: nat, to: nat) {
    from <= x < to
  }

  /** When the manager has an upper pool, its predicted arena is clear of every lease in the lower one. */
  lemma UpperArenaClearsLease(l: Layout, bytes: U64, alignment: U32, owned: Ownership)
    requires bytes > 0 && Predict(l, bytes, alignment).Some? && l.total > l.visible
    requires ValidOwnership(owned, owned.nonceLo, owned.nonceHi, l.visibleBytes) && owned.leaseEnd <= l.visible
    ensures LogicallyDisjoint(owned, Predict(l, bytes, alignment).value, bytes, l.logicalBytes, l.visibleBytes)
  {
  }
}
