/** What a reader makes of a lease record that an interrupted clear left torn. */
module ClearedRecords {
  import opened Bits
  import opened BarStore
  import opened LeaseRecords
  import opened LifetimeRecord

  /** Each half of the number is the old one or zero. */
  predicate Torn(x: U64, x': U64) {
    (Lo(x') == Lo(x) || Lo(x') == 0) && (Hi(x') == Hi(x) || Hi(x') == 0)
  }

  /** A torn reason code is gone or whole. */
  lemma TornReason(reason: U64, reason': U64)
    requires Torn(reason, reason') && reason < TWO32
    ensures reason' == reason || reason' == 0
  {
    JoinSplit(reason);
    JoinSplit(reason');
  }

  // ---- The lifetime record ----

  lemma TornLifetimeFields(v: LifetimeStatus, image: seq<Word>)
    requires PartlyCleared(Words(v), image)
    ensures var r := Decode(image); Torn(v.reason, r.reason) && (r.state == v.state || r.state == 0)
  {
    forall i | 0 <= i < WORDS
      ensures image[i] == Words(v)[i] || image[i] == 0
    {
    }
    SplitJoin(image[18], image[19]);
  }

  /** A torn lifetime record is never accepted as another one: neither by the full check against its lease,
      nor by the readback that precedes an ABORT of the same lease. */
  lemma TornLifetimeRefused(v: LifetimeStatus, image: seq<Word>)
    requires ValidEncoding(v) && ClearedImage(Words(v), image)
    requires |image| == WORDS && ValidEncoding(Decode(image)) && SameLease(Decode(image), v)
    ensures image == Words(v)
  {
    ClearCrashImages(Words(v), image);
    TornLifetimeFields(v, image);
    TornReason(v.reason, Decode(image).reason);
    SameFields(v, Decode(image));
    WordsDecode(image);
  }

  lemma SameFields(v: LifetimeStatus, r: LifetimeStatus)
    requires ValidEncoding(v) && ValidEncoding(r) && SameLease(r, v)
    requires r.state == v.state || r.state == 0
    requires r.reason == v.reason || r.reason == 0
    ensures r == v
  {
    assert Fields(r) == Fields(v);
    FieldsDetermine(r, v);
  }

  /** In particular the consumer of a lease never takes a torn record for a valid one. */
  lemma TornLifetimeNotConsumed(v: LifetimeStatus, owned: Ownership, pool: PoolStatus, image: seq<Word>)
    requires ValidLifetime(v, owned, pool, false) && ClearedImage(Words(v), image)
    ensures |image| == WORDS
    ensures ValidLifetime(Decode(image), owned, pool, false) <==> image == Words(v)
  {
    ClearCrashImages(Words(v), image);
    DecodeWords(v);
    if ValidLifetime(Decode(image), owned, pool, false) {
      TornLifetimeRefused(v, image);
    }
  }

  // ---- The pool status on the wire ----

  const POOL_WORDS: nat := 26

  function PoolWords(v: PoolStatus): (r: seq<Word>)
    ensures |r| == POOL_WORDS && r[STATE] == v.state
  {
    [Lo(v.magic), Hi(v.magic), v.version, v.state,
     Lo(v.leaseOffset), Hi(v.leaseOffset), Lo(v.leaseEnd), Hi(v.leaseEnd),
     Lo(v.nonceLo), Hi(v.nonceLo), Lo(v.nonceHi), Hi(v.nonceHi), Lo(v.generation), Hi(v.generation),
     Lo(v.pool0Before), Hi(v.pool0Before), Lo(v.pool0After), Hi(v.pool0After),
     Lo(v.pool1Before), Hi(v.pool1Before), Lo(v.pool1After), Hi(v.pool1After),
     Lo(v.reason), Hi(v.reason), Lo(v.checksum), Hi(v.checksum)]
  }

  function PoolDecode(w: seq<Word>): PoolStatus
    requires |w| == POOL_WORDS
  {
    PoolStatus(Join(w[0], w[1]), w[2], w[3], Join(w[4], w[5]), Join(w[6], w[7]), Join(w[8], w[9]),
               Join(w[10], w[11]), Join(w[12], w[13]), Join(w[14], w[15]), Join(w[16], w[17]),
               Join(w[18], w[19]), Join(w[20], w[21]), Join(w[22], w[23]), Join(w[24], w[25]))
  }

  lemma PoolDecodeWords(v: PoolStatus)
    ensures PoolDecode(PoolWords(v)) == v
  {
  }

  lemma PoolWordsDecode(w: seq<Word>)
    requires |w| == POOL_WORDS
    ensures PoolWords(PoolDecode(w)) == w
  {
    var r := PoolWords(PoolDecode(w));
    SplitJoin(w[0], w[1]); SplitJoin(w[4], w[5]); SplitJoin(w[6], w[7]); SplitJoin(w[8], w[9]);
    SplitJoin(w[10], w[11]); SplitJoin(w[12], w[13]); SplitJoin(w[14], w[15]); SplitJoin(w[16], w[17]);
    SplitJoin(w[18], w[19]); SplitJoin(w[20], w[21]); SplitJoin(w[22], w[23]); SplitJoin(w[24], w[25]);
    assert r == w;
  }

  // ---- Torn numbers ----

  /** The high half both numbers share is gone from both. */
  predicate HighsLost(before: U64, after: U64, before': U64, after': U64) {
    Hi(before) == Hi(after) && before' == Lo(before) && after' == Lo(after)
  }

  /** A torn pair still shows the exact decrease in one other way only. */
  lemma TornPair(before: U64, after: U64, before': U64, after': U64)
    requires ExactDecrease(before, after) && Torn(before, before') && Torn(after, after')
    ensures ExactDecrease(before', after') <==>
            (before' == before && after' == after) || HighsLost(before, after, before', after')
  {
    JoinSplit(before); JoinSplit(after); JoinSplit(before'); JoinSplit(after');
  }

  lemma JoinIsShifted(lo: U32, hi: U32)
    ensures Join(lo, hi) == lo + Shifted(hi, 32)
  {
    hide Shifted;
    Pow2Of64();
    ShiftedIsProduct(hi, 32);
  }

  lemma XorSharedHigh(a: U32, b: U32, high: U32)
    ensures Xor(Join(a, high), Join(b, high)) == Xor(a, b)
  {
    hide Xor, Shifted, Join;
    Pow2Of64();
    XorShared(32, a, b, high);
    JoinIsShifted(a, high);
    JoinIsShifted(b, high);
  }

  /** Losing a shared high half does not show in the exclusive or. */
  lemma HighsLostSum(before: U64, after: U64, before': U64, after': U64)
    requires HighsLost(before, after, before', after')
    ensures Xor(before', after') == Xor(before, after)
  {
    hide Xor;
    JoinSplit(before);
    JoinSplit(after);
    XorSharedHigh(Lo(before), Lo(after), Hi(before));
  }

  // ---- The checksum over torn numbers ----

  lemma XorAllMore(seed: U64, words: seq<U64>, w: U64)
    ensures XorAll(seed, words + [w]) == Xor64(XorAll(seed, words), w)
  {
    assert (words + [w])[..|words|] == words;
  }

  lemma XorAllPair(seed: U64, words: seq<U64>, a: U64, b: U64)
    ensures XorAll(seed, words + [a] + [b]) == Xor(XorAll(seed, words), Xor(a, b))
  {
    XorAllMore(seed, words, a);
    XorAllMore(seed, words + [a], b);
    XorAssoc(XorAll(seed, words), a, b);
  }

  function Identity(v: PoolStatus): seq<U64> {
    [v.magic, v.version, v.state, v.leaseOffset, v.leaseEnd, v.nonceLo, v.nonceHi, v.generation]
  }

  /** The checksum as the identity of the record, the two pairs of numbers, and the reason. */
  lemma PoolChecksumParts(v: PoolStatus)
    ensures PoolChecksum(v) == Xor(Xor(Xor(XorAll(CHECKSUM_DOMAIN, Identity(v)), Xor(v.pool0Before, v.pool0After)),
                                       Xor(v.pool1Before, v.pool1After)), v.reason)
  {
    var front := Identity(v);
    var pool0 := front + [v.pool0Before] + [v.pool0After];
    var pool1 := pool0 + [v.pool1Before] + [v.pool1After];
    assert pool1 + [v.reason] ==
           [v.magic, v.version, v.state, v.leaseOffset, v.leaseEnd, v.nonceLo, v.nonceHi, v.generation,
            v.pool0Before, v.pool0After, v.pool1Before, v.pool1After, v.reason];
    XorAllPair(CHECKSUM_DOMAIN, front, v.pool0Before, v.pool0After);
    XorAllPair(CHECKSUM_DOMAIN, pool0, v.pool1Before, v.pool1After);
    XorAllMore(CHECKSUM_DOMAIN, pool1, v.reason);
  }

  predicate SameVerdict(v: PoolStatus, r: PoolStatus) {
    Identity(r) == Identity(v) && r.reason == v.reason
  }

  // ---- The torn pool status ----

  lemma TornFields(v: PoolStatus, image: seq<Word>)
    requires PartlyCleared(PoolWords(v), image)
    ensures var r := PoolDecode(image);
            && Torn(v.pool0Before, r.pool0Before) && Torn(v.pool0After, r.pool0After)
            && Torn(v.pool1Before, r.pool1Before) && Torn(v.pool1After, r.pool1After)
            && Torn(v.reason, r.reason) && (r.state == v.state || r.state == 0)
  {
    forall i | 0 <= i < POOL_WORDS
      ensures image[i] == PoolWords(v)[i] || image[i] == 0
    {
    }
    SplitJoin(image[14], image[15]); SplitJoin(image[16], image[17]); SplitJoin(image[18], image[19]);
    SplitJoin(image[20], image[21]); SplitJoin(image[22], image[23]);
  }

  /** Whatever torn image a reader accepts, it keeps the old state, reason and lease. */
  lemma TornVerdictStays(v: PoolStatus, owned: Ownership, image: seq<Word>)
    requires ValidPoolStatus(v, owned) && PartlyCleared(PoolWords(v), image)
    requires ValidPoolStatus(PoolDecode(image), owned)
    ensures SameVerdict(v, PoolDecode(image))
  {
    TornFields(v, image);
    var r := PoolDecode(image);
    TornReason(v.reason, r.reason);
  }

  function Pool0Lost(v: PoolStatus): PoolStatus {
    v.(pool0Before := Lo(v.pool0Before), pool0After := Lo(v.pool0After))
  }

  function Pool1Lost(v: PoolStatus): PoolStatus {
    v.(pool1Before := Lo(v.pool1Before), pool1After := Lo(v.pool1After))
  }

  predicate Pool0Exposed(v: PoolStatus) { Hi(v.pool0Before) == Hi(v.pool0After) }
  predicate Pool1Exposed(v: PoolStatus) { Hi(v.pool1Before) == Hi(v.pool1After) }

  /** The records a torn ACTIVE status can pass for: it lost the high half that the two numbers of one pool
      share, or of both pools. */
  predicate PassesFor(v: PoolStatus, r: PoolStatus) {
    || r == v
    || (Pool0Exposed(v) && r == Pool0Lost(v))
    || (Pool1Exposed(v) && r == Pool1Lost(v))
    || (Pool0Exposed(v) && Pool1Exposed(v) && r == Pool1Lost(Pool0Lost(v)))
  }

  /** Equal sums of the two pairs make equal checksums. */
  lemma SameSums(v: PoolStatus, r: PoolStatus)
    requires SameVerdict(v, r)
    requires Xor(r.pool0Before, r.pool0After) == Xor(v.pool0Before, v.pool0After)
    requires Xor(r.pool1Before, r.pool1After) == Xor(v.pool1Before, v.pool1After)
    ensures PoolChecksum(r) == PoolChecksum(v)
  {
    PoolChecksumParts(v);
    PoolChecksumParts(r);
  }

  lemma PairSum(before: U64, after: U64, before': U64, after': U64)
    requires ExactDecrease(before, after) && Torn(before, before') && Torn(after, after') && ExactDecrease(before', after')
    ensures Xor(before', after') == Xor(before, after)
  {
    TornPair(before, after, before', after');
    if HighsLost(before, after, before', after') {
      HighsLostSum(before, after, before', after');
    }
  }

  lemma AcceptedPassesFor(v: PoolStatus, owned: Ownership, image: seq<Word>)
    requires ValidPoolStatus(v, owned) && v.state == POOL_ACTIVE && PartlyCleared(PoolWords(v), image)
    requires ValidPoolStatus(PoolDecode(image), owned)
    ensures PassesFor(v, PoolDecode(image))
  {
    var r := PoolDecode(image);
    TornFields(v, image);
    TornVerdictStays(v, owned, image);
    PairSum(v.pool0Before, v.pool0After, r.pool0Before, r.pool0After);
    PairSum(v.pool1Before, v.pool1After, r.pool1Before, r.pool1After);
    SameSums(v, r);
    TornPair(v.pool0Before, v.pool0After, r.pool0Before, r.pool0After);
    TornPair(v.pool1Before, v.pool1After, r.pool1Before, r.pool1After);
  }

  lemma PassingIsAccepted(v: PoolStatus, owned: Ownership, r: PoolStatus)
    requires ValidPoolStatus(v, owned) && v.state == POOL_ACTIVE && PassesFor(v, r)
    ensures ValidPoolStatus(r, owned)
  {
    if r.pool0Before != v.pool0Before || r.pool0After != v.pool0After {
      LostPairAccepted(v.pool0Before, v.pool0After, r.pool0Before, r.pool0After);
    }
    if r.pool1Before != v.pool1Before || r.pool1After != v.pool1After {
      LostPairAccepted(v.pool1Before, v.pool1After, r.pool1Before, r.pool1After);
    }
    SameSums(v, r);
  }

  lemma LostPairAccepted(before: U64, after: U64, before': U64, after': U64)
    requires ExactDecrease(before, after) && HighsLost(before, after, before', after')
    ensures ExactDecrease(before', after') && Xor(before', after') == Xor(before, after)
  {
    HighsLostSum(before, after, before', after');
    JoinSplit(before);
    JoinSplit(after);
  }

  lemma PassingIsTorn(v: PoolStatus, r: PoolStatus)
    requires PassesFor(v, r)
    ensures PartlyCleared(PoolWords(v), PoolWords(r))
  {
    assert PoolWords(Pool0Lost(v)) == PoolWords(v)[15 := 0][17 := 0];
    assert PoolWords(Pool1Lost(v)) == PoolWords(v)[19 := 0][21 := 0];
    assert PoolWords(Pool1Lost(Pool0Lost(v))) == PoolWords(v)[15 := 0][17 := 0][19 := 0][21 := 0];
  }

  /** Exactly which images of a torn ACTIVE status are accepted. */
  lemma TornActiveIff(v: PoolStatus, owned: Ownership, image: seq<Word>)
    requires ValidPoolStatus(v, owned) && v.state == POOL_ACTIVE && ClearedImage(PoolWords(v), image)
    ensures |image| == POOL_WORDS
    ensures ValidPoolStatus(PoolDecode(image), owned) <==> PassesFor(v, PoolDecode(image))
  {
    ClearCrashImages(PoolWords(v), image);
    if ValidPoolStatus(PoolDecode(image), owned) {
      AcceptedPassesFor(v, owned, image);
    }
    if PassesFor(v, PoolDecode(image)) {
      PassingIsAccepted(v, owned, PoolDecode(image));
    }
  }

  /** The two numbers of some pool share a high half that is not zero. */
  predicate Exposed(v: PoolStatus) {
    (Pool0Exposed(v) && Hi(v.pool0Before) != 0) || (Pool1Exposed(v) && Hi(v.pool1Before) != 0)
  }

  lemma NumberWithoutHigh(x: U64)
    requires Hi(x) == 0
    ensures Lo(x) == x
  {
    JoinSplit(x);
  }

  lemma UnexposedPassesForItself(v: PoolStatus, r: PoolStatus)
    requires PassesFor(v, r) && !Exposed(v)
    ensures r == v
  {
    if Pool0Exposed(v) {
      NumberWithoutHigh(v.pool0Before);
      NumberWithoutHigh(v.pool0After);
    }
    if Pool1Exposed(v) {
      NumberWithoutHigh(v.pool1Before);
      NumberWithoutHigh(v.pool1After);
    }
  }

  lemma ExposedPassesForAnother(v: PoolStatus) returns (r: PoolStatus)
    requires Exposed(v)
    ensures PassesFor(v, r) && r != v
  {
    r := if Pool0Exposed(v) && Hi(v.pool0Before) != 0 then Pool0Lost(v) else Pool1Lost(v);
  }

  ghost predicate AcceptedAfterClear(v: PoolStatus, owned: Ownership, image: seq<Word>) {
    ClearedImage(PoolWords(v), image) && |image| == POOL_WORDS && ValidPoolStatus(PoolDecode(image), owned)
  }

  /** An interrupted clear of an ACTIVE status never yields another accepted record exactly when no pool is
      exposed: when the numbers of each pool differ above 4 GiB or both lie below it. */
  lemma ActiveClearSafeIff(v: PoolStatus, owned: Ownership)
    requires ValidPoolStatus(v, owned) && v.state == POOL_ACTIVE
    ensures (forall image :: AcceptedAfterClear(v, owned, image) ==> image == PoolWords(v)) <==> !Exposed(v)
  {
    if Exposed(v) {
      var r := ExposedPassesForAnother(v);
      PassingIsTorn(v, r);
      ClearCrashImages(PoolWords(v), PoolWords(r));
      PoolDecodeWords(r);
      PoolDecodeWords(v);
      PassingIsAccepted(v, owned, r);
      assert AcceptedAfterClear(v, owned, PoolWords(r)) && PoolWords(r) != PoolWords(v);
    } else {
      forall image | AcceptedAfterClear(v, owned, image)
        ensures image == PoolWords(v)
      {
        TornActiveIff(v, owned, image);
        UnexposedPassesForItself(v, PoolDecode(image));
        PoolWordsDecode(image);
      }
    }
  }

  /** A pool that shrank from 0x1_0002_0000 to 0x1_0000_B000: a clear that only reached the two high dwords
      leaves a status that is accepted as another ACTIVE one, whatever the lease and the other pool. */
  lemma TornStatusAccepted(owned: Ownership, pool1Before: U64, pool1After: U64)
    requires ExactDecrease(pool1Before, pool1After)
    ensures var v := MakePoolStatus(owned, POOL_ACTIVE, 0x1_0002_0000, 0x1_0000_b000, pool1Before, pool1After, REASON_NONE);
            var torn := PoolWords(v)[15 := 0][17 := 0];
            && ValidPoolStatus(v, owned) && ClearedImage(PoolWords(v), torn) && torn != PoolWords(v)
            && ValidPoolStatus(PoolDecode(torn), owned) && PoolDecode(torn).pool0Before == 0x2_0000
  {
    var v := MakePoolStatus(owned, POOL_ACTIVE, 0x1_0002_0000, 0x1_0000_b000, pool1Before, pool1After, REASON_NONE);
    MadePoolStatusValidIff(owned, POOL_ACTIVE, 0x1_0002_0000, 0x1_0000_b000, pool1Before, pool1After, REASON_NONE);
    var r := Pool0Lost(v);
    assert PoolWords(v)[15 := 0][17 := 0] == PoolWords(r);
    PassingIsTorn(v, r);
    ClearCrashImages(PoolWords(v), PoolWords(r));
    PoolDecodeWords(r);
    PassingIsAccepted(v, owned, r);
  }

  /** An INVALID status checks nothing but the sum: a torn image is accepted exactly when its state and reason
      are left and what it lost sums to what its checksum lost. */
  lemma TornInvalidIff(v: PoolStatus, owned: Ownership, image: seq<Word>)
    requires ValidPoolStatus(v, owned) && v.state == POOL_INVALID && ClearedImage(PoolWords(v), image)
    ensures |image| == POOL_WORDS
    ensures ValidPoolStatus(PoolDecode(image), owned) <==>
            SameVerdict(v, PoolDecode(image)) && NumbersSum(PoolDecode(image)) == NumbersSum(v)
  {
    hide Xor, XorAll, PoolChecksum, NumbersSum;
    ClearCrashImages(PoolWords(v), image);
    var r := PoolDecode(image);
    if ValidPoolStatus(r, owned) {
      TornVerdictStays(v, owned, image);
    }
    if SameVerdict(v, r) {
      BalancedChecksum(v);
      BalancedChecksum(r);
    }
  }

  /** The four numbers and the stored checksum together. */
  function NumbersSum(v: PoolStatus): nat {
    Xor(v.checksum, Xor(Xor(v.pool0Before, v.pool0After), Xor(v.pool1Before, v.pool1After)))
  }

  lemma BalancedChecksum(v: PoolStatus)
    ensures v.checksum == PoolChecksum(v) <==> NumbersSum(v) == Xor(XorAll(CHECKSUM_DOMAIN, Identity(v)), v.reason)
  {
    PoolChecksumParts(v);
    Balance(XorAll(CHECKSUM_DOMAIN, Identity(v)), Xor(v.pool0Before, v.pool0After), Xor(v.pool1Before, v.pool1After),
            v.reason, v.checksum);
  }

  lemma Balance(front: nat, a: nat, b: nat, reason: nat, sum: nat)
    ensures sum == Xor(Xor(Xor(front, a), b), reason) <==> Xor(sum, Xor(a, b)) == Xor(front, reason)
  {
    XorAssoc(front, a, b);
    BalanceOne(front, Xor(a, b), reason, sum);
  }

  lemma {:induction false} BalanceOne(front: nat, middle: nat, reason: nat, sum: nat)
    ensures sum == Xor(Xor(front, middle), reason) <==> Xor(sum, middle) == Xor(front, reason)
    decreases front + middle + reason + sum
  {
    if front + middle + reason + sum > 0 {
      BalanceOne(front / 2, middle / 2, reason / 2, sum / 2);
    }
  }
}
