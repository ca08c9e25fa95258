/** The schema-3 lifetime record in the lease metadata span: VALID, then ABORTING, then ABORT. */
module LifetimeRecord {
  import opened Bits
  import opened LeaseRecords
  import opened BarStore

  const LIFETIME_MAGIC: U64 := 0x334d_4c4b_5550_4752
  const LIFETIME_VERSION: U32 := 3
  const VALID: U32 := 0x444c_4156
  const ABORTING: U32 := 0x4754_4241
  const ABORT: U32 := 0x5452_4241
  const LIFETIME_DOMAIN: U64 := 0x6a09_e667_f3bc_c909
  const WORDS: nat := 22

  const LIFETIME_REASON_NONE: U32 := 0
  const LIFETIME_REASON_FIRST: U32 := 1
  const LIFETIME_REASON_LAST: U32 := 4

  predicate ValidReason(reason: U64) {
    LIFETIME_REASON_FIRST <= reason <= LIFETIME_REASON_LAST
  }

  datatype LifetimeStatus = LifetimeStatus(
    magic: U64, version: U32, state: U32, leaseOffset: U64, leaseEnd: U64, nonceLo: U64, nonceHi: U64,
    generation: U64, ownershipChecksum: U64, poolChecksum: U64, reason: U64, checksum: U64)

  function Fields(v: LifetimeStatus): (r: seq<U64>)
    ensures |r| == 11
  {
    [v.magic, v.version, v.state, v.leaseOffset, v.leaseEnd, v.nonceLo, v.nonceHi,
     v.generation, v.ownershipChecksum, v.poolChecksum, v.reason]
  }

  function Checksum(v: LifetimeStatus): U64 {
    XorAll(LIFETIME_DOMAIN, Fields(v))
  }

  predicate ValidEncoding(v: LifetimeStatus) {
    && v.magic == LIFETIME_MAGIC && v.version == LIFETIME_VERSION && v.checksum == Checksum(v)
    && if v.state == VALID then v.reason == LIFETIME_REASON_NONE
       else v.state == ABORT && ValidReason(v.reason)
  }

  function MakeValid(owned: Ownership, pool: PoolStatus): LifetimeStatus {
    var v := LifetimeStatus(LIFETIME_MAGIC, LIFETIME_VERSION, VALID, owned.leaseOffset, owned.leaseEnd,
                            owned.nonceLo, owned.nonceHi, owned.generation, owned.checksum, pool.checksum,
                            LIFETIME_REASON_NONE, 0);
    v.(checksum := Checksum(v))
  }

  function MakeAbort(valid: LifetimeStatus, reason: U32): LifetimeStatus {
    var v := valid.(state := ABORT, reason := reason);
    v.(checksum := Checksum(v))
  }

  /** The fields that bind a record to one lease epoch. */
  predicate SameLease(a: LifetimeStatus, b: LifetimeStatus) {
    && a.leaseOffset == b.leaseOffset && a.leaseEnd == b.leaseEnd
    && a.nonceLo == b.nonceLo && a.nonceHi == b.nonceHi && a.generation == b.generation
    && a.ownershipChecksum == b.ownershipChecksum && a.poolChecksum == b.poolChecksum
  }

  predicate ValidLifetime(v: LifetimeStatus, owned: Ownership, pool: PoolStatus, requireValid: bool) {
    && ValidOwnership(owned, owned.nonceLo, owned.nonceHi, owned.leaseEnd)
    && ValidPoolStatus(pool, owned) && pool.state == POOL_ACTIVE
    && ValidEncoding(v)
    && v.leaseOffset == owned.leaseOffset && v.leaseEnd == owned.leaseEnd
    && v.nonceLo == owned.nonceLo && v.nonceHi == owned.nonceHi && v.generation == owned.generation
    && v.ownershipChecksum == owned.checksum && v.poolChecksum == pool.checksum
    && (requireValid ==> v.state == VALID)
  }

  lemma ChecksumIgnoresItself(v: LifetimeStatus, c: U64)
    ensures Checksum(v.(checksum := c)) == Checksum(v)
  {
    assert Fields(v.(checksum := c)) == Fields(v);
  }

  lemma MadeRecordsEncode(valid: LifetimeStatus, reason: U32)
    requires ValidEncoding(valid) && valid.state == VALID && ValidReason(reason)
    ensures ValidEncoding(MakeAbort(valid, reason)) && SameLease(MakeAbort(valid, reason), valid)
  {
    ChecksumIgnoresItself(valid.(state := ABORT, reason := reason), MakeAbort(valid, reason).checksum);
  }

  /** The lease records that a lifetime record is checked against. */
  predicate AcceptedLease(owned: Ownership, pool: PoolStatus) {
    ValidOwnership(owned, owned.nonceLo, owned.nonceHi, owned.leaseEnd) &&
    ValidPoolStatus(pool, owned) && pool.state == POOL_ACTIVE
  }

  /** Under an accepted lease, and under no other, the only VALID record the consumer accepts is the made
      one, and the only terminal ones are the four made ABORTs. */
  lemma AcceptedRecordsAreMade(v: LifetimeStatus, owned: Ownership, pool: PoolStatus)
    ensures ValidLifetime(v, owned, pool, true) <==> AcceptedLease(owned, pool) && v == MakeValid(owned, pool)
    ensures ValidLifetime(v, owned, pool, false) <==>
            AcceptedLease(owned, pool) &&
            (v == MakeValid(owned, pool) ||
             exists r: U32 :: ValidReason(r) && v == MakeAbort(MakeValid(owned, pool), r))
  {
    var made := MakeValid(owned, pool);
    ChecksumIgnoresItself(made, 0);
    assert made.checksum == Checksum(made);
    ChecksumIgnoresItself(v, 0);
    forall r: U32 | ValidReason(r)
      ensures ValidEncoding(MakeAbort(made, r)) && SameLease(MakeAbort(made, r), made)
    {
      MadeRecordsEncode(made, r);
    }
    if ValidLifetime(v, owned, pool, true) {
      assert v.(checksum := 0) == made.(checksum := 0);
    }
    if ValidLifetime(v, owned, pool, false) && v.state == ABORT {
      var r: U32 := v.reason;
      assert v.(checksum := 0) == made.(state := ABORT, reason := r, checksum := 0);
      ChecksumIgnoresItself(made.(state := ABORT, reason := r), 0);
      assert v == MakeAbort(made, r);
    }
  }

  // ---- Wire form ----

  function Words(v: LifetimeStatus): (r: seq<Word>)
    ensures |r| == WORDS && r[STATE] == v.state
  {
    [Lo(v.magic), Hi(v.magic), v.version, v.state,
     Lo(v.leaseOffset), Hi(v.leaseOffset), Lo(v.leaseEnd), Hi(v.leaseEnd),
     Lo(v.nonceLo), Hi(v.nonceLo), Lo(v.nonceHi), Hi(v.nonceHi),
     Lo(v.generation), Hi(v.generation), Lo(v.ownershipChecksum), Hi(v.ownershipChecksum),
     Lo(v.poolChecksum), Hi(v.poolChecksum), Lo(v.reason), Hi(v.reason), Lo(v.checksum), Hi(v.checksum)]
  }

  function Decode(w: seq<Word>): LifetimeStatus
    requires |w| == WORDS
  {
    LifetimeStatus(Join(w[0], w[1]), w[2], w[3], Join(w[4], w[5]), Join(w[6], w[7]), Join(w[8], w[9]),
                   Join(w[10], w[11]), Join(w[12], w[13]), Join(w[14], w[15]), Join(w[16], w[17]),
                   Join(w[18], w[19]), Join(w[20], w[21]))
  }

  lemma DecodeWords(v: LifetimeStatus)
    ensures Decode(Words(v)) == v
  {
  }

  lemma WordsDecode(w: seq<Word>)
    requires |w| == WORDS
    ensures Words(Decode(w)) == w
  {
    var r := Words(Decode(w));
    SplitJoin(w[0], w[1]); SplitJoin(w[4], w[5]); SplitJoin(w[6], w[7]); SplitJoin(w[8], w[9]);
    SplitJoin(w[10], w[11]); SplitJoin(w[12], w[13]); SplitJoin(w[14], w[15]); SplitJoin(w[16], w[17]);
    SplitJoin(w[18], w[19]); SplitJoin(w[20], w[21]);
    assert r == w;
  }

  /** The record as its eleven summed fields and its stored sum. */
  lemma FieldsDetermine(a: LifetimeStatus, b: LifetimeStatus)
    requires Fields(a) == Fields(b) && a.checksum == b.checksum
    ensures a == b
  {
    assert Fields(a)[0] == Fields(b)[0] && Fields(a)[1] == Fields(b)[1] && Fields(a)[2] == Fields(b)[2];
    assert Fields(a)[3] == Fields(b)[3] && Fields(a)[4] == Fields(b)[4] && Fields(a)[5] == Fields(b)[5];
    assert Fields(a)[6] == Fields(b)[6] && Fields(a)[7] == Fields(b)[7] && Fields(a)[8] == Fields(b)[8];
    assert Fields(a)[9] == Fields(b)[9] && Fields(a)[10] == Fields(b)[10];
  }

  /** Field index, in `Fields`, of the 64-bit unit that dword `i` belongs to; 11 is the stored sum. */
  function FieldOf(i: nat): (f: nat)
    requires i < WORDS
    ensures f <= 11
  {
    if i < 2 then 0 else if i == 2 then 1 else if i == 3 then 2 else i / 2 + 1
  }

  lemma OneWordOneField(w: seq<Word>, i: nat, x: Word)
    requires |w| == WORDS && i < WORDS && x != w[i]
    ensures var a, b := Decode(w), Decode(w[i := x]);
            if FieldOf(i) == 11 then Fields(b) == Fields(a) && b.checksum != a.checksum
            else b.checksum == a.checksum && Fields(b)[FieldOf(i)] != Fields(a)[FieldOf(i)] &&
                 Fields(b) == Fields(a)[FieldOf(i) := Fields(b)[FieldOf(i)]]
  {
    var a, b := Fields(Decode(w)), Fields(Decode(w[i := x]));
    var f := FieldOf(i);
    if f < 11 {
      assert forall k :: 0 <= k < 11 && k != f ==> a[k] == b[k];
    } else {
      assert forall k :: 0 <= k < 11 ==> a[k] == b[k];
    }
  }

  /** A record with any single dword corrupted is refused, whichever dword it is. */
  lemma SingleWordCorruptionRefused(w: seq<Word>, i: nat, x: Word)
    requires |w| == WORDS && ValidEncoding(Decode(w)) && i < WORDS && x != w[i]
    ensures !ValidEncoding(Decode(w[i := x]))
  {
    OneWordOneField(w, i, x);
    var a, b := Decode(w), Decode(w[i := x]);
    if FieldOf(i) < 11 {
      XorAllDetects(LIFETIME_DOMAIN, Fields(a), FieldOf(i), Fields(b)[FieldOf(i)]);
    }
  }

  // ---- Publication attempts ----

  datatype Attempt = PublishValid(value: LifetimeStatus) | PublishAbort(value: LifetimeStatus)

  /** Whether publishAbortLifetime goes past its readback of the current record. */
  predicate AbortReplaces(current: LifetimeStatus, value: LifetimeStatus) {
    ValidEncoding(current) && current.state == VALID && SameLease(current, value)
  }

  predicate Proceeds(m: seq<Word>, attempt: Attempt)
    requires |m| == WORDS
  {
    ValidEncoding(attempt.value) &&
    match attempt
    case PublishValid(v) => v.state == VALID && m[STATE] == 0
    case PublishAbort(v) => v.state == ABORT && AbortReplaces(Decode(m), v)
  }

  /** A made ABORT goes ahead over the VALID record it was made from, and over no other words. */
  lemma AbortProceeds(v: LifetimeStatus, reason: U32, m: seq<Word>)
    requires ValidEncoding(v) && v.state == VALID && ValidReason(reason) && |m| == WORDS
    ensures Proceeds(m, PublishAbort(MakeAbort(v, reason))) <==> m == Words(v)
  {
    MadeRecordsEncode(v, reason);
    DecodeWords(v);
    WordsDecode(m);
    var current := Decode(m);
    if AbortReplaces(current, MakeAbort(v, reason)) {
      assert Fields(current) == Fields(v);
      assert current == v;
    }
  }

  /** The made VALID record goes ahead exactly where the state word is zero. */
  lemma ValidProceeds(owned: Ownership, pool: PoolStatus, m: seq<Word>)
    requires |m| == WORDS
    ensures Proceeds(m, PublishValid(MakeValid(owned, pool))) <==> m[STATE] == 0
  {
    var made := MakeValid(owned, pool);
    ChecksumIgnoresItself(made, 0);
    assert made.checksum == Checksum(made);
  }

  function Marker(attempt: Attempt): Word {
    if attempt.PublishValid? then 0 else ABORTING
  }

  /** What an attempt stores when nothing stops it. */
  function AttemptOps(m: seq<Word>, attempt: Attempt): seq<Op>
    requires |m| == WORDS
  {
    if Proceeds(m, attempt) then CommitOps(Words(attempt.value), Marker(attempt)) else []
  }

  /** An attempt from settled memory `m`, cut off after some of its operations, leaves `image`. */
  ghost predicate AttemptImage(m: seq<Word>, attempt: Attempt, image: seq<Word>)
    requires |m| == WORDS
  {
    exists k: nat {:trigger AttemptOps(m, attempt)[..k]} ::
      k <= |AttemptOps(m, attempt)| && CrashImage(Run(Settled(m), AttemptOps(m, attempt)[..k]), image)
  }

  /** A history of attempts, each cut off anywhere; `images[n]` is the memory after the first n. */
  ghost predicate History(images: seq<seq<Word>>, attempts: seq<Attempt>) {
    && |images| == |attempts| + 1
    && (forall n :: 0 <= n < |images| ==> |images[n]| == WORDS)
    && forall n :: 0 <= n < |attempts| ==> AttemptImage(images[n], attempts[n], images[n + 1])
  }

  function StateRank(w: Word): int {
    if w == 0 then 0 else if w == VALID then 1 else if w == ABORTING then 2 else if w == ABORT then 3 else -1
  }

  /** No committed state word over a torn record. */
  predicate Sound(m: seq<Word>)
    requires |m| == WORDS
  {
    && StateRank(m[STATE]) >= 0
    && (m[STATE] == VALID || m[STATE] == ABORT ==> ValidEncoding(Decode(m)))
  }

  /** What one attempt does to the memory it starts from. */
  lemma AttemptEffect(m: seq<Word>, attempt: Attempt, image: seq<Word>)
    requires |m| == WORDS && AttemptImage(m, attempt, image)
    ensures |image| == WORDS
    ensures image == m || (Proceeds(m, attempt) && image[STATE] == Marker(attempt)) ||
            (Proceeds(m, attempt) && image == Words(attempt.value))
  {
    var ops := AttemptOps(m, attempt);
    var k: nat :| k <= |ops| && CrashImage(Run(Settled(m), ops[..k]), image);
    if Proceeds(m, attempt) {
      CommitCrashSafe(m, Words(attempt.value), Marker(attempt), k, image);
    } else {
      assert ops[..k] == [];
    }
  }

  lemma AttemptKeepsSound(m: seq<Word>, attempt: Attempt, image: seq<Word>)
    requires |m| == WORDS && Sound(m) && AttemptImage(m, attempt, image)
    ensures |image| == WORDS && Sound(image) && StateRank(m[STATE]) <= StateRank(image[STATE])
    ensures image[STATE] == VALID && image != m ==> m[STATE] == 0 && image == Words(attempt.value)
    ensures image[STATE] == ABORT && image != m ==>
              m[STATE] == VALID && image == Words(attempt.value) && SameLease(Decode(m), attempt.value)
  {
    AttemptEffect(m, attempt, image);
    DecodeWords(attempt.value);
  }

  /** Crash safety over whole histories. From an uncommitted start, after any attempts each cut off
      with its open epoch landing in any subset and order: the state word only climbs
      0, VALID, ABORTING, ABORT, and a committed state word always sits on one complete record. */
  lemma {:induction false} HistorySafe(images: seq<seq<Word>>, attempts: seq<Attempt>, n: nat)
    requires History(images, attempts) && images[0][STATE] == 0 && n < |images|
    ensures Sound(images[n])
    ensures images[n][STATE] == VALID ==>
              exists i :: 0 <= i < n && attempts[i].PublishValid? && images[n] == Words(attempts[i].value)
    decreases n
  {
    if n > 0 {
      HistorySafe(images, attempts, n - 1);
      AttemptKeepsSound(images[n - 1], attempts[n - 1], images[n]);
      AttemptEffect(images[n - 1], attempts[n - 1], images[n]);
      if images[n][STATE] == VALID {
        if images[n] == images[n - 1] {
          var i :| 0 <= i < n - 1 && attempts[i].PublishValid? && images[n - 1] == Words(attempts[i].value);
          assert images[n] == Words(attempts[i].value);
        } else {
          assert attempts[n - 1].PublishValid?;
        }
      }
    }
  }

  lemma AttemptClimbs(m: seq<Word>, attempt: Attempt, image: seq<Word>)
    requires |m| == WORDS && Sound(m) && AttemptImage(m, attempt, image)
    ensures |image| == WORDS && StateRank(m[STATE]) <= StateRank(image[STATE])
    ensures image[STATE] == VALID && image != m ==> m[STATE] == 0
    ensures image[STATE] == ABORT && image != m ==> m[STATE] == VALID && SameLease(Decode(m), Decode(image))
  {
    AttemptKeepsSound(m, attempt, image);
    DecodeWords(attempt.value);
  }

  /** The state never moves back, a VALID record is never replaced by another VALID record, and an
      ABORT ends the lease of the very VALID record that was there before it. */
  predicate Climbed(earlier: seq<Word>, later: seq<Word>)
    requires |earlier| == |later| == WORDS
  {
    && StateRank(earlier[STATE]) <= StateRank(later[STATE])
    && (earlier[STATE] == VALID && later[STATE] == VALID ==> later == earlier)
    && (earlier[STATE] == VALID && later[STATE] == ABORT ==> SameLease(Decode(earlier), Decode(later)))
    && (earlier[STATE] == ABORT ==> later == earlier)
  }

  lemma ClimbsOn(earlier: seq<Word>, m: seq<Word>, attempt: Attempt, image: seq<Word>)
    requires |earlier| == |m| == WORDS && Climbed(earlier, m) && Sound(m) && AttemptImage(m, attempt, image)
    ensures |image| == WORDS && Climbed(earlier, image)
  {
    hide Sound, Decode, SameLease, AttemptImage;
    AttemptClimbs(m, attempt, image);
  }

  lemma {:induction false} HistoryClimbs(images: seq<seq<Word>>, attempts: seq<Attempt>, a: nat, b: nat)
    requires History(images, attempts) && images[0][STATE] == 0 && a <= b < |images|
    ensures Climbed(images[a], images[b])
    decreases b
  {
    hide Climbed, Sound;
    if a < b {
      HistorySafe(images, attempts, b - 1);
      HistoryClimbs(images, attempts, a, b - 1);
      assert AttemptImage(images[b - 1], attempts[b - 1], images[b - 1 + 1]);
      ClimbsOn(images[a], images[b - 1], attempts[b - 1], images[b]);
    } else {
      ClimbedSelf(images[a]);
    }
  }

  lemma ClimbedSelf(m: seq<Word>)
    requires |m| == WORDS
    ensures Climbed(m, m)
  {
  }

  /** The operations a publication issued: none, the marker epoch alone, or the whole program. */
  twostate predicate Published(bar: Bar, value: LifetimeStatus, marker: Word)
    reads bar
  {
    || bar.Issued([])
    || bar.Issued(CommitOps(Words(value), marker)[..2])
    || bar.Issued(CommitOps(Words(value), marker))
  }

  /** publishValidLifetime over the BAR. With truthful loads it succeeds exactly when the value is a
      VALID record and the state word was zero, and then the record is durable. */
  method PublishValidLifetime(bar: Bar, value: LifetimeStatus) returns (ok: bool)
    requires bar.Valid() && |bar.vram.current| == WORDS
    modifies bar
    ensures bar.Valid() && |bar.vram.current| == WORDS
    ensures Published(bar, value, 0)
    ensures ok ==> bar.vram == Settled(Words(value)) && ValidEncoding(value) && value.state == VALID
    ensures old(bar.faults) == [] ==>
              (ok <==> Proceeds(old(bar.vram.current), PublishValid(value))) &&
              bar.Issued(AttemptOps(old(bar.vram.current), PublishValid(value)))
  {
    assert Run(bar.vram, []) == bar.vram && bar.log + [] == bar.log;
    if !ValidEncoding(value) || value.state != VALID {
      return false;
    }
    var state := bar.Read(STATE);
    if state != 0 {
      return false;
    }
    ok := bar.CommitChecked(Words(value), 0);
  }

  /** publishAbortLifetime over the BAR. With truthful loads it succeeds exactly when the current
      record is the VALID record of the same lease; otherwise nothing is stored. */
  method PublishAbortLifetime(bar: Bar, value: LifetimeStatus) returns (ok: bool)
    requires bar.Valid() && |bar.vram.current| == WORDS
    modifies bar
    ensures bar.Valid() && |bar.vram.current| == WORDS
    ensures Published(bar, value, ABORTING)
    ensures ok ==> bar.vram == Settled(Words(value)) && ValidEncoding(value) && value.state == ABORT
    ensures old(bar.faults) == [] ==>
              (ok <==> Proceeds(old(bar.vram.current), PublishAbort(value))) &&
              bar.Issued(AttemptOps(old(bar.vram.current), PublishAbort(value)))
  {
    assert Run(bar.vram, []) == bar.vram && bar.log + [] == bar.log;
    if !ValidEncoding(value) || value.state != ABORT {
      return false;
    }
    var current := ReadRecord(bar);
    if !AbortReplaces(Decode(current), value) {
      return false;
    }
    ok := bar.CommitChecked(Words(value), ABORTING);
  }

  /** The loop that loads the whole current record. */
  method ReadRecord(bar: Bar) returns (words: seq<Word>)
    requires bar.Valid() && |bar.vram.current| == WORDS
    modifies bar`faults
    ensures |words| == WORDS
    ensures old(bar.faults) == [] ==> bar.faults == [] && words == bar.vram.current
  {
    words := [];
    while |words| < WORDS
      invariant |words| <= WORDS
      invariant old(bar.faults) == [] ==> bar.faults == [] && words == bar.vram.current[..|words|]
    {
      var w := bar.Read(|words|);
      words := words + [w];
    }
  }
}
