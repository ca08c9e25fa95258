/** The strict reader of one snapshot: what it checks, and that it reads exactly what the encoder can send. */
module ReplayReader {
  import opened Checksums
  import opened Options
  import opened ReplayEncoder
  import opened ReplayLines
  import opened ReplaySnapshot

  // ---- What the reader checks ----

  ghost predicate CarriesEnd(received: seq<string>, e: End) {
    exists l :: l in received && ReadEnd(l) == Some(e)
  }

  /** A chunk of this build and snapshot within the bounds of the format, with its own check value. */
  predicate ChunkSound(c: Chunk, build: string, snapshot: nat)
    requires IsBuild(build)
  {
    && c.build == build && c.snapshot == snapshot
    && c.record < MAX_RECORDS && 1 <= c.parts <= 13 && c.part < c.parts && |c.payload| <= CHUNK_BYTES
    && c.crc == ChunkCrc(BuildBytes(build), snapshot, c.record, c.part, c.parts, c.payload) as nat
  }

  /** Every line of the transport reads as a sound chunk or as a closing line. */
  predicate LineSound(l: string, build: string, snapshot: nat)
    requires IsBuild(build)
  {
    match ReadChunk(l)
    case Some(c) => ChunkSound(c, build, snapshot)
    case None =>
      match ReadEnd(l)
      case Some(e) => e.build == build && e.snapshot == snapshot
      case None => false
  }

  ghost predicate NoConflict(received: seq<string>) {
    && (forall c, d :: Carries(received, c) && Carries(received, d) && c.record == d.record && c.part == d.part ==> c == d)
    && forall e, f :: CarriesEnd(received, e) && CarriesEnd(received, f) ==> e == f
  }

  ghost predicate HasPart(received: seq<string>, r: nat, p: nat) {
    exists c :: Carries(received, c) && c.record == r && c.part == p
  }

  /** The chunks of record `r` agree on the number of parts, are complete, and only the last may be short. */
  ghost predicate RecordComplete(received: seq<string>, r: nat) {
    var parts := PartsIn(received, r);
    && parts > 0
    && (forall c :: Carries(received, c) && c.record == r ==> c.parts == parts)
    && (forall p: nat :: p < parts ==> HasPart(received, r, p))
    && WellSplit(PartAt(received, r), parts)
  }

  ghost predicate WellSplit(partAt: nat -> seq<Byte>, parts: nat) {
    && (forall p: nat :: p + 1 < parts ==> |partAt(p)| == CHUNK_BYTES)
    && (parts > 1 ==> |partAt(parts - 1)| > 0)
  }

  /** The record and part numbers of the received chunks. */
  function Keys(received: seq<string>): set<(nat, nat)> {
    set l | l in received && ReadChunk(l).Some? :: (ReadChunk(l).value.record, ReadChunk(l).value.part)
  }

  /** The closing line declares these records: their number, no loss, the totals, and both checksums. The
      hashed bytes contain the totals; with all of this they are the declared ones. */
  ghost predicate Manifests(received: seq<string>, e: End, s: Snapshot)
    requires IsBuild(s.build)
  {
    && e.count == |s.texts| <= MAX_RECORDS
    && e.dropped == s.dropped == 0 && e.truncated == s.truncated == 0
    && e.bytes == TotalBytes(s.texts, |s.texts|) && e.chunks == |Keys(received)|
    && e.crc == Crc(Canonical(s)) as nat && e.fnv == Fnv(Canonical(s))
  }

  predicate TextSound(text: seq<Byte>) {
    |text| < STORAGE && forall i :: 0 <= i < |text| ==> Printable(text[i])
  }

  /** The reader accepts the received lines as this snapshot. */
  ghost predicate Reads(received: seq<string>, s: Snapshot) {
    && IsBuild(s.build)
    && (forall l :: l in received ==> LineSound(l, s.build, s.snapshot))
    && NoConflict(received)
    && (exists e :: CarriesEnd(received, e) && Manifests(received, e, s))
    && (forall c :: Carries(received, c) ==> c.record < |s.texts|)
    && forall r :: 0 <= r < |s.texts| ==>
         RecordComplete(received, r) && s.texts[r] == Reassembled(received, r) && TextSound(s.texts[r])
  }

  // ---- What that amounts to ----

  /** A snapshot that reports no loss and holds printable records. */
  predicate Clean(s: Snapshot) {
    ValidSnapshot(s) && s.dropped == 0 && s.truncated == 0 && forall r :: 0 <= r < |s.texts| ==> TextSound(s.texts[r])
  }

  /** The received lines say what the lines of the snapshot say, no more and no less. */
  ghost predicate SameContent(received: seq<string>, s: Snapshot)
    requires IsBuild(s.build)
  {
    && (forall l :: l in received ==> ReadChunk(l).Some? || ReadEnd(l).Some?)
    && CarriesExactly(received, s)
    && forall e :: CarriesEnd(received, e) <==> e == EndOf(s)
  }

  // ---- Counting the chunks ----

  function RowSet(r: nat, k: nat): set<(nat, nat)> {
    if k == 0 then {} else RowSet(r, k - 1) + {(r, k - 1)}
  }

  function KeySet(partsOf: nat -> nat, n: nat): set<(nat, nat)> {
    if n == 0 then {} else KeySet(partsOf, n - 1) + RowSet(n - 1, partsOf(n - 1))
  }

  lemma {:induction false} RowSetHas(r: nat, k: nat, x: (nat, nat))
    ensures x in RowSet(r, k) <==> x.0 == r && x.1 < k
  {
    if k > 0 {
      RowSetHas(r, k - 1, x);
    }
  }

  lemma {:induction false} RowSetSize(r: nat, k: nat)
    ensures |RowSet(r, k)| == k
  {
    if k > 0 {
      RowSetSize(r, k - 1);
      RowSetHas(r, k - 1, (r, k - 1));
    }
  }

  lemma {:induction false} KeySetHas(partsOf: nat -> nat, n: nat, x: (nat, nat))
    ensures x in KeySet(partsOf, n) <==> x.0 < n && x.1 < partsOf(x.0)
  {
    if n > 0 {
      hide RowSet;
      KeySetHas(partsOf, n - 1, x);
      RowSetHas(n - 1, partsOf(n - 1), x);
    }
  }

  lemma SizesAdd(a: set<(nat, nat)>, b: set<(nat, nat)>)
    requires a !! b
    ensures |a + b| == |a| + |b|
  {
  }

  lemma RowIsNew(partsOf: nat -> nat, n: nat, k: nat)
    ensures KeySet(partsOf, n) !! RowSet(n, k)
  {
    hide KeySet, RowSet;
    forall x | x in RowSet(n, k)
      ensures x !in KeySet(partsOf, n)
    {
      KeySetHas(partsOf, n, x);
      RowSetHas(n, k, x);
    }
  }

  lemma RowAdds(partsOf: nat -> nat, n: nat, k: nat)
    ensures |KeySet(partsOf, n) + RowSet(n, k)| == |KeySet(partsOf, n)| + k
  {
    hide KeySet, RowSet;
    RowSetSize(n, k);
    RowIsNew(partsOf, n, k);
    SizesAdd(KeySet(partsOf, n), RowSet(n, k));
  }

  function KeyCount(partsOf: nat -> nat, n: nat): nat {
    |KeySet(partsOf, n)|
  }

  lemma NoKeys(partsOf: nat -> nat)
    ensures KeyCount(partsOf, 0) == 0
  {
  }

  lemma MoreKeys(partsOf: nat -> nat, n: nat)
    ensures KeyCount(partsOf, n + 1) == KeyCount(partsOf, n) + partsOf(n)
  {
    RowAdds(partsOf, n, partsOf(n));
  }

  lemma {:induction false} KeySetSize(partsOf: nat -> nat, n: nat)
    ensures KeyCount(partsOf, n) == Total(partsOf, n)
    decreases n
  {
    hide KeyCount;
    if n == 0 {
      NoKeys(partsOf);
    } else {
      KeySetSize(partsOf, n - 1);
      MoreKeys(partsOf, n - 1);
    }
  }

  lemma KeyIn(received: seq<string>, x: (nat, nat))
    ensures x in Keys(received) <==> HasPart(received, x.0, x.1)
  {
    if HasPart(received, x.0, x.1) {
      var c :| Carries(received, c) && c.record == x.0 && c.part == x.1;
      var l :| l in received && ReadChunk(l) == Some(c);
    }
    if x in Keys(received) {
      var l :| l in received && ReadChunk(l).Some? && x == (ReadChunk(l).value.record, ReadChunk(l).value.part);
      assert Carries(received, ReadChunk(l).value);
    }
  }

  /** With a chunk for every part and for nothing else there are as many as the records have parts. */
  lemma KeysCount(received: seq<string>, texts: seq<seq<Byte>>)
    requires forall r: nat, p: nat :: HasPart(received, r, p) <==> r < |texts| && p < PartCount(|texts[r]|)
    ensures |Keys(received)| == TotalChunks(texts, |texts|)
  {
    var partsOf, n := PartsOf(texts), |texts|;
    KeySetSize(partsOf, n);
    forall x: (nat, nat)
      ensures x in Keys(received) <==> x in KeySet(partsOf, n)
    {
      KeyIn(received, x);
      KeySetHas(partsOf, n, x);
    }
    assert Keys(received) == KeySet(partsOf, n);
  }

  // ---- Splitting is what joining undoes ----

  lemma {:induction false} JoinLength(partAt: nat -> seq<Byte>, n: nat)
    requires forall p: nat :: p < n ==> |partAt(p)| == CHUNK_BYTES
    ensures |JoinParts(partAt, n)| == 40 * n
  {
    if n > 0 {
      JoinLength(partAt, n - 1);
    }
  }

  lemma {:induction false} JoinHas(partAt: nat -> seq<Byte>, n: nat, p: nat)
    requires p < n && forall q: nat :: q + 1 < n ==> |partAt(q)| == CHUNK_BYTES
    ensures |JoinParts(partAt, n)| == 40 * (n - 1) + |partAt(n - 1)|
    ensures 40 * p + |partAt(p)| <= |JoinParts(partAt, n)| && JoinParts(partAt, n)[40 * p..40 * p + |partAt(p)|] == partAt(p)
  {
    JoinLength(partAt, n - 1);
    if p + 1 < n {
      JoinHas(partAt, n - 1, p);
    }
  }

  /** Parts of which only the last is short are the parts of what they join to. */
  lemma WellSplitParts(partAt: nat -> seq<Byte>, parts: nat, p: nat)
    requires 0 < parts && p < parts && WellSplit(partAt, parts) && |partAt(parts - 1)| <= CHUNK_BYTES
    ensures PartCount(|JoinParts(partAt, parts)|) == parts && PartOf(JoinParts(partAt, parts), p) == partAt(p)
  {
    JoinHas(partAt, parts, p);
  }

  // ---- Whatever is accepted is a snapshot's content ----

  lemma NotBoth(l: string)
    requires ReadChunk(l).Some?
    ensures ReadEnd(l) == None
  {
    if ReadEnd(l).Some? {
      assert l[5] == CHUNK_TAG[5] == 'C' by { assert l[..|CHUNK_TAG|][5] == CHUNK_TAG[5]; }
      assert l[5] == END_TAG[5] == 'E' by { assert l[..|END_TAG|][5] == END_TAG[5]; }
    }
  }

  lemma CarriedIsSound(received: seq<string>, s: Snapshot, c: Chunk)
    requires Reads(received, s) && Carries(received, c)
    ensures ChunkSound(c, s.build, s.snapshot)
  {
    var l :| l in received && ReadChunk(l) == Some(c);
    assert LineSound(l, s.build, s.snapshot);
  }

  lemma EndIsSound(received: seq<string>, s: Snapshot, e: End)
    requires Reads(received, s) && CarriesEnd(received, e)
    ensures e.build == s.build && e.snapshot == s.snapshot
  {
    var l :| l in received && ReadEnd(l) == Some(e);
    assert LineSound(l, s.build, s.snapshot);
    if ReadChunk(l).Some? {
      NotBoth(l);
    }
  }

  /** The payload of a carried chunk is what the reader finds in its place. */
  lemma CarriedIsFound(received: seq<string>, c: Chunk)
    requires NoConflict(received) && Carries(received, c)
    ensures PartAt(received, c.record)(c.part) == c.payload
  {
  }

  lemma LastPartFits(received: seq<string>, s: Snapshot, r: nat)
    requires Reads(received, s) && r < |s.texts|
    ensures var parts := PartsIn(received, r); parts > 0 && |PartAt(received, r)(parts - 1)| <= CHUNK_BYTES
  {
    hide ReadChunk, ReadEnd, ChunkCrc, PartIn, PartsIn, Manifests, Reassembled;
    var parts := PartsIn(received, r);
    assert RecordComplete(received, r) && HasPart(received, r, parts - 1);
    var c :| Carries(received, c) && c.record == r && c.part == parts - 1;
    CarriedIsSound(received, s, c);
    CarriedIsFound(received, c);
  }

  lemma CarriedIsPart(received: seq<string>, s: Snapshot, c: Chunk)
    requires Reads(received, s) && Carries(received, c)
    ensures IsPart(s, c)
  {
    CarriedIsSound(received, s, c);
    CarriedIsFound(received, c);
    var r := c.record;
    assert RecordComplete(received, r) && s.texts[r] == Reassembled(received, r);
    LastPartFits(received, s, r);
    WellSplitParts(PartAt(received, r), PartsIn(received, r), c.part);
  }

  lemma PartIsCarried(received: seq<string>, s: Snapshot, r: nat, p: nat)
    requires Reads(received, s) && r < |s.texts| && p < PartCount(|s.texts[r]|)
    ensures Carries(received, ChunkOf(s, r, p))
  {
    assert RecordComplete(received, r) && s.texts[r] == Reassembled(received, r);
    LastPartFits(received, s, r);
    WellSplitParts(PartAt(received, r), PartsIn(received, r), 0);
    assert HasPart(received, r, p);
    var c :| Carries(received, c) && c.record == r && c.part == p;
    CarriedIsPart(received, s, c);
  }

  lemma ReadsCarriesExactly(received: seq<string>, s: Snapshot)
    requires Reads(received, s)
    ensures CarriesExactly(received, s)
  {
    forall c: Chunk
      ensures Carries(received, c) <==> IsPart(s, c)
    {
      if Carries(received, c) {
        CarriedIsPart(received, s, c);
      }
      if IsPart(s, c) {
        PartIsCarried(received, s, c.record, c.part);
      }
    }
  }

  lemma ExactKeys(received: seq<string>, s: Snapshot)
    requires IsBuild(s.build) && CarriesExactly(received, s)
    ensures |Keys(received)| == TotalChunks(s.texts, |s.texts|)
  {
    forall r: nat, p: nat
      ensures HasPart(received, r, p) <==> r < |s.texts| && p < PartCount(|s.texts[r]|)
    {
      if r < |s.texts| && p < PartCount(|s.texts[r]|) {
        assert IsPart(s, ChunkOf(s, r, p));
        assert Carries(received, ChunkOf(s, r, p));
      }
    }
    KeysCount(received, s.texts);
  }

  lemma ManifestIsEnd(received: seq<string>, s: Snapshot, e: End)
    requires Reads(received, s) && CarriesEnd(received, e) && Manifests(received, e, s)
    ensures e == EndOf(s)
  {
    ReadsCarriesExactly(received, s);
    ExactKeys(received, s);
    EndIsSound(received, s, e);
  }

  lemma ReadsEnd(received: seq<string>, s: Snapshot)
    requires Reads(received, s)
    ensures forall e :: CarriesEnd(received, e) <==> e == EndOf(s)
  {
    hide CarriesEnd, Manifests, EndOf, Canonical, TotalBytes, RecordComplete;
    var e :| CarriesEnd(received, e) && Manifests(received, e, s);
    ManifestIsEnd(received, s, e);
  }

  lemma ReadsClean(received: seq<string>, s: Snapshot)
    requires Reads(received, s) && s.snapshot < 0x1_0000_0000
    ensures Clean(s)
  {
    hide CarriesEnd, RecordComplete, Reassembled, LineSound, NoConflict;
    var e :| CarriesEnd(received, e) && Manifests(received, e, s);
  }

  lemma ReadsKnownLines(received: seq<string>, s: Snapshot)
    requires Reads(received, s)
    ensures forall l :: l in received ==> ReadChunk(l).Some? || ReadEnd(l).Some?
  {
    hide ReadChunk, ReadEnd, ChunkSound, NoConflict, CarriesEnd, Manifests, Carries, RecordComplete, Reassembled, TextSound;
    forall l | l in received
      ensures ReadChunk(l).Some? || ReadEnd(l).Some?
    {
      assert LineSound(l, s.build, s.snapshot);
    }
  }

  lemma ReadsContent(received: seq<string>, s: Snapshot)
    requires Reads(received, s) && s.snapshot < 0x1_0000_0000
    ensures Clean(s) && SameContent(received, s)
  {
    hide Reads, ReadChunk, ReadEnd, EndOf, CarriesExactly, CarriesEnd, ValidSnapshot, TextSound;
    ReadsClean(received, s);
    ReadsCarriesExactly(received, s);
    ReadsEnd(received, s);
    ReadsKnownLines(received, s);
  }

  // ---- The content of a snapshot is accepted ----

  lemma ContentLineSound(received: seq<string>, s: Snapshot, l: string)
    requires Clean(s) && SameContent(received, s) && l in received
    ensures LineSound(l, s.build, s.snapshot)
  {
    if ReadChunk(l).Some? {
      assert Carries(received, ReadChunk(l).value);
    } else {
      assert CarriesEnd(received, ReadEnd(l).value);
    }
  }

  lemma ContentRecord(received: seq<string>, s: Snapshot, r: nat)
    requires Clean(s) && CarriesExactly(received, s) && r < |s.texts|
    ensures RecordComplete(received, r) && s.texts[r] == Reassembled(received, r)
  {
    RecordIsRead(s, received, r);
    PartsAreRead(s, received, r);
    forall p: nat | p < PartCount(|s.texts[r]|)
      ensures HasPart(received, r, p) && PartAt(received, r)(p) == PartOf(s.texts[r], p)
    {
      PartIsRead(s, received, r, p);
      assert IsPart(s, ChunkOf(s, r, p));
      assert Carries(received, ChunkOf(s, r, p));
    }
  }

  lemma ContentReads(received: seq<string>, s: Snapshot)
    requires Clean(s) && SameContent(received, s)
    ensures Reads(received, s)
  {
    forall l | l in received
      ensures LineSound(l, s.build, s.snapshot)
    {
      ContentLineSound(received, s, l);
    }
    ExactKeys(received, s);
    assert CarriesEnd(received, EndOf(s)) && Manifests(received, EndOf(s), s);
    forall r | 0 <= r < |s.texts|
      ensures RecordComplete(received, r) && s.texts[r] == Reassembled(received, r)
    {
      ContentRecord(received, s, r);
    }
  }

  /** The reader accepts received lines as a snapshot exactly when the snapshot reports no loss, its records
      are printable, and the lines carry its parts and its closing line and nothing else. */
  lemma ReadsExactly(received: seq<string>, s: Snapshot)
    requires s.snapshot < 0x1_0000_0000
    ensures Reads(received, s) <==> Clean(s) && SameContent(received, s)
  {
    if Reads(received, s) {
      ReadsContent(received, s);
    }
    if Clean(s) && SameContent(received, s) {
      ContentReads(received, s);
    }
  }

  // ---- What follows ----

  lemma SentContent(received: seq<string>, s: Snapshot)
    requires ValidSnapshot(s) && SameLines(received, s)
    ensures SameContent(received, s)
  {
    forall c: Chunk
      ensures Carries(received, c) <==> IsPart(s, c)
    {
      CarriesParts(s, received, c);
    }
    forall l | l in received
      ensures ReadChunk(l).Some? || ReadEnd(l) == Some(EndOf(s))
    {
      SentLine(s, l);
    }
    EndValid(s);
    EndRoundTrip(EndOf(s));
    assert EndText(EndOf(s)) in Lines(s);
    assert CarriesEnd(received, EndOf(s));
    forall e | CarriesEnd(received, e)
      ensures e == EndOf(s)
    {
      var l :| l in received && ReadEnd(l) == Some(e);
      SentLine(s, l);
      if ReadChunk(l).Some? {
        NotBoth(l);
      }
    }
  }

  lemma SentChunk(s: Snapshot, r: nat, p: nat)
    requires ValidSnapshot(s) && r < |s.texts| && p < PartCount(|s.texts[r]|)
    ensures ReadChunk(ChunkText(ChunkOf(s, r, p))) == Some(ChunkOf(s, r, p)) && IsPart(s, ChunkOf(s, r, p))
  {
    ChunksValid(s, r, p);
    ChunkRoundTrip(ChunkOf(s, r, p));
  }

  /** A line of a snapshot is the text of one of its parts, or its closing line. */
  lemma SentLine(s: Snapshot, l: string)
    requires ValidSnapshot(s) && l in Lines(s)
    ensures (ReadChunk(l).Some? && IsPart(s, ReadChunk(l).value) && l == ChunkText(ReadChunk(l).value)) ||
            (ReadEnd(l) == Some(EndOf(s)) && l == EndText(EndOf(s)))
  {
    hide ReadChunk, ReadEnd, ChunkText, EndText, ChunkLines, EndOf;
    if l in ChunkLines(s) {
      ChunkLinesAre(s, l);
      var r: nat, p: nat :| IsChunkLine(s, r, p, l);
      SentChunk(s, r, p);
    } else {
      EndValid(s);
      EndRoundTrip(EndOf(s));
    }
  }

  /** The lines of a clean snapshot are read back as that snapshot, in any order and with any repetitions. */
  lemma ReadsWhatWasSent(received: seq<string>, s: Snapshot)
    requires Clean(s) && SameLines(received, s)
    ensures Reads(received, s)
  {
    SentContent(received, s);
    ReadsExactly(received, s);
  }

  /** Whatever the encoder accepts without loss, the reader reads back: exactly the stored texts. */
  lemma EncodedIsRead(received: seq<string>, build: string, snapshot: nat, count: nat, readRecord: nat -> Option<Storage>)
    requires snapshot < 0x1_0000_0000 && Accepts(Some(build), count, readRecord)
    requires SameLines(received, Sent(build, snapshot, count, 0, 0, readRecord))
    ensures Reads(received, Sent(build, snapshot, count, 0, 0, readRecord))
  {
    var s := Sent(build, snapshot, count, 0, 0, readRecord);
    forall r: nat | r < count
      ensures TextSound(s.texts[r])
    {
      assert Sendable(readRecord, r);
      assert s.texts[r] == TextAt(readRecord, r);
      var record, n := readRecord(r).value, LengthFrom(readRecord(r).value, 0).value;
      assert s.texts[r] == record[..n] && forall i :: 0 <= i < n ==> Printable(record[i]);
    }
    ReadsWhatWasSent(received, s);
  }

  /** No lines are read as two snapshots. */
  lemma ReadsOne(received: seq<string>, s: Snapshot, t: Snapshot)
    requires Reads(received, s) && Reads(received, t)
    ensures s == t
  {
    var e :| CarriesEnd(received, e) && Manifests(received, e, s);
    var f :| CarriesEnd(received, f) && Manifests(received, f, t);
    EndIsSound(received, s, e);
    EndIsSound(received, t, f);
    assert e == f;
    forall r | 0 <= r < |s.texts|
      ensures s.texts[r] == t.texts[r]
    {
      assert s.texts[r] == Reassembled(received, r);
      assert t.texts[r] == Reassembled(received, r);
    }
    assert s.texts == t.texts;
  }

  /** A chunk whose payload was changed in one byte is refused, whatever else is received. */
  lemma AlteredRefused(received: seq<string>, s: Snapshot, c: Chunk, i: nat, b: Byte, t: Snapshot)
    requires IsBuild(s.build) && IsPart(s, c) && i < |c.payload| && c.payload[i] != b
    requires Carries(received, c.(payload := c.payload[i := b]))
    ensures !Reads(received, t)
  {
    if Reads(received, t) {
      CarriedIsSound(received, t, c.(payload := c.payload[i := b]));
      hide ChunkCrc;
      CorruptionNoticed(BuildBytes(s.build), s.snapshot, c.record, c.part, c.parts, c.payload, i, b);
      SameCrc(ChunkCrc(BuildBytes(s.build), s.snapshot, c.record, c.part, c.parts, c.payload),
              ChunkCrc(BuildBytes(s.build), s.snapshot, c.record, c.part, c.parts, c.payload[i := b]));
    }
  }

  lemma SameCrc(a: bv32, b: bv32)
    requires a as nat == b as nat
    ensures a == b
  {
    var n := a as nat;
    assert n as bv32 == a;
    assert n as bv32 == b;
  }

  /** Of the lines of one snapshot, none can be missing. */
  lemma IncompleteRefused(received: seq<string>, s: Snapshot, missing: string, t: Snapshot)
    requires ValidSnapshot(s) && forall l :: l in received ==> l in Lines(s)
    requires missing in Lines(s) && missing !in received
    ensures !Reads(received, t)
  {
    if Reads(received, t) {
      SameEnd(received, s, t);
      SentLine(s, missing);
      if missing != EndText(EndOf(s)) {
        var c := ReadChunk(missing).value;
        PartOfBoth(received, s, t, c.record);
        PartIsCarried(received, t, c.record, c.part);
        var d := ChunkOf(t, c.record, c.part);
        var l :| l in received && ReadChunk(l) == Some(d);
        SentLine(s, l);
        NotBoth(l);
      }
    }
  }

  lemma SameEnd(received: seq<string>, s: Snapshot, t: Snapshot)
    requires ValidSnapshot(s) && (forall l :: l in received ==> l in Lines(s)) && Reads(received, t)
    ensures EndText(EndOf(s)) in received && |t.texts| == |s.texts|
  {
    var e :| CarriesEnd(received, e) && Manifests(received, e, t);
    var l :| l in received && ReadEnd(l) == Some(e);
    SentLine(s, l);
    if ReadChunk(l).Some? {
      NotBoth(l);
    }
  }

  lemma PartOfBoth(received: seq<string>, s: Snapshot, t: Snapshot, r: nat)
    requires ValidSnapshot(s) && (forall l :: l in received ==> l in Lines(s)) && Reads(received, t)
    requires r < |s.texts| == |t.texts|
    ensures PartCount(|t.texts[r]|) == PartCount(|s.texts[r]|)
  {
    PartIsCarried(received, t, r, 0);
    var c := ChunkOf(t, r, 0);
    var l :| l in received && ReadChunk(l) == Some(c);
    SentLine(s, l);
    NotBoth(l);
  }
}
