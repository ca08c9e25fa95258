/** The snapshot of the critical records: what it means, the lines it is sent as, and the two-pass encoder. */
module ReplaySnapshot {
  import opened Checksums
  import opened LineWriter
  import opened Options
  import opened ReplayLines

  const STORAGE: nat := 512
  const MAX_RECORDS: nat := 512
  const CHUNK_BYTES: nat := 40

  type Storage = r: seq<Byte> | |r| == 512 witness seq(512, _ => 0)

  predicate Printable(b: Byte) {
    0x20 <= b <= 0x7e
  }

  /** A consistent set of records, as it is to be sent. */
  datatype Snapshot = Snapshot(build: string, snapshot: nat, texts: seq<seq<Byte>>, dropped: nat, truncated: nat)

  predicate ValidSnapshot(s: Snapshot) {
    && IsBuild(s.build) && s.snapshot < 0x1_0000_0000 && |s.texts| <= MAX_RECORDS
    && s.dropped < 0x1_0000_0000_0000_0000 && s.truncated < 0x1_0000_0000_0000_0000
    && forall r :: 0 <= r < |s.texts| ==> |s.texts[r]| < STORAGE
  }

  // ---- Parts ----

  function PartCount(n: nat): (parts: nat)
    ensures parts > 0 && (n < 512 ==> parts <= 13)
  {
    if n == 0 then 1 else (n + CHUNK_BYTES - 1) / CHUNK_BYTES
  }

  function PartLength(n: nat, part: nat): (l: nat)
    ensures l <= CHUNK_BYTES && (l > 0 ==> 40 * part + l <= n)
  {
    if 40 * part < n && n - 40 * part > CHUNK_BYTES then CHUNK_BYTES
    else if 40 * part < n then n - 40 * part else 0
  }

  function PartOf(text: seq<Byte>, part: nat): (b: seq<Byte>)
    ensures |b| == PartLength(|text|, part)
  {
    if PartLength(|text|, part) == 0 then [] else text[40 * part..40 * part + PartLength(|text|, part)]
  }

  /** The first `n` parts, joined. */
  function JoinParts(partAt: nat -> seq<Byte>, n: nat): seq<Byte> {
    if n == 0 then [] else JoinParts(partAt, n - 1) + partAt(n - 1)
  }

  /** How much of a text of `length` bytes is in its first `n` parts. */
  function Covered(length: nat, n: nat): (c: nat)
    ensures c <= length
  {
    if 40 * n < length then 40 * n else length
  }

  lemma OneMorePart(text: seq<Byte>, n: nat)
    requires n < PartCount(|text|)
    ensures text[..Covered(|text|, n)] + PartOf(text, n) == text[..Covered(|text|, n + 1)]
  {
    if PartLength(|text|, n) > 0 {
      assert 40 * n + PartLength(|text|, n) == Covered(|text|, n + 1);
    } else {
      assert text == [];
    }
  }

  lemma {:induction false} PartsUpTo(text: seq<Byte>, partAt: nat -> seq<Byte>, n: nat)
    requires n <= PartCount(|text|) && forall p: nat :: p < n ==> partAt(p) == PartOf(text, p)
    ensures JoinParts(partAt, n) == text[..Covered(|text|, n)]
  {
    if n > 0 {
      PartsUpTo(text, partAt, n - 1);
      OneMorePart(text, n - 1);
    }
  }

  /** The parts of a text, joined in order, are the text. */
  lemma PartsJoin(text: seq<Byte>, partAt: nat -> seq<Byte>)
    requires forall p: nat :: p < PartCount(|text|) ==> partAt(p) == PartOf(text, p)
    ensures JoinParts(partAt, PartCount(|text|)) == text
  {
    PartsUpTo(text, partAt, PartCount(|text|));
    assert text[..|text|] == text;
  }

  // ---- Canonical bytes ----

  /** A number in `n` bytes, lowest first. */
  function Le(value: nat, n: nat): seq<Byte>
    decreases n
  {
    if n == 0 then [] else [(value % 256) as Byte] + Le(value / 256, n - 1)
  }

  function BuildBytes(build: string): seq<Byte>
    requires IsBuild(build)
  {
    UnHexBytes(build).value
  }

  /** The bytes before the payload that a chunk's check value is over. */
  function ChunkHeader(build: seq<Byte>, snapshot: nat, record: nat, part: nat, parts: nat, length: nat): seq<Byte> {
    [1] + build + Le(snapshot, 4) + (Le(record, 2) + Le(part, 1) + Le(parts, 1) + Le(length, 1))
  }

  function ChunkCrc(build: seq<Byte>, snapshot: nat, record: nat, part: nat, parts: nat, payload: seq<Byte>): bv32 {
    Crc(ChunkHeader(build, snapshot, record, part, parts, |payload|) + payload)
  }

  const DOMAIN: seq<Byte> := [0x52, 0x47, 0x50, 0x55, 0x2d, 0x43, 0x52, 0x32, 0]

  function TotalBytes(texts: seq<seq<Byte>>, n: nat): nat
    requires n <= |texts|
  {
    if n == 0 then 0 else TotalBytes(texts, n - 1) + |texts[n - 1]|
  }

  function TotalChunks(texts: seq<seq<Byte>>, n: nat): nat {
    Total(PartsOf(texts), n)
  }

  function Prefix(s: Snapshot): seq<Byte>
    requires IsBuild(s.build)
  {
    DOMAIN + [1] + BuildBytes(s.build) + Le(s.snapshot, 4) + ([0, 0] + Le(|s.texts|, 2)) + Le(s.dropped, 8) + Le(s.truncated, 8) +
    Le(TotalBytes(s.texts, |s.texts|), 4) + Le(TotalChunks(s.texts, |s.texts|), 4)
  }

  function RecordHeader(s: Snapshot, r: nat): seq<Byte>
    requires r < |s.texts|
  {
    Le(r, 2) + Le(|s.texts[r]|, 2)
  }

  /** The bytes both checksums are over: the prefix, then every record with its number and length. */
  function CanonicalUpTo(s: Snapshot, n: nat): seq<Byte>
    requires IsBuild(s.build) && n <= |s.texts|
  {
    if n == 0 then Prefix(s) else CanonicalUpTo(s, n - 1) + RecordHeader(s, n - 1) + s.texts[n - 1]
  }

  function Canonical(s: Snapshot): seq<Byte>
    requires IsBuild(s.build)
  {
    CanonicalUpTo(s, |s.texts|)
  }

  // ---- Lines ----

  function ChunkOf(s: Snapshot, r: nat, p: nat): Chunk
    requires IsBuild(s.build) && r < |s.texts|
  {
    var parts := PartCount(|s.texts[r]|);
    var payload := PartOf(s.texts[r], p);
    Chunk(s.build, s.snapshot, r, p, parts, payload, ChunkCrc(BuildBytes(s.build), s.snapshot, r, p, parts, payload) as nat)
  }

  function EndOf(s: Snapshot): End
    requires IsBuild(s.build)
  {
    var n := |s.texts|;
    End(s.build, s.snapshot, n, s.dropped, s.truncated, TotalBytes(s.texts, n), TotalChunks(s.texts, n),
        Crc(Canonical(s)) as nat, Fnv(Canonical(s)))
  }

  /** The lines of one record, when `lineAt` says what stands on each. */
  function RecordLines(lineAt: (nat, nat) -> string, r: nat, n: nat): seq<string> {
    if n == 0 then [] else RecordLines(lineAt, r, n - 1) + [lineAt(r, n - 1)]
  }

  /** The lines of the first `n` records, when `partsOf` says how many each has. */
  function LinesUpTo(lineAt: (nat, nat) -> string, partsOf: nat -> nat, n: nat): seq<string> {
    if n == 0 then [] else LinesUpTo(lineAt, partsOf, n - 1) + RecordLines(lineAt, n - 1, partsOf(n - 1))
  }

  function Total(partsOf: nat -> nat, n: nat): nat {
    if n == 0 then 0 else Total(partsOf, n - 1) + partsOf(n - 1)
  }

  function PartsOf(texts: seq<seq<Byte>>): nat -> nat {
    (r: nat) => if r < |texts| then PartCount(|texts[r]|) else 0
  }

  function LineAt(s: Snapshot): (nat, nat) -> string
    requires IsBuild(s.build)
  {
    (r: nat, p: nat) => if r < |s.texts| then ChunkText(ChunkOf(s, r, p)) else ""
  }

  function ChunkLines(s: Snapshot): seq<string>
    requires IsBuild(s.build)
  {
    LinesUpTo(LineAt(s), PartsOf(s.texts), |s.texts|)
  }

  function Lines(s: Snapshot): seq<string>
    requires IsBuild(s.build)
  {
    ChunkLines(s) + [EndText(EndOf(s))]
  }

  lemma {:induction false} BytesBound(texts: seq<seq<Byte>>, n: nat)
    requires n <= |texts| && forall r :: 0 <= r < |texts| ==> |texts[r]| < STORAGE
    ensures TotalBytes(texts, n) <= 511 * n
  {
    if n > 0 {
      BytesBound(texts, n - 1);
    }
  }

  lemma {:induction false} TotalBound(partsOf: nat -> nat, n: nat)
    requires forall r: nat :: r < n ==> partsOf(r) <= 13
    ensures Total(partsOf, n) <= 13 * n
  {
    if n > 0 {
      TotalBound(partsOf, n - 1);
    }
  }

  lemma TotalsBound(texts: seq<seq<Byte>>)
    requires forall r :: 0 <= r < |texts| ==> |texts[r]| < STORAGE
    ensures TotalBytes(texts, |texts|) <= 511 * |texts| && TotalChunks(texts, |texts|) <= 13 * |texts|
  {
    BytesBound(texts, |texts|);
    TotalBound(PartsOf(texts), |texts|);
  }

  lemma ChunksValid(s: Snapshot, r: nat, p: nat)
    requires ValidSnapshot(s) && r < |s.texts| && p < PartCount(|s.texts[r]|)
    ensures ValidChunk(ChunkOf(s, r, p))
  {
  }

  lemma EndValid(s: Snapshot)
    requires ValidSnapshot(s)
    ensures ValidEnd(EndOf(s))
  {
    TotalsBound(s.texts);
  }

  // ---- What a reader gets out of the lines ----

  lemma {:induction false} RecordLinesAre(lineAt: (nat, nat) -> string, r: nat, n: nat, l: string)
    ensures |RecordLines(lineAt, r, n)| == n
    ensures l in RecordLines(lineAt, r, n) <==> exists p: nat :: p < n && l == lineAt(r, p)
  {
    if n > 0 {
      RecordLinesAre(lineAt, r, n - 1, l);
    }
  }

  /** Line `l` is that of part `p` of record `r`, among the first `n` records. */
  predicate IsLine(lineAt: (nat, nat) -> string, partsOf: nat -> nat, n: nat, l: string, r: nat, p: nat) {
    r < n && p < partsOf(r) && l == lineAt(r, p)
  }

  ghost predicate SomeLine(lineAt: (nat, nat) -> string, partsOf: nat -> nat, n: nat, l: string) {
    exists r: nat, p: nat :: IsLine(lineAt, partsOf, n, l, r, p)
  }

  lemma {:induction false} LinesAre(lineAt: (nat, nat) -> string, partsOf: nat -> nat, n: nat, l: string)
    ensures |LinesUpTo(lineAt, partsOf, n)| == Total(partsOf, n)
    ensures l in LinesUpTo(lineAt, partsOf, n) <==> SomeLine(lineAt, partsOf, n, l)
  {
    if n > 0 {
      LinesAre(lineAt, partsOf, n - 1, l);
      RecordLinesAre(lineAt, n - 1, partsOf(n - 1), l);
      if l in RecordLines(lineAt, n - 1, partsOf(n - 1)) {
        var p: nat :| p < partsOf(n - 1) && l == lineAt(n - 1, p);
        assert IsLine(lineAt, partsOf, n, l, n - 1, p);
      } else if l in LinesUpTo(lineAt, partsOf, n - 1) {
        var r: nat, p: nat :| IsLine(lineAt, partsOf, n - 1, l, r, p);
        assert IsLine(lineAt, partsOf, n, l, r, p);
      } else {
        LineIsOld(lineAt, partsOf, n, l);
      }
    }
  }

  lemma LineIsOld(lineAt: (nat, nat) -> string, partsOf: nat -> nat, n: nat, l: string)
    requires n > 0 && l !in RecordLines(lineAt, n - 1, partsOf(n - 1))
    requires !SomeLine(lineAt, partsOf, n - 1, l)
    ensures !SomeLine(lineAt, partsOf, n, l)
  {
    RecordLinesAre(lineAt, n - 1, partsOf(n - 1), l);
    forall r: nat, p: nat
      ensures !IsLine(lineAt, partsOf, n, l, r, p)
    {
      assert !IsLine(lineAt, partsOf, n - 1, l, r, p);
    }
  }

  predicate IsChunkLine(s: Snapshot, r: nat, p: nat, l: string)
    requires IsBuild(s.build)
  {
    r < |s.texts| && p < PartCount(|s.texts[r]|) && l == ChunkText(ChunkOf(s, r, p))
  }

  /** The chunk lines are as many as declared, and are exactly those of the parts of the records. */
  lemma ChunkLinesAre(s: Snapshot, l: string)
    requires IsBuild(s.build)
    ensures |ChunkLines(s)| == TotalChunks(s.texts, |s.texts|)
    ensures l in ChunkLines(s) <==> exists r: nat, p: nat :: IsChunkLine(s, r, p, l)
  {
    var lineAt, partsOf, n := LineAt(s), PartsOf(s.texts), |s.texts|;
    LinesAre(lineAt, partsOf, n, l);
    if SomeLine(lineAt, partsOf, n, l) {
      var r: nat, p: nat :| IsLine(lineAt, partsOf, n, l, r, p);
      LineIsChunk(s, l, r, p);
    } else {
      forall r: nat, p: nat
        ensures !IsChunkLine(s, r, p, l)
      {
        LineIsChunk(s, l, r, p);
      }
    }
  }

  lemma LineIsChunk(s: Snapshot, l: string, r: nat, p: nat)
    requires IsBuild(s.build)
    ensures IsLine(LineAt(s), PartsOf(s.texts), |s.texts|, l, r, p) <==> IsChunkLine(s, r, p, l)
  {
  }

  /** Among the received lines there is one that carries this part of this record. */
  ghost predicate Carries(received: seq<string>, c: Chunk) {
    exists l :: l in received && ReadChunk(l) == Some(c)
  }

  /** The received lines are those of the snapshot, in any order and with any repetitions. */
  ghost predicate SameLines(received: seq<string>, s: Snapshot)
    requires IsBuild(s.build)
  {
    forall l :: l in received <==> l in Lines(s)
  }

  predicate IsPart(s: Snapshot, c: Chunk)
    requires IsBuild(s.build)
  {
    c.record < |s.texts| && c.part < PartCount(|s.texts[c.record]|) && c == ChunkOf(s, c.record, c.part)
  }

  /** What reads as a chunk is a part of a record, and every part is there to be read. */
  lemma CarriesParts(s: Snapshot, received: seq<string>, c: Chunk)
    requires ValidSnapshot(s) && SameLines(received, s)
    ensures Carries(received, c) <==> IsPart(s, c)
  {
    EndValid(s);
    EndRoundTrip(EndOf(s));
    if Carries(received, c) {
      var l :| l in received && ReadChunk(l) == Some(c);
      LineOfChunk(s, l, c);
    }
    if IsPart(s, c) {
      var l := ChunkText(c);
      assert IsChunkLine(s, c.record, c.part, l);
      ChunkLinesAre(s, l);
      ChunksValid(s, c.record, c.part);
      ChunkRoundTrip(c);
      assert l in Lines(s) && l in received;
    }
  }

  /** What is carried is exactly the parts of the records. */
  ghost predicate CarriesExactly(received: seq<string>, s: Snapshot)
    requires IsBuild(s.build)
  {
    forall c :: Carries(received, c) <==> IsPart(s, c)
  }

  lemma LineOfChunk(s: Snapshot, l: string, c: Chunk)
    requires ValidSnapshot(s) && l in Lines(s) && ReadChunk(l) == Some(c) && ReadChunk(EndText(EndOf(s))) == None
    ensures IsPart(s, c)
  {
    ChunkLinesAre(s, l);
    assert l != EndText(EndOf(s)) && l in ChunkLines(s);
    var r: nat, p: nat :| IsChunkLine(s, r, p, l);
    ChunksValid(s, r, p);
    ChunkRoundTrip(ChunkOf(s, r, p));
  }

  /** A reader's way to one part: any received chunk with that record and part number. */
  ghost function PartIn(received: seq<string>, r: nat, p: nat): seq<Byte> {
    if exists c :: Carries(received, c) && c.record == r && c.part == p
    then (var c :| Carries(received, c) && c.record == r && c.part == p; c.payload)
    else []
  }

  /** A reader's way to the number of parts of a record: what any received chunk of it says. */
  ghost function PartsIn(received: seq<string>, r: nat): nat {
    if exists c :: Carries(received, c) && c.record == r
    then (var c :| Carries(received, c) && c.record == r; c.parts)
    else 0
  }

  ghost function PartAt(received: seq<string>, r: nat): nat -> seq<Byte> {
    (p: nat) => PartIn(received, r, p)
  }

  /** The record as a reader puts it together, from nothing but the received lines. */
  ghost function Reassembled(received: seq<string>, r: nat): seq<Byte> {
    JoinParts(PartAt(received, r), PartsIn(received, r))
  }

  lemma PartIsRead(s: Snapshot, received: seq<string>, r: nat, p: nat)
    requires IsBuild(s.build) && CarriesExactly(received, s) && r < |s.texts| && p < PartCount(|s.texts[r]|)
    ensures PartIn(received, r, p) == PartOf(s.texts[r], p)
  {
    assert IsPart(s, ChunkOf(s, r, p));
    assert Carries(received, ChunkOf(s, r, p));
  }

  lemma PartsAreRead(s: Snapshot, received: seq<string>, r: nat)
    requires IsBuild(s.build) && CarriesExactly(received, s) && r < |s.texts|
    ensures PartsIn(received, r) == PartCount(|s.texts[r]|)
  {
    assert IsPart(s, ChunkOf(s, r, 0));
    assert Carries(received, ChunkOf(s, r, 0));
  }

  lemma RecordIsRead(s: Snapshot, received: seq<string>, r: nat)
    requires IsBuild(s.build) && CarriesExactly(received, s) && r < |s.texts|
    ensures Reassembled(received, r) == s.texts[r]
  {
    PartsAreRead(s, received, r);
    forall p: nat | p < PartCount(|s.texts[r]|)
      ensures PartAt(received, r)(p) == PartOf(s.texts[r], p)
    {
      PartIsRead(s, received, r, p);
    }
    PartsJoin(s.texts[r], PartAt(received, r));
  }

  /** The records come back from their lines alone, whatever the order the lines are received in and
      however often. */
  lemma RecordsRoundTrip(s: Snapshot, received: seq<string>, r: nat)
    requires ValidSnapshot(s) && SameLines(received, s) && r < |s.texts|
    ensures Reassembled(received, r) == s.texts[r]
  {
    forall c: Chunk
      ensures Carries(received, c) <==> IsPart(s, c)
    {
      CarriesParts(s, received, c);
    }
    RecordIsRead(s, received, r);
  }

  /** The closing line is read back too; it declares as many chunk lines as there are, the totals of
      the records, and both checksums over the canonical bytes. */
  lemma EndTellsTotals(s: Snapshot)
    requires ValidSnapshot(s)
    ensures |Lines(s)| == TotalChunks(s.texts, |s.texts|) + 1
    ensures ReadEnd(Lines(s)[|Lines(s)| - 1]) == Some(EndOf(s))
    ensures EndOf(s).chunks == |Lines(s)| - 1 && EndOf(s).count == |s.texts|
    ensures EndOf(s).crc == Crc(Canonical(s)) as nat && EndOf(s).fnv == Fnv(Canonical(s))
  {
    EndValid(s);
    EndRoundTrip(EndOf(s));
    ChunkLinesAre(s, "");
  }

  /** A chunk whose payload was changed in one byte no longer matches its check value. */
  lemma CorruptionNoticed(build: seq<Byte>, snapshot: nat, record: nat, part: nat, parts: nat, payload: seq<Byte>, i: nat, b: Byte)
    requires i < |payload| && payload[i] != b
    ensures ChunkCrc(build, snapshot, record, part, parts, payload[i := b]) != ChunkCrc(build, snapshot, record, part, parts, payload)
  {
    PayloadMatters(ChunkHeader(build, snapshot, record, part, parts, |payload|), payload, i, b);
  }

  lemma PayloadMatters(front: seq<Byte>, payload: seq<Byte>, i: nat, b: Byte)
    requires i < |payload| && payload[i] != b
    ensures Crc(front + payload) != Crc(front + payload[i := b])
  {
    OneByteChangesCrc(front + payload, |front| + i, b);
    assert (front + payload)[|front| + i := b] == front + payload[i := b];
  }

  // ---- Sizes on the wire ----

  const MAX_WIRE: nat := 2 + 512 * 13 * (172 + 2) + 206 + 2

  /** Each line is followed by a carriage return and a line feed. */
  function WireBytes(lines: seq<string>): nat {
    if lines == [] then 0 else WireBytes(lines[..|lines| - 1]) + |lines[|lines| - 1]| + 2
  }

  lemma {:induction false} WireBound(lines: seq<string>, width: nat)
    requires forall l :: l in lines ==> |l| <= width
    ensures WireBytes(lines) <= |lines| * (width + 2)
  {
    if lines != [] {
      var front := lines[..|lines| - 1];
      WireBound(front, width);
      assert lines[|lines| - 1] in lines;
      assert |lines| * (width + 2) == |front| * (width + 2) + (width + 2);
    }
  }

  lemma ChunkLineFits(s: Snapshot, l: string)
    requires ValidSnapshot(s) && l in ChunkLines(s)
    ensures |l| <= MAX_CHUNK_LINE
  {
    ChunkLinesAre(s, l);
    var r: nat, p: nat :| IsChunkLine(s, r, p, l);
    ChunksValid(s, r, p);
    EndValid(s);
    LineWidths(ChunkOf(s, r, p), EndOf(s));
  }

  lemma EndLineFits(s: Snapshot)
    requires ValidSnapshot(s)
    ensures |EndText(EndOf(s))| == MAX_END_LINE
  {
    EndValid(s);
    LineWidths(Chunk(s.build, 0, 0, 0, 0, [], 0), EndOf(s));
  }

  /** Every line keeps its limit, and with the leading line break the snapshot keeps the wire limit. */
  lemma WireFits(s: Snapshot)
    requires ValidSnapshot(s)
    ensures forall l :: l in ChunkLines(s) ==> |l| <= MAX_CHUNK_LINE
    ensures |EndText(EndOf(s))| == MAX_END_LINE
    ensures 2 + WireBytes(Lines(s)) <= MAX_WIRE
  {
    forall l | l in ChunkLines(s)
      ensures |l| <= MAX_CHUNK_LINE
    {
      ChunkLineFits(s, l);
    }
    EndLineFits(s);
    WireTotal(ChunkLines(s), EndText(EndOf(s)));
    ChunkLinesAre(s, "");
    TotalsBound(s.texts);
  }

  lemma WireTotal(chunkLines: seq<string>, last: string)
    requires forall l :: l in chunkLines ==> |l| <= MAX_CHUNK_LINE
    ensures WireBytes(chunkLines + [last]) <= |chunkLines| * 174 + |last| + 2
  {
    WireBound(chunkLines, MAX_CHUNK_LINE);
    assert (chunkLines + [last])[..|chunkLines|] == chunkLines;
  }
}
