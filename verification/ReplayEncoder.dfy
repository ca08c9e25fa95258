/** The two-pass encoder of the critical replay stream. */
module ReplayEncoder {
  import opened Bits
  import opened Checksums
  import opened LineWriter
  import opened Options
  import opened ReplayLines
  import opened ReplaySnapshot

  // ---- Records as stored ----

  /** Where the text of a record ends: at its first NUL, if everything before it is printable. */
  function LengthFrom(record: Storage, k: nat): (n: Option<nat>)
    requires k <= 512
    ensures n.Some? ==> k <= n.value < 512 && record[n.value] == 0 && forall i :: k <= i < n.value ==> Printable(record[i])
    decreases 512 - k
  {
    if k == 512 then None
    else if record[k] == 0 then Some(k)
    else if !Printable(record[k]) then None
    else LengthFrom(record, k + 1)
  }

  /** The first NUL, behind printable characters only. */
  predicate EndsAt(record: Storage, k: nat, n: nat) {
    k <= n < 512 && record[n] == 0 && forall i :: k <= i < n ==> Printable(record[i])
  }

  /** A length is found exactly when there is one, and it is that one. */
  lemma {:induction false} LengthIs(record: Storage, k: nat, n: nat)
    requires k <= 512
    ensures LengthFrom(record, k) == Some(n) <==> EndsAt(record, k, n)
    decreases 512 - k
  {
    if k < 512 && record[k] != 0 && Printable(record[k]) {
      LengthIs(record, k + 1, n);
    }
  }

  method RecordLength(record: Storage) returns (length: nat, ok: bool)
    ensures ok ==> LengthFrom(record, 0) == Some(length)
    ensures !ok ==> LengthFrom(record, 0) == None
  {
    length := 0;
    while length < 512
      invariant length <= 512 && LengthFrom(record, 0) == LengthFrom(record, length)
    {
      var byte := record[length];
      if byte == 0 {
        return length, true;
      }
      if byte < 0x20 || byte > 0x7e {
        return length, false;
      }
      length := length + 1;
    }
    ok := false;
  }

  /** A slot that can be sent: published, and its text well formed. */
  predicate Sendable(readRecord: nat -> Option<Storage>, r: nat) {
    readRecord(r).Some? && LengthFrom(readRecord(r).value, 0).Some?
  }

  function TextAt(readRecord: nat -> Option<Storage>, r: nat): (t: seq<Byte>)
    requires Sendable(readRecord, r)
    ensures |t| < 512
  {
    readRecord(r).value[..LengthFrom(readRecord(r).value, 0).value]
  }

  function Texts(readRecord: nat -> Option<Storage>, n: nat): (ts: seq<seq<Byte>>)
    requires forall r: nat :: r < n ==> Sendable(readRecord, r)
    ensures |ts| == n && forall r :: 0 <= r < n ==> ts[r] == TextAt(readRecord, r)
  {
    if n == 0 then [] else Texts(readRecord, n - 1) + [TextAt(readRecord, n - 1)]
  }

  // ---- The build identity ----

  /** The character of a C string: past its end there is a NUL. */
  function At(text: string, i: nat): char {
    if i < |text| then text[i] else '\0'
  }

  lemma PairsOf(text: string, build: seq<Byte>)
    requires |text| == 32 && |build| == 16 && forall i :: 0 <= i < 16 ==> Pair(text[2 * i], text[2 * i + 1]) == Some(build[i])
    ensures IsBuild(text) && BuildBytes(text) == build
  {
    PairsBack(text, build);
  }

  /** Accepts exactly 32 lower-case hexadecimal digits. */
  method DecodeBuildId(text: Option<string>) returns (build: seq<Byte>, ok: bool)
    requires text.Some? ==> '\0' !in text.value
    ensures ok <==> text.Some? && IsBuild(text.value)
    ensures ok ==> build == BuildBytes(text.value) && |build| == 16
  {
    build := [];
    if text == None {
      return build, false;
    }
    var s := text.value;
    for i := 0 to 16
      invariant |build| == i && 2 * i <= |s|
      invariant forall k :: 0 <= k < i ==> Pair(s[2 * k], s[2 * k + 1]) == Some(build[k])
    {
      if At(s, 2 * i) == '\0' {
        return build, false;
      }
      if At(s, 2 * i + 1) == '\0' {
        return build, false;
      }
      var pair := Pair(s[2 * i], s[2 * i + 1]);
      if pair == None {
        return build, false;
      }
      build := build + [pair.value];
    }
    ok := At(s, 32) == '\0';
    if ok {
      PairsOf(s, build);
    }
  }

  // ---- Running checksums ----

  predicate Hashed(crc: bv32, fnv: U64, fed: seq<Byte>) {
    crc == Fold(CrcStep, CRC_START, fed) && fnv == Fold(FnvStep, FNV_START, fed)
  }

  method ChecksumBytes(crc: bv32, fnv: U64, bytes: seq<Byte>, ghost fed: seq<Byte>) returns (crc': bv32, fnv': U64)
    requires Hashed(crc, fnv, fed)
    ensures Hashed(crc', fnv', fed + bytes)
  {
    crc' := Crc32Update(crc, bytes);
    fnv' := Fnv1a64Update(fnv, bytes);
    FoldJoins(CrcStep, CRC_START, fed, bytes);
    FoldJoins(FnvStep, FNV_START, fed, bytes);
  }

  /** Feeds a number's bytes, lowest first. */
  method UpdateLe(crc: bv32, fnv: U64, value: nat, n: nat, ghost fed: seq<Byte>) returns (crc': bv32, fnv': U64)
    requires Hashed(crc, fnv, fed)
    ensures Hashed(crc', fnv', fed + Le(value, n))
  {
    var bytes: seq<Byte>, rest := [], value;
    for i := 0 to n
      invariant bytes + Le(rest, n - i) == Le(value, n)
    {
      bytes := bytes + [(rest % 256) as Byte];
      rest := rest / 256;
    }
    assert Le(rest, 0) == [];
    assert bytes == Le(value, n);
    crc', fnv' := ChecksumBytes(crc, fnv, bytes, fed);
  }

  // ---- Lines ----

  lemma RenderStep(slots: seq<Slot>, vs: seq<nat>, k: nat)
    requires |slots| == |vs| && k < |slots|
    ensures Render(slots[k..], vs[k..]) == One(slots[k], vs[k]) + Render(slots[k + 1..], vs[k + 1..])
  {
    assert slots[k..][1..] == slots[k + 1..] && vs[k..][1..] == vs[k + 1..];
  }

  method WriteField(w: Writer, slot: Slot, v: nat)
    requires w.Valid()
    modifies w, w.out
    ensures w.Valid() && w.text == old(w.text) + One(slot, v)
  {
    match slot {
      case Word(t) => w.Literal(t);
      case Digits(n) => w.Number(v, n);
    }
  }

  /** Writes the fields in their order. */
  method WriteFields(w: Writer, slots: seq<Slot>, vs: seq<nat>)
    requires w.Valid() && |slots| == |vs|
    modifies w, w.out
    ensures w.Valid() && w.text == old(w.text) + Render(slots, vs)
  {
    assert slots[0..] == slots && vs[0..] == vs;
    for k := 0 to |slots|
      invariant w.Valid()
      invariant w.text + Render(slots[k..], vs[k..]) == old(w.text) + Render(slots, vs)
    {
      RenderStep(slots, vs, k);
      Reassociate(w.text, One(slots[k], vs[k]), Render(slots[k + 1..], vs[k + 1..]));
      WriteField(w, slots[k], vs[k]);
    }
    assert Render(slots[|slots|..], vs[|slots|..]) == "";
    assert w.text + "" == w.text;
  }

  /** Writes the tag, the build identity, the fields and the payload. */
  method FormatLine(tag: string, build: string, slots: seq<Slot>, vs: seq<nat>, payload: seq<Byte>, limit: nat)
    returns (line: string, ok: bool)
    requires |slots| == |vs| && limit < WIRE_BUFFER
    ensures ok <==> |tag + build + (Render(slots, vs) + HexBytes(payload))| <= limit
    ensures ok ==> line == tag + build + (Render(slots, vs) + HexBytes(payload))
  {
    var w := new Writer(WIRE_BUFFER);
    w.Literal(tag);
    w.Literal(build);
    WriteFields(w, slots, vs);
    w.Bytes(payload);
    Reassociate("" + tag + build, Render(slots, vs), HexBytes(payload));
    assert "" + tag == tag;
    ok := w.valid && w.length <= limit;
    line := w.out[..w.length];
  }

  lemma Reassociate(a: string, b: string, c: string)
    ensures (a + b) + c == a + (b + c)
  {
  }

  method ChunkCheck(build: seq<Byte>, snapshot: nat, r: nat, p: nat, parts: nat, payload: seq<Byte>) returns (crc: nat)
    ensures crc == ChunkCrc(build, snapshot, r, p, parts, payload) as nat
  {
    var state := Crc32Update(CRC_START, ChunkHeader(build, snapshot, r, p, parts, |payload|) + payload);
    crc := (state ^ 0xffff_ffff) as nat;
  }

  method FormatChunk(c: Chunk) returns (line: string, ok: bool)
    requires ValidChunk(c)
    ensures ok && line == ChunkText(c)
  {
    BodyWidth(CHUNK_SLOTS, ChunkValues(c));
    ChunkWidth();
    line, ok := FormatLine(CHUNK_TAG, c.build, CHUNK_SLOTS, ChunkValues(c), c.payload, MAX_CHUNK_LINE);
  }

  method FormatChunkLine(buildText: string, build: seq<Byte>, snapshot: nat, r: nat, p: nat, parts: nat, payload: seq<Byte>,
                         ghost s: Snapshot) returns (line: string, ok: bool)
    requires ValidSnapshot(s) && s.build == buildText && s.snapshot == snapshot && build == BuildBytes(buildText)
    requires r < |s.texts| && p < parts == PartCount(|s.texts[r]|) && payload == PartOf(s.texts[r], p)
    ensures ok && line == LineAt(s)(r, p)
  {
    var crc := ChunkCheck(build, snapshot, r, p, parts, payload);
    ChunksValid(s, r, p);
    line, ok := FormatChunk(Chunk(buildText, snapshot, r, p, parts, payload, crc));
  }

  method FormatEndLine(e: End) returns (line: string, ok: bool)
    requires ValidEnd(e)
    ensures ok && line == EndText(e)
  {
    LineWidths(Chunk(e.build, 0, 0, 0, 0, [], 0), e);
    line, ok := FormatLine(END_TAG, e.build, END_SLOTS, EndValues(e), [], MAX_END_LINE);
    assert Render(END_SLOTS, EndValues(e)) + HexBytes([]) == Render(END_SLOTS, EndValues(e));
  }

  // ---- The first pass ----

  lemma {:induction false} BytesOfFront(ts: seq<seq<Byte>>, t: seq<Byte>, n: nat)
    requires n <= |ts|
    ensures TotalBytes(ts + [t], n) == TotalBytes(ts, n)
  {
    if n > 0 {
      BytesOfFront(ts, t, n - 1);
    }
  }

  lemma {:induction false} TotalAgrees(f: nat -> nat, g: nat -> nat, n: nat)
    requires forall r: nat :: r < n ==> f(r) == g(r)
    ensures Total(f, n) == Total(g, n)
  {
    if n > 0 {
      TotalAgrees(f, g, n - 1);
    }
  }

  lemma TotalsMore(ts: seq<seq<Byte>>, t: seq<Byte>)
    ensures TotalBytes(ts + [t], |ts| + 1) == TotalBytes(ts, |ts|) + |t|
    ensures TotalChunks(ts + [t], |ts| + 1) == TotalChunks(ts, |ts|) + PartCount(|t|)
  {
    BytesOfFront(ts, t, |ts|);
    TotalAgrees(PartsOf(ts + [t]), PartsOf(ts), |ts|);
  }

  /** Looks at every slot before anything is sent. */
  method Preflight(count: nat, readRecord: nat -> Option<Storage>) returns (totalBytes: nat, totalChunks: nat, ok: bool)
    ensures ok <==> forall r: nat :: r < count ==> Sendable(readRecord, r)
    ensures ok ==> totalBytes == TotalBytes(Texts(readRecord, count), count)
    ensures ok ==> totalChunks == TotalChunks(Texts(readRecord, count), count)
  {
    totalBytes, totalChunks := 0, 0;
    for r := 0 to count
      invariant forall k: nat :: k < r ==> Sendable(readRecord, k)
      invariant totalBytes == TotalBytes(Texts(readRecord, r), r)
      invariant totalChunks == TotalChunks(Texts(readRecord, r), r)
    {
      hide TotalBytes, TotalChunks;
      if readRecord(r) == None {
        assert !Sendable(readRecord, r);
        return 0, 0, false;
      }
      var length, fine := RecordLength(readRecord(r).value);
      if !fine {
        assert !Sendable(readRecord, r);
        return 0, 0, false;
      }
      assert Sendable(readRecord, r);
      TotalsMore(Texts(readRecord, r), TextAt(readRecord, r));
      totalBytes := totalBytes + length;
      totalChunks := totalChunks + (if length == 0 then 1 else (length + CHUNK_BYTES - 1) / CHUNK_BYTES);
    }
    ok := true;
  }

  // ---- The second pass ----

  /** The part of the canonical bytes before the records. */
  method HashPrefix(build: seq<Byte>, snapshot: nat, count: nat, dropped: nat, truncated: nat, totalBytes: nat, totalChunks: nat,
                    ghost s: Snapshot) returns (crc: bv32, fnv: U64)
    requires IsBuild(s.build) && build == BuildBytes(s.build) && s.snapshot == snapshot && |s.texts| == count
    requires s.dropped == dropped && s.truncated == truncated
    requires totalBytes == TotalBytes(s.texts, count) && totalChunks == TotalChunks(s.texts, count)
    ensures Hashed(crc, fnv, Prefix(s))
  {
    crc, fnv := CRC_START, FNV_START;
    ghost var fed: seq<Byte> := [];
    crc, fnv := ChecksumBytes(crc, fnv, DOMAIN, fed);
    assert fed + DOMAIN == DOMAIN;
    fed := DOMAIN;
    crc, fnv := ChecksumBytes(crc, fnv, [1], fed);
    fed := fed + [1];
    crc, fnv := ChecksumBytes(crc, fnv, build, fed);
    fed := fed + build;
    crc, fnv := UpdateLe(crc, fnv, snapshot, 4, fed);
    fed := fed + Le(snapshot, 4);
    crc, fnv := ChecksumBytes(crc, fnv, [0, 0] + Le(count, 2), fed);
    fed := fed + ([0, 0] + Le(count, 2));
    crc, fnv := UpdateLe(crc, fnv, dropped, 8, fed);
    fed := fed + Le(dropped, 8);
    crc, fnv := UpdateLe(crc, fnv, truncated, 8, fed);
    fed := fed + Le(truncated, 8);
    crc, fnv := UpdateLe(crc, fnv, totalBytes, 4, fed);
    fed := fed + Le(totalBytes, 4);
    crc, fnv := UpdateLe(crc, fnv, totalChunks, 4, fed);
  }

  method PartBytes(text: seq<Byte>, part: nat) returns (payload: seq<Byte>)
    ensures payload == PartOf(text, part)
  {
    var length, offset := |text|, part * CHUNK_BYTES;
    var partLength := if offset < length && length - offset > CHUNK_BYTES then CHUNK_BYTES
                      else if offset < length then length - offset else 0;
    payload := if partLength == 0 then [] else text[offset..offset + partLength];
  }

  /** The lines of one record. */
  method EmitRecord(buildText: string, build: seq<Byte>, snapshot: nat, r: nat, text: seq<Byte>, ghost s: Snapshot)
    returns (lines: seq<string>)
    requires ValidSnapshot(s) && s.build == buildText && s.snapshot == snapshot && build == BuildBytes(buildText)
    requires r < |s.texts| && text == s.texts[r]
    ensures lines == RecordLines(LineAt(s), r, PartsOf(s.texts)(r))
  {
    lines := [];
    var length := |text|;
    var parts := if length == 0 then 1 else (length + CHUNK_BYTES - 1) / CHUNK_BYTES;
    for part := 0 to parts
      invariant lines == RecordLines(LineAt(s), r, part)
    {
      var payload := PartBytes(text, part);
      var line, ok := FormatChunkLine(buildText, build, snapshot, r, part, parts, payload, s);
      lines := lines + [line];
    }
  }

  /** Hashes one record with its number and length. */
  method HashRecord(crc: bv32, fnv: U64, r: nat, text: seq<Byte>, ghost s: Snapshot) returns (crc': bv32, fnv': U64)
    requires IsBuild(s.build) && r < |s.texts| && text == s.texts[r] && Hashed(crc, fnv, CanonicalUpTo(s, r))
    ensures Hashed(crc', fnv', CanonicalUpTo(s, r + 1))
  {
    crc', fnv' := ChecksumBytes(crc, fnv, Le(r, 2) + Le(|text|, 2), CanonicalUpTo(s, r));
    crc', fnv' := ChecksumBytes(crc', fnv', text, CanonicalUpTo(s, r) + RecordHeader(s, r));
  }

  method ReadText(readRecord: nat -> Option<Storage>, r: nat) returns (text: seq<Byte>)
    requires Sendable(readRecord, r)
    ensures text == TextAt(readRecord, r)
  {
    var record := readRecord(r).value;
    var length, ok := RecordLength(record);
    text := record[..length];
  }

  /** What has been sent and hashed after the first `r` records. */
  predicate Progress(lines: seq<string>, crc: bv32, fnv: U64, s: Snapshot, r: nat)
    requires IsBuild(s.build) && r <= |s.texts|
  {
    lines == LinesUpTo(LineAt(s), PartsOf(s.texts), r) && Hashed(crc, fnv, CanonicalUpTo(s, r))
  }

  method NextRecord(lines: seq<string>, crc: bv32, fnv: U64, buildText: string, build: seq<Byte>, snapshot: nat, r: nat,
                    readRecord: nat -> Option<Storage>, ghost s: Snapshot) returns (lines': seq<string>, crc': bv32, fnv': U64)
    requires ValidSnapshot(s) && s.build == buildText && s.snapshot == snapshot && build == BuildBytes(buildText)
    requires r < |s.texts| && Sendable(readRecord, r) && s.texts[r] == TextAt(readRecord, r)
    requires Progress(lines, crc, fnv, s, r)
    ensures Progress(lines', crc', fnv', s, r + 1)
  {
    var text := ReadText(readRecord, r);
    crc', fnv' := HashRecord(crc, fnv, r, text, s);
    var more := EmitRecord(buildText, build, snapshot, r, text, s);
    lines' := lines + more;
  }

  /** All the records: their lines, and the checksums over them. */
  method EmitRecords(buildText: string, build: seq<Byte>, snapshot: nat, count: nat, readRecord: nat -> Option<Storage>,
                     start: bv32, startFnv: U64, ghost s: Snapshot) returns (lines: seq<string>, crc: bv32, fnv: U64)
    requires ValidSnapshot(s) && s.build == buildText && s.snapshot == snapshot && build == BuildBytes(buildText)
    requires |s.texts| == count && Hashed(start, startFnv, Prefix(s))
    requires forall r: nat :: r < count ==> Sendable(readRecord, r)
    requires forall r: nat :: r < count ==> s.texts[r] == TextAt(readRecord, r)
    ensures Progress(lines, crc, fnv, s, count)
  {
    lines, crc, fnv := [], start, startFnv;
    for r := 0 to count
      invariant Progress(lines, crc, fnv, s, r)
    {
      assert Sendable(readRecord, r);
      lines, crc, fnv := NextRecord(lines, crc, fnv, buildText, build, snapshot, r, readRecord, s);
    }
  }

  /** What the encoder accepts: at most 512 records, a proper build identity, and every slot sendable. */
  predicate Accepts(buildText: Option<string>, count: nat, readRecord: nat -> Option<Storage>) {
    count <= MAX_RECORDS && buildText.Some? && IsBuild(buildText.value) && forall r: nat :: r < count ==> Sendable(readRecord, r)
  }

  /** The snapshot that is sent. */
  function Sent(buildText: string, snapshot: U32, count: nat, dropped: U64, truncated: U64, readRecord: nat -> Option<Storage>): (s: Snapshot)
    requires Accepts(Some(buildText), count, readRecord)
    ensures ValidSnapshot(s)
  {
    Snapshot(buildText, snapshot, Texts(readRecord, count), dropped, truncated)
  }

  /** The second pass, once nothing can fail any more. */
  method SendSnapshot(buildText: string, build: seq<Byte>, snapshot: nat, count: nat, dropped: nat, truncated: nat,
                      totalBytes: nat, totalChunks: nat, readRecord: nat -> Option<Storage>, ghost s: Snapshot)
    returns (lines: seq<string>)
    requires ValidSnapshot(s) && s == Snapshot(buildText, snapshot, s.texts, dropped, truncated) && |s.texts| == count
    requires build == BuildBytes(buildText)
    requires totalBytes == TotalBytes(s.texts, count) && totalChunks == TotalChunks(s.texts, count)
    requires forall r: nat :: r < count ==> Sendable(readRecord, r)
    requires forall r: nat :: r < count ==> s.texts[r] == TextAt(readRecord, r)
    ensures lines == Lines(s)
  {
    var crc, fnv := HashPrefix(build, snapshot, count, dropped, truncated, totalBytes, totalChunks, s);
    lines, crc, fnv := EmitRecords(buildText, build, snapshot, count, readRecord, crc, fnv, s);
    var line := Closing(buildText, snapshot, count, dropped, truncated, totalBytes, totalChunks, crc, fnv, s);
    lines := lines + [line];
  }

  method Closing(buildText: string, snapshot: nat, count: nat, dropped: nat, truncated: nat, totalBytes: nat, totalChunks: nat,
                 crc: bv32, fnv: U64, ghost s: Snapshot) returns (line: string)
    requires ValidSnapshot(s) && s == Snapshot(buildText, snapshot, s.texts, dropped, truncated) && |s.texts| == count
    requires totalBytes == TotalBytes(s.texts, count) && totalChunks == TotalChunks(s.texts, count)
    requires Hashed(crc, fnv, Canonical(s))
    ensures line == EndText(EndOf(s))
  {
    var e := End(buildText, snapshot, count, dropped, truncated, totalBytes, totalChunks, (crc ^ 0xffff_ffff) as nat, fnv);
    assert e == EndOf(s);
    EndValid(s);
    var fits: bool;
    line, fits := FormatEndLine(e);
  }

  /** Sends every record, or nothing at all. */
  method EmitSnapshot(buildText: Option<string>, snapshot: U32, count: nat, dropped: U64, truncated: U64,
                      readRecord: nat -> Option<Storage>) returns (lines: seq<string>, ok: bool)
    requires buildText.Some? ==> '\0' !in buildText.value
    ensures ok <==> Accepts(buildText, count, readRecord)
    ensures ok ==> lines == Lines(Sent(buildText.value, snapshot, count, dropped, truncated, readRecord))
    ensures !ok ==> lines == []
  {
    lines := [];
    if count > MAX_RECORDS {
      return [], false;
    }
    var build, proper := DecodeBuildId(buildText);
    if !proper {
      return [], false;
    }
    var totalBytes, totalChunks, sendable := Preflight(count, readRecord);
    if !sendable {
      return [], false;
    }
    ghost var s := Sent(buildText.value, snapshot, count, dropped, truncated, readRecord);
    lines := SendSnapshot(buildText.value, build, snapshot, count, dropped, truncated, totalBytes, totalChunks, readRecord, s);
    ok := true;
  }
}
