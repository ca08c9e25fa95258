/** The two kinds of lines of the critical replay stream, as they are written and as they are read. */
module ReplayLines {
  import opened Checksums
  import opened LineWriter
  import opened Options

  /** What one chunk line carries. */
  datatype Chunk = Chunk(build: string, snapshot: nat, record: nat, part: nat, parts: nat, payload: seq<Byte>, crc: nat)

  /** What the closing line carries. */
  datatype End = End(build: string, snapshot: nat, count: nat, dropped: nat, truncated: nat, bytes: nat, chunks: nat, crc: nat, fnv: nat)

  /** Each line starts with its tag and the build identity; these fields follow. */
  const CHUNK_TAG := "RGPU_CR2 v=1 b="
  const CHUNK_SLOTS: seq<Slot> :=
    [Word(" s="), Digits(8), Word(" r="), Digits(4), Word(" p="), Digits(2), Word("/"), Digits(2),
     Word(" n="), Digits(2), Word(" c="), Digits(8), Word(" d=")]

  const END_TAG := "RGPU_END2 v=1 b="
  const END_SLOTS: seq<Slot> :=
    [Word(" s="), Digits(8), Word(" first=0000 count="), Digits(4), Word(" drop="), Digits(16),
     Word(" trunc="), Digits(16), Word(" bytes="), Digits(8), Word(" chunks="), Digits(8), Word(" crc="), Digits(8),
     Word(" fnv="), Digits(16), Word(" state=complete")]

  const MAX_CHUNK_LINE: nat := 172
  const MAX_END_LINE: nat := 206
  const WIRE_BUFFER: nat := 207

  /** A build identity: 32 lower-case hexadecimal digits. */
  predicate IsBuild(s: string) {
    |s| == 32 && UnHexBytes(s).Some?
  }

  predicate ValidChunk(c: Chunk) {
    && IsBuild(c.build) && c.snapshot < 0x1_0000_0000 && c.record < 0x1_0000 && c.part < 0x100 && c.parts < 0x100
    && |c.payload| <= 40 && c.crc < 0x1_0000_0000
  }

  predicate ValidEnd(e: End) {
    && IsBuild(e.build) && e.snapshot < 0x1_0000_0000 && e.count < 0x1_0000 && e.dropped < 0x1_0000_0000_0000_0000
    && e.truncated < 0x1_0000_0000_0000_0000 && e.bytes < 0x1_0000_0000 && e.chunks < 0x1_0000_0000
    && e.crc < 0x1_0000_0000 && e.fnv < 0x1_0000_0000_0000_0000
  }

  function ChunkValues(c: Chunk): (vs: seq<nat>)
    ensures |vs| == 13
  {
    [0, c.snapshot, 0, c.record, 0, c.part, 0, c.parts, 0, |c.payload|, 0, c.crc, 0]
  }

  function EndValues(e: End): (vs: seq<nat>)
    ensures |vs| == 17
  {
    [0, e.snapshot, 0, e.count, 0, e.dropped, 0, e.truncated, 0, e.bytes, 0, e.chunks, 0, e.crc, 0, e.fnv, 0]
  }

  function ChunkText(c: Chunk): string {
    CHUNK_TAG + c.build + (Render(CHUNK_SLOTS, ChunkValues(c)) + HexBytes(c.payload))
  }

  function EndText(e: End): string {
    END_TAG + e.build + Render(END_SLOTS, EndValues(e))
  }

  // ---- Widths ----

  lemma ChunkWidth()
    ensures WidthFrom(CHUNK_SLOTS, 0) == 45
  {
    assert WidthFrom(CHUNK_SLOTS, 8) == 19;
  }

  lemma EndWidth()
    ensures WidthFrom(END_SLOTS, 0) == 158
  {
    assert WidthFrom(END_SLOTS, 12) == 49;
    assert WidthFrom(END_SLOTS, 7) == 96;
  }

  lemma BodyWidth(slots: seq<Slot>, values: seq<nat>)
    requires |slots| == |values|
    ensures |Render(slots, values)| == WidthFrom(slots, 0)
  {
    RenderWidth(slots, values, 0);
    assert slots[0..] == slots && values[0..] == values;
  }

  /** A chunk line has 92 characters and two for every byte it carries, so never more than 172; the
      closing line always has 206. */
  lemma LineWidths(c: Chunk, e: End)
    requires ValidChunk(c) && ValidEnd(e)
    ensures |ChunkText(c)| == 92 + 2 * |c.payload| <= MAX_CHUNK_LINE
    ensures |EndText(e)| == MAX_END_LINE
  {
    BodyWidth(CHUNK_SLOTS, ChunkValues(c));
    ChunkWidth();
    BodyWidth(END_SLOTS, EndValues(e));
    EndWidth();
  }

  // ---- The reader ----

  /** The byte that two digits spell. */
  function Pair(high: char, low: char): Option<Byte> {
    match (NibbleOf(high), NibbleOf(low))
    case (Some(h), Some(l)) => Some((h * 16 + l) as Byte)
    case _ => None
  }

  predicate AllPairs(s: string) {
    |s| % 2 == 0 && forall i :: 0 <= i < |s| / 2 ==> Pair(s[2 * i], s[2 * i + 1]).Some?
  }

  /** Pairs of digits back to bytes. */
  function UnHexBytes(s: string): Option<seq<Byte>> {
    if !AllPairs(s) then None
    else Some(seq(|s| / 2, i requires 0 <= i < |s| / 2 => Pair(s[2 * i], s[2 * i + 1]).value))
  }

  /** The two digits of each byte, in order. */
  lemma {:induction false} DigitsOfByte(bytes: seq<Byte>, i: nat)
    requires i < |bytes|
    ensures HexBytes(bytes)[2 * i] == ByteText(bytes[i])[0] && HexBytes(bytes)[2 * i + 1] == ByteText(bytes[i])[1]
  {
    if i < |bytes| - 1 {
      DigitsOfByte(bytes[..|bytes| - 1], i);
    }
  }

  lemma BytesBack(bytes: seq<Byte>)
    ensures UnHexBytes(HexBytes(bytes)) == Some(bytes)
  {
    forall i | 0 <= i < |bytes|
      ensures Pair(HexBytes(bytes)[2 * i], HexBytes(bytes)[2 * i + 1]) == Some(bytes[i])
    {
      DigitsOfByte(bytes, i);
      PairBack(bytes[i]);
    }
    PairsBack(HexBytes(bytes), bytes);
  }

  lemma PairsBack(s: string, bytes: seq<Byte>)
    requires |s| == 2 * |bytes| && forall i :: 0 <= i < |bytes| ==> Pair(s[2 * i], s[2 * i + 1]) == Some(bytes[i])
    ensures UnHexBytes(s) == Some(bytes)
  {
    assert |s| / 2 == |bytes| && |s| % 2 == 0;
    forall i | 0 <= i < |s| / 2
      ensures Pair(s[2 * i], s[2 * i + 1]).Some? && Pair(s[2 * i], s[2 * i + 1]).value == bytes[i]
    {
      assert Pair(s[2 * i], s[2 * i + 1]) == Some(bytes[i]);
    }
    assert UnHexBytes(s).value == bytes;
  }

  lemma PairBack(b: Byte)
    ensures Pair(ByteText(b)[0], ByteText(b)[1]) == Some(b)
  {
    var n := b as nat;
    NibbleOfDigit(n / 16);
    NibbleOfDigit(n % 16);
    assert n / 16 * 16 + n % 16 == n;
  }

  /** The tag and the build identity at the start of a line, and what follows them. */
  function ReadStamp(tag: string, line: string): Option<(string, string)> {
    if |line| >= |tag| + 32 && line[..|tag|] == tag && IsBuild(line[|tag|..|tag| + 32])
    then Some((line[|tag|..|tag| + 32], line[|tag| + 32..]))
    else None
  }

  function ReadChunk(line: string): Option<Chunk> {
    match ReadStamp(CHUNK_TAG, line)
    case None => None
    case Some((build, fields)) =>
      match Read(CHUNK_SLOTS, fields)
      case None => None
      case Some((vs, rest)) =>
        if |rest| != 2 * vs[9] then None
        else
          match UnHexBytes(rest)
          case None => None
          case Some(payload) => Some(Chunk(build, vs[1], vs[3], vs[5], vs[7], payload, vs[11]))
  }

  function ReadEnd(line: string): Option<End> {
    match ReadStamp(END_TAG, line)
    case None => None
    case Some((build, fields)) =>
      match Read(END_SLOTS, fields)
      case None => None
      case Some((vs, rest)) =>
        if rest != "" then None
        else Some(End(build, vs[1], vs[3], vs[5], vs[7], vs[9], vs[11], vs[13], vs[15]))
  }

  lemma Powers()
    ensures Pow16(2) == 0x100 && Pow16(4) == 0x1_0000 && Pow16(8) == 0x1_0000_0000 && Pow16(16) == 0x1_0000_0000_0000_0000
  {
    assert Pow16(6) == 0x100_0000 && Pow16(12) == 0x1_0000_0000_0000;
  }

  lemma ChunkFits(c: Chunk)
    requires ValidChunk(c)
    ensures Fits(CHUNK_SLOTS, ChunkValues(c))
  {
    Powers();
  }

  lemma EndFits(e: End)
    requires ValidEnd(e)
    ensures Fits(END_SLOTS, EndValues(e))
  {
    Powers();
  }

  lemma StampBack(tag: string, build: string, rest: string)
    requires IsBuild(build)
    ensures ReadStamp(tag, tag + build + rest) == Some((build, rest))
  {
    var line := tag + build + rest;
    assert line[..|tag|] == tag && line[|tag|..|tag| + 32] == build && line[|tag| + 32..] == rest;
  }

  /** A chunk line reads back as the chunk it was written for. */
  lemma ChunkRoundTrip(c: Chunk)
    requires ValidChunk(c)
    ensures ReadChunk(ChunkText(c)) == Some(c)
  {
    ChunkFits(c);
    ReadRender(CHUNK_SLOTS, ChunkValues(c), HexBytes(c.payload));
    StampBack(CHUNK_TAG, c.build, Render(CHUNK_SLOTS, ChunkValues(c)) + HexBytes(c.payload));
    BytesBack(c.payload);
  }

  lemma EndOfBody(build: string, body: string, vs: seq<nat>)
    requires IsBuild(build) && |vs| == 17 && Read(END_SLOTS, body) == Some((vs, ""))
    ensures ReadEnd(END_TAG + build + body) == Some(End(build, vs[1], vs[3], vs[5], vs[7], vs[9], vs[11], vs[13], vs[15]))
    ensures ReadChunk(END_TAG + build + body) == None
  {
    StampBack(END_TAG, build, body);
    var line := END_TAG + build + body;
    assert line[..15][5] == END_TAG[5] == 'E' && CHUNK_TAG[5] == 'C';
  }

  lemma EndBody(e: End)
    requires ValidEnd(e)
    ensures Read(END_SLOTS, Render(END_SLOTS, EndValues(e))) == Some((EndValues(e), ""))
  {
    EndFits(e);
    ReadRender(END_SLOTS, EndValues(e), "");
    assert Render(END_SLOTS, EndValues(e)) + "" == Render(END_SLOTS, EndValues(e));
  }

  /** The closing line reads back as what it was written for, and no reader takes it for a chunk. */
  lemma EndRoundTrip(e: End)
    requires ValidEnd(e)
    ensures ReadEnd(EndText(e)) == Some(e) && ReadChunk(EndText(e)) == None
  {
    EndBody(e);
    EndOfBody(e.build, Render(END_SLOTS, EndValues(e)), EndValues(e));
  }
}
