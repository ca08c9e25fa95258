/** The replay format as its description gives it: where each field stands in the bytes that are hashed, and
    what each line says, character by character. */
module ReplayFormat {
  import opened Bytes
  import opened Checksums
  import opened LineWriter
  import opened ReplayLines
  import opened ReplaySnapshot

  // ---- Numbers, lowest byte first ----

  function Pow256(n: nat): (p: nat)
    ensures p > 0
  {
    if n == 0 then 1 else 256 * Pow256(n - 1)
  }

  /** The number in these bytes, lowest first. */
  function Number(b: seq<Byte>): nat {
    if b == [] then 0 else b[0] as nat + 256 * Number(b[1..])
  }

  lemma NumberOfMore(b: Byte, rest: seq<Byte>)
    ensures Number([b] + rest) == b as nat + 256 * Number(rest)
  {
    assert ([b] + rest)[1..] == rest;
  }

  lemma {:induction false} NumberOfLe(value: nat, n: nat)
    requires value < Pow256(n)
    ensures |Le(value, n)| == n && Number(Le(value, n)) == value
    decreases n
  {
    if n > 0 {
      ByteBack(value % 256);
      hide Number;
      NumberOfLe(value / 256, n - 1);
      NumberOfMore((value % 256) as Byte, Le(value / 256, n - 1));
    }
  }

  lemma {:induction false} LeLength(value: nat, n: nat)
    ensures |Le(value, n)| == n
    decreases n
  {
    if n > 0 {
      LeLength(value / 256, n - 1);
    }
  }

  lemma Sizes()
    ensures Pow256(1) == 0x100 && Pow256(2) == 0x1_0000 && Pow256(4) == 0x1_0000_0000 && Pow256(8) == 0x1_0000_0000_0000_0000
  {
    assert Pow256(3) == 0x100_0000 && Pow256(6) == 0x1_0000_0000_0000;
  }

  // ---- The bytes of a chunk ----

  /** Version, build, snapshot, record, part, parts and length, at their offsets. */
  lemma ChunkHeaderLayout(build: seq<Byte>, snapshot: nat, record: nat, part: nat, parts: nat, length: nat)
    requires |build| == 16 && snapshot < 0x1_0000_0000 && record < 0x1_0000 && part < 0x100 && parts < 0x100 && length < 0x100
    ensures var h := ChunkHeader(build, snapshot, record, part, parts, length);
            && |h| == 26 && h[0] == 1 && h[1..17] == build
            && Number(h[17..21]) == snapshot && Number(h[21..23]) == record
            && Number(h[23..24]) == part && Number(h[24..25]) == parts && Number(h[25..26]) == length
  {
    Sizes();
    NumberOfLe(snapshot, 4);
    NumberOfLe(record, 2);
    NumberOfLe(part, 1);
    NumberOfLe(parts, 1);
    NumberOfLe(length, 1);
    hide Le, Pow256, Number;
    HeaderParts(build, Le(snapshot, 4), Le(record, 2), Le(part, 1), Le(parts, 1), Le(length, 1));
  }

  lemma HeaderParts(build: seq<Byte>, a: seq<Byte>, b: seq<Byte>, c: seq<Byte>, d: seq<Byte>, e: seq<Byte>)
    requires |build| == 16 && |a| == 4 && |b| == 2 && |c| == |d| == |e| == 1
    ensures var h := [1] + build + a + (b + c + d + e);
            |h| == 26 && h[0] == 1 && h[1..17] == build && h[17..21] == a && h[21..23] == b && h[23..24] == c &&
            h[24..25] == d && h[25..26] == e
  {
  }

  // ---- The bytes of a snapshot ----

  /** The characters that a record may hold run from the space to the tilde. */
  lemma PrintableIs(b: Byte)
    ensures Printable(b) <==> ' ' as int <= b as int <= '~' as int
  {
  }

  /** The domain is the text RGPU-CR2 and its NUL. */
  lemma DomainText()
    ensures |DOMAIN| == 9 && forall i :: 0 <= i < 9 ==> DOMAIN[i] as nat == "RGPU-CR2\0"[i] as nat
  {
  }

  lemma ZeroNumber()
    ensures Number([0, 0]) == 0
  {
    hide Number;
    NumberOfMore(0, [0]);
    NumberOfMore(0, []);
    NoNumber();
    assert [0 as Byte] + [] == [0] && [0 as Byte] + [0] == [0, 0];
  }

  lemma NoNumber()
    ensures Number([]) == 0
  {
  }

  /** Domain, version, build, snapshot, first, count, dropped, truncated, bytes and chunks, at their offsets. */
  lemma PrefixLayout(s: Snapshot)
    requires ValidSnapshot(s)
    ensures var p, n := Prefix(s), |s.texts|;
            && |p| == 58 && p[..9] == DOMAIN && p[9] == 1 && p[10..26] == BuildBytes(s.build)
            && Number(p[26..30]) == s.snapshot && Number(p[30..32]) == 0 && Number(p[32..34]) == n
            && Number(p[34..42]) == s.dropped && Number(p[42..50]) == s.truncated
            && Number(p[50..54]) == TotalBytes(s.texts, n) && Number(p[54..58]) == TotalChunks(s.texts, n)
  {
    var n := |s.texts|;
    Sizes();
    TotalsBound(s.texts);
    NumberOfLe(s.snapshot, 4);
    NumberOfLe(n, 2);
    NumberOfLe(s.dropped, 8);
    NumberOfLe(s.truncated, 8);
    NumberOfLe(TotalBytes(s.texts, n), 4);
    NumberOfLe(TotalChunks(s.texts, n), 4);
    ZeroNumber();
    hide Le, Pow256, Number, TotalBytes, TotalChunks, BuildBytes, IsBuild;
    BuildLength(s.build);
    PrefixParts(BuildBytes(s.build), Le(s.snapshot, 4), Le(n, 2), Le(s.dropped, 8), Le(s.truncated, 8),
                Le(TotalBytes(s.texts, n), 4), Le(TotalChunks(s.texts, n), 4));
  }

  lemma PrefixParts(build: seq<Byte>, a: seq<Byte>, b: seq<Byte>, c: seq<Byte>, d: seq<Byte>, e: seq<Byte>, f: seq<Byte>)
    requires |build| == 16 && |a| == |e| == |f| == 4 && |b| == 2 && |c| == |d| == 8
    ensures var p := DOMAIN + [1] + build + a + ([0, 0] + b) + c + d + e + f;
            && |p| == 58 && p[..9] == DOMAIN && p[9] == 1 && p[10..26] == build
            && p[26..30] == a && p[30..32] == [0, 0] && p[32..34] == b && p[34..42] == c && p[42..50] == d
            && p[50..54] == e && p[54..58] == f
  {
    var front := DOMAIN + [1] + build + a + ([0, 0] + b);
    assert |front| == 34 && front[..9] == DOMAIN && front[9] == 1 && front[10..26] == build;
    assert front[26..30] == a && front[30..32] == [0, 0] && front[32..34] == b;
    TailParts(front, c, d, e, f);
  }

  lemma TailParts(front: seq<Byte>, c: seq<Byte>, d: seq<Byte>, e: seq<Byte>, f: seq<Byte>)
    requires |front| == 34 && |c| == |d| == 8 && |e| == |f| == 4
    ensures var p := front + c + d + e + f;
            && |p| == 58 && p[34..42] == c && p[42..50] == d && p[50..54] == e && p[54..58] == f
            && (forall i, j :: 0 <= i <= j <= 34 ==> p[i..j] == front[i..j])
            && p[..9] == front[..9] && p[9] == front[9]
  {
  }

  lemma BuildLength(build: string)
    requires IsBuild(build)
    ensures |BuildBytes(build)| == 16
  {
  }

  /** Where record `r` begins in the canonical bytes. */
  function RecordOffset(s: Snapshot, r: nat): nat
    requires r <= |s.texts|
  {
    if r == 0 then 58 else RecordOffset(s, r - 1) + 4 + |s.texts[r - 1]|
  }

  lemma {:induction false} CanonicalLength(s: Snapshot, n: nat)
    requires ValidSnapshot(s) && n <= |s.texts|
    ensures |CanonicalUpTo(s, n)| == RecordOffset(s, n)
  {
    if n == 0 {
      PrefixLayout(s);
    } else {
      CanonicalLength(s, n - 1);
      LeLength(n - 1, 2);
      LeLength(|s.texts[n - 1]|, 2);
    }
  }

  predicate Begins(a: seq<Byte>, b: seq<Byte>) {
    |a| <= |b| && b[..|a|] == a
  }

  lemma BeginsItself(a: seq<Byte>)
    ensures Begins(a, a)
  {
  }

  lemma BeginsMore(a: seq<Byte>, b: seq<Byte>, h: seq<Byte>, t: seq<Byte>)
    requires Begins(a, b)
    ensures Begins(a, b + h + t)
  {
  }

  lemma {:induction false} CanonicalPrefix(s: Snapshot, n: nat, m: nat)
    requires IsBuild(s.build) && n <= m <= |s.texts|
    ensures Begins(CanonicalUpTo(s, n), CanonicalUpTo(s, m))
    decreases m
  {
    hide Prefix, RecordHeader, IsBuild, Begins;
    if n < m {
      CanonicalPrefix(s, n, m - 1);
      BeginsMore(CanonicalUpTo(s, n), CanonicalUpTo(s, m - 1), RecordHeader(s, m - 1), s.texts[m - 1]);
    } else {
      BeginsItself(CanonicalUpTo(s, n));
    }
  }

  lemma TextLength(s: Snapshot, r: nat)
    requires ValidSnapshot(s) && r < |s.texts|
    ensures |s.texts[r]| < 0x1_0000 && r < 0x1_0000
  {
  }

  lemma HeaderLayout(s: Snapshot, r: nat)
    requires ValidSnapshot(s) && r < |s.texts|
    ensures var h := RecordHeader(s, r); |h| == 4 && Number(h[..2]) == r && Number(h[2..4]) == |s.texts[r]|
  {
    Sizes();
    TextLength(s, r);
    NumberOfLe(r, 2);
    NumberOfLe(|s.texts[r]|, 2);
    hide Le, Number, Pow256;
    var h := RecordHeader(s, r);
    assert h[..2] == Le(r, 2) && h[2..4] == Le(|s.texts[r]|, 2);
  }

  /** Number, length and text stand in these bytes from `at` on. */
  predicate RecordAt(c: seq<Byte>, at: nat, r: nat, text: seq<Byte>) {
    && at + 4 + |text| <= |c|
    && Number(c[at..at + 2]) == r && Number(c[at + 2..at + 4]) == |text| && c[at + 4..at + 4 + |text|] == text
  }

  /** In the canonical bytes each record follows the one before: its number, its length, its text. */
  lemma RecordLayout(s: Snapshot, r: nat)
    requires ValidSnapshot(s) && r < |s.texts|
    ensures RecordAt(Canonical(s), RecordOffset(s, r), r, s.texts[r])
  {
    CanonicalLength(s, r);
    CanonicalPrefix(s, r + 1, |s.texts|);
    HeaderLayout(s, r);
    RecordUnfolds(s, r);
    hide ValidSnapshot, CanonicalUpTo, RecordOffset, RecordAt, RecordHeader, Number;
    RecordParts(CanonicalUpTo(s, r), RecordHeader(s, r), s.texts[r], Canonical(s), r);
  }

  lemma RecordUnfolds(s: Snapshot, r: nat)
    requires ValidSnapshot(s) && r < |s.texts|
    ensures CanonicalUpTo(s, r + 1) == CanonicalUpTo(s, r) + RecordHeader(s, r) + s.texts[r]
  {
    hide RecordHeader, Prefix;
  }

  lemma RecordParts(front: seq<Byte>, h: seq<Byte>, t: seq<Byte>, c: seq<Byte>, r: nat)
    requires |h| == 4 && Begins(front + h + t, c) && Number(h[..2]) == r && Number(h[2..4]) == |t|
    ensures RecordAt(c, |front|, r, t)
  {
    hide Number;
    var upTo := front + h + t;
    assert forall i :: 0 <= i < |upTo| ==> c[i] == c[..|upTo|][i] == upTo[i];
    assert c[|front|..|front| + 2] == h[..2];
    assert c[|front| + 2..|front| + 4] == h[2..4];
    assert c[|front| + 4..|front| + 4 + |t|] == t;
  }

  // ---- The lines ----

  lemma RenderMore(slot: Slot, slots: seq<Slot>, v: nat, vs: seq<nat>)
    requires |slots| == |vs|
    ensures Render([slot] + slots, [v] + vs) == One(slot, v) + Render(slots, vs)
  {
    assert ([slot] + slots)[1..] == slots && ([v] + vs)[1..] == vs;
  }

  lemma RenderTwo(t: string, w: nat, slots: seq<Slot>, v: nat, vs: seq<nat>)
    requires |slots| == |vs|
    ensures Render([Word(t), Digits(w)] + slots, [0, v] + vs) == t + Hex(v, w) + Render(slots, vs)
  {
    RenderMore(Digits(w), slots, v, vs);
    RenderMore(Word(t), [Digits(w)] + slots, 0, [v] + vs);
    assert [Word(t), Digits(w)] + slots == [Word(t)] + ([Digits(w)] + slots);
    assert [0, v] + vs == [0] + ([v] + vs);
  }

  lemma RenderLast(t: string)
    ensures Render([Word(t)], [0]) == t
  {
    RenderMore(Word(t), [], 0, []);
    assert [Word(t)] + [] == [Word(t)] && [0] + [] == [0];
  }

  /** A chunk line, as the format description writes it. */
  lemma ChunkLineIs(c: Chunk)
    ensures ChunkText(c) ==
            "RGPU_CR2 v=1 b=" + c.build + " s=" + Hex(c.snapshot, 8) + " r=" + Hex(c.record, 4) + " p=" + Hex(c.part, 2) + "/" +
            Hex(c.parts, 2) + " n=" + Hex(|c.payload|, 2) + " c=" + Hex(c.crc, 8) + " d=" + HexBytes(c.payload)
  {
    ChunkFieldsAre(c);
    hide Render, Hex, HexBytes;
  }

  lemma ChunkFieldsAre(c: Chunk)
    ensures Render(CHUNK_SLOTS, ChunkValues(c)) ==
            " s=" + Hex(c.snapshot, 8) + (" r=" + Hex(c.record, 4) + (" p=" + Hex(c.part, 2) + ("/" + Hex(c.parts, 2) +
            (" n=" + Hex(|c.payload|, 2) + (" c=" + Hex(c.crc, 8) + " d=")))))
  {
    hide Render, Hex;
    var s6: seq<Slot>, v6: seq<nat> := [Word(" d=")], [0];
    var s5, v5 := [Word(" c="), Digits(8)] + s6, [0, c.crc] + v6;
    var s4, v4 := [Word(" n="), Digits(2)] + s5, [0, |c.payload|] + v5;
    var s3, v3 := [Word("/"), Digits(2)] + s4, [0, c.parts] + v4;
    var s2, v2 := [Word(" p="), Digits(2)] + s3, [0, c.part] + v3;
    var s1, v1 := [Word(" r="), Digits(4)] + s2, [0, c.record] + v2;
    assert CHUNK_SLOTS == [Word(" s="), Digits(8)] + s1 && ChunkValues(c) == [0, c.snapshot] + v1;
    RenderTwo(" s=", 8, s1, c.snapshot, v1);
    RenderTwo(" r=", 4, s2, c.record, v2);
    RenderTwo(" p=", 2, s3, c.part, v3);
    RenderTwo("/", 2, s4, c.parts, v4);
    RenderTwo(" n=", 2, s5, |c.payload|, v5);
    RenderTwo(" c=", 8, s6, c.crc, v6);
    RenderLast(" d=");
  }

  /** The closing line, as the format description writes it. */
  lemma EndLineIs(e: End)
    ensures EndText(e) ==
            "RGPU_END2 v=1 b=" + e.build + " s=" + Hex(e.snapshot, 8) + " first=0000 count=" + Hex(e.count, 4) + " drop=" +
            Hex(e.dropped, 16) + " trunc=" + Hex(e.truncated, 16) + " bytes=" + Hex(e.bytes, 8) + " chunks=" + Hex(e.chunks, 8) +
            " crc=" + Hex(e.crc, 8) + " fnv=" + Hex(e.fnv, 16) + " state=complete"
  {
    EndFieldsAre(e);
    hide Render, Hex;
  }

  lemma EndFieldsAre(e: End)
    ensures Render(END_SLOTS, EndValues(e)) ==
            " s=" + Hex(e.snapshot, 8) + (" first=0000 count=" + Hex(e.count, 4) + (" drop=" + Hex(e.dropped, 16) +
            (" trunc=" + Hex(e.truncated, 16) + (" bytes=" + Hex(e.bytes, 8) + (" chunks=" + Hex(e.chunks, 8) +
            (" crc=" + Hex(e.crc, 8) + (" fnv=" + Hex(e.fnv, 16) + " state=complete")))))))
  {
    hide Render, Hex;
    var s8: seq<Slot>, v8: seq<nat> := [Word(" state=complete")], [0];
    var s7, v7 := [Word(" fnv="), Digits(16)] + s8, [0, e.fnv] + v8;
    var s6, v6 := [Word(" crc="), Digits(8)] + s7, [0, e.crc] + v7;
    var s5, v5 := [Word(" chunks="), Digits(8)] + s6, [0, e.chunks] + v6;
    var s4, v4 := [Word(" bytes="), Digits(8)] + s5, [0, e.bytes] + v5;
    var s3, v3 := [Word(" trunc="), Digits(16)] + s4, [0, e.truncated] + v4;
    var s2, v2 := [Word(" drop="), Digits(16)] + s3, [0, e.dropped] + v3;
    var s1, v1 := [Word(" first=0000 count="), Digits(4)] + s2, [0, e.count] + v2;
    assert END_SLOTS == [Word(" s="), Digits(8)] + s1 && EndValues(e) == [0, e.snapshot] + v1;
    RenderTwo(" s=", 8, s1, e.snapshot, v1);
    RenderTwo(" first=0000 count=", 4, s2, e.count, v2);
    RenderTwo(" drop=", 16, s3, e.dropped, v3);
    RenderTwo(" trunc=", 16, s4, e.truncated, v4);
    RenderTwo(" bytes=", 8, s5, e.bytes, v5);
    RenderTwo(" chunks=", 8, s6, e.chunks, v6);
    RenderTwo(" crc=", 8, s7, e.crc, v7);
    RenderTwo(" fnv=", 16, s8, e.fnv, v8);
    RenderLast(" state=complete");
  }
}
