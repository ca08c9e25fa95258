/** The search of a loaded image's code in chunks, for one site that any of several patterns may match. */
module ChunkScan {
  import opened Bits
  import opened Options
  import opened SiteLocator

  const CHUNK: nat := 64 * 1024

  /** The user process: what its memory holds and which reads succeed. */
  datatype Process = Process(byteAt: nat -> Byte, readable: (nat, nat) -> bool)

  predicate Readable(p: Process, address: nat, size: nat) {
    address != 0 && address < 0x8000_0000_0000 && size != 0 && size <= 0x8000_0000_0000 - address && p.readable(address, size)
  }

  /** What is read lies between the null page's first byte and the end of the user half. */
  lemma ReadableIff(p: Process, address: nat, size: nat)
    ensures Readable(p, address, size) <==>
            0 < address < address + size <= 0x8000_0000_0000 && p.readable(address, size)
  {
  }

  function Memory(p: Process, address: nat, size: nat): (bytes: seq<Byte>)
    ensures |bytes| == size
  {
    seq(size, (i: nat) requires i < size => p.byteAt(address + i))
  }

  method BoundedRead(p: Process, address: nat, chunk: array<Byte>, size: nat) returns (ok: bool)
    requires size <= chunk.Length
    modifies chunk
    ensures ok <==> Readable(p, address, size)
    ensures ok ==> chunk[..size] == Memory(p, address, size)
  {
    if address == 0 || address >= 0x8000_0000_0000 || size == 0 || size > 0x8000_0000_0000 - address || !p.readable(address, size) {
      return false;
    }
    for i := 0 to size
      invariant forall j :: 0 <= j < i ==> chunk[j] == p.byteAt(address + j)
    {
      chunk[i] := p.byteAt(address + i);
    }
    return true;
  }

  // ---- What the whole image says ----

  /** Some pattern stands at this place of the code. */
  predicate HitOf(code: seq<Byte>, patterns: seq<Site>, at: nat, n: nat) {
    n < |patterns| && at < |code| && Hit(code, at, patterns[n])
  }

  function TargetOf(base: nat, patterns: seq<Site>, at: nat, n: nat): nat
    requires n < |patterns|
  {
    base + at + patterns[n].targetDelta
  }

  /** Some pattern matches, and every match of every pattern names this one address. */
  ghost predicate OneTarget(code: seq<Byte>, patterns: seq<Site>, base: nat, address: nat) {
    && (exists at, n :: HitOf(code, patterns, at, n) && TargetOf(base, patterns, at, n) == address)
    && forall at, n :: HitOf(code, patterns, at, n) ==> TargetOf(base, patterns, at, n) == address
  }

  /** Before place `at`, or at it with an earlier pattern. */
  predicate Before(q: nat, k: nat, at: nat, n: nat) {
    q < at || (q == at && k < n)
  }

  /** What the scan has found when it stands at place `at` and pattern `n`. */
  ghost predicate Found(found: Option<nat>, code: seq<Byte>, patterns: seq<Site>, base: nat, at: nat, n: nat) {
    && (found.Some? ==> exists q, k :: HitOf(code, patterns, q, k) && TargetOf(base, patterns, q, k) == found.value)
    && forall q, k :: HitOf(code, patterns, q, k) && Before(q, k, at, n) ==> found == Some(TargetOf(base, patterns, q, k))
  }

  lemma FoundHere(found: Option<nat>, code: seq<Byte>, patterns: seq<Site>, base: nat, at: nat, n: nat)
    requires Found(found, code, patterns, base, at, n) && HitOf(code, patterns, at, n)
    requires found == None || found == Some(TargetOf(base, patterns, at, n))
    ensures Found(Some(TargetOf(base, patterns, at, n)), code, patterns, base, at, n + 1)
  {
  }

  lemma NotHere(found: Option<nat>, code: seq<Byte>, patterns: seq<Site>, base: nat, at: nat, n: nat)
    requires Found(found, code, patterns, base, at, n) && !HitOf(code, patterns, at, n)
    ensures Found(found, code, patterns, base, at, n + 1)
  {
  }

  lemma NextPlace(found: Option<nat>, code: seq<Byte>, patterns: seq<Site>, base: nat, at: nat)
    requires Found(found, code, patterns, base, at, |patterns|)
    ensures Found(found, code, patterns, base, at + 1, 0)
  {
  }

  /** Two matches that name different addresses rule a single target out. */
  lemma TwoTargets(found: nat, code: seq<Byte>, patterns: seq<Site>, base: nat, at: nat, n: nat, address: nat)
    requires Found(Some(found), code, patterns, base, at, n) && HitOf(code, patterns, at, n)
    requires found != TargetOf(base, patterns, at, n)
    ensures !OneTarget(code, patterns, base, address)
  {
    var q, k :| HitOf(code, patterns, q, k) && TargetOf(base, patterns, q, k) == found;
  }

  lemma AllFound(found: Option<nat>, code: seq<Byte>, patterns: seq<Site>, base: nat, address: nat)
    requires Found(found, code, patterns, base, |code|, 0)
    ensures found == Some(address) <==> OneTarget(code, patterns, base, address)
  {
    forall q, k | HitOf(code, patterns, q, k)
      ensures found == Some(TargetOf(base, patterns, q, k))
    {
      assert Before(q, k, |code|, 0);
    }
  }

  // ---- Chunks ----

  function Min(a: int, b: int): int {
    if a < b then a else b
  }

  /** Every chunk overlaps the next one by one byte less than the longest pattern. */
  function Amount(size: nat, longest: nat, begin: nat): (amount: nat)
    requires begin < size && longest > 0
    ensures amount <= size - begin
  {
    Min(size - begin, CHUNK) + Min(size - begin - Min(size - begin, CHUNK), longest - 1)
  }

  ghost predicate ReadableBefore(p: Process, base: nat, size: nat, longest: nat, end: nat) {
    longest > 0 &&
    forall begin: nat :: begin < size && begin < end && begin % 65536 == 0 ==> Readable(p, base + begin, Amount(size, longest, begin))
  }

  ghost predicate AllReadable(p: Process, base: nat, size: nat, longest: nat) {
    ReadableBefore(p, base, size, longest, size)
  }

  lemma ReadableOneMore(p: Process, base: nat, size: nat, longest: nat, begin: nat)
    requires begin < size && begin % 65536 == 0 && ReadableBefore(p, base, size, longest, begin)
    requires Readable(p, base + begin, Amount(size, longest, begin))
    ensures ReadableBefore(p, base, size, longest, begin + Min(size - begin, CHUNK))
    ensures begin + CHUNK < size ==> (begin + CHUNK) % 65536 == 0
  {
  }

  /** A chunk shows a pattern exactly where the whole image does: no match that straddles the end of the
      chunk's own part is lost, and none is invented. */
  lemma ChunkShows(p: Process, base: nat, size: nat, longest: nat, begin: nat, offset: nat, site: Site)
    requires begin < size && 0 < longest && |site.bytes| <= longest && offset < Min(size - begin, CHUNK)
    ensures var code := Memory(p, base, size);
            var chunk := Memory(p, base + begin, Amount(size, longest, begin));
            (|site.bytes| <= |chunk| - offset && Hit(chunk, offset, site)) <==> Hit(code, begin + offset, site)
  {
    var code := Memory(p, base, size);
    var chunk := Memory(p, base + begin, Amount(size, longest, begin));
    forall i | 0 <= i < |chunk|
      ensures chunk[i] == code[begin + i]
    {
    }
    assert |site.bytes| <= |chunk| - offset <==> begin + offset + |site.bytes| <= |code|;
    if |site.bytes| <= |chunk| - offset {
      assert chunk[offset..offset + |site.bytes|] == code[begin + offset..begin + offset + |site.bytes|];
    }
  }

  /** All the patterns at one place of the chunk. */
  method ScanPlace(chunk: array<Byte>, amount: nat, offset: nat, address: nat, patterns: seq<Site>, before: Option<nat>,
                   ghost code: seq<Byte>, ghost base: nat, ghost begin: nat)
    returns (found: Option<nat>, clash: bool)
    requires amount <= chunk.Length && offset < amount && address == base + begin && begin + offset < |code|
    requires forall n :: 0 <= n < |patterns| ==>
               ((|patterns[n].bytes| <= amount - offset && Hit(chunk[..amount], offset, patterns[n])) <==>
                Hit(code, begin + offset, patterns[n]))
    requires Found(before, code, patterns, base, begin + offset, 0)
    ensures !clash ==> Found(found, code, patterns, base, begin + offset + 1, 0)
    ensures clash ==> forall a: nat :: !OneTarget(code, patterns, base, a)
  {
    found, clash := before, false;
    for n := 0 to |patterns|
      invariant Found(found, code, patterns, base, begin + offset, n)
    {
      var pattern := patterns[n];
      var here := Matches(chunk[..amount], offset, pattern);
      if |pattern.bytes| > amount - offset || !here {
        NotHere(found, code, patterns, base, begin + offset, n);
        continue;
      }
      var candidate := address + (offset + pattern.targetDelta);
      if found.Some? && candidate != found.value {
        forall a: nat {
          TwoTargets(found.value, code, patterns, base, begin + offset, n, a);
        }
        return None, true;
      }
      FoundHere(found, code, patterns, base, begin + offset, n);
      found := Some(candidate);
    }
    NextPlace(found, code, patterns, base, begin + offset);
  }

  /** All the places of the chunk's own part. */
  method ScanChunk(chunk: array<Byte>, p: Process, base: nat, size: nat, begin: nat, advance: nat, amount: nat,
                   patterns: seq<Site>, before: Option<nat>, longest: nat)
    returns (found: Option<nat>, clash: bool)
    requires begin < size && longest > 0 && forall n :: 0 <= n < |patterns| ==> |patterns[n].bytes| <= longest
    requires amount == Amount(size, longest, begin) <= chunk.Length && advance == Min(size - begin, CHUNK)
    requires chunk[..amount] == Memory(p, base + begin, amount)
    requires Found(before, Memory(p, base, size), patterns, base, begin, 0)
    ensures !clash ==> Found(found, Memory(p, base, size), patterns, base, begin + advance, 0)
    ensures clash ==> forall a: nat :: !OneTarget(Memory(p, base, size), patterns, base, a)
  {
    found, clash := before, false;
    for offset := 0 to advance
      invariant Found(found, Memory(p, base, size), patterns, base, begin + offset, 0)
    {
      forall n | 0 <= n < |patterns| {
        ChunkShows(p, base, size, longest, begin, offset, patterns[n]);
      }
      found, clash := ScanPlace(chunk, amount, offset, base + begin, patterns, found, Memory(p, base, size), base, begin);
      if clash {
        return None, true;
      }
    }
  }

  /** The scan of the code, chunk by chunk: the target is the one address that all the matches in the
      whole code name; it is missing when there is no match, when two disagree, or when a read fails. */
  method Scan(p: Process, base: nat, size: nat, patterns: seq<Site>, longest: nat) returns (found: Option<nat>)
    requires size > 0 && longest > 0 && forall n :: 0 <= n < |patterns| ==> |patterns[n].bytes| <= longest
    ensures forall a: nat :: found == Some(a) <==> AllReadable(p, base, size, longest) && OneTarget(Memory(p, base, size), patterns, base, a)
  {
    var chunk := new Byte[CHUNK + longest];
    found := None;
    var begin: nat := 0;
    while begin < size
      invariant begin <= size && (begin < size ==> begin % 65536 == 0)
      invariant ReadableBefore(p, base, size, longest, begin)
      invariant Found(found, Memory(p, base, size), patterns, base, begin, 0)
    {
      var advance := Min(size - begin, CHUNK);
      var overlap := Min(size - begin - advance, longest - 1);
      var ok := BoundedRead(p, base + begin, chunk, advance + overlap);
      if !ok {
        assert !Readable(p, base + begin, Amount(size, longest, begin));
        return None;
      }
      var clash: bool;
      found, clash := ScanChunk(chunk, p, base, size, begin, advance, advance + overlap, patterns, found, longest);
      if clash {
        return None;
      }
      ReadableOneMore(p, base, size, longest, begin);
      begin := begin + advance;
    }
    forall a: nat {
      AllFound(found, Memory(p, base, size), patterns, base, a);
    }
  }

  // ---- One pattern ----

  /** With one pattern the scan and the unique search over the same code agree. */
  lemma AgreesWithUnique(code: seq<Byte>, site: Site, base: U64, r: U64)
    requires site.targetDelta < |site.bytes| && 0 < base && base + |code| <= 0xffff_ffff_ffff_ffff
    requires Scanned(code, 0, |code|, site, base, r)
    ensures forall a: nat :: OneTarget(code, [site], base, a) <==> a != 0 && r == a
  {
    UniqueAboveZero(code, 0, |code|, site, base, r);
    forall a: nat
      ensures OneTarget(code, [site], base, a) <==> a != 0 && r == a
    {
      if OneTarget(code, [site], base, a) {
        var at, n :| HitOf(code, [site], at, n) && TargetOf(base, [site], at, n) == a;
        forall p | 0 <= p < |code| && HitIn(code, 0, |code|, site, p)
          ensures p == at
        {
          assert HitOf(code, [site], p, 0);
        }
        assert OnlyHit(code, 0, |code|, site, base, at);
      }
      if r != 0 {
        var at :| 0 <= at < |code| && OnlyHit(code, 0, |code|, site, base, at);
        assert HitOf(code, [site], at, 0) && TargetOf(base, [site], at, 0) == r;
        forall q, k | HitOf(code, [site], q, k)
          ensures TargetOf(base, [site], q, k) == r
        {
          assert HitIn(code, 0, |code|, site, q);
        }
        assert OneTarget(code, [site], base, r);
      }
    }
  }

  // ---- The whole discovery ----

  /** The instruction to replace, and the layout's answer when the replacement is one cleared bit. */
  datatype Change = Exact(instruction: seq<Byte>, patched: seq<Byte>) | ClearBit(size: nat, bit: Option<nat>)

  datatype Discovery =
    | Refused
    | Discovered(address: nat, live: seq<Byte>, replacement: seq<Byte>, instructionMatch: bool, alreadyPatched: bool)

  function InstructionSize(c: Change): nat {
    match c
    case Exact(instruction, _) => |instruction|
    case ClearBit(size, _) => size
  }

  predicate PatternFits(site: Site, size: nat) {
    0 < |site.bytes| <= 512 && site.targetDelta <= |site.bytes| && size <= |site.bytes| - site.targetDelta
  }

  predicate Admissible(patterns: seq<Site>, codeSize: nat, c: Change) {
    && 0 < codeSize <= 32 * 1024 * 1024 && 1 <= |patterns| <= 17
    && (forall n :: 0 <= n < |patterns| ==> PatternFits(patterns[n], InstructionSize(c)))
    && (c.ClearBit? ==> c.bit.Some?)
  }

  function Longest(patterns: seq<Site>): (l: nat)
    ensures forall n :: 0 <= n < |patterns| ==> |patterns[n].bytes| <= l
  {
    if patterns == [] then 0
    else
      var front := patterns[..|patterns| - 1];
      var rest := Longest(front);
      assert forall n :: 0 <= n < |front| ==> front[n] == patterns[n];
      if |patterns[|patterns| - 1].bytes| > rest then |patterns[|patterns| - 1].bytes| else rest
  }

  /** Clears one bit of the 64-bit immediate that follows the two opcode bytes. */
  function Cleared(live: seq<Byte>, bit: nat): (r: seq<Byte>)
    requires |live| == 10 && bit < 64
    ensures |r| == 10
  {
    live[2 + bit / 8 := live[2 + bit / 8] & !(1 << (bit % 8))]
  }

  /** What is decided once the instruction has been found and read. */
  function Decide(address: nat, live: seq<Byte>, c: Change): Discovery
  {
    match c
    case ClearBit(size, bit) =>
      if |live| != 10 || live[0] != 0x48 || live[1] != 0xb8 || bit == None || bit.value >= 64 then Refused
      else Discovered(address, live, Cleared(live, bit.value), live != Cleared(live, bit.value), live == Cleared(live, bit.value))
    case Exact(instruction, patched) =>
      if live != instruction && live != patched then Refused
      else Discovered(address, live, patched, live == instruction, live == patched)
  }

  method DiscoverDynamic(p: Process, base: nat, codeSize: nat, patterns: seq<Site>, c: Change) returns (d: Discovery)
    ensures d.Discovered? ==> Admissible(patterns, codeSize, c) && OneTarget(Memory(p, base, codeSize), patterns, base, d.address) &&
                              d == Decide(d.address, Memory(p, d.address, InstructionSize(c)), c)
    ensures forall a: nat :: Admissible(patterns, codeSize, c) && AllReadable(p, base, codeSize, Longest(patterns)) &&
                             OneTarget(Memory(p, base, codeSize), patterns, base, a) && Readable(p, a, InstructionSize(c)) ==>
                               d == Decide(a, Memory(p, a, InstructionSize(c)), c)
  {
    if codeSize == 0 || codeSize > 32 * 1024 * 1024 || |patterns| == 0 || |patterns| > 17 {
      return Refused;
    }
    var longest := 0;
    for n := 0 to |patterns|
      invariant forall k :: 0 <= k < n ==> PatternFits(patterns[k], InstructionSize(c))
      invariant longest == Longest(patterns[..n])
    {
      var pattern := patterns[n];
      if |pattern.bytes| == 0 || |pattern.bytes| > 512 || pattern.targetDelta > |pattern.bytes| ||
         InstructionSize(c) > |pattern.bytes| - pattern.targetDelta {
        return Refused;
      }
      assert patterns[..n + 1][..n] == patterns[..n];
      if |pattern.bytes| > longest {
        longest := |pattern.bytes|;
      }
    }
    assert patterns[..|patterns|] == patterns;
    if c.ClearBit? && c.bit == None {
      return Refused;
    }
    assert |patterns[0].bytes| <= longest;
    var found := Scan(p, base, codeSize, patterns, longest);
    if found == None {
      return Refused;
    }
    var live := new Byte[InstructionSize(c)];
    var ok := BoundedRead(p, found.value, live, InstructionSize(c));
    if !ok {
      return Refused;
    }
    assert live[..] == live[..InstructionSize(c)];
    d := Decide(found.value, live[..], c);
  }

  /** Clearing the bit changes no other bit of the instruction, and nothing at all when it is clear. */
  lemma ClearedExactly(live: seq<Byte>, bit: nat, i: nat, mask: Byte)
    requires |live| == 10 && bit < 64 && i < 10
    ensures i != 2 + bit / 8 ==> Cleared(live, bit)[i] == live[i]
    ensures mask & (1 << (bit % 8)) == 0 ==> Cleared(live, bit)[i] & mask == live[i] & mask
    ensures Cleared(live, bit)[2 + bit / 8] & (1 << (bit % 8)) == 0
    ensures Cleared(live, bit) == live <==> live[2 + bit / 8] & (1 << (bit % 8)) == 0
  {
    ClearedByte(live[2 + bit / 8], 1 << (bit % 8), mask);
  }

  lemma ClearedByte(b: Byte, one: Byte, mask: Byte)
    ensures mask & one == 0 ==> (b & !one) & mask == b & mask
    ensures (b & !one) & one == 0
    ensures b & !one == b <==> b & one == 0
  {
  }

  /** A search is admissible exactly when the code has some bytes, 32 MiB at most, and there are one to
      seventeen patterns, each of which contains the whole instruction to replace. */
  lemma AdmissibleIff(patterns: seq<Site>, codeSize: nat, c: Change)
    ensures Admissible(patterns, codeSize, c) <==>
            1 <= codeSize <= 0x200_0000 && 1 <= |patterns| <= 17 && (c.ClearBit? ==> c.bit != None) &&
            forall site :: site in patterns ==>
              1 <= |site.bytes| <= 512 && site.targetDelta + InstructionSize(c) <= |site.bytes|
  {
    assert forall n :: 0 <= n < |patterns| ==> patterns[n] in patterns;
  }

  /** The bit of a ten-byte instruction's immediate. */
  predicate ImmediateBit(live: seq<Byte>, bit: nat)
    requires |live| == 10 && bit < 64
  {
    live[2 + bit / 8] & (1 << (bit % 8)) != 0
  }

  /** A setting is cleared exactly in a load of a 64-bit immediate into RAX; it counts as done already
      exactly when its bit is clear, and the replacement keeps the opcode and every other bit. */
  lemma DecideClears(address: nat, live: seq<Byte>, size: nat, bit: Option<nat>, other: nat)
    ensures var d := Decide(address, live, ClearBit(size, bit));
            && (d.Discovered? <==> |live| == 10 && live[..2] == [0x48, 0xb8] && bit.Some? && bit.value < 64)
            && (d.Discovered? ==>
                  && d.address == address && d.live == live && |d.replacement| == 10 && d.replacement[..2] == live[..2]
                  && (d.instructionMatch <==> ImmediateBit(live, bit.value))
                  && (d.alreadyPatched <==> !ImmediateBit(live, bit.value))
                  && (other < 64 ==> (ImmediateBit(d.replacement, other) <==> ImmediateBit(live, other) && other != bit.value)))
  {
    if |live| == 10 && bit.Some? && bit.value < 64 {
      ClearedOpcode(live, bit.value);
      if other < 64 {
        OneBitLeft(live, bit.value, other);
      }
    }
    hide Cleared, ImmediateBit;
  }

  lemma ClearedOpcode(live: seq<Byte>, bit: nat)
    requires |live| == 10 && bit < 64
    ensures Cleared(live, bit)[..2] == live[..2] && (Cleared(live, bit) == live <==> !ImmediateBit(live, bit))
  {
    ClearedExactly(live, bit, 0, 0);
  }

  lemma OneBitLeft(live: seq<Byte>, bit: nat, other: nat)
    requires |live| == 10 && bit < 64 && other < 64
    ensures ImmediateBit(Cleared(live, bit), other) <==> ImmediateBit(live, other) && other != bit
  {
    var mask: Byte := 1 << (other % 8);
    if other % 8 != bit % 8 {
      OneBits(other % 8, bit % 8);
    }
    ClearedExactly(live, bit, 2 + other / 8, mask);
  }

  lemma OneBits(a: nat, b: nat)
    requires a < 8 && b < 8 && a != b
    ensures (1 as Byte << a) & (1 as Byte << b) == 0
  {
  }

  /** A whole instruction is replaced exactly when it is there, or its replacement is. */
  lemma DecideReplaces(address: nat, live: seq<Byte>, instruction: seq<Byte>, patched: seq<Byte>)
    ensures var c := Exact(instruction, patched);
            var d := Decide(address, live, c);
            && (live == instruction ==> |live| == InstructionSize(c))
            && (d.Discovered? <==> live in {instruction, patched})
            && (d.Discovered? ==>
                  && d.address == address && d.live == live && d.replacement == patched
                  && (d.instructionMatch <==> live == instruction) && (d.alreadyPatched <==> live == patched))
  {
  }
}
