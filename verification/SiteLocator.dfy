/** Masked byte patterns in a code image: the unique match, the symbol-anchored match, and the overlay
    that patches only audited bytes. */
module SiteLocator {
  import opened Bits

  type Byte = bv8

  /** A pattern with its mask; `targetDelta` is where the instruction of interest starts in it. */
  datatype Pattern = Pattern(targetDelta: nat, bytes: seq<Byte>, mask: seq<Byte>)
  type Site = p: Pattern | |p.bytes| == |p.mask| witness Pattern(0, [], [])

  predicate SameUnder(mask: Byte, a: Byte, b: Byte) {
    a & mask == b & mask
  }

  /** The pattern stands at this offset of the image. */
  predicate Hit(image: seq<Byte>, offset: nat, site: Site) {
    && 0 < |site.bytes| && offset + |site.bytes| <= |image|
    && forall i :: 0 <= i < |site.bytes| ==> SameUnder(site.mask[i], image[offset + i], site.bytes[i])
  }

  lemma DifferUnder(mask: Byte, a: Byte, b: Byte)
    ensures SameUnder(mask, a, b) <==> (a ^ b) & mask == 0
  {
  }

  /** A pattern stands where it fits and every bit in which the image differs from it is outside its mask. */
  lemma HitIff(image: seq<Byte>, offset: nat, site: Site)
    ensures Hit(image, offset, site) <==>
            && 1 <= |site.bytes| <= |image| - offset
            && forall i :: 0 <= i < |site.bytes| ==> (image[offset + i] ^ site.bytes[i]) & site.mask[i] == 0
  {
    if 1 <= |site.bytes| <= |image| - offset {
      forall i | 0 <= i < |site.bytes|
        ensures SameUnder(site.mask[i], image[offset + i], site.bytes[i]) <==>
                (image[offset + i] ^ site.bytes[i]) & site.mask[i] == 0
      {
        DifferUnder(site.mask[i], image[offset + i], site.bytes[i]);
      }
    }
  }

  method Matches(image: seq<Byte>, offset: nat, site: Site) returns (r: bool)
    ensures r <==> Hit(image, offset, site)
  {
    if |site.bytes| == 0 || offset > |image| || |site.bytes| > |image| - offset {
      return false;
    }
    for i := 0 to |site.bytes|
      invariant forall j :: 0 <= j < i ==> SameUnder(site.mask[j], image[offset + j], site.bytes[j])
    {
      if !SameUnder(site.mask[i], image[offset + i], site.bytes[i]) {
        return false;
      }
    }
    return true;
  }

  // ---- The unique match ----

  /** A place the scan of [begin, end) accepts. */
  predicate HitIn(image: seq<Byte>, begin: nat, end: nat, site: Site, at: nat) {
    begin <= at && at + |site.bytes| <= end && Hit(image, at, site)
  }

  predicate Addressable(site: Site, base: U64, at: nat) {
    site.targetDelta < |site.bytes| && base + at + site.targetDelta <= 0xffff_ffff_ffff_ffff
  }

  /** The address a hit stands for, unless it is the zero that means failure. */
  predicate Visible(site: Site, base: U64, at: nat) {
    base + at + site.targetDelta != 0
  }

  /** `at` is the only hit, and its target is an address. */
  predicate OnlyHit(image: seq<Byte>, begin: nat, end: nat, site: Site, base: U64, at: nat) {
    && HitIn(image, begin, end, site, at) && Addressable(site, base, at)
    && forall p :: begin <= p < end && HitIn(image, begin, end, site, p) ==> p == at
  }

  /** `at` is the only hit the code notices: hits whose target is address zero go unnoticed. */
  predicate OnlyVisibleHit(image: seq<Byte>, begin: nat, end: nat, site: Site, base: U64, at: nat) {
    && HitIn(image, begin, end, site, at) && Addressable(site, base, at) && Visible(site, base, at)
    && forall p :: begin <= p < end && HitIn(image, begin, end, site, p) && Visible(site, base, p) ==> p == at
  }

  ghost predicate NoneBefore(image: seq<Byte>, begin: nat, end: nat, site: Site, base: U64, at: nat) {
    forall p :: begin <= p < at && HitIn(image, begin, end, site, p) ==> !Visible(site, base, p)
  }

  /** The scan for a unique match; zero means that there is none, or more than one. */
  method Unique(image: seq<Byte>, begin: nat, end: nat, site: Site, base: U64) returns (r: U64)
    requires end <= |image|
    ensures forall at :: begin <= at < end && OnlyVisibleHit(image, begin, end, site, base, at) ==> r == base + at + site.targetDelta
    ensures r != 0 ==> exists at :: begin <= at < end && OnlyVisibleHit(image, begin, end, site, base, at)
  {
    if begin > end || |site.bytes| > end - begin {
      return 0;
    }
    r := 0;
    ghost var first: nat := 0;
    var at := begin;
    while at <= end - |site.bytes|
      invariant begin <= at <= end - |site.bytes| + 1
      invariant r == 0 ==> NoneBefore(image, begin, end, site, base, at)
      invariant r != 0 ==> first < at && OneBefore(image, begin, end, site, base, at, first) && r == base + first + site.targetDelta
    {
      var here := Matches(image, at, site);
      if here {
        if r != 0 || site.targetDelta >= |site.bytes| || base > 0xffff_ffff_ffff_ffff - at - site.targetDelta {
          SecondHit(image, begin, end, site, base, at, r != 0, first);
          return 0;
        }
        r := base + at + site.targetDelta;
        first := at;
      }
      at := at + 1;
    }
    if r != 0 {
      assert OnlyVisibleHit(image, begin, end, site, base, first);
    }
  }

  ghost predicate OneBefore(image: seq<Byte>, begin: nat, end: nat, site: Site, base: U64, at: nat, first: nat) {
    && HitIn(image, begin, end, site, first) && Addressable(site, base, first) && Visible(site, base, first)
    && forall p :: begin <= p < at && HitIn(image, begin, end, site, p) && Visible(site, base, p) ==> p == first
  }

  /** A second hit, or one whose target is no address, rules a unique match out. */
  lemma SecondHit(image: seq<Byte>, begin: nat, end: nat, site: Site, base: U64, at: nat, again: bool, first: nat)
    requires HitIn(image, begin, end, site, at)
    requires again ==> first < at && HitIn(image, begin, end, site, first) && Visible(site, base, first)
    requires !again ==> !Addressable(site, base, at)
    ensures forall p :: begin <= p < end ==> !OnlyVisibleHit(image, begin, end, site, base, p)
  {
    assert Visible(site, base, at);
  }

  /** What the scan is for: `r` is the one hit's target, and it is zero exactly when there is not exactly
      one hit at an address. */
  ghost predicate Identifies(image: seq<Byte>, begin: nat, end: nat, site: Site, base: U64, r: U64) {
    && (forall at :: begin <= at < end && OnlyHit(image, begin, end, site, base, at) ==> r == base + at + site.targetDelta)
    && (r != 0 <==> exists at :: begin <= at < end && OnlyHit(image, begin, end, site, base, at))
  }

  /** The result of the scan, as its contract fixes it. */
  ghost predicate Scanned(image: seq<Byte>, begin: nat, end: nat, site: Site, base: U64, r: U64) {
    && (forall at :: begin <= at < end && OnlyVisibleHit(image, begin, end, site, base, at) ==> r == base + at + site.targetDelta)
    && (r != 0 ==> exists at :: begin <= at < end && OnlyVisibleHit(image, begin, end, site, base, at))
  }

  /** For an image that is not loaded at address zero the scan is right. */
  lemma UniqueAboveZero(image: seq<Byte>, begin: nat, end: nat, site: Site, base: U64, r: U64)
    requires end <= |image| && Scanned(image, begin, end, site, base, r) && base + begin + site.targetDelta > 0
    ensures Identifies(image, begin, end, site, base, r)
  {
    forall at | begin <= at < end && HitIn(image, begin, end, site, at)
      ensures OnlyHit(image, begin, end, site, base, at) <==> OnlyVisibleHit(image, begin, end, site, base, at)
    {
      assert Visible(site, base, at);
    }
  }

  /** The first hit stands for address zero, where the result that means failure lies. */
  predicate HitAtZero(image: seq<Byte>, begin: nat, end: nat, site: Site, base: U64) {
    base == begin == site.targetDelta == 0 && HitIn(image, 0, end, site, 0)
  }

  ghost predicate TwoMore(image: seq<Byte>, end: nat, site: Site) {
    exists p, q :: 0 < p < q < end && HitIn(image, 0, end, site, p) && HitIn(image, 0, end, site, q)
  }

  lemma NoZeroHit(image: seq<Byte>, begin: nat, end: nat, site: Site, base: U64, r: U64)
    requires end <= |image| && Scanned(image, begin, end, site, base, r)
    requires base == begin == site.targetDelta == 0 && !HitIn(image, 0, end, site, 0)
    ensures Identifies(image, begin, end, site, base, r)
  {
    forall at | begin <= at < end && HitIn(image, begin, end, site, at)
      ensures OnlyHit(image, begin, end, site, base, at) <==> OnlyVisibleHit(image, begin, end, site, base, at)
    {
      assert at > 0;
    }
  }

  /** With a hit at address zero the scan is right only when at least two more rule a unique match out. */
  lemma ZeroHitMisleads(image: seq<Byte>, begin: nat, end: nat, site: Site, base: U64, r: U64)
    requires end <= |image| <= MAX_U64 && Scanned(image, begin, end, site, base, r) && HitAtZero(image, begin, end, site, base)
    ensures Identifies(image, begin, end, site, base, r) <==> TwoMore(image, end, site)
  {
    if TwoMore(image, end, site) {
      var p, q :| 0 < p < q < end && HitIn(image, 0, end, site, p) && HitIn(image, 0, end, site, q);
      assert Visible(site, base, p) && Visible(site, base, q);
      assert forall at :: begin <= at < end ==> !OnlyVisibleHit(image, begin, end, site, base, at);
      assert forall at :: begin <= at < end ==> !OnlyHit(image, begin, end, site, base, at);
    } else if exists p :: 0 < p < end && HitIn(image, 0, end, site, p) {
      var p :| 0 < p < end && HitIn(image, 0, end, site, p);
      assert OnlyVisibleHit(image, begin, end, site, base, p);
      assert forall at :: begin <= at < end ==> !OnlyHit(image, begin, end, site, base, at);
    } else {
      assert OnlyHit(image, begin, end, site, base, 0);
    }
  }

  /** For every image that fits the address space: the scan identifies the unique match exactly unless a
      hit stands for address zero and fewer than two more hits lie above it. */
  lemma UniqueExact(image: seq<Byte>, begin: nat, end: nat, site: Site, base: U64, r: U64)
    requires end <= |image| <= MAX_U64 && Scanned(image, begin, end, site, base, r)
    ensures Identifies(image, begin, end, site, base, r) <==>
            !(HitAtZero(image, begin, end, site, base) && !TwoMore(image, end, site))
  {
    if base + begin + site.targetDelta > 0 {
      UniqueAboveZero(image, begin, end, site, base, r);
    } else if HitAtZero(image, begin, end, site, base) {
      ZeroHitMisleads(image, begin, end, site, base, r);
    } else {
      NoZeroHit(image, begin, end, site, base, r);
    }
  }

  /** The only hit stands for address zero: the scan answers as it does for an image without any hit. */
  lemma UniqueMissed(r: U64, none: U64)
    requires Scanned([7], 0, 1, Pattern(0, [7], [255]), 0, r)
    requires Scanned([8], 0, 1, Pattern(0, [7], [255]), 0, none)
    ensures OnlyHit([7], 0, 1, Pattern(0, [7], [255]), 0, 0) && !HitIn([8], 0, 1, Pattern(0, [7], [255]), 0)
    ensures r == none == 0
  {
    var site: Site := Pattern(0, [7], [255]);
    assert HitIn([7], 0, 1, site, 0);
    assert !Visible(site, 0, 0);
    assert !SameUnder(site.mask[0], [8 as Byte][0 + 0], site.bytes[0]);
  }

  /** Two hits, the first at address zero: the scan reports the second as if it were the only one. */
  lemma UniqueMisled(r: U64)
    requires Scanned([7, 7], 0, 2, Pattern(0, [7], [255]), 0, r)
    ensures HitIn([7, 7], 0, 2, Pattern(0, [7], [255]), 0) && HitIn([7, 7], 0, 2, Pattern(0, [7], [255]), 1)
    ensures r == 1
  {
    var site: Site := Pattern(0, [7], [255]);
    assert HitIn([7, 7], 0, 2, site, 1) && HitIn([7, 7], 0, 2, site, 0);
    assert OnlyVisibleHit([7, 7], 0, 2, site, 0, 1);
  }

  /** The bounds inside which anything is resolved at all. */
  predicate Resolvable(image: seq<Byte>, begin: nat, end: nat, site: Site) {
    begin <= end <= |image| && site.targetDelta < |site.bytes|
  }

  /** The match of a site that a symbol names: at its exact place in the function, or the unique one
      before the symbol that ends the scope. A site without a symbol is searched in the whole range. */
  method Resolve(image: seq<Byte>, begin: nat, end: nat, site: Site, symbolDelta: nat, scoped: bool,
                 base: U64, symbol: U64, scopeEnd: U64) returns (r: U64)
    ensures r != 0 ==> Resolvable(image, begin, end, site) &&
                       exists at :: begin <= at < end && HitIn(image, begin, end, site, at) && r == base + at + site.targetDelta
    ensures Resolvable(image, begin, end, site) && symbol == 0 ==> Scanned(image, begin, end, site, base, r)
    ensures symbol != 0 && !(base + begin <= symbol < base + end) ==> r == 0
    ensures scoped && symbol != 0 && !(symbol < scopeEnd <= base + end) ==> r == 0
    ensures Resolvable(image, begin, end, site) && scoped && symbol != 0 && base + begin <= symbol < scopeEnd <= base + end ==>
              Scanned(image, symbol - base, scopeEnd - base, site, base, r)
    ensures !scoped && symbol != 0 && r != 0 ==> r == symbol + symbolDelta + site.targetDelta
    ensures Resolvable(image, begin, end, site) && !scoped && base + begin <= symbol < base + end && symbol != 0 ==>
              (r != 0 <==> HitIn(image, begin, end, site, symbol - base + symbolDelta) &&
                           Addressable(site, base, symbol - base + symbolDelta))
  {
    if begin > end || end > |image| || |site.bytes| == 0 || site.targetDelta >= |site.bytes| {
      return 0;
    }
    if symbol == 0 {
      r := Unique(image, begin, end, site, base);
      return;
    }
    if symbol < base || symbol - base < begin || symbol - base >= end {
      return 0;
    }
    var start := symbol - base;
    if scoped {
      if scopeEnd <= symbol || scopeEnd < base || scopeEnd - base > end {
        return 0;
      }
      r := Unique(image, start, scopeEnd - base, site, base);
      if r != 0 {
        ghost var at :| start <= at < scopeEnd - base && OnlyVisibleHit(image, start, scopeEnd - base, site, base, at);
        assert HitIn(image, begin, end, site, at);
      }
      return;
    }
    if symbolDelta > end - start {
      return 0;
    }
    var candidate := start + symbolDelta;
    var here := Matches(image, candidate, site);
    if |site.bytes| > end - candidate || !here || base > 0xffff_ffff_ffff_ffff - candidate - site.targetDelta {
      return 0;
    }
    assert HitIn(image, begin, end, site, candidate);
    return base + candidate + site.targetDelta;
  }

  /** A whole contract stands around its discovered target, with room for the required bytes. */
  method Covers(image: seq<Byte>, target: nat, site: Site, requiredSize: nat) returns (r: bool)
    ensures r <==> exists at: nat :: Hit(image, at, site) && target == at + site.targetDelta && site.targetDelta < |site.bytes| &&
                                     target + requiredSize <= at + |site.bytes|
  {
    if target < site.targetDelta || site.targetDelta >= |site.bytes| || requiredSize > |site.bytes| - site.targetDelta {
      return false;
    }
    r := Matches(image, target - site.targetDelta, site);
  }

  // ---- The overlay ----

  /** Only bytes that the audited patch changes are replaced. */
  function Overlay(live: seq<Byte>, before: seq<Byte>, after: seq<Byte>): (out: seq<Byte>)
    requires |live| == |before| == |after|
    ensures |out| == |live|
  {
    seq(|live|, i requires 0 <= i < |live| => if before[i] == after[i] then live[i] else after[i])
  }

  /** The bytes about to be changed are the audited ones. */
  predicate Patchable(live: seq<Byte>, before: seq<Byte>, after: seq<Byte>) {
    |live| == |before| == |after| && forall i :: 0 <= i < |live| && before[i] != after[i] ==> live[i] == before[i]
  }

  method PatchDelta(live: seq<Byte>, before: seq<Byte>, after: seq<Byte>, output: array<Byte>) returns (ok: bool)
    requires |live| == |before| == |after| == output.Length
    modifies output
    ensures ok <==> |live| > 0 && Patchable(live, before, after)
    ensures output[..] == if ok then Overlay(live, before, after) else old(output[..])
  {
    if |live| == 0 {
      return false;
    }
    for i := 0 to |live|
      invariant forall j :: 0 <= j < i && before[j] != after[j] ==> live[j] == before[j]
    {
      if before[i] != after[i] && live[i] != before[i] {
        return false;
      }
    }
    for i := 0 to |live|
      invariant forall j :: 0 <= j < i ==> output[j] == Overlay(live, before, after)[j]
    {
      output[i] := if before[i] == after[i] then live[i] else after[i];
    }
    return true;
  }

  /** Undoing a patch is patching the other way round: it is accepted and gives the live bytes back. */
  lemma PatchRoundTrip(live: seq<Byte>, before: seq<Byte>, after: seq<Byte>)
    requires Patchable(live, before, after)
    ensures Patchable(Overlay(live, before, after), after, before)
    ensures Overlay(Overlay(live, before, after), after, before) == live
  {
  }

  /** Patching a patched site again is refused, unless there is nothing to change. */
  lemma PatchOnce(live: seq<Byte>, before: seq<Byte>, after: seq<Byte>)
    requires Patchable(live, before, after)
    ensures Patchable(Overlay(live, before, after), before, after) <==> before == after
  {
    if before != after {
      var i :| 0 <= i < |before| && before[i] != after[i];
      assert Overlay(live, before, after)[i] == after[i];
    }
  }

  /** The smallest span that holds every changed byte. */
  method PatchSpan(before: seq<Byte>, after: seq<Byte>) returns (ok: bool, offset: nat, size: nat)
    requires |before| == |after|
    ensures ok <==> |before| <= 128 && before != after
    ensures ok ==> size > 0 && offset + size <= |before|
    ensures ok ==> before[offset] != after[offset] && before[offset + size - 1] != after[offset + size - 1]
    ensures ok ==> before[..offset] == after[..offset] && before[offset + size..] == after[offset + size..]
  {
    offset, size := 0, 0;
    if |before| == 0 || |before| > 128 {
      return false, 0, 0;
    }
    while offset < |before| && before[offset] == after[offset]
      invariant offset <= |before| && before[..offset] == after[..offset]
    {
      offset := offset + 1;
    }
    if offset == |before| {
      assert before == before[..offset];
      return false, offset, 0;
    }
    size := |before| - offset;
    while size > 1 && before[offset + size - 1] == after[offset + size - 1]
      invariant 0 < size <= |before| - offset
      invariant before[offset + size..] == after[offset + size..]
    {
      size := size - 1;
    }
    ok := true;
  }
}
