/** The in-place builder of the EDID. */
module EdidBuild {
  import opened Bits
  import opened EdidTiming
  import opened EdidImage

  // ---- Writing in place ----

  function Spliced(s: seq<U8>, at: nat, bytes: seq<U8>): (r: seq<U8>)
    requires at + |bytes| <= |s|
    ensures |r| == |s|
  {
    s[..at] + bytes + s[at + |bytes|..]
  }

  method Put(out: array<U8>, at: nat, bytes: seq<U8>)
    requires at + |bytes| <= out.Length
    modifies out
    ensures out[..] == Spliced(old(out[..]), at, bytes)
  {
    for i := 0 to |bytes|
      invariant out[at..at + i] == bytes[..i]
      invariant out[..at] == old(out[..at]) && out[at + i..] == old(out[at + i..])
    {
      out[at + i] := bytes[i];
    }
    assert out[..] == out[..at] + out[at..at + |bytes|] + out[at + |bytes|..];
  }

  /** What is written is there; what is elsewhere stays. */
  lemma SplicedHere(s: seq<U8>, at: nat, bytes: seq<U8>)
    requires at + |bytes| <= |s|
    ensures Holds(Spliced(s, at, bytes), at, bytes)
    ensures forall i :: at <= i < at + |bytes| ==> Spliced(s, at, bytes)[i] == bytes[i - at]
    ensures forall i :: 0 <= i < at || at + |bytes| <= i < |s| ==> Spliced(s, at, bytes)[i] == s[i]
  {
  }

  lemma SplicedElsewhere(s: seq<U8>, at: nat, bytes: seq<U8>, lo: nat, hi: nat)
    requires at + |bytes| <= |s| && lo <= hi <= |s| && (hi <= at || at + |bytes| <= lo)
    ensures Spliced(s, at, bytes)[lo..hi] == s[lo..hi]
  {
  }

  /** Two buffers that agree up to `n`. */
  predicate Same(s: seq<U8>, s': seq<U8>, n: nat) {
    |s| == |s'| && n <= |s| && s[..n] == s'[..n]
  }

  lemma SameHolds(s: seq<U8>, s': seq<U8>, n: nat, at: nat, bytes: seq<U8>)
    requires Same(s, s', n) && at + |bytes| <= n && Holds(s, at, bytes)
    ensures Holds(s', at, bytes)
  {
    assert s'[at..at + |bytes|] == s'[..n][at..at + |bytes|];
    assert s[at..at + |bytes|] == s[..n][at..at + |bytes|];
  }

  lemma SameSlice(s: seq<U8>, s': seq<U8>, n: nat, lo: nat, hi: nat)
    requires Same(s, s', n) && lo <= hi <= n
    ensures s'[lo..hi] == s[lo..hi]
    ensures forall i :: 0 <= i < n ==> s'[i] == s[i]
  {
    forall i | 0 <= i < n
      ensures s'[i] == s[i]
    {
      assert s'[..n][i] == s[..n][i];
    }
  }

  predicate ZeroFrom(s: seq<U8>, n: nat) {
    forall i :: n <= i < |s| ==> s[i] == 0
  }

  /** A write at or after `n` keeps the first `n` bytes, and leaves zeros after itself. */
  lemma WriteAfter(s: seq<U8>, n: nat, at: nat, bytes: seq<U8>)
    requires n <= at && at + |bytes| <= |s|
    ensures Same(s, Spliced(s, at, bytes), n)
    ensures ZeroFrom(s, n) ==> ZeroFrom(Spliced(s, at, bytes), at + |bytes|)
    ensures Holds(Spliced(s, at, bytes), at, bytes)
  {
  }

  // ---- Sums in place ----

  method SumOf(out: array<U8>, from: nat, to: nat) returns (sum: U8)
    requires from <= to <= out.Length
    ensures sum == Sum(out[from..to]) % 256
  {
    sum := 0;
    for i := from to to
      invariant sum == Sum(out[from..i]) % 256
    {
      assert out[from..i + 1] == out[from..i] + [out[i]];
      SumMore(out[from..i], out[i]);
      sum := (sum + out[i]) % 256;
    }
  }

  /** The checksum of the block that starts at `at`. */
  method Checksum(out: array<U8>, at: nat)
    requires at + 128 <= out.Length
    modifies out
    ensures out[at + 127] == Check(out[at..at + 127])
    ensures out[..] == Spliced(old(out[..]), at + 127, [Check(old(out[at..at + 127]))])
  {
    var sum := SumOf(out, at, at + 127);
    out[at + 127] := (0x100 - sum as int) % 256;
    assert out[at..at + 127] == old(out[at..at + 127]);
  }

  // ---- The base block ----

  /** Everything before the detailed timings; the feature byte claims a native timing for now. */
  method WriteFront(out: array<U8>, t: Timing, serial: U32, product: U16)
    requires out.Length == 512 && ZeroFrom(out[..], 0)
    modifies out
    ensures FrontHeld(out[..], t, serial, product) && out[24] == 0x06 && ZeroFrom(out[..], 54)
  {
    ghost var s0 := out[..];
    Put(out, 0, PATTERN);
    ghost var s1 := out[..];
    WriteAfter(s0, 0, 0, PATTERN);
    Put(out, 8, Identity(t, serial, product));
    ghost var s2 := out[..];
    WriteAfter(s1, 8, 8, Identity(t, serial, product));
    SameHolds(s1, s2, 8, 0, PATTERN);
    Put(out, 24, [0x06]);
    ghost var s3 := out[..];
    WriteAfter(s2, 24, 24, [0x06]);
    SameHolds(s2, s3, 24, 0, PATTERN);
    SameHolds(s2, s3, 24, 8, Identity(t, serial, product));
    Put(out, 25, COLOURS);
    WriteAfter(s3, 25, 25, COLOURS);
    SameHolds(s3, out[..], 25, 0, PATTERN);
    SameHolds(s3, out[..], 25, 8, Identity(t, serial, product));
    assert out[24] == out[..25][24] == s3[..25][24] == s3[24];
  }

  lemma FrontStays(s: seq<U8>, s': seq<U8>, n: nat, t: Timing, serial: U32, product: U16)
    requires Same(s, s', n) && n >= 54 && FrontHeld(s, t, serial, product)
    ensures FrontHeld(s', t, serial, product)
  {
    SameHolds(s, s', n, 0, PATTERN);
    SameHolds(s, s', n, 8, Identity(t, serial, product));
    SameHolds(s, s', n, 25, COLOURS);
  }

  lemma DtdsStay(s: seq<U8>, s': seq<U8>, p: Plan, k: nat)
    requires Draft(p) && k <= |p.base| && Same(s, s', 54 + 18 * k) && DtdsHeld(s, p, k)
    ensures DtdsHeld(s', p, k)
  {
    forall j | 0 <= j < k
      ensures Holds(s', 54 + 18 * j, DtdOf(p, j))
    {
      SameHolds(s, s', 54 + 18 * k, 54 + 18 * j, DtdOf(p, j));
    }
  }

  /** Which of the first `n` modes are in the base block, as the builder's flags. */
  predicate Flags(inBase: seq<bool>, base: seq<nat>) {
    forall i :: 0 <= i < |inBase| ==> (inBase[i] <==> i in base)
  }

  lemma FlagsMore(inBase: seq<bool>, base: seq<nat>, i: nat)
    requires Flags(inBase, base) && i < |inBase|
    ensures Flags(inBase[i := true], base + [i])
  {
  }

  lemma BaseSoFar(ts: seq<Timing>, n: nat)
    requires n < |ts| && |BaseUpTo(ts, n)| < 2
    ensures FitsDtd(ts[n]) ==> |BaseOf(ts)| > |BaseUpTo(ts, n)| && BaseOf(ts)[|BaseUpTo(ts, n)|] == n
    ensures FitsDtd(ts[n]) ==> BaseUpTo(ts, n + 1) == BaseUpTo(ts, n) + [n]
    ensures !FitsDtd(ts[n]) ==> BaseUpTo(ts, n + 1) == BaseUpTo(ts, n)
  {
    BaseStays(ts, n + 1, |ts|);
  }

  /** Writes up to two detailed timings: the base modes, in order. */
  method WriteDtds(out: array<U8>, ts: seq<Timing>, ghost p: Plan) returns (inBase: seq<bool>, dtds: nat)
    requires Draft(p) && p.ts == ts && p.base == BaseOf(ts) && out.Length == 512 && ZeroFrom(out[..], 54)
    modifies out
    ensures Same(old(out[..]), out[..], 54)
    ensures dtds == |p.base| && |inBase| == |p.ts| && Flags(inBase, p.base)
    ensures DtdsHeld(out[..], p, |p.base|) && ZeroFrom(out[..], 54 + 18 * |p.base|)
  {
    var count := |ts|;
    inBase, dtds := seq(count, _ => false), 0;
    var i := 0;
    while i < count && dtds < 2
      invariant 0 <= i <= count && dtds == |BaseUpTo(ts, i)| <= |p.base| && |inBase| == count
      invariant Flags(inBase, BaseUpTo(ts, i))
      invariant Same(old(out[..]), out[..], 54)
      invariant DtdsHeld(out[..], p, dtds) && ZeroFrom(out[..], 54 + 18 * dtds)
    {
      BaseSoFar(ts, i);
      if FitsDtd(ts[i]) {
        WriteDtd(out, 54 + 18 * dtds, ts, i, p, dtds);
        FlagsMore(inBase, BaseUpTo(ts, i), i);
        inBase := inBase[i := true];
        dtds := dtds + 1;
      }
      i := i + 1;
    }
    BaseStays(ts, i, count);
  }

  method WriteDtd(out: array<U8>, slot: nat, ts: seq<Timing>, i: nat, ghost p: Plan, ghost k: nat)
    requires Draft(p) && p.ts == ts && out.Length == 512 && k < |p.base| && p.base[k] == i && slot == 54 + 18 * k
    requires DtdsHeld(out[..], p, k) && ZeroFrom(out[..], 54 + 18 * k)
    modifies out
    ensures Same(old(out[..]), out[..], 54)
    ensures DtdsHeld(out[..], p, k + 1) && ZeroFrom(out[..], 54 + 18 * (k + 1))
  {
    ghost var before := out[..];
    var d := Dtd(ts[i], Millimetres(ts[0].hActive), Millimetres(ts[0].vActive));
    Put(out, slot, d);
    DtdAdded(before, p, k, d);
  }

  lemma DtdAdded(s: seq<U8>, p: Plan, k: nat, d: seq<U8>)
    requires Draft(p) && |s| == 512 && k < |p.base| && |d| == 18 && d == DtdOf(p, k)
    requires DtdsHeld(s, p, k) && ZeroFrom(s, 54 + 18 * k)
    ensures var s' := Spliced(s, 54 + 18 * k, d);
            Same(s, s', 54) && DtdsHeld(s', p, k + 1) && ZeroFrom(s', 54 + 18 * (k + 1))
  {
    WriteAfter(s, 54 + 18 * k, 54 + 18 * k, d);
    WriteAfter(s, 54, 54 + 18 * k, d);
    DtdsStay(s, Spliced(s, 54 + 18 * k, d), p, k);
    OneMoreDtd(Spliced(s, 54 + 18 * k, d), p, k);
  }

  lemma OneMoreDtd(s: seq<U8>, p: Plan, k: nat)
    requires Draft(p) && k < |p.base| && DtdsHeld(s, p, k) && Holds(s, 54 + 18 * k, DtdOf(p, k))
    ensures DtdsHeld(s, p, k + 1)
  {
  }

  /** Correcting the feature byte touches nothing else. */
  lemma FeatureOnly(s: seq<U8>, b: U8, t: Timing, serial: U32, product: U16, p: Plan)
    requires |s| == 512 && FrontHeld(s, t, serial, product) && Draft(p) && DtdsHeld(s, p, |p.base|)
    requires ZeroFrom(s, 54 + 18 * |p.base|)
    ensures var s' := Spliced(s, 24, [b]);
            && FrontHeld(s', t, serial, product) && DtdsHeld(s', p, |p.base|) && s'[24] == b
            && ZeroFrom(s', 54 + 18 * |p.base|)
  {
    SplicedElsewhere(s, 24, [b], 0, 8);
    SplicedElsewhere(s, 24, [b], 8, 24);
    SplicedElsewhere(s, 24, [b], 25, 54);
    forall k | 0 <= k < |p.base|
      ensures Holds(Spliced(s, 24, [b]), 54 + 18 * k, DtdOf(p, k))
    {
      assert Holds(s, 54 + 18 * k, DtdOf(p, k));
      SplicedElsewhere(s, 24, [b], 54 + 18 * k, 72 + 18 * k);
    }
    SplicedHere(s, 24, [b]);
  }

  /** Whether a mode of the panel's size is in the base block. */
  method FindNative(ts: seq<Timing>, inBase: seq<bool>, ghost p: Plan) returns (native: bool)
    requires ValidPlan(p) && p.ts == ts && |inBase| == |ts| && Flags(inBase, p.base)
    ensures native == NativeInBase(p)
  {
    native := false;
    for i := 0 to |ts|
      invariant native <==> exists j :: 0 <= j < i && j in p.base && SameSize(ts, j)
    {
      if inBase[i] && ts[i].hActive == ts[0].hActive && ts[i].vActive == ts[0].vActive {
        native := true;
      }
    }
    if NativeInBase(p) {
      ghost var k :| 0 <= k < |p.base| && ts[p.base[k]].hActive == ts[0].hActive && ts[p.base[k]].vActive == ts[0].vActive;
      assert p.base[k] in p.base && SameSize(ts, p.base[k]);
    }
  }

  predicate SameSize(ts: seq<Timing>, j: nat)
    requires j < |ts|
  {
    ts[j].hActive == ts[0].hActive && ts[j].vActive == ts[0].vActive
  }

  /** The ranges that cover all the timings. */
  method FindLimits(ts: seq<Timing>) returns (refresh: nat, lineKhz: nat, khz: nat)
    requires AllFormed(ts)
    ensures refresh == MaxRefresh(ts, |ts|) && lineKhz == MaxLineKhz(ts, |ts|) && khz == MaxKhz(ts, |ts|)
  {
    refresh, lineKhz, khz := 0, 0, 0;
    for i := 0 to |ts|
      invariant refresh == MaxRefresh(ts, i) && lineKhz == MaxLineKhz(ts, i) && khz == MaxKhz(ts, i)
    {
      var t := ts[i];
      if t.refresh > refresh {
        refresh := t.refresh;
      }
      if t.pixelKhz > khz {
        khz := t.pixelKhz;
      }
      var h := t.pixelKhz / (t.hActive + t.hBlank);
      if h + 1 > lineKhz {
        lineKhz := h + 1;
      }
    }
  }

  /** How many modes are left for the extensions. */
  method CountExtensions(ts: seq<Timing>, inBase: seq<bool>, ghost p: Plan) returns (ext: nat)
    requires Draft(p) && p.ts == ts && p.base == BaseOf(ts) && p.ext == ExtOf(ts) && |inBase| == |ts| && Flags(inBase, p.base)
    ensures ext == |p.ext|
  {
    ext := 0;
    for i := 0 to |ts|
      invariant ext == |ExtUpTo(ts, i)|
    {
      if !inBase[i] {
        ext := ext + 1;
      }
    }
  }

  /** A dummy descriptor keeps the layout fixed when there is only one detailed timing. */
  method WriteDummies(out: array<U8>, from: nat)
    requires out.Length == 512 && (from == 72 || from == 90) && ZeroFrom(out[..], from)
    modifies out
    ensures Same(old(out[..]), out[..], from) && ZeroFrom(out[..], 90)
    ensures from == 72 ==> Holds(out[..], 72, DUMMY)
  {
    var slot := from;
    if slot < 90 {
      ghost var before := out[..];
      Put(out, slot + 3, [0x10]);
      WriteAfter(before, 72, 75, [0x10]);
      SplicedHere(before, 75, [0x10]);
      assert forall i :: 0 <= i < 18 ==> out[72 + i] == DUMMY[i];
    }
  }

  /** What stands in the first 90 bytes. */
  predicate StartHeld(s: seq<U8>, p: Plan, serial: U32, product: U16)
    requires ValidPlan(p)
  {
    |s| == 512 && FrontHeld(s, p.ts[0], serial, product) && s[24] == Features(p) && DtdsHeld(s, p, |p.base|) &&
    (|p.base| == 1 ==> Holds(s, 72, DUMMY))
  }

  lemma StartStays(s: seq<U8>, s': seq<U8>, n: nat, p: Plan, serial: U32, product: U16)
    requires ValidPlan(p) && Same(s, s', n) && n >= 90 && StartHeld(s, p, serial, product)
    ensures StartHeld(s', p, serial, product)
  {
    FrontStays(s, s', n, p.ts[0], serial, product);
    SameSlice(s, s', n, 0, 54 + 18 * |p.base|);
    DtdsStay(s, s', p, |p.base|);
    if |p.base| == 1 {
      SameHolds(s, s', n, 72, DUMMY);
    }
  }

  /** The descriptors after the detailed timings, the extension count, and the checksum. */
  method WriteRest(out: array<U8>, limits: seq<U8>, blocks: nat, ghost p: Plan, ghost serial: U32, ghost product: U16)
    requires ValidPlan(p) && out.Length == 512 && StartHeld(out[..], p, serial, product) && ZeroFrom(out[..], 90)
    requires limits == Limits(p.ts) && blocks == BlockCount(p) <= 3
    modifies out
    ensures BaseHeld(out[..], p, serial, product) && ZeroFrom(out[..], 128)
  {
    ghost var s0 := out[..];
    Put(out, 90, limits);
    ghost var s1 := out[..];
    WriteAfter(s0, 90, 90, limits);
    StartStays(s0, s1, 90, p, serial, product);
    Put(out, 108, NAME);
    ghost var s2 := out[..];
    WriteAfter(s1, 108, 108, NAME);
    StartStays(s1, s2, 108, p, serial, product);
    SameHolds(s1, s2, 108, 90, limits);
    Put(out, 126, [blocks]);
    ghost var s3 := out[..];
    WriteAfter(s2, 126, 126, [blocks]);
    SplicedHere(s2, 126, [blocks]);
    StartStays(s2, s3, 126, p, serial, product);
    SameHolds(s2, s3, 126, 90, limits);
    SameHolds(s2, s3, 126, 108, NAME);
    Checksum(out, 0);
    ghost var check: seq<U8> := [Check(s3[0..127])];
    WriteAfter(s3, 127, 127, check);
    StartStays(s3, out[..], 127, p, serial, product);
    SameHolds(s3, out[..], 127, 90, limits);
    SameHolds(s3, out[..], 127, 108, NAME);
    assert out[126] == out[..127][126] == s3[..127][126] == blocks;
    assert out[0..127] == out[..127];
  }

  // ---- The extension blocks ----

  /** The next five modes that are not in the base block, or as many as are left. */
  method Gather(ts: seq<Timing>, inBase: seq<bool>, start: nat, ghost p: Plan, ghost blk: nat) returns (idx: seq<nat>, next: nat)
    requires Draft(p) && p.ts == ts && p.base == BaseOf(ts) && p.ext == ExtOf(ts) && |inBase| == |ts| && Flags(inBase, p.base)
    requires start <= |ts| && |ExtUpTo(ts, start)| == 5 * blk < |p.ext|
    ensures idx == Slice(p.ext, blk) && start <= next <= |p.ts|
    ensures |ExtUpTo(p.ts, next)| == 5 * blk + |idx|
  {
    idx, next := [], start;
    while next < |ts| && |idx| < 5
      invariant start <= next <= |p.ts| && |idx| <= 5
      invariant ExtUpTo(p.ts, next) == ExtUpTo(p.ts, start) + idx
    {
      if !inBase[next] {
        idx := idx + [next];
      }
      next := next + 1;
    }
    GatheredIsSlice(p, blk, start, next, idx);
  }

  lemma GatheredIsSlice(p: Plan, blk: nat, start: nat, next: nat, idx: seq<nat>)
    requires start <= next <= |p.ts| && p.ext == ExtOf(p.ts) && |idx| <= 5 && (next == |p.ts| || |idx| == 5)
    requires |ExtUpTo(p.ts, start)| == 5 * blk < |p.ext| && ExtUpTo(p.ts, next) == ExtUpTo(p.ts, start) + idx
    ensures idx == Slice(p.ext, blk)
  {
    ExtPrefix(p.ts, next, |p.ts|);
    var so := 5 * blk + |idx|;
    assert p.ext[..so] == ExtUpTo(p.ts, start) + idx;
    assert p.ext[5 * blk..so] == p.ext[..so][5 * blk..] == idx;
  }

  /** The builder's mark on an entry: mode zero itself, or the first entry when mode zero has a detailed timing. */
  lemma MarkedFirst(p: Plan, inBase: seq<bool>, blk: nat, k: nat, marked: bool)
    requires ValidPlan(p) && p.base == BaseOf(p.ts) && p.ext == ExtOf(p.ts) && |inBase| == |p.ts| && Flags(inBase, p.base)
    requires 5 * blk + k < |p.ext| && (marked <==> 5 * blk + k > 0)
    ensures (p.ext[5 * blk + k] == 0 || (inBase[0] && !marked)) <==> blk == 0 && k == 0
  {
    FirstExtension(p.ts, |p.ts|, 5 * blk + k);
  }

  lemma HeadersStay(s: seq<U8>, s': seq<U8>, n: nat, at: nat, t: Timing, first: bool, here: nat)
    requires t.vActive > 0 && here <= 5 && Same(s, s', n) && at + TimingsAt(first) + 3 <= n && HeadersHeld(s, at, t, first, here)
    ensures HeadersHeld(s', at, t, first, here)
  {
    SameHolds(s, s', n, at, [0x70, 0x13, Payload(first, here), 0x03, 0]);
    if first {
      SameHolds(s, s', n, at + 5, Params(t));
    }
    SameHolds(s, s', n, at + TimingsAt(first), [0x03, 0, 20 * here]);
  }

  lemma EntriesStay(s: seq<U8>, s': seq<U8>, n: nat, at: nat, ts: seq<Timing>, idx: seq<nat>, first: bool, k: nat)
    requires AllFormed(ts) && k <= |idx| && Within(idx, ts) && Same(s, s', n) && at + TimingsAt(first) + 3 + 20 * k <= n
    requires EntriesHeld(s, at, ts, idx, first, k)
    ensures EntriesHeld(s', at, ts, idx, first, k)
  {
    forall j | 0 <= j < k
      ensures Holds(s', at + TimingsAt(first) + 3 + 20 * j, DisplayIdTiming(ts[idx[j]], first && j == 0))
    {
      SameHolds(s, s', n, at + TimingsAt(first) + 3 + 20 * j, DisplayIdTiming(ts[idx[j]], first && j == 0));
    }
  }

  /** The section header, the display parameters of the first section, and the header of the timings. */
  method WriteHeaders(out: array<U8>, at: nat, t: Timing, first: bool, here: nat)
    requires out.Length == 512 && at + 128 <= 512 && ZeroFrom(out[..], at) && t.vActive > 0 && 1 <= here <= 5
    modifies out
    ensures Same(old(out[..]), out[..], at) && HeadersHeld(out[..], at, t, first, here)
    ensures ZeroFrom(out[..], at + TimingsAt(first) + 3)
  {
    ghost var head: seq<U8> := [0x70, 0x13, Payload(first, here), 0x03, 0];
    ghost var s0 := out[..];
    Put(out, at, [0x70, 0x13, Payload(first, here), 0x03, 0]);
    ghost var s1 := out[..];
    WriteAfter(s0, at, at, head);
    if first {
      Put(out, at + 5, Params(t));
      WriteAfter(s1, at + 5, at + 5, Params(t));
      SameHolds(s1, out[..], at + 5, at, head);
      assert Same(s1, out[..], at) by { WriteAfter(s1, at, at + 5, Params(t)); }
    }
    ghost var s2 := out[..];
    ghost var last: seq<U8> := [0x03, 0, 20 * here];
    var where := at + TimingsAt(first);
    Put(out, where, [0x03, 0, 20 * here]);
    WriteAfter(s2, where, where, last);
    WriteAfter(s2, at, where, last);
    SameHolds(s2, out[..], where, at, head);
    if first {
      SameHolds(s2, out[..], where, at + 5, Params(t));
    }
  }

  lemma EntryAdded(s: seq<U8>, at: nat, ts: seq<Timing>, idx: seq<nat>, first: bool, k: nat, d: seq<U8>)
    requires |s| == 512 && at + 128 <= 512 && AllFormed(ts) && k < |idx| <= 5 && Within(idx, ts) && |d| == 20
    requires d == DisplayIdTiming(ts[idx[k]], first && k == 0)
    requires EntriesHeld(s, at, ts, idx, first, k) && ZeroFrom(s, at + TimingsAt(first) + 3 + 20 * k)
    ensures var start := at + TimingsAt(first) + 3;
            var s' := Spliced(s, start + 20 * k, d);
            Same(s, s', start) && EntriesHeld(s', at, ts, idx, first, k + 1) && ZeroFrom(s', start + 20 * (k + 1))
  {
    var start := at + TimingsAt(first) + 3;
    WriteAfter(s, start + 20 * k, start + 20 * k, d);
    WriteAfter(s, start, start + 20 * k, d);
    EntriesStay(s, Spliced(s, start + 20 * k, d), start + 20 * k, at, ts, idx, first, k);
    OneMoreEntry(Spliced(s, start + 20 * k, d), at, ts, idx, first, k);
  }

  lemma OneMoreEntry(s: seq<U8>, at: nat, ts: seq<Timing>, idx: seq<nat>, first: bool, k: nat)
    requires AllFormed(ts) && k < |idx| && Within(idx, ts) && EntriesHeld(s, at, ts, idx, first, k)
    requires Holds(s, at + TimingsAt(first) + 3 + 20 * k, DisplayIdTiming(ts[idx[k]], first && k == 0))
    ensures EntriesHeld(s, at, ts, idx, first, k + 1)
  {
  }

  method WriteEntry(out: array<U8>, at: nat, ts: seq<Timing>, idx: seq<nat>, first: bool, k: nat, preferred: bool)
    requires out.Length == 512 && at + 128 <= 512 && AllFormed(ts) && k < |idx| <= 5 && Within(idx, ts)
    requires EntriesHeld(out[..], at, ts, idx, first, k) && ZeroFrom(out[..], at + TimingsAt(first) + 3 + 20 * k)
    requires preferred == (first && k == 0)
    modifies out
    ensures Same(old(out[..]), out[..], at + TimingsAt(first) + 3)
    ensures EntriesHeld(out[..], at, ts, idx, first, k + 1) && ZeroFrom(out[..], at + TimingsAt(first) + 3 + 20 * (k + 1))
  {
    ghost var before := out[..];
    var d := DisplayIdTiming(ts[idx[k]], preferred);
    Put(out, at + TimingsAt(first) + 3 + 20 * k, d);
    EntryAdded(before, at, ts, idx, first, k, d);
  }

  /** The timings of one block, and the mark on the preferred one. */
  method WriteEntries(out: array<U8>, at: nat, ts: seq<Timing>, inBase: seq<bool>, blk: nat, idx: seq<nat>, marked: bool,
                      ghost p: Plan)
    requires out.Length == 512 && at + 128 <= 512 && ValidPlan(p) && p.ts == ts && p.base == BaseOf(ts) && p.ext == ExtOf(ts)
    requires |inBase| == |p.ts| && Flags(inBase, p.base) && 5 * blk < |p.ext| && idx == Slice(p.ext, blk)
    requires (marked <==> blk > 0) && ZeroFrom(out[..], at + TimingsAt(blk == 0) + 3)
    modifies out
    ensures Same(old(out[..]), out[..], at + TimingsAt(blk == 0) + 3)
    ensures EntriesHeld(out[..], at, p.ts, idx, blk == 0, |idx|)
    ensures ZeroFrom(out[..], at + TimingsAt(blk == 0) + 3 + 20 * |idx|)
  {
    var seen := marked;
    for k := 0 to |idx|
      invariant Same(old(out[..]), out[..], at + TimingsAt(blk == 0) + 3) && (seen <==> 5 * blk + k > 0)
      invariant EntriesHeld(out[..], at, p.ts, idx, blk == 0, k)
      invariant ZeroFrom(out[..], at + TimingsAt(blk == 0) + 3 + 20 * k)
    {
      MarkedFirst(p, inBase, blk, k, seen);
      WriteEntry(out, at, ts, idx, blk == 0, k, idx[k] == 0 || (inBase[0] && !seen));
      seen := true;
    }
  }

  /** The section's checksum and the block's. */
  method WriteSums(out: array<U8>, at: nat, here: nat, first: bool, ghost ts: seq<Timing>, ghost idx: seq<nat>)
    requires out.Length == 512 && here == |idx| && at + 128 <= 512 && AllFormed(ts) && 1 <= |idx| <= 5 && |ts| > 0 && Within(idx, ts)
    requires HeadersHeld(out[..], at, ts[0], first, |idx|) && EntriesHeld(out[..], at, ts, idx, first, |idx|)
    requires ZeroFrom(out[..], at + TimingsAt(first) + 3 + 20 * |idx|)
    modifies out
    ensures Same(old(out[..]), out[..], at) && ExtHeld(out[..], at, ts, idx, first) && ZeroFrom(out[..], at + 128)
  {
    var sumAt := at + 5 + Payload(first, here);
    var sum := SumOf(out, at + 1, sumAt);
    ghost var s0 := out[..];
    assert s0[at + 1..sumAt] == out[at + 1..sumAt];
    ghost var check: seq<U8> := [Check(s0[at + 1..sumAt])];
    out[sumAt] := (0x100 - sum as int) % 256;
    ghost var s1 := out[..];
    assert s1 == Spliced(s0, sumAt, check);
    WriteAfter(s0, sumAt, sumAt, check);
    Checksum(out, at);
    ghost var last: seq<U8> := [Check(s1[at..at + 127])];
    WriteAfter(s1, at + 127, at + 127, last);
    SumsHeld(s0, s1, out[..], at, ts, idx, first);
  }

  lemma SumsHeld(s0: seq<U8>, s1: seq<U8>, s2: seq<U8>, at: nat, ts: seq<Timing>, idx: seq<nat>, first: bool)
    requires |s0| == 512 && at + 128 <= 512 && AllFormed(ts) && 1 <= |idx| <= 5 && |ts| > 0 && Within(idx, ts)
    requires HeadersHeld(s0, at, ts[0], first, |idx|) && EntriesHeld(s0, at, ts, idx, first, |idx|)
    requires var sumAt := at + 5 + Payload(first, |idx|);
             Same(s0, s1, sumAt) && s1[sumAt] == Check(s0[at + 1..sumAt]) && ZeroFrom(s1, sumAt + 1) && Same(s1, s2, at + 127)
    requires s2[at + 127] == Check(s2[at..at + 127])
    ensures Same(s0, s2, at) && ExtHeld(s2, at, ts, idx, first)
  {
    var sumAt := at + 5 + Payload(first, |idx|);
    SameSlice(s1, s2, at + 127, 0, sumAt);
    assert Same(s0, s2, sumAt);
    HeadersStay(s0, s2, sumAt, at, ts[0], first, |idx|);
    EntriesStay(s0, s2, sumAt, at, ts, idx, first, |idx|);
    SameSlice(s0, s2, sumAt, at + 1, sumAt);
    SameSlice(s0, s2, sumAt, 0, at);
  }

  /** One extension block. */
  method WriteExtension(out: array<U8>, ts: seq<Timing>, inBase: seq<bool>, blk: nat, start: nat, ghost p: Plan) returns (next: nat)
    requires out.Length == 512 && ValidPlan(p) && p.ts == ts && p.base == BaseOf(p.ts) && p.ext == ExtOf(p.ts)
    requires |inBase| == |p.ts| && Flags(inBase, p.base) && blk < BlockCount(p) <= 3
    requires start <= |p.ts| && |ExtUpTo(p.ts, start)| == 5 * blk && ZeroFrom(out[..], 128 * (1 + blk))
    modifies out
    ensures Same(old(out[..]), out[..], 128 * (1 + blk)) && NthExtHeld(out[..], p, blk)
    ensures ZeroFrom(out[..], 128 * (2 + blk))
    ensures start <= next <= |p.ts| && |ExtUpTo(p.ts, next)| == Least(5 * (blk + 1), |p.ext|)
  {
    var at := 128 * (1 + blk);
    var idx: seq<nat>;
    idx, next := Gather(ts, inBase, start, p, blk);
    ghost var s0 := out[..];
    WriteHeaders(out, at, ts[0], blk == 0, |idx|);
    ghost var s1 := out[..];
    WriteEntries(out, at, ts, inBase, blk, idx, blk > 0, p);
    ghost var s2 := out[..];
    HeadersStay(s1, s2, at + TimingsAt(blk == 0) + 3, at, p.ts[0], blk == 0, |idx|);
    SameSlice(s1, s2, at + TimingsAt(blk == 0) + 3, 0, at);
    WriteSums(out, at, |idx|, blk == 0, ts, idx);
  }

  // ---- The builder ----

  lemma ExtStays(s: seq<U8>, s': seq<U8>, n: nat, at: nat, ts: seq<Timing>, idx: seq<nat>, first: bool)
    requires AllFormed(ts) && |idx| <= 5 && |ts| > 0 && Within(idx, ts) && Same(s, s', n) && at + 128 <= n
    requires ExtHeld(s, at, ts, idx, first)
    ensures ExtHeld(s', at, ts, idx, first)
  {
    var sumAt := at + 5 + Payload(first, |idx|);
    HeadersStay(s, s', n, at, ts[0], first, |idx|);
    EntriesStay(s, s', n, at, ts, idx, first, |idx|);
    SameSlice(s, s', n, at + 1, sumAt);
    SameSlice(s, s', n, at, at + 127);
  }

  lemma ExtsStay(s: seq<U8>, s': seq<U8>, p: Plan, n: nat)
    requires ValidPlan(p) && n <= BlockCount(p) && Same(s, s', 128 * (1 + n)) && ExtsHeld(s, p, n)
    ensures ExtsHeld(s', p, n)
  {
    forall blk: nat | blk < n
      ensures NthExtHeld(s', p, blk)
    {
      assert NthExtHeld(s, p, blk);
      ExtStays(s, s', 128 * (1 + n), 128 * (1 + blk), p.ts, Slice(p.ext, blk), blk == 0);
    }
  }

  lemma BaseStaysHeld(s: seq<U8>, s': seq<U8>, n: nat, p: Plan, serial: U32, product: U16)
    requires ValidPlan(p) && Same(s, s', n) && n >= 128 && |s| == 512 && BaseHeld(s, p, serial, product)
    ensures BaseHeld(s', p, serial, product)
  {
    StartStays(s, s', n, p, serial, product);
    SameHolds(s, s', n, 90, Limits(p.ts));
    SameHolds(s, s', n, 108, NAME);
    SameSlice(s, s', n, 0, 127);
  }

  method WriteExtensions(out: array<U8>, ts: seq<Timing>, inBase: seq<bool>, blocks: nat,
                         ghost p: Plan, ghost serial: U32, ghost product: U16)
    requires out.Length == 512 && ValidPlan(p) && p.ts == ts && p.base == BaseOf(p.ts) && p.ext == ExtOf(p.ts)
    requires |inBase| == |p.ts| && Flags(inBase, p.base) && blocks == BlockCount(p) <= 3
    requires BaseHeld(out[..], p, serial, product) && ZeroFrom(out[..], 128)
    modifies out
    ensures Built(out[..], p, serial, product)
  {
    var next := 0;
    for blk := 0 to blocks
      invariant 0 <= next <= |p.ts| && |ExtUpTo(p.ts, next)| == Least(5 * blk, |p.ext|)
      invariant BaseHeld(out[..], p, serial, product) && ExtsHeld(out[..], p, blk) && ZeroFrom(out[..], 128 * (1 + blk))
    {
      ghost var before := out[..];
      next := WriteExtension(out, ts, inBase, blk, next, p);
      BaseStaysHeld(before, out[..], 128 * (1 + blk), p, serial, product);
      ExtsStay(before, out[..], p, blk);
    }
  }

  /** Computes every timing; fails on the first mode that has none. */
  method ComputeTimings(modes: seq<Mode>) returns (ts: seq<Timing>, ok: bool)
    ensures ok <==> forall i :: 0 <= i < |modes| ==> Admitted(modes[i].width, modes[i].height, modes[i].refresh)
    ensures ok ==> ts == TimingsOf(modes) && AllFormed(ts)
  {
    ts := [];
    for i := 0 to |modes|
      invariant |ts| == i && forall k :: 0 <= k < i ==> ts[k] == TimingOf(modes[k]) && WellFormed(ts[k])
      invariant forall k :: 0 <= k < i ==> Admitted(modes[k].width, modes[k].height, modes[k].refresh)
    {
      var t := CvtRb2(modes[i].width, modes[i].height, modes[i].refresh);
      TimingFits(modes[i].width, modes[i].height, modes[i].refresh);
      if t.pixelKhz == 0 {
        return ts, false;
      }
      ts := ts + [t];
    }
    return ts, true;
  }

  /** The base block, once its first part is written and at least one detailed timing fits. */
  method FinishBase(out: array<U8>, ts: seq<Timing>, inBase: seq<bool>, dtds: nat,
                    ghost p: Plan, ghost serial: U32, ghost product: U16) returns (blocks: nat)
    requires out.Length == 512 && ValidPlan(p) && p.ts == ts && dtds == |p.base| && p.base == BaseOf(p.ts) && p.ext == ExtOf(p.ts)
    requires |inBase| == |p.ts| && Flags(inBase, p.base)
    requires FrontHeld(out[..], p.ts[0], serial, product) && out[24] == 0x06
    requires DtdsHeld(out[..], p, |p.base|) && ZeroFrom(out[..], 54 + 18 * |p.base|)
    modifies out
    ensures blocks == BlockCount(p) <= 3
    ensures BaseHeld(out[..], p, serial, product) && ZeroFrom(out[..], 128)
  {
    var native := FindNative(ts, inBase, p);
    if !native {
      ghost var before := out[..];
      Put(out, 24, [0x04]);
      FeatureOnly(before, 0x04, p.ts[0], serial, product, p);
    }
    ghost var before := out[..];
    WriteDummies(out, 54 + 18 * dtds);
    FrontStays(before, out[..], 54 + 18 * |p.base|, p.ts[0], serial, product);
    DtdsStay(before, out[..], p, |p.base|);
    assert out[24] == out[..54 + 18 * |p.base|][24] == before[..54 + 18 * |p.base|][24];
    var refresh, lineKhz, khz := FindLimits(ts);
    var ext := CountExtensions(ts, inBase, p);
    blocks := (ext + 4) / 5;
    if blocks > 3 {
      assert false;
    }
    WriteRest(out, RangeLimits(refresh, lineKhz, khz), blocks, p, serial, product);
  }

  /** Builds the EDID in the buffer: it succeeds exactly for one to sixteen modes that all have a timing
      and of which one fits a detailed timing, and then every byte is determined. */
  method Build(out: array<U8>, modes: seq<Mode>, serial: U32, product: U16) returns (ok: bool)
    requires out.Length == 512
    modifies out
    ensures ok <==> Buildable(modes)
    ensures ok ==> ValidPlan(PlanOf(modes)) && Built(out[..], PlanOf(modes), serial, product)
  {
    Put(out, 0, seq(512, _ => 0));
    assert ZeroFrom(out[..], 0);
    if |modes| == 0 || |modes| > 16 {
      return false;
    }
    var ts, valid := ComputeTimings(modes);
    if !valid {
      return false;
    }
    PlanIsDraft(ts);
    ghost var p := Plan(ts, BaseOf(ts), ExtOf(ts));
    WriteFront(out, ts[0], serial, product);
    ghost var before := out[..];
    var inBase, dtds := WriteDtds(out, ts, p);
    FrontStays(before, out[..], 54, ts[0], serial, product);
    assert out[24] == out[..54][24] == before[..54][24];
    BaseFindsFit(ts, |ts|);
    if dtds == 0 {
      return false;
    }
    ghost var i :| 0 <= i < |ts| && FitsDtd(ts[i]);
    assert FitsDtd(TimingOf(modes[i]));
    var blocks := FinishBase(out, ts, inBase, dtds, p, serial, product);
    WriteExtensions(out, ts, inBase, blocks, p, serial, product);
    return true;
  }
}
