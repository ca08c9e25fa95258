/** What the built EDID is, byte for byte, and what a sink reads out of it: EDID 1.4 with DisplayID 1.3
    extension sections (EDID 1.4, sections 3.10.2 and 3.11). */
module EdidImage {
  import opened Bits
  import opened EdidTiming

  datatype Mode = Mode(width: U16, height: U16, refresh: U16)

  function TimingOf(m: Mode): Timing {
    CvtRb2(m.width, m.height, m.refresh)
  }

  function TimingsOf(modes: seq<Mode>): (ts: seq<Timing>)
    ensures |ts| == |modes| && forall i :: 0 <= i < |modes| ==> ts[i] == TimingOf(modes[i])
  {
    seq(|modes|, i requires 0 <= i < |modes| => TimingOf(modes[i]))
  }

  /** The modes of which an EDID can be built. */
  predicate Buildable(modes: seq<Mode>) {
    && 1 <= |modes| <= 16
    && (forall i :: 0 <= i < |modes| ==> Admitted(modes[i].width, modes[i].height, modes[i].refresh))
    && exists i :: 0 <= i < |modes| && FitsDtd(TimingOf(modes[i]))
  }

  predicate AllFormed(ts: seq<Timing>) {
    forall i :: 0 <= i < |ts| ==> WellFormed(ts[i])
  }

  // ---- Which mode goes where ----

  /** The first two modes that fit a detailed timing, among the first `n`. */
  function BaseUpTo(ts: seq<Timing>, n: nat): (base: seq<nat>)
    requires n <= |ts|
    ensures |base| <= 2 && forall k :: 0 <= k < |base| ==> base[k] < n && FitsDtd(ts[base[k]])
  {
    if n == 0 then []
    else
      var earlier := BaseUpTo(ts, n - 1);
      if |earlier| < 2 && FitsDtd(ts[n - 1]) then earlier + [n - 1] else earlier
  }

  function BaseOf(ts: seq<Timing>): seq<nat> {
    BaseUpTo(ts, |ts|)
  }

  /** The other modes, in order, among the first `n`. */
  function ExtUpTo(ts: seq<Timing>, n: nat): (ext: seq<nat>)
    requires n <= |ts|
    ensures forall k :: 0 <= k < |ext| ==> ext[k] < n && ext[k] !in BaseOf(ts)
  {
    if n == 0 then []
    else if n - 1 in BaseOf(ts) then ExtUpTo(ts, n - 1) else ExtUpTo(ts, n - 1) + [n - 1]
  }

  function ExtOf(ts: seq<Timing>): seq<nat> {
    ExtUpTo(ts, |ts|)
  }

  lemma {:induction false} BaseStays(ts: seq<Timing>, n: nat, m: nat)
    requires n <= m <= |ts|
    ensures |BaseUpTo(ts, n)| <= |BaseUpTo(ts, m)| && BaseUpTo(ts, m)[..|BaseUpTo(ts, n)|] == BaseUpTo(ts, n)
    ensures |BaseUpTo(ts, n)| == 2 ==> BaseUpTo(ts, m) == BaseUpTo(ts, n)
    decreases m
  {
    if n < m {
      BaseStays(ts, n, m - 1);
    }
  }

  lemma {:induction false} BaseIncreases(ts: seq<Timing>, n: nat)
    requires n <= |ts|
    ensures forall j, k :: 0 <= j < k < |BaseUpTo(ts, n)| ==> BaseUpTo(ts, n)[j] < BaseUpTo(ts, n)[k]
  {
    if n > 0 {
      BaseIncreases(ts, n - 1);
    }
  }

  lemma {:induction false} ExtIncreases(ts: seq<Timing>, n: nat)
    requires n <= |ts|
    ensures forall j, k :: 0 <= j < k < |ExtUpTo(ts, n)| ==> ExtUpTo(ts, n)[j] < ExtUpTo(ts, n)[k]
  {
    if n > 0 {
      ExtIncreases(ts, n - 1);
    }
  }

  /** No mode is lost: each of the first `n` is in the base block or among the extensions. */
  lemma {:induction false} EveryModePlaced(ts: seq<Timing>, n: nat, i: nat)
    requires i < n <= |ts|
    ensures i in BaseOf(ts) || i in ExtUpTo(ts, n)
  {
    if i < n - 1 {
      EveryModePlaced(ts, n - 1, i);
      assert i in ExtUpTo(ts, n - 1) ==> i in ExtUpTo(ts, n);
    } else if n - 1 !in BaseOf(ts) {
      assert ExtUpTo(ts, n)[|ExtUpTo(ts, n)| - 1] == n - 1;
    }
  }

  lemma {:induction false} ExtPrefix(ts: seq<Timing>, n: nat, m: nat)
    requires n <= m <= |ts|
    ensures |ExtUpTo(ts, n)| <= |ExtUpTo(ts, m)| && ExtUpTo(ts, m)[..|ExtUpTo(ts, n)|] == ExtUpTo(ts, n)
    decreases m
  {
    if n < m {
      ExtPrefix(ts, n, m - 1);
    }
  }

  /** How many of the first `n` are in the base block. */
  lemma {:induction false} Shares(ts: seq<Timing>, n: nat)
    requires n <= |ts|
    ensures |ExtUpTo(ts, n)| + |BaseUpTo(ts, n)| == n
  {
    if n > 0 {
      Shares(ts, n - 1);
      InBaseIff(ts, n);
      hide BaseOf;
    }
  }

  lemma InBaseIff(ts: seq<Timing>, n: nat)
    requires 0 < n <= |ts|
    ensures n - 1 in BaseOf(ts) <==> BaseUpTo(ts, n) != BaseUpTo(ts, n - 1)
  {
    BaseStays(ts, n, |ts|);
    BaseStays(ts, n - 1, |ts|);
    var earlier, now, base := BaseUpTo(ts, n - 1), BaseUpTo(ts, n), BaseOf(ts);
    if now == earlier {
      forall k | 0 <= k < |base|
        ensures base[k] != n - 1
      {
        LaterBase(ts, n, k);
      }
    } else {
      assert now[|earlier|] == n - 1 == base[|earlier|];
    }
  }

  /** What is added to the base list after `n` has an index of at least `n`. */
  lemma {:induction false} LaterBase(ts: seq<Timing>, n: nat, k: nat)
    requires n <= |ts| && k < |BaseOf(ts)|
    ensures k >= |BaseUpTo(ts, n)| ==> BaseOf(ts)[k] >= n
    ensures k < |BaseUpTo(ts, n)| ==> BaseOf(ts)[k] == BaseUpTo(ts, n)[k]
  {
    BaseStays(ts, n, |ts|);
    LaterBaseUpTo(ts, n, |ts|, k);
  }

  lemma {:induction false} LaterBaseUpTo(ts: seq<Timing>, n: nat, m: nat, k: nat)
    requires n <= m <= |ts| && k < |BaseUpTo(ts, m)|
    ensures k >= |BaseUpTo(ts, n)| ==> BaseUpTo(ts, m)[k] >= n
    decreases m
  {
    if n < m && k < |BaseUpTo(ts, m - 1)| {
      LaterBaseUpTo(ts, n, m - 1, k);
    }
  }

  /** A mode that fits is found: at least one detailed timing exists exactly when some mode fits. */
  lemma {:induction false} BaseFindsFit(ts: seq<Timing>, n: nat)
    requires n <= |ts|
    ensures BaseUpTo(ts, n) != [] <==> exists i :: 0 <= i < n && FitsDtd(ts[i])
  {
    if n > 0 {
      BaseFindsFit(ts, n - 1);
    }
  }

  /** The first extension mode is mode zero exactly when mode zero is not in the base block. */
  lemma {:induction false} FirstExtension(ts: seq<Timing>, n: nat, k: nat)
    requires n <= |ts| && k < |ExtUpTo(ts, n)|
    ensures ExtUpTo(ts, n)[k] == 0 <==> k == 0 && 0 !in BaseOf(ts)
  {
    ExtIncreases(ts, n);
    if 0 !in BaseOf(ts) {
      ExtPrefix(ts, 1, n);
      assert ExtUpTo(ts, 1) == [0];
      assert ExtUpTo(ts, n)[..1] == [0];
    }
  }

  // ---- Sums ----

  function Sum(bytes: seq<U8>): nat {
    if bytes == [] then 0 else Sum(bytes[..|bytes| - 1]) + bytes[|bytes| - 1]
  }

  /** The byte that makes a sum zero modulo 256. */
  function Check(bytes: seq<U8>): U8 {
    (256 - Sum(bytes) % 256) % 256
  }

  lemma SumMore(bytes: seq<U8>, b: U8)
    ensures Sum(bytes + [b]) == Sum(bytes) + b
  {
    assert (bytes + [b])[..|bytes|] == bytes;
  }

  lemma Checked(bytes: seq<U8>)
    ensures Sum(bytes + [Check(bytes)]) % 256 == 0
  {
    SumMore(bytes, Check(bytes));
    ComplementMod(Sum(bytes));
  }

  lemma ComplementMod(s: nat)
    ensures (s + (256 - s % 256) % 256) % 256 == 0
  {
  }

  // ---- The base block ----

  /** Where every timing goes: the base block's detailed timings, and the extensions' entries, in order. */
  datatype Plan = Plan(ts: seq<Timing>, base: seq<nat>, ext: seq<nat>)

  function PlanOf(modes: seq<Mode>): Plan {
    Plan(TimingsOf(modes), BaseOf(TimingsOf(modes)), ExtOf(TimingsOf(modes)))
  }

  predicate Within(idx: seq<nat>, ts: seq<Timing>) {
    forall k :: 0 <= k < |idx| ==> idx[k] < |ts|
  }

  predicate AllFit(idx: seq<nat>, ts: seq<Timing>)
    requires Within(idx, ts)
  {
    forall k :: 0 <= k < |idx| ==> FitsDtd(ts[idx[k]])
  }

  /** A plan as it is before it is known whether any mode fits the base block. */
  predicate Draft(p: Plan) {
    && AllFormed(p.ts) && 1 <= |p.ts| <= 16 && Within(p.base, p.ts) && Within(p.ext, p.ts) && AllFit(p.base, p.ts)
    && |p.base| <= 2 && |p.base| + |p.ext| == |p.ts|
  }

  predicate ValidPlan(p: Plan) {
    Draft(p) && |p.base| >= 1
  }

  lemma PlanIsDraft(ts: seq<Timing>)
    requires AllFormed(ts) && 1 <= |ts| <= 16
    ensures Draft(Plan(ts, BaseOf(ts), ExtOf(ts)))
  {
    Shares(ts, |ts|);
  }

  /** At least one mode is in the base block, so the others always fit three extension blocks. */
  lemma PlanIsValid(modes: seq<Mode>)
    requires Buildable(modes)
    ensures ValidPlan(PlanOf(modes)) && BlockCount(PlanOf(modes)) <= 3
  {
    var ts := TimingsOf(modes);
    forall i | 0 <= i < |modes|
      ensures WellFormed(ts[i])
    {
      TimingFits(modes[i].width, modes[i].height, modes[i].refresh);
    }
    PlanIsDraft(ts);
    BaseFindsFit(ts, |ts|);
    var i :| 0 <= i < |modes| && FitsDtd(TimingOf(modes[i]));
    assert FitsDtd(ts[i]);
  }

  function Millimetres(pixels: nat): nat {
    (pixels * 5 + 16) / 32
  }

  const PATTERN: seq<U8> := [0, 0xff, 0xff, 0xff, 0xff, 0xff, 0xff, 0]

  /** Vendor, product, serial number, date, version and screen size. */
  function Identity(t: Timing, serial: U32, product: U16): (b: seq<U8>)
    ensures |b| == 16
  {
    [0x48, 0xf0, Byte(product), Byte(product / 256), Byte(serial), Byte(serial / 256), Byte(serial / 65536), Byte(serial / 16777216),
     41, 36, 1, 4, 0xa5, Byte((Millimetres(t.hActive) + 5) / 10), Byte((Millimetres(t.vActive) + 5) / 10), 0x78]
  }

  /** The first detailed timing is native when a mode of the panel's size is in the base block. */
  predicate NativeInBase(p: Plan)
    requires ValidPlan(p)
  {
    exists k :: 0 <= k < |p.base| && p.ts[p.base[k]].hActive == p.ts[0].hActive && p.ts[p.base[k]].vActive == p.ts[0].vActive
  }

  function Features(p: Plan): U8
    requires ValidPlan(p)
  {
    if NativeInBase(p) then 0x06 else 0x04
  }

  /** Chromaticity, no established timings, one standard timing. */
  const COLOURS: seq<U8> :=
    [0xee, 0x91, 0xa3, 0x54, 0x4c, 0x99, 0x26, 0x0f, 0x50, 0x54, 0, 0, 0, 0xd1, 0xc0, 1, 1, 1, 1, 1, 1, 1, 1, 1, 1, 1, 1, 1, 1]

  const DUMMY: seq<U8> := [0, 0, 0, 0x10, 0, 0, 0, 0, 0, 0, 0, 0, 0, 0, 0, 0, 0, 0]

  function Max(a: nat, b: nat): nat { if a > b then a else b }
  function Least(a: nat, b: nat): nat { if a < b then a else b }

  function MaxRefresh(ts: seq<Timing>, n: nat): nat
    requires n <= |ts|
  {
    if n == 0 then 0 else Max(MaxRefresh(ts, n - 1), ts[n - 1].refresh)
  }

  function MaxKhz(ts: seq<Timing>, n: nat): nat
    requires n <= |ts|
  {
    if n == 0 then 0 else Max(MaxKhz(ts, n - 1), ts[n - 1].pixelKhz)
  }

  /** One more than the line rate, rounded down, in kHz. */
  function LineKhz(t: Timing): nat
    requires t.hActive + t.hBlank > 0
  {
    t.pixelKhz / (t.hActive + t.hBlank) + 1
  }

  function MaxLineKhz(ts: seq<Timing>, n: nat): nat
    requires n <= |ts| && AllFormed(ts)
  {
    if n == 0 then 0 else Max(MaxLineKhz(ts, n - 1), LineKhz(ts[n - 1]))
  }

  function RangeLimits(refresh: nat, lineKhz: nat, khz: nat): (b: seq<U8>)
    ensures |b| == 18
  {
    var tenMhz := (khz + 9999) / 10000;
    [0, 0, 0, 0xfd, if lineKhz > 255 then 0x08 else 0, 24, Byte(Max(refresh, 120)), 30,
     if lineKhz > 255 then Least(lineKhz - 255, 255) else Max(lineKhz, 160),
     if tenMhz > 255 then 255 else Max(tenMhz, 60),
     0x00, 0x0a, 0x20, 0x20, 0x20, 0x20, 0x20, 0x20]
  }

  function Limits(ts: seq<Timing>): (b: seq<U8>)
    requires AllFormed(ts)
    ensures |b| == 18
  {
    RangeLimits(MaxRefresh(ts, |ts|), MaxLineKhz(ts, |ts|), MaxKhz(ts, |ts|))
  }

  /** The product name, padded with a space. */
  const NAME: seq<U8> := [0, 0, 0, 0xfc, 0, 0x52, 0x61, 0x70, 0x68, 0x61, 0x65, 0x6c, 0x20, 0x56, 0x44, 0x0a, 0x20, 0x20]

  /** The bytes at one place of the image. */
  predicate Holds(s: seq<U8>, at: nat, bytes: seq<U8>) {
    at + |bytes| <= |s| && s[at..at + |bytes|] == bytes
  }

  function DtdOf(p: Plan, k: nat): (d: seq<U8>)
    requires Draft(p) && k < |p.base|
    ensures |d| == 18
  {
    Dtd(p.ts[p.base[k]], Millimetres(p.ts[0].hActive), Millimetres(p.ts[0].vActive))
  }

  /** The first `n` of the base modes have their detailed timings in order. */
  predicate DtdsHeld(s: seq<U8>, p: Plan, n: nat)
    requires Draft(p) && n <= |p.base|
  {
    forall k :: 0 <= k < n ==> Holds(s, 54 + 18 * k, DtdOf(p, k))
  }

  /** Everything before the detailed timings but the feature byte. */
  predicate FrontHeld(s: seq<U8>, t: Timing, serial: U32, product: U16) {
    Holds(s, 0, PATTERN) && Holds(s, 8, Identity(t, serial, product)) && Holds(s, 25, COLOURS)
  }

  function BlockCount(p: Plan): nat {
    (|p.ext| + 4) / 5
  }

  /** The base block at the start of the image, every byte of it. */
  predicate BaseHeld(s: seq<U8>, p: Plan, serial: U32, product: U16)
    requires ValidPlan(p)
  {
    && |s| >= 128 && FrontHeld(s, p.ts[0], serial, product) && s[24] == Features(p)
    && DtdsHeld(s, p, |p.base|) && (|p.base| == 1 ==> Holds(s, 72, DUMMY))
    && Holds(s, 90, Limits(p.ts)) && Holds(s, 108, NAME)
    && s[126] == BlockCount(p) && s[127] == Check(s[..127])
  }

  // ---- The extension blocks ----

  /** The modes of one extension block: five, or what is left. */
  function Slice(ext: seq<nat>, blk: nat): (idx: seq<nat>)
    requires 5 * blk < |ext|
    ensures 1 <= |idx| == Least(5, |ext| - 5 * blk)
    ensures forall k :: 0 <= k < |idx| ==> idx[k] == ext[5 * blk + k]
  {
    ext[5 * blk..Least(5 * blk + 5, |ext|)]
  }

  /** Image size in tenths of a millimetre, native pixels, features, gamma 2.2, aspect, depth. */
  function Params(t: Timing): (b: seq<U8>)
    requires t.vActive > 0
    ensures |b| == 15
  {
    var w, h := Millimetres(t.hActive) * 10, Millimetres(t.vActive) * 10;
    [0x01, 0, 12, Byte(w), Byte(w / 256), Byte(h), Byte(h / 256),
     Byte(t.hActive), Byte(t.hActive / 256), Byte(t.vActive), Byte(t.vActive / 256),
     0x00, 120, (t.hActive * 100 / t.vActive + 0xffff_ff9c) % 256, 0x99]
  }

  function Payload(first: bool, here: nat): nat {
    (if first then 15 else 0) + 3 + 20 * here
  }

  /** Where the data block of timings starts in an extension block. */
  function TimingsAt(first: bool): nat {
    if first then 20 else 5
  }

  /** The first `n` timings of an extension block; only the first one of the first block is preferred. */
  predicate EntriesHeld(s: seq<U8>, at: nat, ts: seq<Timing>, idx: seq<nat>, first: bool, n: nat)
    requires AllFormed(ts) && n <= |idx| && Within(idx, ts)
  {
    forall j :: 0 <= j < n ==> Holds(s, at + TimingsAt(first) + 3 + 20 * j, DisplayIdTiming(ts[idx[j]], first && j == 0))
  }

  /** The headers of an extension block that starts at `at`. */
  predicate HeadersHeld(s: seq<U8>, at: nat, t: Timing, first: bool, here: nat)
    requires t.vActive > 0 && here <= 5
  {
    && Holds(s, at, [0x70, 0x13, Payload(first, here), 0x03, 0])
    && (first ==> Holds(s, at + 5, Params(t)))
    && Holds(s, at + TimingsAt(first), [0x03, 0, 20 * here])
  }

  /** The extension block that starts at `at`, every byte of it. */
  predicate ExtHeld(s: seq<U8>, at: nat, ts: seq<Timing>, idx: seq<nat>, first: bool)
    requires AllFormed(ts) && |idx| <= 5 && |ts| > 0 && Within(idx, ts)
  {
    var sumAt := at + 5 + Payload(first, |idx|);
    && at + 128 <= |s| && HeadersHeld(s, at, ts[0], first, |idx|) && EntriesHeld(s, at, ts, idx, first, |idx|)
    && s[sumAt] == Check(s[at + 1..sumAt])
    && (forall i :: sumAt < i < at + 127 ==> s[i] == 0)
    && s[at + 127] == Check(s[at..at + 127])
  }

  predicate NthExtHeld(s: seq<U8>, p: Plan, blk: nat)
    requires ValidPlan(p) && 5 * blk < |p.ext|
  {
    ExtHeld(s, 128 * (1 + blk), p.ts, Slice(p.ext, blk), blk == 0)
  }

  /** The first `n` extension blocks. */
  predicate ExtsHeld(s: seq<U8>, p: Plan, n: nat)
    requires ValidPlan(p) && n <= BlockCount(p)
  {
    forall blk: nat :: blk < n ==> NthExtHeld(s, p, blk)
  }

  /** The whole EDID, every byte of the buffer it is built in. */
  predicate Built(s: seq<U8>, p: Plan, serial: U32, product: U16)
    requires ValidPlan(p)
  {
    && |s| == 512 && BaseHeld(s, p, serial, product) && ExtsHeld(s, p, BlockCount(p))
    && forall i :: 128 * (1 + BlockCount(p)) <= i < 512 ==> s[i] == 0
  }

  // ---- What a built EDID satisfies ----

  function Block(image: seq<U8>, n: nat): (b: seq<U8>)
    requires 128 * (n + 1) <= |image|
    ensures |b| == 128
  {
    image[128 * n..128 * (n + 1)]
  }

  /** The part of the buffer that is the EDID. */
  function Image(s: seq<U8>, p: Plan): seq<U8>
    requires 128 * (1 + BlockCount(p)) <= |s|
  {
    s[..128 * (1 + BlockCount(p))]
  }

  /** What a reader checks before it looks inside: the size, the pattern, the number of extensions, and
      that every block adds up to zero. */
  ghost predicate StructurallyValid(image: seq<U8>) {
    && 128 <= |image| <= 2048 && |image| % 128 == 0 && image[..8] == PATTERN
    && 128 * (image[126] as nat + 1) == |image|
    && forall n: nat :: 128 * (n + 1) <= |image| ==> Sum(Block(image, n)) % 256 == 0
  }

  lemma CheckedBlock(s: seq<U8>, at: nat)
    requires at + 128 <= |s| && s[at + 127] == Check(s[at..at + 127])
    ensures Sum(s[at..at + 128]) % 256 == 0
  {
    assert s[at..at + 128] == s[at..at + 127] + [s[at + 127]];
    Checked(s[at..at + 127]);
  }

  lemma BlockSum(s: seq<U8>, p: Plan, serial: U32, product: U16, n: nat)
    requires ValidPlan(p) && Built(s, p, serial, product) && n <= BlockCount(p)
    ensures Sum(s[128 * n..128 * n + 128]) % 256 == 0
  {
    if n == 0 {
      assert s[0..127] == s[..127];
      CheckedBlock(s, 0);
    } else {
      assert NthExtHeld(s, p, n - 1);
      CheckedBlock(s, 128 * n);
    }
  }

  lemma ValidFromBlocks(s: seq<U8>, count: nat)
    requires |s| == 512 && count <= 3 && Holds(s, 0, PATTERN) && s[126] == count
    requires forall n: nat :: n <= count ==> Sum(s[128 * n..128 * n + 128]) % 256 == 0
    ensures StructurallyValid(s[..128 * (1 + count)])
  {
    var image := s[..128 * (1 + count)];
    assert image[..8] == s[0..8];
    forall n: nat | 128 * (n + 1) <= |image|
      ensures Sum(Block(image, n)) % 256 == 0
    {
      assert Block(image, n) == s[128 * n..128 * n + 128];
    }
  }

  /** The built EDID passes every structural check of the HDMI reader. */
  lemma BuiltIsValid(s: seq<U8>, p: Plan, serial: U32, product: U16)
    requires ValidPlan(p) && Built(s, p, serial, product)
    ensures StructurallyValid(Image(s, p))
  {
    forall n: nat | n <= BlockCount(p)
      ensures Sum(s[128 * n..128 * n + 128]) % 256 == 0
    {
      BlockSum(s, p, serial, product, n);
    }
    ValidFromBlocks(s, BlockCount(p));
  }

  lemma BlockHeld(s: seq<U8>, p: Plan, serial: U32, product: U16, blk: nat)
    requires ValidPlan(p) && Built(s, p, serial, product) && blk < BlockCount(p)
    ensures |s| == 512 && 5 * blk < |p.ext| && 128 * (1 + blk) + 128 <= 512
    ensures ExtHeld(s, 128 * (1 + blk), p.ts, Slice(p.ext, blk), blk == 0)
  {
    hide BaseHeld, ExtHeld;
    assert NthExtHeld(s, p, blk);
  }

  lemma SectionSum(s: seq<U8>, at: nat, ts: seq<Timing>, idx: seq<nat>, first: bool)
    requires AllFormed(ts) && |idx| <= 5 && |ts| > 0 && Within(idx, ts) && ExtHeld(s, at, ts, idx, first)
    ensures at + 6 + s[at + 2] <= |s| && Sum(s[at + 1..at + 6 + s[at + 2]]) % 256 == 0
  {
    var sumAt := at + 5 + Payload(first, |idx|);
    assert s[at + 2] == s[at..at + 5][2] == Payload(first, |idx|);
    assert s[at + 1..sumAt + 1] == s[at + 1..sumAt] + [s[sumAt]];
    Checked(s[at + 1..sumAt]);
  }

  /** Each DisplayID section, from its version byte to its checksum, adds up to zero as well. */
  lemma SectionSumsToZero(s: seq<U8>, p: Plan, serial: U32, product: U16, blk: nat)
    requires ValidPlan(p) && Built(s, p, serial, product) && blk < BlockCount(p)
    ensures var at := 128 * (1 + blk); at + 6 + s[at + 2] <= 512 && Sum(s[at + 1..at + 6 + s[at + 2]]) % 256 == 0
  {
    hide BaseHeld, ExtHeld, Built, ExtsHeld, Sum;
    BlockHeld(s, p, serial, product, blk);
    SectionSum(s, 128 * (1 + blk), p.ts, Slice(p.ext, blk), blk == 0);
  }

  /** The base block's detailed timing `k` decodes to its mode's timing. */
  lemma BaseModesDecode(s: seq<U8>, p: Plan, serial: U32, product: U16, k: nat)
    requires ValidPlan(p) && Built(s, p, serial, product) && k < |p.base|
    ensures DecodeDtd(s[54 + 18 * k..72 + 18 * k]) == Meant(p.ts[p.base[k]])
  {
    assert Holds(s, 54 + 18 * k, DtdOf(p, k));
    DtdRoundTrip(p.ts[p.base[k]], Millimetres(p.ts[0].hActive), Millimetres(p.ts[0].vActive));
  }

  /** Where entry `j` of extension block `blk` is, after the section's headers. */
  function EntryAt(s: seq<U8>, blk: nat, j: nat): (d: seq<U8>)
    requires 128 * (blk + 2) <= |s| && j < 5
    ensures |d| == 20
  {
    var at := 128 * (1 + blk) + TimingsAt(blk == 0) + 3 + 20 * j;
    s[at..at + 20]
  }

  /** A sink reads this timing, with this preferred mark, out of the entry. */
  predicate Describes(d: seq<U8>, t: Timing, preferred: bool) {
    |d| == 20 && DecodeDisplayId(d) == Meant(t) && (Preferred(d) <==> preferred)
  }

  lemma EntryDecodes(s: seq<U8>, at: nat, ts: seq<Timing>, idx: seq<nat>, first: bool, j: nat)
    requires AllFormed(ts) && j < |idx| <= 5 && |ts| > 0 && Within(idx, ts) && ExtHeld(s, at, ts, idx, first)
    ensures var from := at + TimingsAt(first) + 3 + 20 * j;
            Describes(s[from..from + 20], ts[idx[j]], first && j == 0)
  {
    assert Holds(s, at + TimingsAt(first) + 3 + 20 * j, DisplayIdTiming(ts[idx[j]], first && j == 0));
    DisplayIdRoundTrip(ts[idx[j]], first && j == 0);
  }

  /** Extension mode `5 * blk + j` decodes from its place to its timing, and exactly the very first one
      is preferred. */
  lemma ExtModesDecode(s: seq<U8>, p: Plan, serial: U32, product: U16, blk: nat, j: nat)
    requires ValidPlan(p) && Built(s, p, serial, product) && j < 5 && 5 * blk + j < |p.ext|
    ensures 128 * (blk + 2) <= |s|
    ensures Describes(EntryAt(s, blk, j), p.ts[p.ext[5 * blk + j]], blk == 0 && j == 0)
  {
    hide BaseHeld, ExtHeld, Describes, Built, ExtsHeld;
    BlockHeld(s, p, serial, product, blk);
    EntryDecodes(s, 128 * (1 + blk), p.ts, Slice(p.ext, blk), blk == 0, j);
  }

  /** Every mode has exactly one descriptor: it is one of the base modes or one of the extension modes,
      never both, and in its list once. */
  lemma EachModeOnce(modes: seq<Mode>, i: nat)
    requires Buildable(modes) && i < |modes|
    ensures var p := PlanOf(modes);
            && (i in p.base <==> i !in p.ext)
            && (forall j, k :: 0 <= j < k < |p.base| ==> p.base[j] != p.base[k])
            && (forall j, k :: 0 <= j < k < |p.ext| ==> p.ext[j] != p.ext[k])
  {
    var ts := TimingsOf(modes);
    EveryModePlaced(ts, |ts|, i);
    BaseIncreases(ts, |ts|);
    ExtIncreases(ts, |ts|);
  }
}
