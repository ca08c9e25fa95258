/** What else a sink reads out of a built EDID: who made it, how large the panel is, and which rates it
    admits (EDID 1.4, sections 3.4 to 3.7 and 3.10.3.3, and DisplayID 1.3). */
module EdidFields {
  import opened Bits
  import opened EdidTiming
  import opened EdidImage

  function Long(a: U8, b: U8, c: U8, d: U8): nat {
    a as nat + 256 * b + 65536 * c + 16777216 * d
  }

  lemma LongBack(x: U32)
    ensures Long(Byte(x), Byte(x / 256), Byte(x / 65536), Byte(x / 16777216)) == x
  {
    DivTwice(x, 256, 256);
    DivTwice(x, 65536, 256);
    FourDigits(x, x / 256, x / 65536, x / 16777216);
  }

  lemma FourDigits(x: nat, a: nat, b: nat, c: nat)
    requires a == x / 256 && b == a / 256 && c == b / 256 && c < 256
    ensures Long(Byte(x), Byte(a), Byte(b), Byte(c)) == x
  {
    assert x == 256 * a + x % 256;
    assert a == 256 * b + a % 256;
    assert b == 256 * c + b % 256;
  }

  // ---- Size ----

  /** A byte that holds the nearest number of centimetres, modulo 256. */
  ghost predicate Centimetres(b: U8, pixels: nat) {
    exists cm: nat :: b == Byte(cm) && 10 * cm <= Millimetres(pixels) + 5 < 10 * cm + 10
  }

  lemma NearestCentimetre(pixels: nat)
    ensures Centimetres(Byte((Millimetres(pixels) + 5) / 10), pixels)
  {
    var cm := (Millimetres(pixels) + 5) / 10;
    assert 10 * cm <= Millimetres(pixels) + 5 < 10 * cm + 10;
  }

  /** A length in millimetres, rounded to the nearest one, at 32 pixels to 5 mm. */
  lemma MillimetresRound(pixels: nat)
    ensures 32 * Millimetres(pixels) <= 5 * pixels + 16 < 32 * Millimetres(pixels) + 32
  {
  }

  /** Every detailed timing carries the panel's size in millimetres. */
  lemma PanelSizeDecodes(s: seq<U8>, p: Plan, serial: U32, product: U16, k: nat)
    requires ValidPlan(p) && BaseHeld(s, p, serial, product) && k < |p.base|
    ensures var d := s[54 + 18 * k..72 + 18 * k];
            Wide(d[12], d[14] / 16) == Millimetres(p.ts[0].hActive) && Wide(d[13], d[14] % 16) == Millimetres(p.ts[0].vActive)
  {
    assert Holds(s, 54 + 18 * k, DtdOf(p, k));
    hide BaseHeld;
    SharedBack(Millimetres(p.ts[0].hActive), Millimetres(p.ts[0].vActive));
  }

  /** The display parameters carry it in tenths, with the panel's pixels. */
  lemma ParametersDecode(t: Timing)
    requires WellFormed(t)
    ensures var b := Params(t);
            && Wide(b[3], b[4]) == 10 * Millimetres(t.hActive) && Wide(b[5], b[6]) == 10 * Millimetres(t.vActive)
            && Wide(b[7], b[8]) == t.hActive && Wide(b[9], b[10]) == t.vActive
            && b[0] == 1 && b[2] == 12
  {
    WideBack(10 * Millimetres(t.hActive));
    WideBack(10 * Millimetres(t.vActive));
    WideBack(t.hActive);
    WideBack(t.vActive);
  }

  /** The aspect is kept as hundredths above one to one, modulo 256. */
  lemma AspectHundredths(t: Timing)
    requires WellFormed(t)
    ensures exists q: nat ::
              q * t.vActive <= 100 * t.hActive < (q + 1) * t.vActive && (q - Params(t)[13] - 100) % 256 == 0
  {
    var q := t.hActive * 100 / t.vActive;
    assert 100 * t.hActive == q * t.vActive + 100 * t.hActive % t.vActive;
    Distribute(q, 1, t.vActive);
    HundredBelow(q);
  }

  lemma HundredBelow(q: nat)
    ensures (q - (q + 0xffff_ff9c) % 256 - 100) % 256 == 0
  {
    var r := q + 0xffff_ff9c;
    assert q - r % 256 - 100 == 256 * (r / 256) - 0x1_0000_0000;
  }

  /** The four aspect codes stand for four different ratios, and eight for none of them. */
  lemma AspectMeans(w: nat, h: nat)
    requires w > 0 && h > 0
    ensures (Aspect(w, h) == 2 <==> 3 * w == 4 * h) && (Aspect(w, h) == 4 <==> 9 * w == 16 * h)
    ensures (Aspect(w, h) == 5 <==> 10 * w == 16 * h) && (Aspect(w, h) == 6 <==> 27 * w == 64 * h)
    ensures Aspect(w, h) in {2, 4, 5, 6, 8}
  {
  }

  // ---- Identity ----

  function Letter(c: char): int {
    c as int - 'A' as int + 1
  }

  /** The maker is RGP in five-bit letters; product and serial number come back, low byte first; the
      made in week 41 of 2026 for version 1.4; the input is digital, DisplayPort, with ten bits a colour, the
      size in whole centimetres, rounded, and the gamma 2.2. */
  lemma IdentityDecodes(t: Timing, serial: U32, product: U16)
    ensures var b := Identity(t, serial, product);
            && 256 * b[0] as int + b[1] as int == 1024 * Letter('R') + 32 * Letter('G') + Letter('P')
            && Wide(b[2], b[3]) == product && Long(b[4], b[5], b[6], b[7]) == serial
            && b[8] == 41 && 1990 + b[9] as int == 2026 && b[10] == 1 && b[11] == 4 && b[12] as int == 128 + 16 * 2 + 5
            && Centimetres(b[13], t.hActive) && Centimetres(b[14], t.vActive) && 100 + b[15] as int == 220
  {
    WideBack(product);
    LongBack(serial);
    NearestCentimetre(t.hActive);
    NearestCentimetre(t.vActive);
    hide Centimetres;
  }

  // ---- Native mode ----

  /** The feature byte calls the preferred timing native exactly when some detailed timing has the panel's
      own size. */
  lemma NativeFlag(p: Plan)
    requires ValidPlan(p)
    ensures BitAt(Features(p), 2) && !BitAt(Features(p), 0)
    ensures BitAt(Features(p), 1) <==>
            exists k :: 0 <= k < |p.base| && p.ts[p.base[k]].hActive == p.ts[0].hActive && p.ts[p.base[k]].vActive == p.ts[0].vActive
  {
    LowBits(6);
    LowBits(4);
    hide BitAt, ValidPlan;
  }

  lemma LowBits(x: nat)
    ensures (BitAt(x, 0) <==> x % 2 == 1) && (BitAt(x, 1) <==> x / 2 % 2 == 1) && (BitAt(x, 2) <==> x / 4 % 2 == 1)
  {
    assert Pow2(0) == 1 && Pow2(1) == 2 && Pow2(2) == 4;
  }

  // ---- Range limits ----

  lemma {:induction false} Maxima(ts: seq<Timing>, n: nat, i: nat)
    requires i < n <= |ts| && AllFormed(ts)
    ensures ts[i].refresh <= MaxRefresh(ts, n) && ts[i].pixelKhz <= MaxKhz(ts, n) && LineKhz(ts[i]) <= MaxLineKhz(ts, n)
    decreases n
  {
    if i < n - 1 {
      Maxima(ts, n - 1, i);
    }
  }

  lemma {:induction false} MaximaReached(ts: seq<Timing>, n: nat) returns (i: nat, j: nat, k: nat)
    requires 0 < n <= |ts| && AllFormed(ts)
    ensures i < n && ts[i].refresh == MaxRefresh(ts, n)
    ensures j < n && ts[j].pixelKhz == MaxKhz(ts, n)
    ensures k < n && LineKhz(ts[k]) == MaxLineKhz(ts, n)
    decreases n
  {
    hide LineKhz;
    i, j, k := n - 1, n - 1, n - 1;
    if n > 1 {
      var i', j', k' := MaximaReached(ts, n - 1);
      i := if ts[i].refresh >= ts[i'].refresh then i else i';
      j := if ts[j].pixelKhz >= ts[j'].pixelKhz then j else j';
      k := if LineKhz(ts[k]) >= LineKhz(ts[k']) then k else k';
    }
  }

  /** The highest line rate that the limits admit, in kHz: past 255 with the offset flag. */
  function LineLimit(r: seq<U8>): nat
    requires |r| == 18
  {
    (if r[4] / 8 % 2 == 1 then 255 else 0) + r[8] as nat
  }

  /** A mode within the limits: its frame rate and line rate between the lowest and the highest, and its
      clock, in units of 10 MHz, not above the highest. */
  predicate Admits(r: seq<U8>, t: Timing)
    requires |r| == 18 && WellFormed(t)
  {
    && r[5] <= t.refresh <= r[6]
    && (t.pixelKhz < (t.hActive + t.hBlank) * LineLimit(r) || LineLimit(r) == 510)
    && (t.pixelKhz <= 10_000 * r[9] as nat || r[9] == 255)
  }

  lemma ClockCovered(khz: nat, most: nat)
    requires khz <= most
    ensures var tenMhz := (most + 9999) / 10000;
            khz <= 10_000 * (if tenMhz > 255 then 255 else Max(tenMhz, 60)) || tenMhz > 255
  {
  }

  lemma LineCovered(t: Timing, most: nat)
    requires WellFormed(t) && LineKhz(t) <= most
    ensures t.pixelKhz < (t.hActive + t.hBlank) * most
  {
    PixelsBelow(t.pixelKhz, t.hActive + t.hBlank, most);
  }

  lemma PixelsBelow(khz: nat, h: nat, most: nat)
    requires h > 0 && khz / h + 1 <= most
    ensures khz < h * most
  {
    var q := khz / h;
    assert khz == q * h + khz % h;
    Distribute(q, 1, h);
    MulMono(most, q + 1, h);
  }

  /** Every mode of the EDID lies within the range limits that it declares, unless they are at the end of
      what their fields can hold. */
  lemma LimitsAdmitAll(ts: seq<Timing>, i: nat)
    requires AllFormed(ts) && i < |ts|
    ensures Admits(Limits(ts), ts[i])
  {
    Maxima(ts, |ts|, i);
    AdmitsBelow(MaxRefresh(ts, |ts|), MaxLineKhz(ts, |ts|), MaxKhz(ts, |ts|), ts[i]);
    var j, _, _ := MaximaReached(ts, |ts|);
    assert WellFormed(ts[j]);
  }

  lemma AdmitsBelow(refresh: nat, lineKhz: nat, khz: nat, t: Timing)
    requires WellFormed(t) && t.refresh <= refresh && LineKhz(t) <= lineKhz && t.pixelKhz <= khz
    ensures refresh <= 240 ==> Admits(RangeLimits(refresh, lineKhz, khz), t)
  {
    ClockCovered(t.pixelKhz, khz);
    var limit := LineLimit(RangeLimits(refresh, lineKhz, khz));
    assert limit == if lineKhz > 255 then 255 + Least(lineKhz - 255, 255) else Max(lineKhz, 160);
    if limit < 510 {
      LineCovered(t, limit);
    }
  }

  /** And they are no wider than the usual ones unless some mode needs it. */
  lemma LimitsAreNeeded(ts: seq<Timing>)
    requires AllFormed(ts) && ts != []
    ensures var r := Limits(ts);
            && r[3] == 0xfd && r[5] == 24 && r[7] == 30
            && (r[6] == 120 || exists i :: 0 <= i < |ts| && ts[i].refresh == r[6])
            && (LineLimit(r) in {160, 510} || exists i :: 0 <= i < |ts| && LineKhz(ts[i]) == LineLimit(r))
            && (r[9] in {60, 255} || exists i :: 0 <= i < |ts| && 10_000 * (r[9] as int - 1) < ts[i].pixelKhz <= 10_000 * r[9] as int)
  {
    var i, j, k := MaximaReached(ts, |ts|);
    assert WellFormed(ts[i]) && ts[j].pixelKhz > 0;
    FieldsOfLimits(ts[i].refresh, LineKhz(ts[k]), ts[j].pixelKhz);
    hide LineKhz, MaxRefresh, MaxKhz, MaxLineKhz, WellFormed, RangeLimits, LineLimit;
  }

  lemma FieldsOfLimits(refresh: nat, lineKhz: nat, khz: nat)
    requires refresh <= 240 && khz > 0
    ensures var r := RangeLimits(refresh, lineKhz, khz);
            && r[3] == 0xfd && r[5] == 24 && r[7] == 30 && r[6] in {120, refresh} && LineLimit(r) in {160, lineKhz, 510}
            && (r[9] in {60, 255} || 10_000 * (r[9] as int - 1) < khz <= 10_000 * r[9] as int)
  {
    TenMegahertz(khz);
  }

  lemma TenMegahertz(khz: nat)
    ensures var tenMhz := (khz + 9999) / 10000; khz > 0 ==> 10_000 * (tenMhz - 1) < khz <= 10_000 * tenMhz
  {
  }

  /** The limits stand in the fourth descriptor of a built EDID. */
  lemma LimitsInPlace(s: seq<U8>, p: Plan, serial: U32, product: U16, i: nat)
    requires ValidPlan(p) && BaseHeld(s, p, serial, product) && i < |p.ts|
    ensures Admits(s[90..108], p.ts[i])
  {
    assert s[90..108] == Limits(p.ts);
    hide Limits, Admits, BaseHeld;
    LimitsAdmitAll(p.ts, i);
  }
}
