/** Display timings by VESA CVT reduced blanking version 2, and the two byte layouts that carry them:
    the EDID 1.4 detailed timing (section 3.10.2) and the DisplayID type I timing. */
module EdidTiming {
  import opened Bits

  datatype Timing = Timing(
    pixelKhz: nat, hActive: nat, hBlank: nat, hFront: nat, hSync: nat,
    vActive: nat, vBlank: nat, vFront: nat, vSync: nat, refresh: nat)

  const NO_TIMING := Timing(0, 0, 0, 0, 0, 0, 0, 0, 0, 0)

  predicate Admitted(width: U16, height: U16, refresh: U16) {
    320 <= width <= 8192 && 200 <= height <= 8192 && 24 <= refresh <= 240
  }

  /** The part of a frame that is not the minimum vertical blank, in nanoseconds. */
  function ActiveNs(refresh: nat): (r: int)
    requires 24 <= refresh <= 240
    ensures r * refresh + 460000 * refresh <= 1_000_000_000
    ensures 3_700_000 <= r <= 41_300_000
  {
    FrameBounds(refresh);
    1_000_000_000 / refresh - 460000
  }

  lemma FrameBounds(refresh: nat)
    requires 24 <= refresh <= 240
    ensures (1_000_000_000 / refresh) * refresh <= 1_000_000_000
    ensures 4_160_000 <= 1_000_000_000 / refresh <= 41_700_000
  {
    assert (1_000_000_000 / refresh) * refresh + 1_000_000_000 % refresh == 1_000_000_000;
    DivAtLeast(1_000_000_000, refresh, 4_160_000);
    DivBelow(1_000_000_000, refresh, 41_700_001);
  }

  /** The line period, in thousandths of a nanosecond, rounded down. */
  function LinePeriod(activeNs: nat, height: nat): (line: nat)
    requires 200 <= height <= 8192 && 3_700_000 <= activeNs <= 41_300_000
    ensures line * height <= activeNs * 1000
    ensures line >= 451_000
  {
    var line := activeNs * 1000 / height;
    LineBounds(activeNs * 1000, height);
    line
  }

  lemma LineBounds(total: nat, height: nat)
    requires 200 <= height <= 8192 && total >= 3_700_000_000
    ensures (total / height) * height <= total && total / height >= 451_000
  {
    assert (total / height) * height + total % height == total;
    DivAtLeast(total, height, 451_000);
  }

  /** Enough lines for 460 microseconds, and at least the fixed sync and back porch plus one. */
  function BlankLines(line: nat): (vbi: nat)
    requires line >= 451_000
    ensures vbi * line >= 460_000_000
    ensures 15 <= vbi <= 1021
  {
    var needed := (460_000_000 + line - 1) / line;
    CeilBounds(line);
    if needed < 15 then 15 else needed
  }

  lemma CeilBounds(line: nat)
    requires line >= 451_000
    ensures var n := (460_000_000 + line - 1) / line; n * line >= 460_000_000 && n <= 1021
    ensures 15 * line >= 460_000_000 || (460_000_000 + line - 1) / line >= 15
  {
    var total := 460_000_000 + line - 1;
    assert (total / line) * line + total % line == total;
    DivBelow(total, line, 1022);
    if 15 * line <= total {
      DivAtLeast(total, line, 15);
    }
  }

  function CvtRb2(width: U16, height: U16, refresh: U16): Timing {
    if !Admitted(width, height, refresh) then NO_TIMING
    else
      var vbi := BlankLines(LinePeriod(ActiveNs(refresh), height));
      Timing((width + 80) * (height + vbi) * refresh / 1000, width, 80, 8, 32, height, vbi, vbi - 14, 8, refresh)
  }

  /** The vertical blank really lasts at least 460 microseconds: with `refresh` frames a second of
      `height + vBlank` lines each, the blank lines take vBlank / (refresh * (height + vBlank)) seconds,
      in spite of the three roundings. */
  lemma BlankIsLongEnough(width: U16, height: U16, refresh: U16)
    requires Admitted(width, height, refresh)
    ensures var t := CvtRb2(width, height, refresh);
            t.vBlank * 1_000_000_000 >= 460_000 * refresh * (height + t.vBlank)
  {
    var active := ActiveNs(refresh);
    var line := LinePeriod(active, height);
    var vbi := BlankLines(line);
    BlankArithmetic(active, line, vbi, height, refresh);
  }

  lemma BlankCovers(active: nat, line: nat, vbi: nat, height: nat)
    requires line * height <= active * 1000 && vbi * line >= 460_000_000
    ensures active * vbi >= 460_000 * height
  {
    MulMono(vbi * line, 460_000_000, height);
    MulMono(active * 1000, line * height, vbi);
    assert vbi * line * height == line * height * vbi;
    assert active * 1000 * vbi == 1000 * (active * vbi);
  }

  lemma BlankArithmetic(active: nat, line: nat, vbi: nat, height: nat, refresh: nat)
    requires active * refresh + 460_000 * refresh <= 1_000_000_000
    requires line * height <= active * 1000 && vbi * line >= 460_000_000
    ensures vbi * 1_000_000_000 >= 460_000 * refresh * (height + vbi)
  {
    BlankCovers(active, line, vbi, height);
    BlankScaled(active, vbi, height, refresh);
  }

  lemma BlankScaled(active: nat, vbi: nat, height: nat, refresh: nat)
    requires active * refresh + 460_000 * refresh <= 1_000_000_000 && active * vbi >= 460_000 * height
    ensures vbi * 1_000_000_000 >= 460_000 * refresh * (height + vbi)
  {
    var r := 460_000 * refresh;
    MulMono(active * vbi, 460_000 * height, refresh);
    MulMono(1_000_000_000, active * refresh + r, vbi);
    assert active * vbi * refresh == active * refresh * vbi;
    assert (active * refresh + r) * vbi == active * refresh * vbi + r * vbi;
    assert 460_000 * height * refresh == r * height;
    assert r * (height + vbi) == r * height + r * vbi;
  }

  /** The mode is kept as it is, and the clock is the pixels sent in one second, blanking included,
      rounded down to kilohertz: no sink can run above the asked rate, or a kilohertz of pixels below it. */
  lemma ClockIsPixelRate(width: U16, height: U16, refresh: U16)
    requires Admitted(width, height, refresh)
    ensures var t := CvtRb2(width, height, refresh);
            && t.hActive == width && t.vActive == height && t.refresh == refresh
            && t.pixelKhz * 1000 <= t.refresh * (t.hActive + t.hBlank) * (t.vActive + t.vBlank) < (t.pixelKhz + 1) * 1000
  {
    var t := CvtRb2(width, height, refresh);
    var h, v := width + 80, height + t.vBlank;
    RateCommutes(h, v, refresh);
    var pixels := h * v * refresh;
    assert pixels == pixels / 1000 * 1000 + pixels % 1000;
  }

  lemma RateCommutes(h: nat, v: nat, refresh: nat)
    ensures h * v * refresh == refresh * h * v
  {
  }

  /** No line of blanking is wasted: beyond the fifteen that sync and porches need, one line less of the
      rounded period falls short of 460 microseconds. */
  lemma BlankIsLeast(width: U16, height: U16, refresh: U16)
    requires Admitted(width, height, refresh)
    ensures var t := CvtRb2(width, height, refresh);
            var line := (1_000_000_000 / refresh - 460_000) * 1000 / height;
            15 <= t.vBlank && 460_000_000 <= t.vBlank * line && (t.vBlank == 15 || (t.vBlank - 1) * line < 460_000_000)
  {
    var line := LinePeriod(ActiveNs(refresh), height);
    CeilLeast(line, BlankLines(line));
  }

  lemma CeilLeast(line: nat, vbi: nat)
    requires line > 0 && (vbi == 15 || (vbi > 15 && vbi == (460_000_000 + line - 1) / line))
    ensures vbi == 15 || (vbi - 1) * line < 460_000_000
  {
    if vbi > 15 {
      var total := 460_000_000 + line - 1;
      assert total == vbi * line + total % line;
      Distribute(vbi - 1, 1, line);
    }
  }

  /** A timing exists exactly for the admitted modes, and every value fits the fields it is stored in. */
  lemma TimingFits(width: U16, height: U16, refresh: U16)
    ensures var t := CvtRb2(width, height, refresh);
            && (t.pixelKhz > 0 <==> Admitted(width, height, refresh))
            && (t.pixelKhz > 0 ==> WellFormed(t))
  {
    if Admitted(width, height, refresh) {
      var vbi := BlankLines(LinePeriod(ActiveNs(refresh), height));
      ClockBounds(width + 80, height + vbi, refresh);
    }
  }

  lemma ClockBounds(h: nat, v: nat, refresh: nat)
    requires 400 <= h <= 8272 && 215 <= v <= 9213 && 24 <= refresh <= 240
    ensures 2000 <= h * v * refresh / 1000 < 20_000_000
  {
    MulMono(v, 215, h);
    MulMono(9213, v, h);
    MulMono(h * v, 86_000, refresh);
    MulMono(8272 * 9213, h * v, refresh);
  }

  /** What every admitted timing satisfies. */
  predicate WellFormed(t: Timing) {
    && 2000 <= t.pixelKhz < 20_000_000 && 320 <= t.hActive <= 8192 && 200 <= t.vActive <= 8192
    && t.hBlank == 80 && t.hFront == 8 && t.hSync == 32 && t.vSync == 8
    && 15 <= t.vBlank <= 1021 && t.vFront == t.vBlank - 14 && 24 <= t.refresh <= 240
  }

  predicate FitsDtd(t: Timing) {
    0 < t.pixelKhz <= 655350 && t.hActive < 4096 && t.vActive < 4096 && t.hBlank < 4096 && t.vBlank < 4096 &&
    t.hFront < 1024 && t.hSync < 1024 && t.vFront < 64 && t.vSync < 64
  }

  // ---- The two layouts ----

  function Byte(x: nat): U8 { x % 256 }

  /** Two fields' high parts in one byte. */
  function Nibbles(hi: nat, lo: nat): U8
    requires hi < 16 && lo < 16
  {
    hi * 16 + lo
  }

  function Dtd(t: Timing, widthMm: nat, heightMm: nat): (d: seq<U8>)
    requires FitsDtd(t) && widthMm < 4096 && heightMm < 4096
    ensures |d| == 18
  {
    var clk := t.pixelKhz / 10;
    [Byte(clk), Byte(clk / 256),
     Byte(t.hActive), Byte(t.hBlank), Nibbles(t.hActive / 256, t.hBlank / 256),
     Byte(t.vActive), Byte(t.vBlank), Nibbles(t.vActive / 256, t.vBlank / 256),
     Byte(t.hFront), Byte(t.hSync), Nibbles(t.vFront % 16, t.vSync % 16),
     Nibbles(t.hFront / 256 * 4 + t.hSync / 256, t.vFront / 16 * 4 + t.vSync / 16),
     Byte(widthMm), Byte(heightMm), Nibbles(widthMm / 256, heightMm / 256),
     0, 0, 0x1a]
  }

  /** The aspect code of DisplayID: 4:3, 16:9, 16:10, 64:27, or none of them. */
  function Aspect(w: nat, h: nat): U8 {
    if w * 3 == h * 4 then 2 else if w * 9 == h * 16 then 4 else if w * 10 == h * 16 then 5
    else if w * 27 == h * 64 then 6 else 8
  }

  function DisplayIdTiming(t: Timing, preferred: bool): (d: seq<U8>)
    requires WellFormed(t)
    ensures |d| == 20
  {
    var clk := t.pixelKhz / 10 - 1;
    var hf := (t.hFront - 1) % 32768 + 32768;
    [Byte(clk), Byte(clk / 256), Byte(clk / 65536), (if preferred then 0x80 else 0) + Aspect(t.hActive, t.vActive),
     Byte(t.hActive - 1), Byte((t.hActive - 1) / 256), Byte(t.hBlank - 1), Byte((t.hBlank - 1) / 256),
     Byte(hf), Byte(hf / 256), Byte(t.hSync - 1), Byte((t.hSync - 1) / 256),
     Byte(t.vActive - 1), Byte((t.vActive - 1) / 256), Byte(t.vBlank - 1), Byte((t.vBlank - 1) / 256),
     Byte(t.vFront - 1), Byte((t.vFront - 1) / 256), Byte(t.vSync - 1), Byte((t.vSync - 1) / 256)]
  }

  /** What a sink reads out of a timing descriptor: the clock in units of 10 kHz, and the blanking. */
  datatype Decoded = Decoded(
    clock10Khz: nat, hActive: nat, hBlank: nat, hFront: nat, hSync: nat,
    vActive: nat, vBlank: nat, vFront: nat, vSync: nat)

  function Meant(t: Timing): Decoded {
    Decoded(t.pixelKhz / 10, t.hActive, t.hBlank, t.hFront, t.hSync, t.vActive, t.vBlank, t.vFront, t.vSync)
  }

  function Wide(lo: nat, hi: nat): nat { lo + 256 * hi }

  function DecodeDtd(d: seq<U8>): Decoded
    requires |d| == 18
  {
    Decoded(Wide(d[0], d[1]),
            Wide(d[2], d[4] / 16), Wide(d[3], d[4] % 16), Wide(d[8], d[11] / 64), Wide(d[9], d[11] / 16 % 4),
            Wide(d[5], d[7] / 16), Wide(d[6], d[7] % 16), d[10] / 16 + 16 * (d[11] / 4 % 4), d[10] % 16 + 16 * (d[11] % 4))
  }

  function DecodeDisplayId(d: seq<U8>): Decoded
    requires |d| == 20
  {
    Decoded(Wide(Wide(d[0], d[1]), 256 * d[2] as nat) + 1,
            Wide(d[4], d[5]) + 1, Wide(d[6], d[7]) + 1, Wide(d[8], d[9]) % 32768 + 1, Wide(d[10], d[11]) + 1,
            Wide(d[12], d[13]) + 1, Wide(d[14], d[15]) + 1, Wide(d[16], d[17]) % 32768 + 1, Wide(d[18], d[19]) + 1)
  }

  predicate Preferred(d: seq<U8>)
    requires |d| == 20
  {
    d[3] >= 0x80
  }

  lemma NibbleBack(hi: nat, lo: nat)
    requires hi < 16 && lo < 16
    ensures Nibbles(hi, lo) / 16 == hi && Nibbles(hi, lo) % 16 == lo
  {
  }

  lemma Crumbs(hf: nat, hs: nat, vf: nat, vs: nat)
    requires hf < 4 && hs < 4 && vf < 4 && vs < 4
    ensures var b := Nibbles(hf * 4 + hs, vf * 4 + vs);
            b / 64 == hf && b / 16 % 4 == hs && b / 4 % 4 == vf && b % 4 == vs
  {
  }

  /** Two values below 4096 come back from two low bytes and a shared byte of high parts. */
  lemma SharedBack(a: nat, b: nat)
    requires a < 4096 && b < 4096
    ensures Wide(Byte(a), Nibbles(a / 256, b / 256) / 16) == a
    ensures Wide(Byte(b), Nibbles(a / 256, b / 256) % 16) == b
  {
    NibbleBack(a / 256, b / 256);
  }

  lemma WideBack(x: nat)
    requires x < 65536
    ensures Wide(Byte(x), Byte(x / 256)) == x
  {
  }

  lemma SplitBack(x: nat, unit: nat)
    requires unit == 256 || unit == 16
    ensures x % unit + unit * (x / unit) == x
  {
  }

  /** A detailed timing decodes to the timing it was written for. */
  lemma DtdRoundTrip(t: Timing, widthMm: nat, heightMm: nat)
    requires FitsDtd(t) && widthMm < 4096 && heightMm < 4096
    ensures DecodeDtd(Dtd(t, widthMm, heightMm)) == Meant(t)
  {
    var d := Dtd(t, widthMm, heightMm);
    WideBack(t.pixelKhz / 10);
    SharedBack(t.hActive, t.hBlank);
    SharedBack(t.vActive, t.vBlank);
    PorchBack(t, d[8], d[9], d[10], d[11]);
  }

  lemma PorchBack(t: Timing, d8: U8, d9: U8, d10: U8, d11: U8)
    requires FitsDtd(t) && d8 == Byte(t.hFront) && d9 == Byte(t.hSync) && d10 == Nibbles(t.vFront % 16, t.vSync % 16)
    requires d11 == Nibbles(t.hFront / 256 * 4 + t.hSync / 256, t.vFront / 16 * 4 + t.vSync / 16)
    ensures Wide(d8, d11 / 64) == t.hFront && Wide(d9, d11 / 16 % 4) == t.hSync
    ensures d10 / 16 + 16 * (d11 / 4 % 4) == t.vFront && d10 % 16 + 16 * (d11 % 4) == t.vSync
  {
    NibbleBack(t.vFront % 16, t.vSync % 16);
    Crumbs(t.hFront / 256, t.hSync / 256, t.vFront / 16, t.vSync / 16);
    SplitBack(t.hFront, 256); SplitBack(t.hSync, 256);
    SplitBack(t.vFront, 16); SplitBack(t.vSync, 16);
  }

  lemma ClockBack(x: nat)
    requires x < 0x100_0000
    ensures Wide(Wide(Byte(x), Byte(x / 256)), 256 * Byte(x / 65536) as nat) == x
  {
    DivTwice(x, 256, 256);
    DivBelow(x, 65536, 256);
    ThreeDigits(x, x / 256, x / 65536);
  }

  lemma ThreeDigits(x: nat, a: nat, b: nat)
    requires a == x / 256 && b == a / 256 && b < 256
    ensures Wide(Wide(Byte(x), Byte(a)), 256 * Byte(b) as nat) == x
  {
    assert x == 256 * a + x % 256;
    assert a == 256 * b + a % 256;
  }

  /** The front porch shares its word with the sync polarity bit. */
  lemma PolarityBack(x: nat)
    requires x < 32768
    ensures var w := x % 32768 + 32768; Wide(Byte(w), Byte(w / 256)) % 32768 == x
  {
    WideBack(x % 32768 + 32768);
  }

  lemma WordBack(lo: U8, hi: U8, x: nat)
    requires x < 32768 && lo == Byte(x) && hi == Byte(x / 256)
    ensures Wide(lo, hi) == x && Wide(lo, hi) % 32768 == x
  {
    WideBack(x);
  }

  lemma DisplayIdHorizontal(t: Timing, preferred: bool)
    requires WellFormed(t)
    ensures var r := DecodeDisplayId(DisplayIdTiming(t, preferred));
            r.clock10Khz == t.pixelKhz / 10 && r.hActive == t.hActive && r.hBlank == t.hBlank &&
            r.hFront == t.hFront && r.hSync == t.hSync
  {
    var d := DisplayIdTiming(t, preferred);
    ClockBack(t.pixelKhz / 10 - 1);
    PolarityBack(t.hFront - 1);
    WordBack(d[4], d[5], t.hActive - 1);
    WordBack(d[6], d[7], t.hBlank - 1);
    WordBack(d[10], d[11], t.hSync - 1);
  }

  lemma DisplayIdVertical(t: Timing, preferred: bool)
    requires WellFormed(t)
    ensures var r := DecodeDisplayId(DisplayIdTiming(t, preferred));
            r.vActive == t.vActive && r.vBlank == t.vBlank && r.vFront == t.vFront && r.vSync == t.vSync
  {
    var d := DisplayIdTiming(t, preferred);
    WordBack(d[12], d[13], t.vActive - 1);
    WordBack(d[14], d[15], t.vBlank - 1);
    WordBack(d[16], d[17], t.vFront - 1);
    WordBack(d[18], d[19], t.vSync - 1);
  }

  /** A DisplayID timing decodes to the timing it was written for, and keeps its preferred mark. */
  lemma DisplayIdRoundTrip(t: Timing, preferred: bool)
    requires WellFormed(t)
    ensures DecodeDisplayId(DisplayIdTiming(t, preferred)) == Meant(t)
    ensures Preferred(DisplayIdTiming(t, preferred)) <==> preferred
  {
    DisplayIdHorizontal(t, preferred);
    DisplayIdVertical(t, preferred);
  }
}
