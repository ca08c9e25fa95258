/** Conversion of page-table entry addresses from framebuffer MC to physical: one entry at a time and
    a whole span at once, and the bounded publication of the span statistics. */
module EntryUpdate {
  import opened Options
  import opened Bits

  const MAX_PHYSICAL: nat := TWO48 - 1

  /** The three raw framebuffer registers, in 16 MiB units. */
  datatype RawAperture = RawAperture(base: U32, top: U32, offset: U32)

  predicate ValidRaw(raw: RawAperture) {
    && raw.base != 0 && raw.offset != 0 && raw.top >= raw.base
    && raw.base < 0x100_0000 && raw.top < 0x100_0000 && raw.offset < 0x100_0000
  }

  function McBase(raw: RawAperture): nat { raw.base * 0x100_0000 }
  function McTop(raw: RawAperture): nat { raw.top * 0x100_0000 + 0xff_ffff }
  function PhysicalBase(raw: RawAperture): nat { raw.offset * 0x100_0000 }

  /** One less than the size of the aperture. */
  function Extent(raw: RawAperture): int { McTop(raw) - McBase(raw) }

  predicate InMc(raw: RawAperture, address: nat) {
    McBase(raw) <= address <= McTop(raw)
  }

  predicate InPhysical(raw: RawAperture, address: nat) {
    PhysicalBase(raw) <= address <= PhysicalBase(raw) + Extent(raw)
  }

  // ---- One entry ----

  datatype EntryDomain = EntryConverted | EntryPhysical | EntryOutside | EntrySystem | EntryInvalidAperture

  function ConvertEntry(address: U64, system: bool, raw: RawAperture): (r: (EntryDomain, nat)) {
    if system then (EntrySystem, address)
    else if !ValidRaw(raw) then (EntryInvalidAperture, address)
    else if InPhysical(raw, address) then (EntryPhysical, address)
    else if !InMc(raw, address) then (EntryOutside, address)
    else if address - McBase(raw) > MAX_PHYSICAL - PhysicalBase(raw) then (EntryInvalidAperture, address)
    else (EntryConverted, PhysicalBase(raw) + (address - McBase(raw)))
  }

  /** The registers are valid exactly when both ranges start above zero, the MC range is not empty, and no
      base or top leaves 48 bits. */
  lemma ValidRawIff(raw: RawAperture)
    ensures ValidRaw(raw) <==> 0 < McBase(raw) <= McTop(raw) <= MAX_PHYSICAL && 0 < PhysicalBase(raw) <= MAX_PHYSICAL
  {
  }

  /** Each verdict on an entry by its own condition; only a converted entry gets a new address, and that
      keeps its place in the aperture. */
  lemma EntryVerdicts(address: U64, system: bool, raw: RawAperture)
    ensures var (domain, physical) := ConvertEntry(address, system, raw);
            var usable := !system && ValidRaw(raw);
            var fits := address - McBase(raw) + PhysicalBase(raw) <= MAX_PHYSICAL;
            && (domain == EntrySystem <==> system)
            && (domain == EntryPhysical <==> usable && InPhysical(raw, address))
            && (domain == EntryOutside <==> usable && !InPhysical(raw, address) && !InMc(raw, address))
            && (domain == EntryConverted <==> usable && !InPhysical(raw, address) && InMc(raw, address) && fits)
            && physical - address == if domain == EntryConverted then PhysicalBase(raw) - McBase(raw) else 0
  {
  }

  // ---- A whole span ----

  datatype UpdateDomain =
    Inactive | Converted | AlreadyPhysical | Outside | System | InvalidTemplate | InvalidAperture |
    Empty | Overflow | SpanOutside | ZeroSource

  datatype Producer = Leaf | Child | Unmap | Other

  function ProducerOf(callerOffset: U64): Producer {
    if callerOffset == 0x559dc then Leaf
    else if callerOffset == 0x55a72 then Child
    else if callerOffset == 0x561f6 then Unmap
    else Other
  }

  datatype Request = Request(callerOffset: U64, destination: U64, count: U64, source: U64, template: U64, increment: U64)

  datatype Decision = Decision(
    request: Request, result: nat, spanEnd: nat, constructed: nat, domain: UpdateDomain, producer: Producer)

  function Untouched(r: Request, spanEnd: nat, domain: UpdateDomain): Decision {
    Decision(r, r.source, spanEnd, Or(r.template, r.source), domain, ProducerOf(r.callerOffset))
  }

  /** The distance from the first entry's source to the last one's. */
  function Span(r: Request): nat
    requires r.count > 0
  {
    (r.count - 1) * r.increment
  }

  function Prepare(active: bool, raw: RawAperture, r: Request): Decision {
    if !active then Untouched(r, r.source, Inactive)
    else if r.count == 0 then Untouched(r, r.source, Empty)
    else if r.template % 2 == 0 then Untouched(r, r.source, InvalidTemplate)
    else if r.template / 2 % 2 != 0 then Untouched(r, r.source, System)
    else if !ValidRaw(raw) then Untouched(r, r.source, InvalidAperture)
    else if r.source == 0 then Untouched(r, r.source, ZeroSource)
    else if r.increment != 0 && r.count - 1 > MAX_U64 / r.increment then Untouched(r, r.source, Overflow)
    else if r.source > MAX_U64 - Span(r) then Untouched(r, r.source, Overflow)
    else
      var spanEnd := r.source + Span(r);
      if PhysicalBase(raw) > MAX_PHYSICAL - Extent(raw) then Untouched(r, spanEnd, InvalidAperture)
      else if InPhysical(raw, r.source) then
        Untouched(r, spanEnd, if spanEnd <= PhysicalBase(raw) + Extent(raw) then AlreadyPhysical else SpanOutside)
      else if !InMc(raw, r.source) then Untouched(r, spanEnd, Outside)
      else if spanEnd > McTop(raw) then Untouched(r, spanEnd, SpanOutside)
      else
        var result := PhysicalBase(raw) + (r.source - McBase(raw));
        Decision(r, result, spanEnd, Or(r.template, result), Converted, ProducerOf(r.callerOffset))
  }

  /** The overflow guard is exact: no 64-bit product or sum of the source wraps past it. */
  lemma OverflowGuardExact(raw: RawAperture, r: Request)
    requires r.count > 0 && r.template % 2 == 1 && r.template / 2 % 2 == 0 && ValidRaw(raw) && r.source != 0
    ensures Prepare(true, raw, r).domain == Overflow <==> r.source + Span(r) > MAX_U64
  {
    if r.increment != 0 {
      var steps := r.count - 1;
      var q := MAX_U64 / r.increment;
      assert MAX_U64 == q * r.increment + MAX_U64 % r.increment;
      if steps > q {
        MulMonotone(q + 1, steps, r.increment);
        assert (q + 1) * r.increment == q * r.increment + r.increment;
      }
    }
  }

  lemma MulMonotone(x: nat, y: nat, d: nat)
    requires x <= y
    ensures x * d <= y * d
  {
    assert y * d == x * d + (y - x) * d;
  }

  /** The source of entry `i`. */
  function EntryAt(start: nat, r: Request, i: nat): nat {
    start + i * r.increment
  }

  lemma EntriesOrdered(r: Request, i: nat)
    requires i < r.count
    ensures i * r.increment <= Span(r)
  {
    MulMonotone(i, r.count - 1, r.increment);
  }

  /** Entry by entry, the one-entry conversion does what the span conversion did. */
  ghost predicate AgreesEntrywise(raw: RawAperture, r: Request, result: nat) {
    forall i: nat :: i < r.count ==> EntryAgrees(raw, r, result, i)
  }

  predicate EntryAgrees(raw: RawAperture, r: Request, result: nat, i: nat) {
    EntryAt(r.source, r, i) <= MAX_U64 &&
    ConvertEntry(EntryAt(r.source, r, i), false, raw) == (EntryConverted, EntryAt(result, r, i))
  }

  lemma ConvertedFacts(raw: RawAperture, r: Request)
    requires Prepare(true, raw, r).domain == Converted
    ensures ValidRaw(raw) && r.count > 0 && InMc(raw, r.source) && !InPhysical(raw, r.source)
    ensures r.source + Span(r) <= McTop(raw) <= MAX_U64 && PhysicalBase(raw) + Extent(raw) <= MAX_PHYSICAL
    ensures Prepare(true, raw, r).result == PhysicalBase(raw) + (r.source - McBase(raw))
  {
  }

  lemma EntryAgreesIff(raw: RawAperture, r: Request, i: nat)
    requires Prepare(true, raw, r).domain == Converted && i < r.count
    ensures EntryAgrees(raw, r, Prepare(true, raw, r).result, i) <==> !InPhysical(raw, EntryAt(r.source, r, i))
  {
    ConvertedFacts(raw, r);
    EntriesOrdered(r, i);
  }

  /** The first entry at or past `bound`, when the span reaches it. */
  lemma {:induction false} FirstPast(start: nat, r: Request, bound: nat, n: nat) returns (i: nat)
    requires start < bound <= EntryAt(start, r, n)
    ensures 0 < i <= n && EntryAt(start, r, i - 1) < bound <= EntryAt(start, r, i)
    decreases n
  {
    if n == 0 || EntryAt(start, r, n - 1) < bound {
      i := n;
    } else {
      i := FirstPast(start, r, bound, n - 1);
    }
  }

  /** The span conversion refines the entry conversion exactly when the span does not start below the
      physical range and run into it. A caller can test that from the request and the aperture alone. */
  predicate RunsIntoPhysical(raw: RawAperture, r: Request) {
    r.count > 0 && r.source < PhysicalBase(raw) <= r.source + Span(r)
  }

  lemma SpanRefinesEntriesIff(raw: RawAperture, r: Request)
    requires Prepare(true, raw, r).domain == Converted
    ensures AgreesEntrywise(raw, r, Prepare(true, raw, r).result) <==> !RunsIntoPhysical(raw, r)
  {
    if RunsIntoPhysical(raw, r) {
      var i := EntryInPhysical(raw, r);
      EntryAgreesIff(raw, r, i);
    } else {
      forall i: nat | i < r.count
        ensures EntryAgrees(raw, r, Prepare(true, raw, r).result, i)
      {
        EntryStaysOutside(raw, r, i);
        EntryAgreesIff(raw, r, i);
      }
    }
  }

  lemma EntryInPhysical(raw: RawAperture, r: Request) returns (i: nat)
    requires Prepare(true, raw, r).domain == Converted && RunsIntoPhysical(raw, r)
    ensures i < r.count && InPhysical(raw, EntryAt(r.source, r, i))
  {
    ConvertedFacts(raw, r);
    i := FirstPast(r.source, r, PhysicalBase(raw), r.count - 1);
    StrideWithinExtent(raw, r, i);
  }

  lemma EntryStaysOutside(raw: RawAperture, r: Request, i: nat)
    requires Prepare(true, raw, r).domain == Converted && !RunsIntoPhysical(raw, r) && i < r.count
    ensures !InPhysical(raw, EntryAt(r.source, r, i))
  {
    ConvertedFacts(raw, r);
    EntriesOrdered(r, i);
  }

  /** A span of two or more entries strides by no more than the aperture, so it cannot jump over the
      physical range: the first entry past its base lies in it. */
  lemma StrideWithinExtent(raw: RawAperture, r: Request, i: nat)
    requires ValidRaw(raw) && InMc(raw, r.source) && r.count > 0 && r.source + Span(r) <= McTop(raw)
    requires 0 < i < r.count && EntryAt(r.source, r, i - 1) < PhysicalBase(raw) <= EntryAt(r.source, r, i)
    ensures InPhysical(raw, EntryAt(r.source, r, i))
  {
    MulMonotone(1, r.count - 1, r.increment);
    assert i * r.increment == (i - 1) * r.increment + r.increment;
  }

  /** With disjoint ranges the condition always holds. */
  lemma DisjointRangesAgree(raw: RawAperture, r: Request)
    requires Prepare(true, raw, r).domain == Converted
    requires McTop(raw) < PhysicalBase(raw) || PhysicalBase(raw) + Extent(raw) < McBase(raw)
    ensures AgreesEntrywise(raw, r, Prepare(true, raw, r).result)
  {
    ConvertedFacts(raw, r);
    SpanRefinesEntriesIff(raw, r);
  }

  /** With overlapping ranges it can fail: MC [16M, 64M) and physical [32M, 80M), two 16 MiB steps from
      16M. The second entry's source is already a physical address. */
  lemma OverlappingRangesDisagree()
    ensures var raw, r := RawAperture(1, 3, 2), Request(0, 0, 2, 0x100_0000, 1, 0x100_0000);
            Prepare(true, raw, r).domain == Converted &&
            !AgreesEntrywise(raw, r, Prepare(true, raw, r).result)
  {
    var raw, r := RawAperture(1, 3, 2), Request(0, 0, 2, 0x100_0000, 1, 0x100_0000);
    assert Span(r) == 0x100_0000;
    assert RunsIntoPhysical(raw, r);
    assert Prepare(true, raw, r).domain == Converted;
    hide AgreesEntrywise, Prepare, Span, RunsIntoPhysical;
    SpanRefinesEntriesIff(raw, r);
  }

  /** Converting is done once: preparing the converted request again changes nothing. */
  lemma PreparedTwiceIsPhysical(raw: RawAperture, r: Request)
    requires Prepare(true, raw, r).domain == Converted
    ensures var result := Prepare(true, raw, r).result;
            result < TWO64 && Prepare(true, raw, r.(source := result)).domain == AlreadyPhysical &&
            Prepare(true, raw, r.(source := result)).result == result
  {
    ConvertedFacts(raw, r);
    OverflowGuardExact(raw, r);
    var again := r.(source := Prepare(true, raw, r).result);
    assert Span(again) == Span(r);
  }

  /** The arithmetic the run classifier demands of a converted row: half-open ranges of `size` bytes. */
  predicate ClassifierAcceptsConverted(d: Decision, mcBase: nat, physicalBase: nat, size: nat) {
    var r := d.request;
    && r.count > 0
    && (r.increment != 0 ==> r.count - 1 <= MAX_U64 / r.increment)
    && r.source <= MAX_U64 - Span(r)
    && r.template % 2 == 1 && r.template / 2 % 2 == 0
    && mcBase <= r.source < mcBase + size && r.source + Span(r) < mcBase + size
    && physicalBase <= d.result < physicalBase + size && d.result + Span(r) < physicalBase + size
    && d.result == r.source - mcBase + physicalBase
    && d.constructed == Or(r.template, d.result)
  }

  /** And of every other row. */
  predicate ClassifierAcceptsControl(d: Decision) {
    d.request.source == d.result && d.constructed == Or(d.request.template, d.result)
  }

  /** Every decision passes the classifier's arithmetic. */
  lemma DecisionsClassify(active: bool, raw: RawAperture, r: Request)
    ensures var d := Prepare(active, raw, r);
            if d.domain == Converted then ClassifierAcceptsConverted(d, McBase(raw), PhysicalBase(raw), Extent(raw) + 1)
            else ClassifierAcceptsControl(d)
  {
  }

  /** The entry written has exactly the bits of the template and of the address it was decided to carry. */
  lemma ConstructedBits(active: bool, raw: RawAperture, r: Request, i: nat)
    ensures var d := Prepare(active, raw, r);
            BitAt(d.constructed, i) <==> BitAt(r.template, i) || BitAt(d.result, i)
  {
    OrBits(r.template, Prepare(active, raw, r).result, i);
  }

  /** Converted says exactly that a valid, non-system span lies whole in an MC range whose physical
      image fits 48 bits, and does not start inside the physical range. */
  lemma ConvertedIff(active: bool, raw: RawAperture, r: Request)
    ensures Prepare(active, raw, r).domain == Converted <==>
            active && r.count > 0 && r.template % 2 == 1 && r.template / 2 % 2 == 0 && ValidRaw(raw) && r.source != 0 &&
            PhysicalBase(raw) + Extent(raw) <= MAX_PHYSICAL && !InPhysical(raw, r.source) &&
            McBase(raw) <= r.source && r.source + Span(r) <= McTop(raw)
  {
    if r.count > 0 && r.template % 2 == 1 && r.template / 2 % 2 == 0 && ValidRaw(raw) && r.source != 0 {
      OverflowGuardExact(raw, r);
    }
  }

  /** A request whose entries can be looked at: present, valid, not system, under a valid aperture, with a
      source and no sum past 64 bits. */
  predicate Examined(active: bool, raw: RawAperture, r: Request) {
    active && r.count > 0 && BitAt(r.template, 0) && !BitAt(r.template, 1) && ValidRaw(raw) && r.source != 0 &&
    r.source + Span(r) <= MAX_U64
  }

  predicate Imaged(raw: RawAperture) {
    PhysicalBase(raw) + Extent(raw) <= MAX_PHYSICAL
  }

  /** The verdicts on what was examined, each by its own condition. */
  lemma ExaminedVerdicts(active: bool, raw: RawAperture, r: Request)
    ensures var d := Prepare(active, raw, r);
            && (d.domain in {AlreadyPhysical, Outside, SpanOutside, Converted} <==> Examined(active, raw, r) && Imaged(raw))
            && (Examined(active, raw, r) ==>
                  var last := r.source + Span(r);
                  && d.spanEnd == last
                  && (d.domain == AlreadyPhysical <==> Imaged(raw) && InPhysical(raw, r.source) && InPhysical(raw, last))
                  && (d.domain == Outside <==> Imaged(raw) && !InPhysical(raw, r.source) && !InMc(raw, r.source))
                  && (d.domain == InvalidAperture <==> !Imaged(raw)))
  {
    TemplateBits(r.template);
    if r.count > 0 && r.template % 2 == 1 && r.template / 2 % 2 == 0 && ValidRaw(raw) && r.source != 0 {
      OverflowGuardExact(raw, r);
    }
  }

  lemma TemplateBits(template: U64)
    ensures BitAt(template, 0) <==> template % 2 == 1
    ensures BitAt(template, 1) <==> template / 2 % 2 == 1
  {
    BitAtNext(template, 0);
    BitAtNext(template / 2, 0);
  }

  /** The verdicts on what was not, by the first thing wrong with it. */
  lemma RefusedVerdicts(active: bool, raw: RawAperture, r: Request)
    ensures var d := Prepare(active, raw, r).domain;
            && (d == Inactive <==> !active)
            && (d == Empty <==> active && r.count == 0)
            && (d == InvalidTemplate <==> active && r.count > 0 && !BitAt(r.template, 0))
            && (d == System <==> active && r.count > 0 && BitAt(r.template, 0) && BitAt(r.template, 1))
            && (d == ZeroSource ==> ValidRaw(raw) && r.source == 0)
            && (d == Overflow ==> ValidRaw(raw) && r.count > 0 && r.source + Span(r) > MAX_U64)
            && (d == InvalidAperture ==> !ValidRaw(raw) || !Imaged(raw))
  {
    TemplateBits(r.template);
    if r.count > 0 && r.template % 2 == 1 && r.template / 2 % 2 == 0 && ValidRaw(raw) && r.source != 0 {
      OverflowGuardExact(raw, r);
    }
  }

  /** The producer is told by the three known return addresses. */
  lemma ProducerTold(active: bool, raw: RawAperture, r: Request)
    ensures var d := Prepare(active, raw, r);
            && d.request == r
            && (d.producer == Leaf <==> r.callerOffset == 0x559dc) && (d.producer == Child <==> r.callerOffset == 0x55a72)
            && (d.producer == Unmap <==> r.callerOffset == 0x561f6)
  {
  }

  // ---- Publication of the statistics ----

  const DOMAINS: nat := 11
  const MAX_SUMMARY: nat := 0x8000_0000_0000_0000

  /** The domains whose first occurrence is always published, by their index in the counts. */
  const SIGNAL_DOMAINS: seq<nat> := [1, 0, 6, 8, 9]

  function Saturating(a: U64, b: U64): U64 {
    if b > MAX_U64 - a then MAX_U64 else a + b
  }

  function Total(counts: seq<U64>): U64 {
    if counts == [] then 0 else Saturating(Total(counts[..|counts| - 1]), counts[|counts| - 1])
  }

  function Signals(counts: seq<U64>): (s: set<nat>)
    requires |counts| == DOMAINS
    ensures forall d :: d in s ==> d in SIGNAL_DOMAINS
  {
    set d | d in SIGNAL_DOMAINS && counts[d] != 0
  }

  /** The next power of two past `total`, or zero when the next doubling would not fit 64 bits. */
  function Raised(threshold: U64, total: U64): (t: U64)
    requires 0 < threshold <= total
    ensures t == 0 || (t > total && t >= 2 * threshold)
    decreases total - threshold
  {
    if threshold > MAX_U64 / 2 then 0
    else if 2 * threshold <= total then Raised(2 * threshold, total)
    else 2 * threshold
  }

  datatype Schedule = Schedule(threshold: U64, reported: set<nat>)

  const FRESH := Schedule(1, {})

  function Published(s: Schedule, counts: seq<U64>): bool
    requires |counts| == DOMAINS
  {
    (s.threshold != 0 && Total(counts) >= s.threshold) || !(Signals(counts) <= s.reported)
  }

  function After(s: Schedule, counts: seq<U64>): Schedule
    requires |counts| == DOMAINS
  {
    Schedule(if s.threshold != 0 && Total(counts) >= s.threshold then Raised(s.threshold, Total(counts)) else s.threshold,
             s.reported + Signals(counts))
  }

  class UpdateSummarySchedule {
    var nextThreshold: U64
    var reportedSignals: set<nat>

    function State(): Schedule
      reads this
    {
      Schedule(nextThreshold, reportedSignals)
    }

    constructor ()
      ensures State() == FRESH
    {
      nextThreshold := 1;
      reportedSignals := {};
    }

    method ShouldPublish(counts: seq<U64>) returns (publish: bool)
      requires |counts| == DOMAINS
      modifies this
      ensures publish == Published(old(State()), counts)
      ensures State() == After(old(State()), counts)
    {
      var total: U64 := 0;
      var n := 0;
      while n < |counts|
        invariant n <= |counts| && total == Total(counts[..n])
      {
        assert counts[..n + 1][..n] == counts[..n];
        total := Saturating(total, counts[n]);
        n := n + 1;
      }
      assert counts[..n] == counts;
      var signals: set<nat> := {};
      var i := 0;
      while i < |SIGNAL_DOMAINS|
        invariant i <= |SIGNAL_DOMAINS|
        invariant signals == set d | d in SIGNAL_DOMAINS[..i] && counts[d] != 0
      {
        assert SIGNAL_DOMAINS[..i + 1] == SIGNAL_DOMAINS[..i] + [SIGNAL_DOMAINS[i]];
        if counts[SIGNAL_DOMAINS[i]] != 0 {
          signals := signals + {SIGNAL_DOMAINS[i]};
        }
        i := i + 1;
      }
      assert SIGNAL_DOMAINS[..i] == SIGNAL_DOMAINS;
      var newSignal := !(signals <= reportedSignals);
      reportedSignals := reportedSignals + signals;
      var threshold := nextThreshold != 0 && total >= nextThreshold;
      if threshold {
        var next: U64 := nextThreshold;
        ghost var goal := Raised(nextThreshold, total);
        while next != 0 && next <= total
          invariant 0 < next <= total ==> Raised(next, total) == goal
          invariant !(0 < next <= total) ==> next == goal
          decreases if next == 0 then 0 else 1 + total - next
        {
          next := if next > MAX_U64 / 2 then 0 else 2 * next;
        }
        nextThreshold := next;
      }
      publish := threshold || newSignal;
    }
  }

  /** The schedules a whole sequence of counts leads through, and how often it publishes. */
  function Publications(s: Schedule, history: seq<seq<U64>>): nat
    requires forall counts :: counts in history ==> |counts| == DOMAINS
    decreases |history|
  {
    if history == [] then 0
    else (if Published(s, history[0]) then 1 else 0) + Publications(After(s, history[0]), history[1..])
  }

  /** How often a threshold can still double before it leaves 64 bits. */
  function DoublingsLeft(threshold: U64): (n: nat)
    decreases MAX_U64 - threshold
  {
    if threshold == 0 then 0 else if threshold > MAX_U64 / 2 then 1 else 1 + DoublingsLeft(2 * threshold)
  }

  lemma {:induction false} DoublingsShrink(a: U64, b: U64)
    requires 0 < a <= b
    ensures DoublingsLeft(b) <= DoublingsLeft(a)
    decreases MAX_U64 - a
  {
    if b <= MAX_U64 / 2 {
      DoublingsShrink(2 * a, 2 * b);
    }
  }

  lemma DoublingsSpent(threshold: U64, total: U64)
    requires 0 < threshold <= total
    ensures DoublingsLeft(Raised(threshold, total)) < DoublingsLeft(threshold)
  {
    var next := Raised(threshold, total);
    if next != 0 {
      DoublingsShrink(2 * threshold, next);
    }
  }

  function AllSignals(): set<nat> {
    set d | d in SIGNAL_DOMAINS
  }

  /** Over any history of counts, the publications are bounded: one per doubling of the threshold and
      one per signal, however many calls are made. */
  lemma {:induction false} PublicationsBounded(s: Schedule, history: seq<seq<U64>>)
    requires forall counts :: counts in history ==> |counts| == DOMAINS
    ensures Publications(s, history) <= DoublingsLeft(s.threshold) + |AllSignals() - s.reported|
    decreases |history|
  {
    if history != [] {
      var counts := history[0];
      var next := After(s, counts);
      PublicationsBounded(next, history[1..]);
      if s.threshold != 0 && Total(counts) >= s.threshold {
        DoublingsSpent(s.threshold, Total(counts));
      }
      var left, right := AllSignals() - s.reported, AllSignals() - next.reported;
      assert right <= left;
      SubsetSmaller(right, left);
    }
  }

  lemma {:induction false} SubsetSmaller<T>(a: set<T>, b: set<T>)
    requires a <= b
    ensures |a| <= |b| && (a != b ==> |a| < |b|)
    decreases a
  {
    if a == {} {
      assert a != b ==> |b| > 0;
    } else {
      var x :| x in a;
      SubsetSmaller(a - {x}, b - {x});
    }
  }

  /** A fresh schedule publishes at most 64 + 5 times in its life. */
  lemma AtMost69Publications(history: seq<seq<U64>>)
    requires forall counts :: counts in history ==> |counts| == DOMAINS
    ensures Publications(FRESH, history) <= 69
  {
    PublicationsBounded(FRESH, history);
    DoublingsOfOne(0);
    FiveSignals();
    assert AllSignals() - {} == AllSignals();
  }

  lemma FiveSignals()
    ensures |AllSignals()| == 5
  {
    assert AllSignals() == {0, 1, 6, 8, 9};
  }

  lemma {:induction false} DoublingsOfOne(k: nat)
    requires k <= 63
    ensures Pow2(k) <= MAX_SUMMARY && DoublingsLeft(Pow2(k)) == 64 - k
    decreases 63 - k
  {
    Pow2Of64();
    assert Pow2(64) == 2 * Pow2(63);
    if k < 63 {
      DoublingsOfOne(k + 1);
    }
  }

  /** The first count in a signal domain is published at once, whatever the thresholds are. */
  lemma FirstSignalPublished(s: Schedule, counts: seq<U64>, d: nat)
    requires |counts| == DOMAINS && d in SIGNAL_DOMAINS && counts[d] != 0 && d !in s.reported
    ensures Published(s, counts) && d in After(s, counts).reported
  {
    assert d in Signals(counts);
  }

  // ---- What exactly is published ----

  function Grand(counts: seq<U64>): nat {
    if counts == [] then 0 else Grand(counts[..|counts| - 1]) + counts[|counts| - 1]
  }

  /** The total is the sum, held at the largest 64-bit number. */
  lemma {:induction false} TotalIsSum(counts: seq<U64>)
    ensures Total(counts) == if Grand(counts) <= MAX_U64 then Grand(counts) else MAX_U64
  {
    if counts != [] {
      TotalIsSum(counts[..|counts| - 1]);
    }
  }

  lemma {:induction false} PowersApart(a: nat, b: nat)
    requires a < b
    ensures 2 * Pow2(a) <= Pow2(b)
    decreases b
  {
    if a < b - 1 {
      PowersApart(a, b - 1);
    }
  }

  /** Some power of two of 64 bits lies above `a` and not above `b`. */
  ghost predicate PassesPower(a: nat, b: nat) {
    exists k: nat :: k < 64 && a < Pow2(k) <= b
  }

  /** The threshold is the least power of two above everything seen, and zero when 64 bits hold none. */
  ghost predicate Awaiting(threshold: U64, seen: nat) {
    if threshold == 0 then seen >= MAX_SUMMARY
    else seen < threshold && threshold / 2 <= seen && exists k: nat :: Pow2(k) == threshold
  }

  lemma {:induction false} RaisedAwaits(threshold: U64, total: U64, k: nat)
    requires 0 < threshold <= total && Pow2(k) == threshold
    ensures Awaiting(Raised(threshold, total), total)
    decreases total - threshold
  {
    assert Pow2(k + 1) == 2 * threshold;
    if threshold <= MAX_U64 / 2 && 2 * threshold <= total {
      RaisedAwaits(2 * threshold, total, k + 1);
    }
  }

  lemma ThresholdPasses(threshold: U64, seen: nat, total: U64)
    requires Awaiting(threshold, seen)
    ensures threshold != 0 && total >= threshold <==> PassesPower(seen, total)
  {
    Pow2Of64();
    assert Pow2(64) == 2 * Pow2(63);
    if PassesPower(seen, total) {
      var k: nat :| k < 64 && seen < Pow2(k) <= total;
      if threshold == 0 {
        if k < 63 {
          PowersApart(k, 63);
        }
      } else {
        var j: nat :| Pow2(j) == threshold;
        if k < j {
          PowersApart(k, j);
        } else if j < k {
          PowersApart(j, k);
        }
      }
    } else if threshold != 0 {
      var j: nat :| Pow2(j) == threshold;
      if j >= 64 {
        if j > 64 {
          PowersApart(64, j);
        }
      }
    }
  }

  function Larger(a: nat, b: nat): nat {
    if a < b then b else a
  }

  lemma AwaitsAfter(s: Schedule, seen: nat, counts: seq<U64>)
    requires |counts| == DOMAINS && Awaiting(s.threshold, seen)
    ensures Awaiting(After(s, counts).threshold, Larger(seen, Total(counts)))
  {
    if s.threshold != 0 && Total(counts) >= s.threshold {
      var k: nat :| Pow2(k) == s.threshold;
      RaisedAwaits(s.threshold, Total(counts), k);
    }
  }

  /** The schedule after a whole history, and the largest total in it. */
  function AfterAll(history: seq<seq<U64>>): Schedule
    requires forall counts :: counts in history ==> |counts| == DOMAINS
  {
    if history == [] then FRESH else After(AfterAll(history[..|history| - 1]), history[|history| - 1])
  }

  function MostSeen(history: seq<seq<U64>>): nat {
    if history == [] then 0 else Larger(MostSeen(history[..|history| - 1]), Total(history[|history| - 1]))
  }

  predicate Occurred(history: seq<seq<U64>>, d: nat)
    requires d < DOMAINS && forall counts :: counts in history ==> |counts| == DOMAINS
  {
    exists counts :: counts in history && counts[d] != 0
  }

  lemma {:induction false} HistoryKnown(history: seq<seq<U64>>)
    requires forall counts :: counts in history ==> |counts| == DOMAINS
    ensures Awaiting(AfterAll(history).threshold, MostSeen(history))
    ensures forall d :: d in AfterAll(history).reported <==> d in SIGNAL_DOMAINS && Occurred(history, d)
    decreases |history|
  {
    if history == [] {
      assert Pow2(0) == 1;
    } else {
      var before, counts := history[..|history| - 1], history[|history| - 1];
      HistoryKnown(before);
      AwaitsAfter(AfterAll(before), MostSeen(before), counts);
      hide Awaiting;
      assert history == before + [counts];
    }
  }

  /** After any history, the next counts are published exactly when their total passes a power of two that
      no total before it reached, or one of the signal domains counts for the first time. */
  lemma PublishedExactly(history: seq<seq<U64>>, counts: seq<U64>)
    requires |counts| == DOMAINS && forall c :: c in history ==> |c| == DOMAINS
    ensures Published(AfterAll(history), counts) <==>
            PassesPower(MostSeen(history), Total(counts)) ||
            exists d :: d in SIGNAL_DOMAINS && counts[d] != 0 && !Occurred(history, d)
  {
    HistoryKnown(history);
    ThresholdPasses(AfterAll(history).threshold, MostSeen(history), Total(counts));
    hide Awaiting, PassesPower, Occurred;
    if !(Signals(counts) <= AfterAll(history).reported) {
      var d :| d in Signals(counts) && d !in AfterAll(history).reported;
      assert counts[d] != 0 && !Occurred(history, d);
    }
    if d :| d in SIGNAL_DOMAINS && counts[d] != 0 && !Occurred(history, d) {
      assert d in Signals(counts) && d !in AfterAll(history).reported;
    }
  }
}
