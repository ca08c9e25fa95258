/** What the page-table walk answers, told from the tables in memory alone: which entries it hands back, and
    when it calls the translation complete, unfinished or unreadable. */
module WalkMeaning {
  import opened Options
  import opened Bits
  import opened PageWalk

  // ---- The apertures and roots that are accepted ----

  /** Both ranges start on pages above address zero, the visible window fits the MC range, and its physical
      image fits 48 bits. */
  lemma ValidApertureIff(a: Aperture)
    ensures ValidAperture(a) <==>
            && a.mcBase % 4096 == 0 && a.physicalBase % 4096 == 0 && 0 < a.mcBase < TWO48 && 0 < a.physicalBase
            && 8 <= a.visibleBytes && a.mcBase + a.visibleBytes <= a.mcTop + 1
            && a.physicalBase + a.visibleBytes <= TWO48
  {
  }

  /** A root is an address below 2^48 with one of three attribute patterns in its low six bits, and the walk
      starts where the CPU sees that address. */
  lemma RootTableIff(root: U64, a: Aperture, table: U64)
    requires table > 0
    ensures RootTable(root, a) == table <==>
            ValidAperture(a) && root < TWO48 && root % 64 in {0, 1, 5} && TableFor(root - root % 64, table, a)
  {
    var address := AddressField(root, false);
    RootSplit(root);
    TableKeepsPlace(address, a);
    if ValidAperture(a) && TableFor(address, table, a) && PhysicalTableAddress(address, a) != 0 {
      OneTable(address, table, PhysicalTableAddress(address, a), a);
    }
  }

  lemma RootSplit(root: U64)
    ensures var address := AddressField(root, false);
            && address == root % TWO48 - root % 64
            && (root - address < 64 <==> root < TWO48)
            && (root - address < 64 ==> root - address == root % 64)
  {
    var low := root % TWO48;
    assert root == root / TWO48 * TWO48 + low;
    assert low == low / 64 * 64 + low % 64;
    assert root % 64 == low % 64 by {
      assert root == (root / TWO48 * 0x400_0000_0000 + low / 64) * 64 + low % 64;
      DivUnique(root, 64, root / TWO48 * 0x400_0000_0000 + low / 64, low % 64);
    }
  }

  lemma OneTable(address: nat, t: nat, u: nat, a: Aperture)
    requires TableFor(address, t, a) && TableFor(address, u, a)
    ensures t == u
  {
  }

  /** The control word: an enable bit, two bits of depth, four bits that widen the leaf tables. */
  lemma ControlFields(control: U32, enable: nat, depth: nat, block: nat, rest: nat, level: nat)
    requires control == enable + 2 * depth + 8 * block + 128 * rest && enable < 2 && depth < 4 && block < 16
    ensures var width := if depth == 0 then 36 else 9 + block;
            && Depth(control) == depth && LeafWidth(control) == width
            && Shift(control, level) == if level == 0 then 12 else 12 + width + 9 * (level - 1)
  {
    DivUnique(control, 2, depth + 4 * block + 64 * rest, enable);
    DivUnique(depth + 4 * block + 64 * rest, 4, block + 16 * rest, depth);
    DivUnique(control, 8, block + 16 * rest, enable + 2 * depth);
    DivUnique(block + 16 * rest, 16, rest, block);
  }

  // ---- One level ----

  /** The entry's eight bytes lie whole in the visible window. */
  predicate SlotVisible(table: nat, index: nat, a: Aperture) {
    a.physicalBase <= table && table + 8 * index + 8 <= a.physicalBase + a.visibleBytes
  }

  lemma AllowedIff(table: nat, index: nat, a: Aperture)
    requires a.visibleBytes >= 8
    ensures Allowed(table, index, a) <==> SlotVisible(table, index, a)
  {
  }

  /** This entry is what is read at this level of the walk. */
  ghost predicate ReadsAs(levels: seq<Level>, a: Aperture, mem: Memory, level: nat, count: nat, e: Entry) {
    && level < |levels| && levels[level].shift < 48 && e.level == level && e.index == levels[level].index
    && SlotVisible(e.tablePhysical, e.index, a)
    && mem(count, e.tablePhysical + e.index * 8) == Some(e.raw) && DecodesRaw(e)
  }

  /** Nothing can be read at this level: it lies above the address, its slot is not visible, or the memory does
      not answer. */
  predicate Unreadable(levels: seq<Level>, a: Aperture, mem: Memory, level: nat, table: nat, count: nat) {
    level >= |levels| || levels[level].shift >= 48 || !SlotVisible(table, levels[level].index, a) ||
    mem(count, table + levels[level].index * 8) == None
  }

  lemma UnitUnique(raw: nat, unit: nat, x: nat, y: nat)
    requires unit in {64, 0x1000} && x % unit == 0 && y % unit == 0
    requires x <= raw < x + unit && y <= raw < y + unit
    ensures x == y
  {
  }

  /** An entry that decodes its raw qword is the decoded one, but for the mark. */
  lemma DecodesOne(e: Entry)
    requires DecodesRaw(e)
    ensures e == DecodeEntry(e.tablePhysical, e.level, e.index, e.raw).(childConverted := e.childConverted)
  {
    var d := DecodeEntry(e.tablePhysical, e.level, e.index, e.raw);
    EntryDecodes(e.tablePhysical, e.level, e.index, e.raw);
    SameFields(e, d);
  }

  lemma SameFields(e: Entry, d: Entry)
    requires DecodesRaw(e) && DecodesRaw(d) && e.raw == d.raw && e.level == d.level
    ensures e.address == d.address && e.valid == d.valid && e.system == d.system && e.snooped == d.snooped
    ensures e.executable == d.executable && e.readable == d.readable && e.writeable == d.writeable
    ensures e.pdeAsPte == d.pdeAsPte && e.translateFurther == d.translateFurther
  {
    hide BitAt;
    UnitUnique(e.raw % TWO48, if e.level == 0 || e.pdeAsPte then 0x1000 else 64, e.address, d.address);
  }

  lemma VisitRefuses(levels: seq<Level>, a: Aperture, mem: Memory, level: nat, table: U64, count: nat)
    requires ValidAperture(a)
    ensures VisitLevel(levels, a, mem, level, table, count).Refused? <==> Unreadable(levels, a, mem, level, table, count)
  {
    if level < |levels| {
      AllowedIff(table, levels[level].index, a);
    }
    hide DecodeEntry, Allowed, SlotVisible;
  }

  lemma VisitIs(levels: seq<Level>, a: Aperture, mem: Memory, level: nat, count: nat, e: Entry)
    requires ValidAperture(a) && ReadsAs(levels, a, mem, level, count, e)
    ensures VisitLevel(levels, a, mem, level, e.tablePhysical, count) ==
              match Judge(e, a)
              case Finished(complete) => Stop(e.(childConverted := false), complete)
              case Descend(child) => Go(e.(childConverted := child != e.address), child)
  {
    AllowedIff(e.tablePhysical, e.index, a);
    DecodesOne(e);
    var d := DecodeEntry(e.tablePhysical, level, e.index, e.raw);
    assert e == d.(childConverted := e.childConverted);
    hide DecodeEntry, DecodesRaw, Allowed, SlotVisible, PhysicalTableAddress;
    assert Judge(d, a) == Judge(e, a);
  }

  lemma NamedIs(e: Entry, t: U64, a: Aperture)
    requires ValidAperture(a) && Names(e, t, a)
    ensures Judge(e, a) == Descend(t)
  {
    TableKeepsPlace(e.address, a);
    assert TableFor(e.address, t, a);
    assert PhysicalTableAddress(e.address, a) != 0;
    OneTable(e.address, t, PhysicalTableAddress(e.address, a), a);
  }

  lemma JudgeMeans(e: Entry, a: Aperture)
    requires ValidAperture(a)
    ensures Maps(e) ==> Judge(e, a) == Finished(true)
    ensures !Maps(e) && (forall t: nat :: !Names(e, t, a)) ==> Judge(e, a) == Finished(false)
  {
    TableKeepsPlace(e.address, a);
    var child := PhysicalTableAddress(e.address, a);
    if child != 0 {
      assert TableFor(e.address, child, a);
      assert Names(e, child, a) <==> e.valid && !e.system && !e.translateFurther && !e.pdeAsPte && e.level > 0;
    }
    hide TableFor, PhysicalTableAddress;
  }

  /** The walk stops at this entry. */
  ghost predicate EndsAt(e: Entry, complete: bool, a: Aperture) {
    !e.childConverted && (complete <==> Maps(e)) && (complete || forall t: nat :: !Names(e, t, a))
  }

  /** How a visit that reads an entry goes on: it stops at a mapping, or at an entry that names no table. */
  lemma VisitHalts(levels: seq<Level>, a: Aperture, mem: Memory, level: nat, count: nat, e: Entry, complete: bool)
    requires ValidAperture(a) && ReadsAs(levels, a, mem, level, count, e) && EndsAt(e, complete, a)
    ensures VisitLevel(levels, a, mem, level, e.tablePhysical, count) == Stop(e, complete)
  {
    VisitIs(levels, a, mem, level, count, e);
    JudgeMeans(e, a);
    hide ReadsAs, VisitLevel, Judge, Names, Maps, ValidAperture;
  }

  /** And it goes on to the table that is named. */
  lemma VisitFollows(levels: seq<Level>, a: Aperture, mem: Memory, level: nat, count: nat, e: Entry, t: U64)
    requires ValidAperture(a) && ReadsAs(levels, a, mem, level, count, e) && LeadsTo(e, t, a)
    ensures VisitLevel(levels, a, mem, level, e.tablePhysical, count) == Go(e, t)
  {
    VisitIs(levels, a, mem, level, count, e);
    NamedIs(e, t, a);
    hide ReadsAs, VisitLevel, Judge, Names, Maps, ValidAperture;
  }

  // ---- The whole walk ----

  function Last(entries: seq<Entry>): Entry
    requires entries != []
  {
    entries[|entries| - 1]
  }

  /** These entries are read one after the other, a level each, the first in the root table and every next
      one in the table that the one before names. */
  ghost predicate Reads(levels: seq<Level>, a: Aperture, mem: Memory, root: nat, entries: seq<Entry>) {
    && |entries| <= |levels| && (entries != [] ==> entries[0].tablePhysical == root)
    && (forall i :: 0 <= i < |entries| ==> ReadsAs(levels, a, mem, |levels| - 1 - i, i, entries[i]))
    && forall i :: 0 <= i < |entries| - 1 ==> LeadsTo(entries[i], entries[i + 1].tablePhysical, a)
  }

  /** Why no entry follows: the last one maps the address, or names no table in sight, or the table that it
      names cannot be read. */
  ghost predicate Ends(levels: seq<Level>, a: Aperture, mem: Memory, root: nat, w: Walk) {
    if w.valid then w.entries != [] && EndsAt(Last(w.entries), w.complete, a)
    else
      && !w.complete && |w.entries| < |levels|
      && exists table: U64 :: NextIs(w.entries, root, a, table) &&
                              Unreadable(levels, a, mem, |levels| - 1 - |w.entries|, table, |w.entries|)
  }

  lemma VisitReadsEntry(levels: seq<Level>, a: Aperture, mem: Memory, level: nat, table: U64, count: nat)
    requires ValidAperture(a) && !VisitLevel(levels, a, mem, level, table, count).Refused?
    ensures var e := VisitLevel(levels, a, mem, level, table, count).entry;
            e.tablePhysical == table && ReadsAs(levels, a, mem, level, count, e)
  {
    VisitMeans(levels, a, mem, level, table, count);
    VisitReads(levels, a, mem, level, table, count);
    AllowedIff(table, levels[level].index, a);
    hide DecodesRaw, DecodeEntry, Judge, Allowed, SlotVisible;
  }

  lemma VisitStops(levels: seq<Level>, a: Aperture, mem: Memory, level: nat, table: U64, count: nat)
    requires ValidAperture(a) && VisitLevel(levels, a, mem, level, table, count).Stop?
    ensures var v := VisitLevel(levels, a, mem, level, table, count);
            v.entry.tablePhysical == table && ReadsAs(levels, a, mem, level, count, v.entry) && EndsAt(v.entry, v.complete, a)
  {
    VisitReadsEntry(levels, a, mem, level, table, count);
    var e := VisitLevel(levels, a, mem, level, table, count).entry;
    VisitIs(levels, a, mem, level, count, e);
    JudgeMeans(e, a);
    NamesFit(e, a);
    hide ReadsAs, VisitLevel, Names;
  }

  lemma NamesFit(e: Entry, a: Aperture)
    requires ValidAperture(a)
    ensures forall t: nat :: Names(e, t, a) ==> t < TWO64
  {
  }

  lemma VisitGoes(levels: seq<Level>, a: Aperture, mem: Memory, level: nat, table: U64, count: nat)
    requires ValidAperture(a) && VisitLevel(levels, a, mem, level, table, count).Go?
    ensures var v := VisitLevel(levels, a, mem, level, table, count);
            v.entry.tablePhysical == table && ReadsAs(levels, a, mem, level, count, v.entry) && LeadsTo(v.entry, v.child, a)
  {
    VisitReadsEntry(levels, a, mem, level, table, count);
    VisitMeans(levels, a, mem, level, table, count);
    hide ReadsAs, VisitLevel, LeadsTo;
  }

  lemma ReadsMore(levels: seq<Level>, a: Aperture, mem: Memory, root: nat, done: seq<Entry>, e: Entry)
    requires Reads(levels, a, mem, root, done) && NextIs(done, root, a, e.tablePhysical) && |done| < |levels|
    requires ReadsAs(levels, a, mem, |levels| - 1 - |done|, |done|, e)
    ensures Reads(levels, a, mem, root, done + [e])
  {
    hide LeadsTo, ReadsAs;
    var more := done + [e];
    forall i | 0 <= i < |more| - 1
      ensures LeadsTo(more[i], more[i + 1].tablePhysical, a)
    {
      if i < |done| - 1 {
        assert more[i] == done[i] && more[i + 1] == done[i + 1];
      }
    }
  }

  lemma WalkStep(levels: seq<Level>, a: Aperture, mem: Memory, table: U64, level: nat, done: seq<Entry>)
    requires ValidAperture(a)
    ensures WalkFrom(VisitorOf(levels, a, mem), table, level, done) ==
              match VisitLevel(levels, a, mem, level, table, |done|)
              case Refused => Walk(false, false, done)
              case Stop(entry, complete) => Walk(true, complete, done + [entry])
              case Go(entry, child) => WalkFrom(VisitorOf(levels, a, mem), child, level - 1, done + [entry])
  {
    hide VisitLevel;
  }

  /** What the visits hand back is what the tables say. */
  lemma {:induction false} WalkTells(levels: seq<Level>, a: Aperture, mem: Memory, root: U64, table: U64, level: nat, done: seq<Entry>)
    requires ValidAperture(a) && level < |levels| && |done| == |levels| - 1 - level
    requires Reads(levels, a, mem, root, done) && NextIs(done, root, a, table)
    ensures var w := WalkFrom(VisitorOf(levels, a, mem), table, level, done);
            Reads(levels, a, mem, root, w.entries) && Ends(levels, a, mem, root, w)
    decreases level
  {
    hide Unreadable, Names, LeadsTo, EndsAt, Reads, NextIs, ReadsAs, WalkFrom, VisitorOf, VisitLevel, ValidAperture, Maps, Readable;
    VisitRefuses(levels, a, mem, level, table, |done|);
    WalkStep(levels, a, mem, table, level, done);
    match VisitLevel(levels, a, mem, level, table, |done|)
    case Refused =>
    case Stop(e, complete) =>
      VisitStops(levels, a, mem, level, table, |done|);
      ReadsMore(levels, a, mem, root, done, e);
    case Go(e, child) =>
      VisitGoes(levels, a, mem, level, table, |done|);
      ReadsMore(levels, a, mem, root, done, e);
      ChainLeads(done, root, a, e, child);
      WalkTells(levels, a, mem, root, child, level - 1, done + [e]);
  }

  // ---- And what the tables say is what is handed back ----

  lemma ReadsShort(levels: seq<Level>, a: Aperture, mem: Memory, root: nat, entries: seq<Entry>)
    requires Reads(levels, a, mem, root, entries)
    ensures |entries| <= |levels|
  {
  }

  lemma ReadsFrom(levels: seq<Level>, a: Aperture, mem: Memory, root: nat, entries: seq<Entry>, k: nat)
    requires Reads(levels, a, mem, root, entries) && k < |entries|
    ensures |entries| <= |levels|
    ensures ReadsAs(levels, a, mem, |levels| - 1 - k, k, entries[k])
    ensures k == 0 ==> entries[k].tablePhysical == root
    ensures k + 1 < |entries| ==> LeadsTo(entries[k], entries[k + 1].tablePhysical, a)
  {
    hide ReadsAs, LeadsTo;
  }

  /** The walk gets as far as the entries are read. */
  lemma {:induction false} WalkFollows(levels: seq<Level>, a: Aperture, mem: Memory, root: U64, entries: seq<Entry>, k: nat)
    requires ValidAperture(a) && Reads(levels, a, mem, root, entries) && k < |entries| <= |levels|
    ensures WalkFrom(VisitorOf(levels, a, mem), root, |levels| - 1, []) ==
            WalkFrom(VisitorOf(levels, a, mem), entries[k].tablePhysical, |levels| - 1 - k, entries[..k])
    decreases k
  {
    hide VisitLevel, Reads, ReadsAs, LeadsTo, WalkFrom, VisitorOf, ValidAperture, NextIs, EndsAt, Unreadable, Names, Maps, Readable;
    ReadsFrom(levels, a, mem, root, entries, k);
    if k == 0 {
      assert entries[..0] == [];
    } else {
      WalkFollows(levels, a, mem, root, entries, k - 1);
      ReadsFrom(levels, a, mem, root, entries, k - 1);
      VisitFollows(levels, a, mem, |levels| - k, k - 1, entries[k - 1], entries[k].tablePhysical);
      WalkStep(levels, a, mem, entries[k - 1].tablePhysical, |levels| - k, entries[..k - 1]);
      assert entries[..k] == entries[..k - 1] + [entries[k - 1]];
    }
  }

  lemma EndFollows(levels: seq<Level>, a: Aperture, mem: Memory, root: U64, w: Walk)
    requires ValidAperture(a) && |levels| > 0 && Reads(levels, a, mem, root, w.entries) && Ends(levels, a, mem, root, w)
    ensures WalkFrom(VisitorOf(levels, a, mem), root, |levels| - 1, []) == w
  {
    if w.valid {
      StopFollows(levels, a, mem, root, w);
    } else {
      var table: U64 :| NextIs(w.entries, root, a, table) &&
                        Unreadable(levels, a, mem, |levels| - 1 - |w.entries|, table, |w.entries|);
      VisitRefuses(levels, a, mem, |levels| - 1 - |w.entries|, table, |w.entries|);
      WalkStep(levels, a, mem, table, |levels| - 1 - |w.entries|, w.entries);
      hide Unreadable, VisitLevel, WalkFrom, VisitorOf, ValidAperture;
      GetsTo(levels, a, mem, root, w.entries, table);
    }
  }

  /** The table that is due after these entries is reached. */
  lemma GetsTo(levels: seq<Level>, a: Aperture, mem: Memory, root: U64, entries: seq<Entry>, table: U64)
    requires ValidAperture(a) && |levels| > |entries| && Reads(levels, a, mem, root, entries) && NextIs(entries, root, a, table)
    ensures WalkFrom(VisitorOf(levels, a, mem), root, |levels| - 1, []) ==
            WalkFrom(VisitorOf(levels, a, mem), table, |levels| - 1 - |entries|, entries)
  {
    hide VisitLevel, Reads, ReadsAs, LeadsTo, WalkFrom, VisitorOf, ValidAperture, Names, Maps, Readable;
    if entries != [] {
      var k := |entries| - 1;
      WalkFollows(levels, a, mem, root, entries, k);
      ReadsFrom(levels, a, mem, root, entries, k);
      VisitFollows(levels, a, mem, |levels| - 1 - k, k, entries[k], table);
      WalkStep(levels, a, mem, entries[k].tablePhysical, |levels| - 1 - k, entries[..k]);
      assert entries == entries[..k] + [entries[k]];
    }
  }

  lemma StopFollows(levels: seq<Level>, a: Aperture, mem: Memory, root: U64, w: Walk)
    requires ValidAperture(a) && w.valid && Reads(levels, a, mem, root, w.entries)
    requires w.entries != [] && EndsAt(Last(w.entries), w.complete, a)
    ensures |levels| > 0 && WalkFrom(VisitorOf(levels, a, mem), root, |levels| - 1, []) == w
  {
    hide VisitLevel, Reads, ReadsAs, LeadsTo, WalkFrom, VisitorOf, ValidAperture, NextIs, EndsAt, Unreadable, Names, Maps, Readable;
    var entries := w.entries;
    var k := |entries| - 1;
    ReadsShort(levels, a, mem, root, entries);
    WalkFollows(levels, a, mem, root, entries, k);
    ReadsFrom(levels, a, mem, root, entries, k);
    VisitHalts(levels, a, mem, |levels| - 1 - k, k, entries[k], w.complete);
    WalkStep(levels, a, mem, entries[k].tablePhysical, |levels| - 1 - k, entries[..k]);
    assert entries == entries[..k] + [entries[k]];
  }

  /** The walk from an accepted root answers with exactly the entries that the tables lead through, complete
      exactly when the last one maps the address, and invalid exactly when a table that is due cannot be
      read. */
  lemma WalkExactly(control: U32, relative: nat, a: Aperture, mem: Memory, root: U64, w: Walk)
    requires ValidAperture(a)
    ensures WalkAt(control, relative, a, mem, root) == w <==>
            Reads(Levels(control, relative), a, mem, root, w.entries) && Ends(Levels(control, relative), a, mem, root, w)
  {
    var levels := Levels(control, relative);
    WalkTells(levels, a, mem, root, root, Depth(control), []);
    hide Reads, Ends;
    if Reads(levels, a, mem, root, w.entries) && Ends(levels, a, mem, root, w) {
      EndFollows(levels, a, mem, root, w);
    }
  }

  /** The whole call: nothing is walked for a disabled context, an address outside it, or a root or an
      aperture that is refused. */
  lemma WalkStartsIff(root: U64, control: U32, contextStart: U64, va: U64, a: Aperture, mem: Memory)
    ensures var started := BitAt(control, 0) && contextStart <= va < TWO48 && RootTable(root, a) != 0;
            WalkSpec(root, control, contextStart, va, a, mem) ==
            if started then WalkAt(control, va - contextStart, a, mem, RootTable(root, a)) else Walk(false, false, [])
  {
    assert Pow2(0) == 1;
  }
}
