/** The GPU page-table walk, with every read bounded by the visible framebuffer. Pages are 0x1000
    bytes, tables start on 64-byte boundaries and entries are 8 bytes. */
module PageWalk {
  import opened Options
  import opened Bits

  const MAX_ADDRESS: nat := TWO48 - 1

  datatype Aperture = Aperture(mcBase: U64, mcTop: U64, physicalBase: U64, visibleBytes: U64)

  predicate ValidAperture(a: Aperture) {
    && a.mcBase != 0 && a.physicalBase != 0 && a.mcTop >= a.mcBase && a.visibleBytes >= 8
    && a.mcBase % 0x1000 == 0 && a.physicalBase % 0x1000 == 0
    && a.mcBase <= MAX_ADDRESS && a.physicalBase <= MAX_ADDRESS
    && a.visibleBytes - 1 <= a.mcTop - a.mcBase
    && a.visibleBytes - 1 <= MAX_ADDRESS - a.physicalBase
  }

  /** Zero is the refusal: no aperture starts at physical address zero. */
  function PhysicalTableAddress(address: U64, a: Aperture): U64 {
    if !ValidAperture(a) || address % 64 != 0 then 0
    else if address >= a.physicalBase && address - a.physicalBase <= a.visibleBytes - 8 then address
    else if a.mcBase <= address <= a.mcTop && address - a.mcBase <= a.visibleBytes - 8
    then a.physicalBase + (address - a.mcBase)
    else 0
  }

  /** One qword table slot at `table` may be read: it lies in the visible range and is aligned. */
  predicate Readable(table: nat, a: Aperture) {
    a.physicalBase <= table && table + 8 <= a.physicalBase + a.visibleBytes && table % 64 == 0
  }

  lemma PageIsTableAligned(x: nat)
    requires x % 0x1000 == 0
    ensures x % 64 == 0
  {
    assert x == x / 0x1000 * 64 * 64;
  }

  lemma TableIsReadable(address: U64, a: Aperture)
    requires PhysicalTableAddress(address, a) != 0
    ensures ValidAperture(a) && Readable(PhysicalTableAddress(address, a), a)
  {
    PageIsTableAligned(a.mcBase);
    PageIsTableAligned(a.physicalBase);
    var table := PhysicalTableAddress(address, a);
    if table != address {
      assert table == a.physicalBase + (address - a.mcBase);
      AlignedSum(a.physicalBase, address, a.mcBase);
    }
  }

  /** `table` is where the CPU sees the table at `address`: at that very address inside the visible physical
      window, or as far into the window as `address` lies in the MC range. */
  predicate TableFor(address: nat, table: nat, a: Aperture) {
    && Readable(table, a) && address % 64 == 0
    && if a.physicalBase <= address && address + 8 <= a.physicalBase + a.visibleBytes then table == address
       else a.mcBase <= address <= a.mcTop && table as int - a.physicalBase == address - a.mcBase
  }

  /** An accepted address keeps its place, and exactly the addresses that have none are refused. */
  lemma TableKeepsPlace(address: U64, a: Aperture)
    ensures PhysicalTableAddress(address, a) != 0 ==> TableFor(address, PhysicalTableAddress(address, a), a)
    ensures PhysicalTableAddress(address, a) == 0 <==> !ValidAperture(a) || forall table: nat :: !TableFor(address, table, a)
  {
    if PhysicalTableAddress(address, a) != 0 {
      TableIsReadable(address, a);
      assert TableFor(address, PhysicalTableAddress(address, a), a);
    }
  }

  lemma AlignedSum(x: nat, y: nat, z: nat)
    requires x % 64 == 0 && y % 64 == 0 && z % 64 == 0 && y >= z
    ensures (x + (y - z)) % 64 == 0
  {
    assert x + (y - z) == (x / 64 + y / 64 - z / 64) * 64;
  }

  /** The flag whose weight in the raw entry is `weight`. */
  predicate Flag(raw: U64, weight: nat)
    requires weight > 0
  {
    raw / weight % 2 == 1
  }

  const PDE_AS_PTE: nat := 0x0040_0000_0000_0000
  const TRANSLATE_FURTHER: nat := 0x0100_0000_0000_0000

  datatype Entry = Entry(
    valid: bool, system: bool, snooped: bool, executable: bool, readable: bool, writeable: bool,
    pdeAsPte: bool, translateFurther: bool, childConverted: bool,
    level: nat, index: nat, tablePhysical: U64, raw: U64, address: U64)

  function AlignDown(x: nat, unit: nat): (r: nat)
    requires unit > 0
    ensures r <= x
  {
    x / unit * unit
  }

  function AddressField(raw: U64, leaf: bool): (r: U64)
    ensures r < TWO48 && r % (if leaf then 0x1000 else 64) == 0
  {
    AlignDown(raw % TWO48, if leaf then 0x1000 else 64)
  }

  function DecodeEntry(table: U64, level: nat, index: nat, raw: U64): Entry {
    var pdeAsPte := Flag(raw, PDE_AS_PTE);
    Entry(Flag(raw, 1), Flag(raw, 2), Flag(raw, 4), Flag(raw, 16), Flag(raw, 32), Flag(raw, 64),
          pdeAsPte, Flag(raw, TRANSLATE_FURTHER), false, level, index, table, raw, AddressField(raw, level == 0 || pdeAsPte))
  }

  lemma HighBits()
    ensures Pow2(0) == 1 && Pow2(1) == 2 && Pow2(2) == 4 && Pow2(4) == 16 && Pow2(5) == 32 && Pow2(6) == 64
    ensures Pow2(54) == PDE_AS_PTE && Pow2(56) == TRANSLATE_FURTHER
  {
    assert Pow2(9) == 512;
    Pow2Sum(9, 9);
    Pow2Sum(18, 18);
    Pow2Sum(36, 18);
  }

  /** The entry says what its raw qword says: the flags by their bit numbers, and the address as the bits
      47 to 6, or 47 to 12 of a leaf. */
  ghost predicate DecodesRaw(e: Entry) {
    && (e.valid <==> BitAt(e.raw, 0)) && (e.system <==> BitAt(e.raw, 1)) && (e.snooped <==> BitAt(e.raw, 2))
    && (e.executable <==> BitAt(e.raw, 4)) && (e.readable <==> BitAt(e.raw, 5)) && (e.writeable <==> BitAt(e.raw, 6))
    && (e.pdeAsPte <==> BitAt(e.raw, 54)) && (e.translateFurther <==> BitAt(e.raw, 56))
    && (var unit := if e.level == 0 || e.pdeAsPte then 0x1000 else 64;
        e.address % unit == 0 && e.address <= e.raw % TWO48 < e.address + unit)
  }

  lemma EntryDecodes(table: U64, level: nat, index: nat, raw: U64)
    ensures DecodesRaw(DecodeEntry(table, level, index, raw))
  {
    HighBits();
    hide Pow2;
  }

  // ---- Geometry ----

  function Depth(control: U32): (d: nat)
    ensures d <= 3
  {
    (control / 2) % 4
  }

  function LeafWidth(control: U32): (w: nat)
    ensures 9 <= w <= 36
  {
    if Depth(control) == 0 then 36 else (control / 8) % 16 + 9
  }

  /** The first virtual-address bit the given level indexes. */
  function Shift(control: U32, level: nat): (s: nat)
    ensures s >= 12
  {
    if level == 0 then 12 else 12 + LeafWidth(control) + (level - 1) * 9
  }

  /** The index the walk takes at a level: the leaf and the middle levels mask, the root does not. */
  function Index(control: U32, level: nat, relative: nat): (i: nat) {
    var high := relative / Pow2(Shift(control, level));
    if level == 0 then high % Pow2(LeafWidth(control))
    else if level == Depth(control) then high
    else high % 512
  }

  /** How one level of the walk reads its table: the first address bit it indexes, the bytes one of
      its entries spans, and the entry it takes. */
  datatype Level = Level(shift: nat, span: nat, index: nat)

  function LevelOf(control: U32, level: nat, relative: nat): Level {
    Level(Shift(control, level), Pow2(Shift(control, level)), Index(control, level, relative))
  }

  function Levels(control: U32, relative: nat): (r: seq<Level>)
    ensures |r| == Depth(control) + 1
    ensures forall l :: 0 <= l < |r| ==> r[l] == LevelOf(control, l, relative)
  {
    seq(Depth(control) + 1, l requires 0 <= l <= Depth(control) => LevelOf(control, l, relative))
  }

  /** entryShift as the hang dump computes it on its own. */
  function EntryShift(control: U32, level: nat): nat {
    var depth := (control / 2) % 4;
    var leafWidth := if depth == 0 then 36 else (control / 8) % 16 + 9;
    if level == 0 then 12 else 12 + leafWidth + (level - 1) * 9
  }

  /** leafPage: the physical page of `relative` under an entry whose address field is `address`. */
  function LeafPage(address: U64, control: U32, level: nat, relative: U64): Option<U64> {
    var shift := EntryShift(control, level);
    if shift >= 48 then None
    else
      var span := Pow2(shift);
      var inside := AlignDown(relative % span, 0x1000);
      var base := AlignDown(address, span);
      if base > MAX_ADDRESS || inside > MAX_ADDRESS - base then None else Some(base + inside)
  }

  // ---- The walk ----

  datatype Walk = Walk(valid: bool, complete: bool, entries: seq<Entry>)

  /** What the memory answers to a qword read; the second argument counts the reads made before, so a
      memory that changes under the walk is covered too. */
  type Memory = (nat, nat) -> Option<U64>

  predicate Allowed(table: nat, index: nat, a: Aperture)
    requires a.visibleBytes >= 8
  {
    index <= (a.visibleBytes - 8) / 8 && table >= a.physicalBase &&
    table - a.physicalBase <= a.visibleBytes - 8 - index * 8
  }

  datatype Verdict = Finished(complete: bool) | Descend(child: U64)

  /** What the walk does after reading an entry. */
  function Judge(e: Entry, a: Aperture): (v: Verdict)
    ensures v.Descend? ==> ValidAperture(a) && Readable(v.child, a) && e.level > 0 && !e.pdeAsPte
  {
    if !e.valid || e.translateFurther then Finished(false)
    else if e.level == 0 || e.pdeAsPte then Finished(true)
    else if e.system then Finished(false)
    else
      var child := PhysicalTableAddress(e.address, a);
      if child == 0 then Finished(false) else TableIsReadable(e.address, a); Descend(child)
  }

  /** One pass of the loop: refused before the read, or finished at an entry, or on to its child. */
  datatype Visit = Refused | Stop(entry: Entry, complete: bool) | Go(entry: Entry, child: U64)

  function VisitLevel(levels: seq<Level>, a: Aperture, mem: Memory, level: nat, table: U64, count: nat): (v: Visit)
    requires ValidAperture(a)
    ensures v.Go? ==> level > 0 && Readable(v.child, a)
    ensures !v.Refused? ==> level < |levels| && levels[level].shift < 48 && v.entry.level == level &&
                            v.entry.index == levels[level].index && v.entry.address < TWO48
  {
    if level >= |levels| || levels[level].shift >= 48 || !Allowed(table, levels[level].index, a) then Refused
    else
      match mem(count, table + levels[level].index * 8)
      case None => Refused
      case Some(raw) =>
        var entry := DecodeEntry(table, level, levels[level].index, raw);
        match Judge(entry, a)
        case Finished(complete) => Stop(entry, complete)
        case Descend(child) => Go(entry.(childConverted := child != entry.address), child)
  }

  type Visitor = (nat, U64, nat) -> Visit

  ghost predicate Descending(visit: Visitor) {
    forall level: nat, table: U64, count: nat :: visit(level, table, count).Go? ==> level > 0
  }

  /** The walk from `level` down, with `table` already checked, after the entries in `done`. */
  ghost function WalkFrom(visit: Visitor, table: U64, level: nat, done: seq<Entry>): Walk
    requires Descending(visit)
    decreases level
  {
    match visit(level, table, |done|)
    case Refused => Walk(false, false, done)
    case Stop(entry, complete) => Walk(true, complete, done + [entry])
    case Go(entry, child) => WalkFrom(visit, child, level - 1, done + [entry])
  }

  function VisitorOf(levels: seq<Level>, a: Aperture, mem: Memory): (visit: Visitor)
    requires ValidAperture(a)
    ensures Descending(visit)
  {
    (level: nat, table: U64, count: nat) => VisitLevel(levels, a, mem, level, table, count)
  }

  const NO_WALK := Walk(false, false, [])

  /** The root table the walk starts from, or zero when the root or the aperture is refused. */
  function RootTable(root: U64, a: Aperture): (table: U64)
    ensures table != 0 ==> ValidAperture(a) && Readable(table, a)
  {
    var address := AddressField(root, false);
    var flags := root - address;
    if (flags == 0 || flags == 1 || flags == 5) && PhysicalTableAddress(address, a) != 0 then
      TableIsReadable(address, a);
      PhysicalTableAddress(address, a)
    else 0
  }

  predicate Accepts(root: U64, control: U32, contextStart: U64, va: U64, a: Aperture) {
    control % 2 == 1 && contextStart <= va && va <= MAX_ADDRESS && RootTable(root, a) != 0
  }

  /** The walk for one relative address from an accepted root table. */
  ghost function WalkAt(control: U32, relative: nat, a: Aperture, mem: Memory, table: U64): Walk
    requires ValidAperture(a)
  {
    WalkFrom(VisitorOf(Levels(control, relative), a, mem), table, Depth(control), [])
  }

  ghost function WalkSpec(root: U64, control: U32, contextStart: U64, va: U64, a: Aperture, mem: Memory): Walk {
    if !Accepts(root, control, contextStart, va, a) then NO_WALK
    else WalkAt(control, va - contextStart, a, mem, RootTable(root, a))
  }

  /** A qword read inside the visible framebuffer, on a qword boundary. */
  predicate InWindow(address: nat, a: Aperture) {
    address % 8 == 0 && a.physicalBase <= address && address + 8 <= a.physicalBase + a.visibleBytes
  }

  lemma SlotInWindow(table: nat, index: nat, a: Aperture)
    requires ValidAperture(a) && Readable(table, a) && Allowed(table, index, a)
    ensures InWindow(table + index * 8, a) && table + index * 8 < TWO64
  {
    assert table + index * 8 == (table / 64 * 8 + index) * 8;
  }

  predicate AllInWindow(fetched: seq<nat>, a: Aperture) {
    forall i :: 0 <= i < |fetched| ==> InWindow(fetched[i], a)
  }

  /** Each entry is what the memory answered at the slot its table and index name. */
  predicate Backed(entries: seq<Entry>, fetched: seq<nat>, mem: Memory) {
    |entries| <= |fetched| &&
    forall i :: 0 <= i < |entries| ==>
      fetched[i] == entries[i].tablePhysical + entries[i].index * 8 &&
      mem(i, fetched[i]) == Some(entries[i].raw)
  }

  /** The entry names this table: it is a valid pointer to a table in video memory and not the end of the
      walk. */
  predicate Names(e: Entry, table: nat, a: Aperture) {
    e.valid && !e.system && !e.translateFurther && !e.pdeAsPte && e.level > 0 && TableFor(e.address, table, a)
  }

  /** And it is marked as converted exactly when the table is not at the address it holds. */
  predicate LeadsTo(e: Entry, table: nat, a: Aperture) {
    Names(e, table, a) && (e.childConverted <==> table != e.address)
  }

  /** The entries of a walk hang together: the first lies in the root's table, each next one in the table
      that the entry before names, and each decodes what was read. */
  ghost predicate Chained(entries: seq<Entry>, root: nat, a: Aperture) {
    && (forall i :: 0 <= i < |entries| ==> DecodesRaw(entries[i]))
    && (entries != [] ==> entries[0].tablePhysical == root)
    && forall i :: 0 <= i < |entries| - 1 ==> LeadsTo(entries[i], entries[i + 1].tablePhysical, a)
  }

  /** The table that is read next. */
  ghost predicate NextIs(entries: seq<Entry>, root: nat, a: Aperture, table: nat) {
    if entries == [] then table == root else LeadsTo(entries[|entries| - 1], table, a)
  }

  /** A walk is complete exactly when it ends at a valid entry that maps a page or a block. */
  predicate Maps(e: Entry) {
    e.valid && !e.translateFurther && (e.level == 0 || e.pdeAsPte)
  }

  lemma ChainedMore(entries: seq<Entry>, root: nat, a: Aperture, e: Entry)
    requires Chained(entries, root, a) && NextIs(entries, root, a, e.tablePhysical) && DecodesRaw(e)
    ensures Chained(entries + [e], root, a)
  {
  }

  lemma ChainStarts(root: nat, a: Aperture)
    ensures Chained([], root, a) && NextIs([], root, a, root)
  {
  }

  lemma ChainLeads(entries: seq<Entry>, root: nat, a: Aperture, e: Entry, table: nat)
    requires LeadsTo(e, table, a)
    ensures NextIs(entries + [e], root, a, table)
  {
  }

  lemma MarkedDecodes(e: Entry, converted: bool)
    requires DecodesRaw(e)
    ensures DecodesRaw(e.(childConverted := converted))
  {
  }

  lemma VisitMeans(levels: seq<Level>, a: Aperture, mem: Memory, level: nat, table: U64, count: nat)
    requires ValidAperture(a)
    ensures var v := VisitLevel(levels, a, mem, level, table, count);
            && (!v.Refused? ==> DecodesRaw(v.entry))
            && (v.Stop? ==> (v.complete <==> Maps(v.entry)))
            && (v.Go? ==> LeadsTo(v.entry, v.child, a))
  {
    var v := VisitLevel(levels, a, mem, level, table, count);
    if !v.Refused? {
      hide PhysicalTableAddress, TableFor, DecodesRaw, AddressField, Readable;
      var raw := v.entry.raw;
      var e := DecodeEntry(table, level, levels[level].index, raw);
      EntryDecodes(table, level, levels[level].index, raw);
      TableKeepsPlace(e.address, a);
      MarkedDecodes(e, v.entry.childConverted);
    }
  }

  /** The entry a visit hands back is the qword at its slot. */
  lemma VisitReads(levels: seq<Level>, a: Aperture, mem: Memory, level: nat, table: U64, count: nat)
    requires ValidAperture(a)
    ensures var v := VisitLevel(levels, a, mem, level, table, count);
            !v.Refused? ==> v.entry.tablePhysical == table &&
                            mem(count, table + v.entry.index * 8) == Some(v.entry.raw)
  {
  }

  lemma ReadUnanswered(entries: seq<Entry>, fetched: seq<nat>, mem: Memory, a: Aperture, address: nat)
    requires Backed(entries, fetched, mem) && AllInWindow(fetched, a) && InWindow(address, a)
    ensures AllInWindow(fetched + [address], a) && Backed(entries, fetched + [address], mem)
  {
  }

  lemma ReadAnswered(entries: seq<Entry>, fetched: seq<nat>, mem: Memory, e: Entry, address: nat)
    requires |entries| == |fetched| && Backed(entries, fetched, mem)
    requires address == e.tablePhysical + e.index * 8 && mem(|entries|, address) == Some(e.raw)
    ensures Backed(entries + [e], fetched + [address], mem)
  {
  }

  /** walkPageTables. `fetched` logs every address handed to the memory. */
  method WalkPageTables(root: U64, control: U32, contextStart: U64, va: U64, a: Aperture, mem: Memory)
    returns (walk: Walk, fetched: seq<nat>)
    ensures walk == WalkSpec(root, control, contextStart, va, a, mem)
    ensures |fetched| <= Depth(control) + 1
    ensures AllInWindow(fetched, a) && (fetched != [] ==> a.physicalBase + a.visibleBytes <= TWO48)
    ensures Backed(walk.entries, fetched, mem)
    ensures walk.entries != [] ==>
              Chained(walk.entries, walk.entries[0].tablePhysical, a) &&
              TableFor(AddressField(root, false), walk.entries[0].tablePhysical, a)
    ensures walk.complete ==> walk.valid && walk.entries != []
    ensures walk.valid && walk.entries != [] ==> (walk.complete <==> Maps(walk.entries[|walk.entries| - 1]))
  {
    fetched := [];
    if !Accepts(root, control, contextStart, va, a) {
      return NO_WALK, fetched;
    }
    TableKeepsPlace(AddressField(root, false), a);
    walk, fetched := WalkTables(Levels(control, va - contextStart), a, mem, RootTable(root, a));
  }

  /** The loop over the levels, from the root table down. */
  method WalkTables(levels: seq<Level>, a: Aperture, mem: Memory, root: U64) returns (walk: Walk, fetched: seq<nat>)
    requires |levels| > 0 && ValidAperture(a) && Readable(root, a)
    ensures walk == WalkFrom(VisitorOf(levels, a, mem), root, |levels| - 1, [])
    ensures |fetched| <= |levels| && AllInWindow(fetched, a)
    ensures Backed(walk.entries, fetched, mem)
    ensures Chained(walk.entries, root, a)
    ensures walk.complete ==> walk.valid && walk.entries != []
    ensures walk.valid && walk.entries != [] ==> (walk.complete <==> Maps(walk.entries[|walk.entries| - 1]))
  {
    hide Chained, NextIs, DecodesRaw, LeadsTo, Maps, PhysicalTableAddress, DecodeEntry, Judge, TableFor;
    ghost var visit := VisitorOf(levels, a, mem);
    ChainStarts(root, a);
    fetched := [];
    var table := root;
    var level := |levels| - 1;
    var entries: seq<Entry> := [];
    while level >= 0
      invariant -1 < level < |levels|
      invariant 0 <= table < TWO64 && Readable(table, a)
      invariant |fetched| == |entries| == |levels| - 1 - level
      invariant AllInWindow(fetched, a) && Backed(entries, fetched, mem)
      invariant Chained(entries, root, a) && NextIs(entries, root, a, table)
      invariant WalkFrom(visit, root, |levels| - 1, []) == WalkFrom(visit, table, level, entries)
    {
      var index := levels[level].index;
      if levels[level].shift >= 48 || !Allowed(table, index, a) {
        return Walk(false, false, entries), fetched;
      }
      var address := table + index * 8;
      SlotInWindow(table, index, a);
      var read := VisitLevel(levels, a, mem, level, table, |entries|);
      VisitReads(levels, a, mem, level, table, |entries|);
      VisitMeans(levels, a, mem, level, table, |entries|);
      ReadUnanswered(entries, fetched, mem, a, address);
      match read {
        case Refused =>
          return Walk(false, false, entries), fetched + [address];
        case Stop(entry, complete) =>
          ReadAnswered(entries, fetched, mem, entry, address);
          ChainedMore(entries, root, a, entry);
          return Walk(true, complete, entries + [entry]), fetched + [address];
        case Go(entry, child) =>
          ReadAnswered(entries, fetched, mem, entry, address);
          ChainedMore(entries, root, a, entry);
          ChainLeads(entries, root, a, entry, child);
          entries, fetched := entries + [entry], fetched + [address];
          table := child;
          level := level - 1;
      }
    }
    assert false;
  }

  // ---- What a walk means ----

  /** The walk visits consecutive levels from the root down, each at the index its level prescribes. */
  ghost predicate Descends(levels: seq<Level>, entries: seq<Entry>) {
    && |entries| <= |levels|
    && forall i :: 0 <= i < |entries| ==>
         entries[i].level == |levels| - 1 - i && entries[i].index == levels[|levels| - 1 - i].index &&
         levels[|levels| - 1 - i].shift < 48 && entries[i].address < TWO48
  }

  /** What every visitor of this module guarantees about the entries it hands back. */
  ghost predicate Faithful(visit: Visitor, levels: seq<Level>) {
    forall level: nat, table: U64, count: nat ::
      var v := visit(level, table, count);
      !v.Refused? ==> level < |levels| && levels[level].shift < 48 && v.entry.level == level &&
                      v.entry.index == levels[level].index && v.entry.address < TWO48
  }

  lemma {:induction false} WalkDescends(visit: Visitor, levels: seq<Level>, table: U64, level: nat, done: seq<Entry>)
    requires Descending(visit) && Faithful(visit, levels)
    requires level < |levels| && |done| == |levels| - 1 - level && Descends(levels, done)
    ensures var w := WalkFrom(visit, table, level, done);
            && Descends(levels, w.entries)
            && (w.complete ==> w.valid && |w.entries| > |done|)
    decreases level
  {
    match visit(level, table, |done|)
    case Refused =>
    case Stop(_, _) =>
    case Go(entry, child) => WalkDescends(visit, levels, child, level - 1, done + [entry]);
  }

  /** The part of the virtual address the levels from `level` up to the root stand for. */
  function Consumed(levels: seq<Level>, level: nat): nat
    requires level < |levels|
    decreases |levels| - level
  {
    levels[level].index * levels[level].span + if level == |levels| - 1 then 0 else Consumed(levels, level + 1)
  }

  lemma {:induction false} Telescopes(levels: seq<Level>, residues: seq<nat>, total: nat, level: nat)
    requires level < |levels| == |residues|
    requires levels[|levels| - 1].index * levels[|levels| - 1].span + residues[|levels| - 1] == total
    requires forall l :: 0 <= l < |levels| - 1 ==> residues[l + 1] == levels[l].index * levels[l].span + residues[l]
    ensures Consumed(levels, level) + residues[level] == total
    decreases |levels| - level
  {
    if level < |levels| - 1 {
      Telescopes(levels, residues, total, level + 1);
    }
  }

  lemma DivModPow(x: nat, a: nat, b: nat)
    ensures x % Pow2(a + b) == x / Pow2(a) % Pow2(b) * Pow2(a) + x % Pow2(a)
    ensures x / Pow2(a + b) == x / Pow2(a) / Pow2(b)
  {
    Pow2Sum(a, b);
    DivTwice(x, Pow2(a), Pow2(b));
  }

  lemma Pow2Values()
    ensures Pow2(9) == 512 && Pow2(12) == 0x1000 && Pow2(36) == 0x10_0000_0000 && Pow2(48) == TWO48
  {
    assert Pow2(9) == 512 && Pow2(12) == 0x1000;
    Pow2Sum(12, 12);
    Pow2Sum(24, 12);
    Pow2Sum(36, 12);
  }

  lemma Pow2Complement(shift: nat)
    requires shift <= 48
    ensures Pow2(48 - shift) * Pow2(shift) == TWO48
  {
    Pow2Values();
    Pow2Sum(48 - shift, shift);
  }

  lemma Pow2Paged(shift: nat)
    requires shift >= 12
    ensures Pow2(shift) == 0x1000 * Pow2(shift - 12)
  {
    Pow2Values();
    Pow2Sum(12, shift - 12);
  }

  lemma RootLevel(control: U32, relative: nat)
    requires relative < TWO48
    ensures var l := LevelOf(control, Depth(control), relative); l.index * l.span + relative % l.span == relative
  {
    if Depth(control) == 0 {
      Pow2Values();
      assert relative / 0x1000 < 0x10_0000_0000;
    }
  }

  lemma InnerLevel(control: U32, relative: nat, level: nat)
    requires level < Depth(control)
    ensures var l := LevelOf(control, level, relative);
            relative % LevelOf(control, level + 1, relative).span == l.index * l.span + relative % l.span
  {
    Pow2Values();
    DivModPow(relative, Shift(control, level), if level == 0 then LeafWidth(control) else 9);
  }

  /** Indices times their spans, plus the residue below the last one, is the relative address. */
  lemma IndicesRecompose(control: U32, relative: nat, level: nat)
    requires level <= Depth(control) && relative < TWO48
    ensures Consumed(Levels(control, relative), level) + relative % Pow2(Shift(control, level)) == relative
  {
    var levels := Levels(control, relative);
    var residues := seq(|levels|, l requires 0 <= l < |levels| => relative % Pow2(Shift(control, l)));
    RootLevel(control, relative);
    forall l | 0 <= l < |levels| - 1
      ensures residues[l + 1] == levels[l].index * levels[l].span + residues[l]
    {
      InnerLevel(control, relative, l);
    }
    Telescopes(levels, residues, relative, level);
  }

  /** The level a walk ended at. */
  function LastLevel(control: U32, w: Walk): int {
    Depth(control) + 1 - |w.entries|
  }

  lemma AcceptedWalkRecomposes(control: U32, relative: nat, a: Aperture, mem: Memory, table: U64)
    requires ValidAperture(a) && relative < TWO48 && WalkAt(control, relative, a, mem, table).complete
    ensures var w := WalkAt(control, relative, a, mem, table);
            var last := LastLevel(control, w);
            && 0 <= last <= Depth(control)
            && Descends(Levels(control, relative), w.entries)
            && Consumed(Levels(control, relative), last) + relative % Pow2(Shift(control, last)) == relative
  {
    var levels := Levels(control, relative);
    WalkDescends(VisitorOf(levels, a, mem), levels, table, Depth(control), []);
    IndicesRecompose(control, relative, LastLevel(control, WalkAt(control, relative, a, mem, table)));
  }

  /** A complete walk consumed exactly the high bits of the address: it descended from the root one
      level at a time, and what the visited indices stand for, plus the residue below the last entry's
      span, is va - contextStart. */
  lemma CompleteWalkRecomposes(root: U64, control: U32, contextStart: U64, va: U64, a: Aperture, mem: Memory)
    requires WalkSpec(root, control, contextStart, va, a, mem).complete
    ensures var w := WalkSpec(root, control, contextStart, va, a, mem);
            var last := LastLevel(control, w);
            && contextStart <= va && va - contextStart < TWO48 && 0 <= last <= Depth(control)
            && Descends(Levels(control, va - contextStart), w.entries)
            && Consumed(Levels(control, va - contextStart), last) + (va - contextStart) % Pow2(Shift(control, last)) ==
               va - contextStart
  {
    AcceptedWalkRecomposes(control, va - contextStart, a, mem, RootTable(root, a));
  }

  /** The hang dump's span of an entry is the walk's. */
  lemma EntryShiftMirrors(control: U32, level: nat)
    ensures EntryShift(control, level) == Shift(control, level)
  {
  }

  lemma PageResidue(relative: nat, span: nat, m: nat)
    requires m > 0 && span == 0x1000 * m
    ensures relative % span % 0x1000 == relative % 0x1000
  {
    DivTwice(relative, 0x1000, m);
    var q := relative / 0x1000 % m;
    DivUnique(q * 0x1000 + relative % 0x1000, 0x1000, q, relative % 0x1000);
  }

  lemma BlockBelow(address: nat, span: nat, blocks: nat)
    requires span > 0 && address < blocks * span
    ensures AlignDown(address, span) + span <= blocks * span
  {
    var k := address / span;
    if k >= blocks {
      MulMonotone(blocks, k, span);
    } else {
      MulMonotone(k + 1, blocks, span);
      assert (k + 1) * span == k * span + span;
    }
  }

  lemma MulMonotone(x: nat, y: nat, d: nat)
    requires x <= y
    ensures x * d <= y * d
  {
    assert y * d == x * d + (y - x) * d;
  }

  /** The page of any address under an entry that spans less than 2^48 exists, and its offset in the
      entry's block plus the byte offset is the address's residue in that block. */
  lemma LeafPageResidue(address: U64, control: U32, level: nat, relative: U64)
    requires address < TWO48 && Shift(control, level) < 48
    ensures var page := LeafPage(address, control, level, relative);
            var span := Pow2(Shift(control, level));
            && page.Some? && page.value % 0x1000 == 0
            && page.value + relative % 0x1000 == AlignDown(address, span) + relative % span
  {
    var shift := Shift(control, level);
    EntryShiftMirrors(control, level);
    Pow2Complement(shift);
    Pow2Paged(shift);
    BlockResidue(address, relative, Pow2(shift), Pow2(48 - shift), Pow2(shift - 12));
  }

  /** The arithmetic of one block of `m` pages: it ends below 2^48 and its pages tile it. */
  lemma BlockResidue(address: nat, relative: nat, span: nat, blocks: nat, m: nat)
    requires m > 0 && span == 0x1000 * m && blocks * span == TWO48 && address < TWO48
    ensures var base, inside := AlignDown(address, span), AlignDown(relative % span, 0x1000);
            && base + inside <= MAX_ADDRESS && (base + inside) % 0x1000 == 0
            && base + inside + relative % 0x1000 == base + relative % span
  {
    BlockBelow(address, span, blocks);
    PageResidue(relative, span, m);
    PagedBlock(address / span, span, m);
  }

  lemma AcceptedLeaf(control: U32, relative: nat, a: Aperture, mem: Memory, table: U64)
    requires ValidAperture(a) && relative < TWO48 && WalkAt(control, relative, a, mem, table).complete
    ensures var w := WalkAt(control, relative, a, mem, table);
            && w.entries != []
            && var e := w.entries[|w.entries| - 1];
               e.address < TWO48 && e.level == LastLevel(control, w) && Shift(control, e.level) < 48
  {
    WalkDescends(VisitorOf(Levels(control, relative), a, mem), Levels(control, relative), table, Depth(control), []);
  }

  /** The 4 KiB page the hang dump derives from the last entry of a complete walk always exists, and
      lies in that entry's block exactly where the walk's residue says. */
  lemma LeafPageMirrorsWalk(root: U64, control: U32, contextStart: U64, va: U64, a: Aperture, mem: Memory)
    requires WalkSpec(root, control, contextStart, va, a, mem).complete
    ensures var w := WalkSpec(root, control, contextStart, va, a, mem);
            && w.entries != [] && contextStart <= va
            && var e := w.entries[|w.entries| - 1];
               var page := LeafPage(e.address, control, e.level, va - contextStart);
               var span := Pow2(Shift(control, e.level));
            && page.Some? && page.value % 0x1000 == 0
            && page.value + (va - contextStart) % 0x1000 == AlignDown(e.address, span) + (va - contextStart) % span
  {
    AcceptedLeaf(control, va - contextStart, a, mem, RootTable(root, a));
    var w := WalkAt(control, va - contextStart, a, mem, RootTable(root, a));
    var e := w.entries[|w.entries| - 1];
    LeafPageResidue(e.address, control, e.level, va - contextStart);
  }

  lemma MultipleOfMultiple(k: nat, m: nat, d: nat)
    requires d > 0
    ensures k * (d * m) % d == 0
  {
    assert k * (d * m) == (k * m) * d;
    MultipleMod(k * m, d);
  }

  lemma PagedBlock(k: nat, span: nat, m: nat)
    requires span == 0x1000 * m
    ensures k * span % 0x1000 == 0
  {
    MultipleOfMultiple(k, m, 0x1000);
  }

  /** Level by level, a walk looks at nothing below the last level it visited. */
  lemma {:induction false} WalkIgnoresLower(visit: Visitor, other: Visitor, table: U64, level: nat, done: seq<Entry>, last: nat)
    requires Descending(visit) && Descending(other) && last <= level
    requires forall l: nat, t: U64, n: nat :: last <= l ==> other(l, t, n) == visit(l, t, n)
    requires var w := WalkFrom(visit, table, level, done); w.complete && |w.entries| <= |done| + 1 + level - last
    ensures WalkFrom(other, table, level, done) == WalkFrom(visit, table, level, done)
    decreases level
  {
    assert other(level, table, |done|) == visit(level, table, |done|);
    match visit(level, table, |done|)
    case Refused =>
    case Stop(_, _) =>
    case Go(entry, child) =>
      WalkGrows(visit, child, level - 1, done + [entry]);
      WalkIgnoresLower(visit, other, child, level - 1, done + [entry], last);
  }

  lemma {:induction false} WalkGrows(visit: Visitor, table: U64, level: nat, done: seq<Entry>)
    requires Descending(visit)
    ensures var w := WalkFrom(visit, table, level, done); w.complete ==> |w.entries| > |done|
    decreases level
  {
    match visit(level, table, |done|)
    case Refused =>
    case Stop(_, _) =>
    case Go(entry, child) => WalkGrows(visit, child, level - 1, done + [entry]);
  }

  lemma SameBlockSameIndex(control: U32, x: nat, y: nat, last: nat, level: nat)
    requires last <= level <= Depth(control)
    requires x / Pow2(Shift(control, last)) == y / Pow2(Shift(control, last))
    ensures Index(control, level, x) == Index(control, level, y)
  {
    var gap := Shift(control, level) - Shift(control, last);
    if gap > 0 {
      DivModPow(x, Shift(control, last), gap);
      DivModPow(y, Shift(control, last), gap);
    }
  }

  /** Both addresses lie in one block that an entry of this level spans. */
  predicate SameBlock(control: U32, level: int, x: nat, y: nat) {
    level >= 0 && x / Pow2(Shift(control, level)) == y / Pow2(Shift(control, level))
  }

  lemma SameBlockSameLevels(control: U32, x: nat, y: nat, last: nat)
    requires SameBlock(control, last, x, y)
    ensures forall l :: last <= l <= Depth(control) ==> Levels(control, x)[l] == Levels(control, y)[l]
  {
    forall l | last <= l <= Depth(control)
      ensures Levels(control, x)[l] == Levels(control, y)[l]
    {
      SameBlockSameIndex(control, x, y, last, l);
    }
  }

  lemma SameLevelsSameVisits(xs: seq<Level>, ys: seq<Level>, a: Aperture, mem: Memory, last: nat)
    requires ValidAperture(a) && |xs| == |ys|
    requires forall l :: last <= l < |xs| ==> xs[l] == ys[l]
    ensures forall l: nat, t: U64, n: nat :: last <= l ==> VisitorOf(xs, a, mem)(l, t, n) == VisitorOf(ys, a, mem)(l, t, n)
  {
  }

  lemma SameBlockSameTables(control: U32, x: nat, y: nat, a: Aperture, mem: Memory, table: U64)
    requires ValidAperture(a) && WalkAt(control, x, a, mem, table).complete
    requires 0 <= LastLevel(control, WalkAt(control, x, a, mem, table)) <= Depth(control)
    requires SameBlock(control, LastLevel(control, WalkAt(control, x, a, mem, table)), x, y)
    ensures WalkAt(control, y, a, mem, table) == WalkAt(control, x, a, mem, table)
  {
    var xs, ys := Levels(control, x), Levels(control, y);
    var last := LastLevel(control, WalkAt(control, x, a, mem, table));
    SameBlockSameLevels(control, x, y, last);
    SameLevelsSameVisits(xs, ys, a, mem, last);
    WalkIgnoresLower(VisitorOf(xs, a, mem), VisitorOf(ys, a, mem), table, Depth(control), [], last);
  }

  lemma SameBlockSameWalkAt(control: U32, x: nat, y: nat, a: Aperture, mem: Memory, table: U64)
    requires ValidAperture(a) && x < TWO48 && WalkAt(control, x, a, mem, table).complete
    requires SameBlock(control, LastLevel(control, WalkAt(control, x, a, mem, table)), x, y)
    ensures WalkAt(control, y, a, mem, table) == WalkAt(control, x, a, mem, table)
  {
    AcceptedWalkRecomposes(control, x, a, mem, table);
    SameBlockSameTables(control, x, y, a, mem, table);
  }

  /** One entry maps one block: every address of the block a complete walk ended in takes the very
      same walk, so the block is translated as a unit. */
  lemma SameBlockSameWalk(root: U64, control: U32, contextStart: U64, va: U64, other: U64, a: Aperture, mem: Memory)
    requires WalkSpec(root, control, contextStart, va, a, mem).complete
    requires contextStart <= other <= MAX_ADDRESS && contextStart <= va
    requires SameBlock(control, LastLevel(control, WalkSpec(root, control, contextStart, va, a, mem)),
                       va - contextStart, other - contextStart)
    ensures WalkSpec(root, control, contextStart, other, a, mem) == WalkSpec(root, control, contextStart, va, a, mem)
  {
    hide WalkAt, SameBlock, LastLevel, RootTable, Pow2;
    SameBlockSameWalkAt(control, va - contextStart, other - contextStart, a, mem, RootTable(root, a));
  }
}
