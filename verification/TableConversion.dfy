/** The two ways an address in the MC range is brought into the physical range: by the page-table walk, in
    bytes, and by the conversion of entries, from the raw registers. */
module TableConversion {
  import opened Bits
  import E = EntryUpdate
  import W = PageWalk

  /** The walk's aperture over the same registers. */
  function ApertureOf(raw: E.RawAperture, visibleBytes: U64): W.Aperture
    requires E.ValidRaw(raw)
  {
    W.Aperture(E.McBase(raw), E.McTop(raw), E.PhysicalBase(raw), visibleBytes)
  }

  /** The address lies in the physical range, but past the part of it that is visible. */
  predicate PastWindow(raw: E.RawAperture, visibleBytes: U64, address: U64) {
    E.InPhysical(raw, address) && address + 8 > E.PhysicalBase(raw) + visibleBytes
  }

  /** A table that the walk reads is where an entry with its address would be converted to, exactly unless
      the address also lies in the invisible part of a physical range that overlaps the MC range. */
  lemma TablesFollowEntriesIff(raw: E.RawAperture, visibleBytes: U64, address: U64)
    requires E.ValidRaw(raw) && W.PhysicalTableAddress(address, ApertureOf(raw, visibleBytes)) != 0
    ensures var (domain, physical) := E.ConvertEntry(address, false, raw);
            (domain in {E.EntryConverted, E.EntryPhysical} &&
             physical == W.PhysicalTableAddress(address, ApertureOf(raw, visibleBytes))) <==>
            !(PastWindow(raw, visibleBytes, address) && E.McBase(raw) != E.PhysicalBase(raw))
  {
    W.TableKeepsPlace(address, ApertureOf(raw, visibleBytes));
  }

  /** With disjoint ranges the two always agree. */
  lemma TablesFollowEntries(raw: E.RawAperture, visibleBytes: U64, address: U64)
    requires E.ValidRaw(raw) && W.PhysicalTableAddress(address, ApertureOf(raw, visibleBytes)) != 0
    requires forall x: nat :: !(E.InMc(raw, x) && E.InPhysical(raw, x))
    ensures E.ConvertEntry(address, false, raw).1 == W.PhysicalTableAddress(address, ApertureOf(raw, visibleBytes))
  {
    W.TableKeepsPlace(address, ApertureOf(raw, visibleBytes));
    TablesFollowEntriesIff(raw, visibleBytes, address);
    assert PastWindow(raw, visibleBytes, address) ==> E.InMc(raw, address);
  }
}
