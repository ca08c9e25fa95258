/** Replacing the page-table root in the two packets that carry one: it must move to the physical aperture
    the same way an entry does, once, and touch nothing else. */
module RootRepair {
  import opened Bits
  import opened EntryUpdate

  datatype Reason =
    InvalidInput | Disabled | TargetUnmarked | WrongHub | WrongVmid | NotReprogrammed | InvalidAperture |
    SystemRoot | UnsupportedFlags | AlreadyPhysical | OutsideFramebuffer | Overflow | Repaired

  /** A root is an address in bits 47 to 6 and attributes around it. */
  function AddressOf(root: U64): nat {
    root % 0x1_0000_0000_0000 / 64 * 64
  }

  function AttributesOf(root: U64): nat {
    root / 0x1_0000_0000_0000 * 0x1_0000_0000_0000 + root % 64
  }

  predicate KnownFlags(attributes: nat) {
    attributes == 0 || attributes == 1 || attributes == 5
  }

  /** How a root moves: the specification of the two copies of the code below. */
  function Relocate(root: U64, raw: RawAperture): (r: (Reason, nat)) {
    var address, attributes := AddressOf(root), AttributesOf(root);
    if !ValidRaw(raw) then (Reason.InvalidAperture, root)
    else if attributes / 2 % 2 == 1 then (SystemRoot, root)
    else if !KnownFlags(attributes) then (UnsupportedFlags, root)
    else if InPhysical(raw, address) then (Reason.AlreadyPhysical, root)
    else if !InMc(raw, address) then (OutsideFramebuffer, root)
    else if address - McBase(raw) > MAX_PHYSICAL - PhysicalBase(raw) then (Reason.Overflow, root)
    else
      var physical := PhysicalBase(raw) + (address - McBase(raw));
      if physical > 0xffff_ffff_ffc0 then (Reason.Overflow, root) else (Repaired, physical + attributes)
  }

  /** The only way to write a root as an address within bits 47 to 6 and attributes outside them. */
  lemma RootParts(root: U64, address: nat, high: nat, low: nat)
    ensures AddressOf(root) + AttributesOf(root) == root && AddressOf(root) % 64 == 0 && AddressOf(root) < TWO48
    ensures address % 64 == 0 && address < TWO48 && low < 64 && root == high * TWO48 + address + low ==>
              address == AddressOf(root) && high * TWO48 + low == AttributesOf(root)
  {
    assert root == root / TWO48 * TWO48 + root % TWO48;
    if address % 64 == 0 && address < TWO48 && low < 64 && root == high * TWO48 + address + low {
      assert address + low < TWO48;
      DivUnique(root, TWO48, high, address + low);
      assert (address + low) / 64 == address / 64;
    }
  }

  /** What is refused before the address is looked at, and that it is left alone. */
  lemma RootRefusals(root: U64, raw: RawAperture)
    ensures var (reason, native) := Relocate(root, raw);
            && (reason == Reason.InvalidAperture <==> !ValidRaw(raw))
            && (reason == SystemRoot <==> ValidRaw(raw) && BitAt(AttributesOf(root), 1))
            && (reason == UnsupportedFlags <==>
                  ValidRaw(raw) && !BitAt(AttributesOf(root), 1) && AttributesOf(root) !in {0, 1, 5})
            && (reason in {Reason.InvalidAperture, SystemRoot, UnsupportedFlags} ==> native == root)
  {
    BitAtNext(AttributesOf(root), 0);
    BitAtNext(AttributesOf(root) / 2, 0);
  }

  lemma Parts(address: nat, attributes: nat)
    requires address % 64 == 0 && address <= 0xffff_ffff_ffc0 && attributes < 64
    ensures address + attributes < 0x1_0000_0000_0000
    ensures AddressOf(address + attributes) == address && AttributesOf(address + attributes) == attributes
  {
    assert (address + attributes) / 64 == address / 64;
  }

  lemma AddressAligned(root: U64, raw: RawAperture)
    ensures AddressOf(root) % 64 == 0 && AddressOf(root) <= 0xffff_ffff_ffc0
    ensures PhysicalBase(raw) % 64 == 0 && McBase(raw) % 64 == 0
  {
    assert PhysicalBase(raw) == raw.offset * 0x4_0000 * 64 && McBase(raw) == raw.base * 0x4_0000 * 64;
  }

  lemma AlignedLimit(p: nat)
    requires p % 64 == 0 && p <= 0xffff_ffff_ffff
    ensures p <= 0xffff_ffff_ffc0
  {
  }

  /** A root moves exactly as an entry with the same address does, keeping its attributes; in particular
      the second overflow check never refuses what the first one let through. */
  lemma RelocateFollowsEntry(root: U64, raw: RawAperture)
    requires ValidRaw(raw) && KnownFlags(AttributesOf(root))
    ensures var (reason, native) := Relocate(root, raw);
            var (domain, physical) := ConvertEntry(AddressOf(root), false, raw);
            && (reason == Repaired <==> domain == EntryConverted)
            && (reason == Reason.AlreadyPhysical <==> domain == EntryPhysical)
            && (reason == OutsideFramebuffer <==> domain == EntryOutside)
            && (reason == Reason.Overflow <==> domain == EntryInvalidAperture)
            && (reason == Repaired ==> native < 0x1_0000_0000_0000 && AddressOf(native) == physical &&
                                       AttributesOf(native) == AttributesOf(root))
            && (reason != Repaired ==> native == root)
  {
    AddressAligned(root, raw);
    var (domain, physical) := ConvertEntry(AddressOf(root), false, raw);
    if domain == EntryConverted {
      Converts(AddressOf(root), raw);
      AlignedLimit(physical);
      Parts(physical, AttributesOf(root));
    }
  }

  lemma Converts(address: U64, raw: RawAperture)
    requires address % 64 == 0 && PhysicalBase(raw) % 64 == 0 && McBase(raw) % 64 == 0
    requires ConvertEntry(address, false, raw).0 == EntryConverted
    ensures ConvertEntry(address, false, raw).1 % 64 == 0 && ConvertEntry(address, false, raw).1 <= 0xffff_ffff_ffff
  {
    var a, b, c := address / 64, PhysicalBase(raw) / 64, McBase(raw) / 64;
    assert address == 64 * a && PhysicalBase(raw) == 64 * b && McBase(raw) == 64 * c;
    assert ConvertEntry(address, false, raw).1 == 64 * (b + a - c);
  }

  /** Repairing a repaired root changes nothing: it is recognised as physical. */
  lemma RepairedOnce(root: U64, raw: RawAperture)
    requires Relocate(root, raw).0 == Repaired
    ensures Relocate(root, raw).1 < 0x1_0000_0000_0000
    ensures Relocate(Relocate(root, raw).1, raw) == (Reason.AlreadyPhysical, Relocate(root, raw).1)
  {
    RelocateFollowsEntry(root, raw);
  }

  // ---- Little-endian fields ----

  function Pow256(n: nat): (p: nat)
    ensures p > 0
  {
    if n == 0 then 1 else 256 * Pow256(n - 1)
  }

  /** The number in these bytes, lowest first. */
  function Value(bytes: seq<U8>): nat {
    if bytes == [] then 0 else bytes[0] + 256 * Value(bytes[1..])
  }

  lemma {:induction false} ValueBound(bytes: seq<U8>)
    ensures Value(bytes) < Pow256(|bytes|)
  {
    if bytes != [] {
      ValueBound(bytes[1..]);
    }
  }

  /** The lowest `n` bytes of a number, lowest first. */
  function Digits(value: nat, n: nat): (bytes: seq<U8>)
    ensures |bytes| == n
    decreases n
  {
    if n == 0 then [] else [value % 256] + Digits(value / 256, n - 1)
  }

  lemma {:induction false} DigitsBack(value: nat, n: nat)
    requires value < Pow256(n)
    ensures Value(Digits(value, n)) == value
    decreases n
  {
    if n > 0 {
      DigitsBack(value / 256, n - 1);
      assert Digits(value, n)[1..] == Digits(value / 256, n - 1);
    }
  }

  const ROOT_BYTES: nat := 8

  lemma RootRange()
    ensures Pow256(ROOT_BYTES) == 0x1_0000_0000_0000_0000
  {
    assert Pow256(4) == 0x1_0000_0000;
  }

  method ReadRoot(bytes: array<U8>, at: nat) returns (root: U64)
    requires at + 8 <= bytes.Length
    ensures root == Value(bytes[at..at + 8])
  {
    var value, i := 0, 8;
    while i > 0
      invariant 0 <= i <= 8 && value == Value(bytes[at + i..at + 8])
    {
      i := i - 1;
      assert bytes[at + i..at + 8][1..] == bytes[at + i + 1..at + 8];
      value := bytes[at + i] as nat + 256 * value;
    }
    ValueBound(bytes[at..at + 8]);
    RootRange();
    root := value;
  }

  /** Takes the digits off one by one. */
  lemma NextDigit(rest: nat, n: nat, d: seq<U8>, i: nat)
    requires n > 0 && i < |d| && Digits(rest, n) == d[i..]
    ensures d[i] == rest % 256 && Digits(rest / 256, n - 1) == d[i + 1..]
  {
    assert d[i..][0] == d[i] && d[i..][1..] == d[i + 1..];
    assert Digits(rest, n)[1..] == Digits(rest / 256, n - 1);
  }

  method WriteBytes(bytes: array<U8>, at: nat, value: nat, n: nat)
    requires at + n <= bytes.Length
    modifies bytes
    ensures bytes[..] == old(bytes[..at]) + Digits(value, n) + old(bytes[at + n..])
  {
    var rest: nat := value;
    ghost var d := Digits(value, n);
    assert d[0..] == d;
    for i := 0 to n
      invariant bytes[at..at + i] == d[..i] && Digits(rest, n - i) == d[i..]
      invariant bytes[..at] == old(bytes[..at]) && bytes[at + i..] == old(bytes[at + i..])
    {
      NextDigit(rest, n - i, d, i);
      bytes[at + i] := rest % 256;
      rest := rest / 256;
    }
    assert bytes[..] == bytes[..at] + bytes[at..at + n] + bytes[at + n..];
  }

  method WriteRoot(bytes: array<U8>, at: nat, root: U64)
    requires at + 8 <= bytes.Length
    modifies bytes
    ensures bytes[..at] == old(bytes[..at]) && bytes[at + 8..] == old(bytes[at + 8..])
    ensures Value(bytes[at..at + 8]) == root
  {
    WriteBytes(bytes, at, root, ROOT_BYTES);
    assert bytes[at..at + 8] == Digits(root, ROOT_BYTES);
    RootRange();
    DigitsBack(root, ROOT_BYTES);
  }

  // ---- The two packets ----

  const MAP_PROCESS: U32 := 0xc00e_a100

  /** The copy of the arithmetic in repairMapProcessPacket; sums and differences wrap at 64 bits. */
  function MapProcessRoot(root: U64, raw: RawAperture): (Reason, nat) {
    if raw.base == 0 || raw.offset == 0 || raw.top < raw.base ||
       raw.base >= 0x100_0000 || raw.top >= 0x100_0000 || raw.offset >= 0x100_0000 then (Reason.InvalidAperture, root)
    else
      var attributes, address := AttributesOf(root), AddressOf(root);
      var mcBase, mcTop, physicalBase := raw.base * 0x100_0000, raw.top * 0x100_0000 + 0xff_ffff, raw.offset * 0x100_0000;
      if attributes / 2 % 2 != 0 then (SystemRoot, root)
      else if attributes != 0 && attributes != 1 && attributes != 5 then (UnsupportedFlags, root)
      else if address >= physicalBase && address <= physicalBase + (mcTop - mcBase) then (Reason.AlreadyPhysical, root)
      else if address < mcBase || address > mcTop then (OutsideFramebuffer, root)
      else if address - mcBase > 0xffff_ffff_ffff - physicalBase then (Reason.Overflow, root)
      else
        var physical := ((physicalBase + address) % TWO64 - mcBase) % TWO64;
        if physical > 0xffff_ffff_ffc0 then (Reason.Overflow, root) else (Repaired, physical + attributes)
  }

  /** The other copy, in prepareInvalidateInfo. */
  function InvalidateRoot(root: U64, raw: RawAperture): (Reason, nat) {
    if raw.base == 0 || raw.offset == 0 || raw.top < raw.base ||
       raw.base >= 0x100_0000 || raw.top >= 0x100_0000 || raw.offset >= 0x100_0000 then (Reason.InvalidAperture, root)
    else
      var attributes := AttributesOf(root);
      if attributes / 2 % 2 != 0 then (SystemRoot, root)
      else if attributes != 0 && attributes != 1 && attributes != 5 then (UnsupportedFlags, root)
      else
        var address := AddressOf(root);
        var mcBase, mcTop, physicalBase := raw.base * 0x100_0000, raw.top * 0x100_0000 + 0xff_ffff, raw.offset * 0x100_0000;
        if address >= physicalBase && address <= physicalBase + (mcTop - mcBase) then (Reason.AlreadyPhysical, root)
        else if address < mcBase || address > mcTop then (OutsideFramebuffer, root)
        else if address - mcBase > 0xffff_ffff_ffff - physicalBase then (Reason.Overflow, root)
        else
          var physical := (physicalBase + (address - mcBase) % TWO64) % TWO64;
          if physical > 0xffff_ffff_ffc0 then (Reason.Overflow, root) else (Repaired, physical + attributes)
  }

  lemma Unwrapped(x: int)
    requires 0 <= x < TWO64
    ensures x % TWO64 == x
  {
  }

  /** No sum wraps, and both copies do what the specification says. */
  lemma CopiesFollow(root: U64, raw: RawAperture)
    ensures MapProcessRoot(root, raw) == Relocate(root, raw)
    ensures InvalidateRoot(root, raw) == Relocate(root, raw)
  {
    var address := AddressOf(root);
    if ValidRaw(raw) && InMc(raw, address) {
      AddressAligned(root, raw);
      Unwrapped(PhysicalBase(raw) + address);
      Unwrapped(address - McBase(raw));
      Unwrapped(PhysicalBase(raw) + (address - McBase(raw)));
    }
  }

  lemma RepairedFits(root: U64, raw: RawAperture)
    ensures MapProcessRoot(root, raw).0 == Repaired ==> MapProcessRoot(root, raw).1 < TWO64
    ensures InvalidateRoot(root, raw).0 == Repaired ==> InvalidateRoot(root, raw).1 < TWO64
  {
    CopiesFollow(root, raw);
    if Relocate(root, raw).0 == Repaired {
      RelocateFollowsEntry(root, raw);
    }
  }

  /** Whether a map-process packet is one, and what becomes of its root. */
  function MapProcessOutcome(header: nat, size: nat, root: U64, enabled: bool, marked: bool, raw: RawAperture): (Reason, nat) {
    if size < 0x40 || header != MAP_PROCESS then (InvalidInput, root)
    else if !enabled then (Disabled, root)
    else if !marked then (TargetUnmarked, root)
    else MapProcessRoot(root, raw)
  }

  /** Edits the packet in place: exactly its root, and only when it is repaired. */
  method RepairMapProcessPacket(packet: array<U8>, enabled: bool, marked: bool, raw: RawAperture) returns (reason: Reason)
    modifies packet
    ensures packet.Length < 0x40 ==> reason == InvalidInput && packet[..] == old(packet[..])
    ensures packet.Length >= 0x40 ==>
              var outcome := MapProcessOutcome(Value(old(packet[..4])), packet.Length, Root(old(packet[..]), 8), enabled, marked, raw);
              reason == outcome.0 && Edited(packet[..], old(packet[..]), 8, outcome)
  {
    if packet.Length < 0x40 {
      return InvalidInput;
    }
    hide MapProcessRoot;
    ghost var before := packet[..];
    if Value(packet[..4]) != MAP_PROCESS {
      return InvalidInput;
    }
    var root := ReadRoot(packet, 8);
    assert root == Root(before, 8);
    if !enabled {
      return Disabled;
    }
    if !marked {
      return TargetUnmarked;
    }
    var (r, native) := MapProcessRoot(root, raw);
    reason := r;
    if reason == Repaired {
      RepairedFits(root, raw);
      WriteRoot(packet, 8, native);
    }
  }

  function Root(bytes: seq<U8>, at: nat): (root: U64)
    requires at + 8 <= |bytes|
  {
    ValueBound(bytes[at..at + 8]);
    RootRange();
    Value(bytes[at..at + 8])
  }

  /** Only the root's eight bytes may differ, and they hold the new root. */
  predicate Edited(after: seq<U8>, before: seq<U8>, at: nat, outcome: (Reason, nat))
    requires at + 8 <= |before|
  {
    && |after| == |before| && after[..at] == before[..at] && after[at + 8..] == before[at + 8..]
    && (outcome.0 == Repaired ==> Value(after[at..at + 8]) == outcome.1)
    && (outcome.0 != Repaired ==> after == before)
  }

  /** Whether an invalidate request is eligible, and what becomes of its root. */
  function InvalidateOutcome(hub: nat, vmid: nat, reprogram: bool, root: U64, enabled: bool, marked: bool, raw: RawAperture,
                             allowMmhub: bool): (Reason, nat) {
    if !enabled then (Disabled, root)
    else if !marked then (TargetUnmarked, root)
    else if hub != 0 && !(allowMmhub && hub == 1) then (WrongHub, root)
    else if vmid == 0 || vmid >= 16 then (WrongVmid, root)
    else if !reprogram then (NotReprogrammed, root)
    else InvalidateRoot(root, raw)
  }

  /** A map-process packet is edited exactly when it is one, whole, and the repair is enabled for a marked
      target; each refusal names the first of these that fails. */
  lemma MapEditedIff(header: nat, size: nat, root: U64, enabled: bool, marked: bool, raw: RawAperture)
    ensures var outcome := MapProcessOutcome(header, size, root, enabled, marked, raw);
            var packet := header == 0xc00e_a100 && size >= 64;
            && (packet && enabled && marked ==> outcome == Relocate(root, raw))
            && (outcome.0 == InvalidInput <==> !packet)
            && (outcome.0 == Disabled <==> packet && !enabled)
            && (outcome.0 == TargetUnmarked <==> packet && enabled && !marked)
            && (outcome.0 in {InvalidInput, Disabled, TargetUnmarked} ==> outcome.1 == root)
  {
    CopiesFollow(root, raw);
  }

  /** A request may be edited exactly when the repair is enabled, the target marked, the hub admitted, the
      process a client's and the request reprograms; then it ends as a map-process packet's root would. */
  predicate Eligible(hub: nat, vmid: nat, reprogram: bool, enabled: bool, marked: bool, allowMmhub: bool) {
    enabled && marked && reprogram && vmid in {1, 2, 3, 4, 5, 6, 7, 8, 9, 10, 11, 12, 13, 14, 15} &&
    hub in if allowMmhub then {0, 1} else {0}
  }

  lemma EditedIff(hub: nat, vmid: nat, reprogram: bool, root: U64, enabled: bool, marked: bool, raw: RawAperture,
                  allowMmhub: bool)
    ensures var outcome := InvalidateOutcome(hub, vmid, reprogram, root, enabled, marked, raw, allowMmhub);
            && (Eligible(hub, vmid, reprogram, enabled, marked, allowMmhub) ==> outcome == Relocate(root, raw))
            && (!Eligible(hub, vmid, reprogram, enabled, marked, allowMmhub) ==>
                  outcome.1 == root && outcome.0 in {Disabled, TargetUnmarked, WrongHub, WrongVmid, NotReprogrammed})
            && (outcome.0 == Disabled <==> !enabled)
            && (outcome.0 == TargetUnmarked <==> enabled && !marked)
            && (outcome.0 == WrongHub <==> enabled && marked && hub !in if allowMmhub then {0, 1} else {0})
            && (outcome.0 == NotReprogrammed <==> !reprogram && Eligible(hub, vmid, true, enabled, marked, allowMmhub))
  {
    CopiesFollow(root, raw);
    hide Relocate, InvalidateRoot;
  }

  /** Works on a copy: the caller's bytes stay as they are, and the copy differs in its root at most. */
  method PrepareInvalidateInfo(source: seq<U8>, enabled: bool, marked: bool, raw: RawAperture, allowMmhub: bool)
    returns (reason: Reason, copy: array<U8>)
    ensures fresh(copy) && copy.Length == 0x28
    ensures |source| < 0x28 ==> reason == InvalidInput
    ensures |source| >= 0x28 ==>
              var outcome := InvalidateOutcome(Value(source[..4]), Value(source[4..8]), source[0x24] == 1, Root(source[..0x28], 0x18),
                                               enabled, marked, raw, allowMmhub);
              reason == outcome.0 && Edited(copy[..], source[..0x28], 0x18, outcome)
  {
    copy := new U8[0x28](_ => 0);
    if |source| < 0x28 {
      return InvalidInput, copy;
    }
    hide InvalidateRoot;
    for i := 0 to 0x28
      invariant copy[..i] == source[..i]
    {
      copy[i] := source[i];
    }
    assert copy[..] == source[..0x28];
    var root := ReadRoot(copy, 0x18);
    assert root == Root(source[..0x28], 0x18);
    if !enabled {
      return Disabled, copy;
    }
    if !marked {
      return TargetUnmarked, copy;
    }
    var hub, vmid := Value(source[..4]), Value(source[4..8]);
    if hub != 0 && !(allowMmhub && hub == 1) {
      return WrongHub, copy;
    }
    if vmid == 0 || vmid >= 16 {
      return WrongVmid, copy;
    }
    if source[0x24] != 1 {
      return NotReprogrammed, copy;
    }
    var (r, native) := InvalidateRoot(root, raw);
    reason := r;
    if reason == Repaired {
      RepairedFits(root, raw);
      WriteRoot(copy, 0x18, native);
    }
  }

  /** Both packets end up with the same root whenever both are eligible. */
  lemma PacketsAgree(root: U64, raw: RawAperture, hub: nat, vmid: nat, allowMmhub: bool)
    requires 1 <= vmid < 16 && (hub == 0 || (allowMmhub && hub == 1))
    ensures MapProcessOutcome(MAP_PROCESS, 0x40, root, true, true, raw) ==
            InvalidateOutcome(hub, vmid, true, root, true, true, raw, allowMmhub)
  {
    CopiesFollow(root, raw);
  }
}
