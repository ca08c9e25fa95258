/** The two running checksums of the replay stream: CRC-32 as in section 3.2.9 of IEEE 802.3, and FNV-1a. */
module Checksums {
  import opened Bits

  type Byte = bv8

  /** One shift of the reflected CRC register. */
  function Shift(s: bv32): bv32 {
    (s >> 1) ^ (if s & 1 == 1 then 0xedb88320 else 0)
  }

  function CrcStep(state: bv32, byte: Byte): bv32 {
    Shift(Shift(Shift(Shift(Shift(Shift(Shift(Shift(state ^ byte as bv32))))))))
  }

  const FNV_PRIME: nat := 0x100_0000_01b3

  function FnvStep(state: U64, byte: Byte): U64 {
    (Xor64(state, byte as nat) * FNV_PRIME) % TWO64
  }

  const CRC_START: bv32 := 0xffff_ffff
  const FNV_START: U64 := 0xcbf2_9ce4_8422_2325

  /** Running a checksum over bytes, first byte first. */
  function Fold<S>(step: (S, Byte) -> S, state: S, bytes: seq<Byte>): S {
    if bytes == [] then state else step(Fold(step, state, bytes[..|bytes| - 1]), bytes[|bytes| - 1])
  }

  function Crc(bytes: seq<Byte>): bv32 {
    Fold(CrcStep, CRC_START, bytes) ^ 0xffff_ffff
  }

  function Fnv(bytes: seq<Byte>): U64 {
    Fold(FnvStep, FNV_START, bytes)
  }

  method Crc32Update(start: bv32, bytes: seq<Byte>) returns (state: bv32)
    ensures state == Fold(CrcStep, start, bytes)
  {
    state := start;
    for i := 0 to |bytes|
      invariant state == Fold(CrcStep, start, bytes[..i])
    {
      assert bytes[..i + 1][..i] == bytes[..i];
      state := ByteIn(state, bytes[i]);
    }
    assert bytes[..|bytes|] == bytes;
  }

  /** The inner loop: eight shifts. */
  method ByteIn(start: bv32, byte: Byte) returns (state: bv32)
    ensures state == CrcStep(start, byte)
  {
    state := start ^ byte as bv32;
    ghost var first := state;
    for bit := 0 to 8
      invariant Shifted(state, 8 - bit) == Shifted(first, 8)
    {
      state := (state >> 1) ^ (0xedb88320 & (0 - (state & 1)));
    }
    assert Shifted(first, 8) == Shifted(Shift(first), 7);
    assert Shifted(Shift(first), 7) == Shifted(Shift(Shift(first)), 6);
    EightShifts(first);
  }

  function Shifted(s: bv32, n: nat): bv32
    decreases n
  {
    if n == 0 then s else Shifted(Shift(s), n - 1)
  }

  lemma EightShifts(s: bv32)
    ensures Shifted(s, 8) == Shift(Shift(Shift(Shift(Shift(Shift(Shift(Shift(s))))))))
  {
    var a := Shift(Shift(Shift(Shift(s))));
    assert Shifted(s, 8) == Shifted(Shift(s), 7) == Shifted(Shift(Shift(s)), 6) == Shifted(Shift(Shift(Shift(s))), 5) == Shifted(a, 4);
    assert Shifted(a, 4) == Shifted(Shift(a), 3) == Shifted(Shift(Shift(a)), 2) == Shifted(Shift(Shift(Shift(a))), 1);
  }

  method Fnv1a64Update(start: U64, bytes: seq<Byte>) returns (state: U64)
    ensures state == Fold(FnvStep, start, bytes)
  {
    state := start;
    for i := 0 to |bytes|
      invariant state == Fold(FnvStep, start, bytes[..i])
    {
      assert bytes[..i + 1][..i] == bytes[..i];
      state := Xor64(state, bytes[i] as nat);
      state := (state * FNV_PRIME) % TWO64;
    }
    assert bytes[..|bytes|] == bytes;
  }

  /** FNV-1a by its recurrence: from the offset basis, each byte is added by exclusive or and the sum is
      multiplied by the prime. */
  lemma FnvRecurrence(bytes: seq<Byte>, b: Byte)
    ensures Fnv([]) == 0xcbf2_9ce4_8422_2325
    ensures Fnv(bytes + [b]) == (Xor64(Fnv(bytes), b as nat) * 0x100_0000_01b3) % TWO64
  {
    assert (bytes + [b])[..|bytes|] == bytes;
  }

  lemma XorOfLowBytes()
    ensures Xor(0x25, 0x61) == 0x44
  {
    hide Xor;
    XorLowBit(18, 48, 1, 1);
    XorLowBit(9, 24, 0, 0);
    XorLowBit(4, 12, 1, 0);
    XorLowBit(2, 6, 0, 0);
    XorLowBit(1, 3, 0, 0);
    XorLowBit(0, 1, 1, 1);
    XorCommutes(0, 1);
    XorZero(1);
  }

  lemma XorOfBasis()
    ensures Xor64(0xcbf2_9ce4_8422_2325, 0x61) == 0xcbf2_9ce4_8422_2344
  {
    hide Xor, Shifted;
    var high := 0xcb_f29c_e484_2223;
    assert Pow2(4) == 16;
    Pow2Double(4);
    XorOfLowBytes();
    XorAbove(8, 0x25, 0x61, high);
    ShiftedIsProduct(high, 8);
  }

  lemma PrimeTimesBasis()
    ensures (0xcbf2_9ce4_8422_2344 * FNV_PRIME) % TWO64 == 0xaf63_dc4c_8601_ec8c
  {
    DivUnique(0xcbf2_9ce4_8422_2344 * FNV_PRIME, TWO64, 0xcbf29ce5de, 0xaf63_dc4c_8601_ec8c);
  }

  /** The published value for the one-byte message "a". */
  lemma FnvOfA()
    ensures Fnv([0x61]) == 0xaf63_dc4c_8601_ec8c
  {
    var a: Byte := 0x61;
    FnvRecurrence([], a);
    assert [] + [a] == [a];
    hide Xor64, Fnv;
    XorOfBasis();
    PrimeTimesBasis();
  }

  /** Feeding pieces one after the other is feeding them joined. */
  lemma {:induction false} FoldJoins<S>(step: (S, Byte) -> S, state: S, a: seq<Byte>, b: seq<Byte>)
    ensures Fold(step, Fold(step, state, a), b) == Fold(step, state, a + b)
    decreases |b|
  {
    if b == [] {
      assert a + b == a;
    } else {
      FoldJoins(step, state, a, b[..|b| - 1]);
      assert (a + b)[..|a + b| - 1] == a + b[..|b| - 1];
    }
  }

  // ---- One corrupted byte is noticed ----

  lemma ShiftInjective(a: bv32, b: bv32)
    requires Shift(a) == Shift(b)
    ensures a == b
  {
  }

  lemma XorInjectiveBv(s: bv32, a: bv32, b: bv32)
    ensures s ^ a == s ^ b ==> a == b
    ensures a ^ s == b ^ s ==> a == b
  {
  }

  lemma {:induction false} ShiftedInjective(a: bv32, b: bv32, n: nat)
    requires Shifted(a, n) == Shifted(b, n)
    ensures a == b
    decreases n
  {
    if n > 0 {
      ShiftedInjective(Shift(a), Shift(b), n - 1);
      ShiftInjective(a, b);
    }
  }

  lemma StepIsShifted(s: bv32, a: Byte)
    ensures CrcStep(s, a) == Shifted(s ^ a as bv32, 8)
  {
    EightShifts(s ^ a as bv32);
  }

  lemma ByteKept(a: Byte, b: Byte)
    requires a as bv32 == b as bv32
    ensures a == b
  {
  }

  /** Different registers stay different. */
  lemma StepKeepsStates(s: bv32, t: bv32, a: Byte)
    requires CrcStep(s, a) == CrcStep(t, a)
    ensures s == t
  {
    StepIsShifted(s, a);
    StepIsShifted(t, a);
    ShiftedInjective(s ^ a as bv32, t ^ a as bv32, 8);
    XorInjectiveBv(a as bv32, s, t);
  }

  /** Different bytes make the registers different. */
  lemma StepKeepsBytes(s: bv32, a: Byte, b: Byte)
    requires CrcStep(s, a) == CrcStep(s, b)
    ensures a == b
  {
    StepIsShifted(s, a);
    StepIsShifted(s, b);
    ShiftedInjective(s ^ a as bv32, s ^ b as bv32, 8);
    XorInjectiveBv(s, a as bv32, b as bv32);
    ByteKept(a, b);
  }

  lemma {:induction false} FoldInjective(s: bv32, t: bv32, bytes: seq<Byte>)
    requires s != t
    ensures Fold(CrcStep, s, bytes) != Fold(CrcStep, t, bytes)
  {
    if bytes != [] {
      FoldInjective(s, t, bytes[..|bytes| - 1]);
      var a, b := Fold(CrcStep, s, bytes[..|bytes| - 1]), Fold(CrcStep, t, bytes[..|bytes| - 1]);
      if CrcStep(a, bytes[|bytes| - 1]) == CrcStep(b, bytes[|bytes| - 1]) {
        StepKeepsStates(a, b, bytes[|bytes| - 1]);
      }
    }
  }

  /** Changing any one byte of any message changes its CRC. */
  lemma OneByteChangesCrc(bytes: seq<Byte>, i: nat, b: Byte)
    requires i < |bytes| && bytes[i] != b
    ensures Crc(bytes) != Crc(bytes[i := b])
  {
    var other := bytes[i := b];
    var front, rest := bytes[..i], bytes[i + 1..];
    var state := Fold(CrcStep, CRC_START, front);
    assert bytes == front + [bytes[i]] + rest && other == front + [b] + rest;
    FoldJoins(CrcStep, CRC_START, front + [bytes[i]], rest);
    FoldJoins(CrcStep, CRC_START, front + [b], rest);
    assert (front + [bytes[i]])[..i] == front && (front + [b])[..i] == front;
    if CrcStep(state, bytes[i]) == CrcStep(state, b) {
      StepKeepsBytes(state, bytes[i], b);
    }
    FoldInjective(CrcStep(state, bytes[i]), CrcStep(state, b), rest);
    XorInjectiveBv(0xffff_ffff, Fold(CrcStep, CRC_START, bytes), Fold(CrcStep, CRC_START, other));
  }
}
