/** What the CRC computes: the remainder that section 3.2.9 of IEEE 802.3 defines, by long division of the
    message polynomial, and the register value that a message with its own CRC always leaves. */
module CrcRemainder {
  import opened Checksums

  /** A polynomial over the integers modulo 2: its coefficients, highest power first. */
  type Poly = seq<bool>

  /** The powers of the generating polynomial below x^32. */
  const POWERS: set<nat> := {26, 23, 22, 16, 12, 11, 10, 8, 7, 5, 4, 2, 1, 0}

  function Generator(): (g: Poly)
    ensures |g| == 32
  {
    seq(32, i requires 0 <= i < 32 => (31 - i) in POWERS)
  }

  function Plus(a: Poly, b: Poly): (s: Poly)
    requires |a| == |b|
    ensures |s| == |a|
  {
    seq(|a|, i requires 0 <= i < |a| => a[i] != b[i])
  }

  function Zeros(n: nat): (z: Poly)
    ensures |z| == n
  {
    seq(n, _ => false)
  }

  /** The sum with `a`, aligned at the highest power. */
  function PlusFront(p: Poly, a: Poly): (s: Poly)
    requires |a| <= |p|
    ensures |s| == |p|
  {
    Plus(p[..|a|], a) + p[|a|..]
  }

  /** Long division by x^32 + the generator's lower powers: while there is a power above x^31, its
      coefficient is cancelled by the generator, or is zero. */
  function Remainder(p: Poly): (r: Poly)
    requires |p| >= 32
    ensures |r| == 32
    decreases |p|
  {
    if |p| == 32 then p
    else if p[0] then Remainder(PlusFront(p[1..], Generator()))
    else Remainder(p[1..])
  }

  predicate Odd(x: bv32) {
    x & 1 == 1
  }

  function Half(x: bv32): bv32 {
    x >> 1
  }

  function Sum(x: bv32, y: bv32): bv32 {
    x ^ y
  }

  /** The bits of a byte and of a register, lowest first. */
  function BitsOf(x: bv32, n: nat): (b: Poly)
    ensures |b| == n
    decreases n
  {
    if n == 0 then [] else [Odd(x)] + BitsOf(Half(x), n - 1)
  }

  function MessageBits(bytes: seq<Byte>): Poly {
    if bytes == [] then [] else MessageBits(bytes[..|bytes| - 1]) + BitsOf(bytes[|bytes| - 1] as bv32, 8)
  }

  /** The first 32 bits complemented, all of it times x^32, and the remainder complemented. */
  function FrameCheck(bytes: seq<Byte>): Poly {
    Plus(Remainder(PlusFront(MessageBits(bytes) + Zeros(32), seq(32, _ => true))), seq(32, _ => true))
  }

  // ---- One bit ----

  /** One bit of the division, on the register alone. */
  function BitStep(r: Poly, bit: bool): (r': Poly)
    requires |r| == 32
    ensures |r'| == 32
  {
    if r[0] != bit then Plus(r[1..] + [false], Generator()) else r[1..] + [false]
  }

  function BitSteps(r: Poly, bits: Poly): (r': Poly)
    requires |r| == 32
    ensures |r'| == 32
  {
    if bits == [] then r else BitStep(BitSteps(r, bits[..|bits| - 1]), bits[|bits| - 1])
  }

  lemma {:induction false} BitStepsFirst(r: Poly, bits: Poly)
    requires |r| == 32 && bits != []
    ensures BitSteps(r, bits) == BitSteps(BitStep(r, bits[0]), bits[1..])
    decreases |bits|
  {
    var last := |bits| - 1;
    if last == 0 {
      assert bits[..0] == [] && bits[1..] == [];
    } else {
      BitStepsFirst(r, bits[..last]);
      assert bits[..last][1..] == bits[1..][..last - 1] && bits[..last][0] == bits[0];
    }
  }

  /** The register is what division has made of the highest 32 powers so far. */
  lemma DivideOnce(r: Poly, bits: Poly)
    requires |r| == 32 && bits != []
    ensures Remainder(PlusFront(bits + Zeros(32), r)) == Remainder(PlusFront(bits[1..] + Zeros(32), BitStep(r, bits[0])))
  {
    var p := PlusFront(bits + Zeros(32), r);
    var rest := bits[1..] + Zeros(32);
    assert (bits + Zeros(32))[1..] == rest;
    assert p[1..] == PlusFront(rest, r[1..] + [false]);
    if p[0] {
      assert PlusFront(p[1..], Generator()) == PlusFront(rest, BitStep(r, bits[0]));
    }
  }

  lemma {:induction false} DivisionIsSteps(r: Poly, bits: Poly)
    requires |r| == 32
    ensures Remainder(PlusFront(bits + Zeros(32), r)) == BitSteps(r, bits)
    decreases |bits|
  {
    if bits == [] {
      assert PlusFront(bits + Zeros(32), r) == r;
    } else {
      DivideOnce(r, bits);
      DivisionIsSteps(BitStep(r, bits[0]), bits[1..]);
      BitStepsFirst(r, bits);
    }
  }

  // ---- The register as bits ----

  lemma SumParts(x: bv32, y: bv32)
    ensures Half(Sum(x, y)) == Sum(Half(x), Half(y))
    ensures Odd(Sum(x, y)) <==> Odd(x) != Odd(y)
  {
  }

  lemma PlusCons(a: bool, b: bool, p: Poly, q: Poly)
    requires |p| == |q|
    ensures Plus([a] + p, [b] + q) == [a != b] + Plus(p, q)
  {
  }

  lemma {:induction false} BitsOfSum(x: bv32, y: bv32, n: nat)
    ensures BitsOf(Sum(x, y), n) == Plus(BitsOf(x, n), BitsOf(y, n))
    decreases n
  {
    if n == 0 {
      assert BitsOf(Sum(x, y), n) == [];
    } else {
      hide Sum, Half, Odd, Plus;
      BitsOfSum(Half(x), Half(y), n - 1);
      SumParts(x, y);
      PlusCons(Odd(x), Odd(y), BitsOf(Half(x), n - 1), BitsOf(Half(y), n - 1));
    }
  }

  function Down(x: bv32): bv32 {
    x >> 4
  }

  lemma FourHalves(x: bv32)
    ensures Half(Half(Half(Half(x)))) == Down(x)
  {
  }

  function Nibble(x: bv32): (b: Poly)
    ensures |b| == 4
  {
    [Odd(x), Odd(Half(x)), Odd(Half(Half(x))), Odd(Half(Half(Half(x))))]
  }

  /** Four bits at a time. */
  lemma NextFour(x: bv32, n: nat)
    requires n >= 4
    ensures BitsOf(x, n) == Nibble(x) + BitsOf(Down(x), n - 4)
  {
    FourHalves(x);
    hide Half, Odd, Down;
    var a, b, c := Half(x), Half(Half(x)), Half(Half(Half(x)));
    assert BitsOf(x, n) == [Odd(x)] + BitsOf(a, n - 1);
    assert BitsOf(a, n - 1) == [Odd(a)] + BitsOf(b, n - 2);
    assert BitsOf(b, n - 2) == [Odd(b)] + BitsOf(c, n - 3);
    assert BitsOf(c, n - 3) == [Odd(c)] + BitsOf(Half(c), n - 4);
  }

  function Octet(x: bv32): (b: Poly)
    ensures |b| == 8
  {
    Nibble(x) + Nibble(Down(x))
  }

  function Down8(x: bv32): bv32 {
    Down(Down(x))
  }

  lemma NextEight(x: bv32, n: nat)
    requires n >= 8
    ensures BitsOf(x, n) == Octet(x) + BitsOf(Down8(x), n - 8)
  {
    hide Nibble, Down;
    NextFour(x, n);
    NextFour(Down(x), n - 4);
  }

  /** The 32 bits of a register, octet by octet. */
  lemma Octets(x: bv32)
    ensures BitsOf(x, 32) == Octet(x) + (Octet(Down8(x)) + (Octet(Down8(Down8(x))) + Octet(Down8(Down8(Down8(x))))))
  {
    hide Octet, Down8, BitsOf;
    NextEight(x, 32);
    NextEight(Down8(x), 24);
    LastOctets(Down8(Down8(x)));
  }

  lemma LastOctets(x: bv32)
    ensures BitsOf(x, 16) == Octet(x) + Octet(Down8(x))
  {
    hide Octet, Down8, BitsOf;
    NextEight(x, 16);
    NextEight(Down8(x), 8);
  }

  lemma GeneratorOctets()
    ensures Octet(0xedb8_8320) == [false, false, false, false, false, true, false, false]
    ensures Octet(Down8(0xedb8_8320)) == [true, true, false, false, false, false, false, true]
    ensures Octet(Down8(Down8(0xedb8_8320))) == [false, false, false, true, true, true, false, true]
    ensures Octet(Down8(Down8(Down8(0xedb8_8320)))) == [true, false, true, true, false, true, true, true]
  {
  }

  lemma GeneratorBits()
    ensures BitsOf(0xedb8_8320, 32) == Generator()
  {
    Octets(0xedb8_8320);
    GeneratorOctets();
    hide Octet, Down8, BitsOf;
    var g := Generator();
    assert g == g[..8] + (g[8..16] + (g[16..24] + g[24..]));
    assert g[..8] == [false, false, false, false, false, true, false, false];
    assert g[8..16] == [true, true, false, false, false, false, false, true];
    assert g[16..24] == [false, false, false, true, true, true, false, true];
    assert g[24..] == [true, false, true, true, false, true, true, true];
  }

  /** The bits of half a register: the others, and nothing at the top. */
  lemma HalfBits(x: bv32)
    ensures BitsOf(Half(x), 32) == BitsOf(x, 32)[1..] + [false]
  {
    hide Generator;
    LastBit(Half(x), 31);
    TopOfHalf(x);
    assert BitsOf(x, 32)[1..] == BitsOf(Half(x), 31);
  }

  predicate Top(x: bv32, n: nat) {
    if n == 0 then Odd(x) else Top(Half(x), n - 1)
  }

  lemma {:induction false} LastBit(x: bv32, n: nat)
    ensures BitsOf(x, n + 1) == BitsOf(x, n) + [Top(x, n)]
    decreases n
  {
    if n > 0 {
      hide Odd, Half;
      LastBit(Half(x), n - 1);
    }
  }

  lemma TopFour(x: bv32, n: nat)
    requires n >= 4
    ensures Top(x, n) == Top(Down(x), n - 4)
  {
    FourHalves(x);
    hide Half, Odd, Down;
    var a, b, c := Half(x), Half(Half(x)), Half(Half(Half(x)));
    assert Top(x, n) == Top(a, n - 1) == Top(b, n - 2) == Top(c, n - 3) == Top(Half(c), n - 4);
  }

  lemma TopEight(x: bv32, n: nat)
    requires n >= 8
    ensures Top(x, n) == Top(Down8(x), n - 8)
  {
    hide Down, Top;
    TopFour(x, n);
    TopFour(Down(x), n - 4);
  }

  lemma TopOfHalf(x: bv32)
    ensures !Top(Half(x), 31)
  {
    hide Down, Down8, Half, Top;
    TopEight(Half(x), 31);
    TopEight(Down8(Half(x)), 23);
    TopEight(Down8(Down8(Half(x))), 15);
    TopFour(Down8(Down8(Down8(Half(x)))), 7);
    LastThree(x);
  }

  lemma LastThree(x: bv32)
    ensures !Top(Down(Down8(Down8(Down8(Half(x))))), 3)
  {
    var z := Down(Down8(Down8(Down8(Half(x)))));
    assert Top(z, 3) == Top(Half(z), 2) == Top(Half(Half(z)), 1) == Top(Half(Half(Half(z))), 0);
  }

  /** A shift of the register without input. */
  lemma ShiftIsStep(s: bv32)
    ensures BitsOf(Shift(s), 32) == BitStep(BitsOf(s, 32), false)
  {
    ShiftCases(s);
    HalfBits(s);
    GeneratorBits();
    BitsOfSum(Half(s), 0xedb8_8320, 32);
    hide Shift, Half, Sum, Generator;
    assert BitsOf(s, 32)[0] == Odd(s);
  }

  lemma ShiftCases(s: bv32)
    ensures Shift(s) == if Odd(s) then Sum(Half(s), 0xedb8_8320) else Half(s)
  {
  }

  // ---- Bits into the register ----

  function Low(x: bv32): bv32 {
    x & 1
  }

  lemma LowFlips(s: bv32, x: bv32)
    ensures Half(Sum(s, Low(x))) == Half(s) && (Odd(Sum(s, Low(x))) <==> Odd(s) != Odd(x))
  {
  }

  /** Adding one bit and shifting is one step of the division. */
  lemma FedIsStep(s: bv32, x: bv32)
    ensures BitsOf(Shift(Sum(s, Low(x))), 32) == BitStep(BitsOf(s, 32), Odd(x))
  {
    LowFlips(s, x);
    ShiftIsStep(Sum(s, Low(x)));
    hide Half, Sum, Odd, Low, Shift, Generator, Plus;
    assert BitsOf(s, 32) == [Odd(s)] + BitsOf(Half(s), 31);
    assert BitsOf(Sum(s, Low(x)), 32) == [Odd(Sum(s, Low(x)))] + BitsOf(Half(s), 31);
  }

  /** The low `n` bits of `x` fed one by one, lowest first. */
  function FedBits(s: bv32, x: bv32, n: nat): bv32
    decreases n
  {
    if n == 0 then s else FedBits(Shift(Sum(s, Low(x))), Half(x), n - 1)
  }

  lemma {:induction false} FedIsSteps(s: bv32, x: bv32, n: nat)
    ensures BitsOf(FedBits(s, x, n), 32) == BitSteps(BitsOf(s, 32), BitsOf(x, n))
    decreases n
  {
    if n > 0 {
      hide Half, Sum, Odd, Low, Shift, BitStep;
      var bits := BitsOf(x, n);
      FedIsStep(s, x);
      FedIsSteps(Shift(Sum(s, Low(x))), Half(x), n - 1);
      BitStepsFirst(BitsOf(s, 32), bits);
      assert bits[0] == Odd(x) && bits[1..] == BitsOf(Half(x), n - 1);
    }
  }

  function Rest(x: bv32, n: nat): bv32 {
    if n == 0 then x else Rest(Half(x), n - 1)
  }

  /** What has not been fed yet just moves down. */
  lemma ShiftMovesRest(s: bv32, x: bv32)
    ensures Shift(Sum(s, x)) == Sum(Shift(Sum(s, Low(x))), Half(x))
  {
    SumParts(s, x);
    LowFlips(s, x);
    ShiftCases(Sum(s, x));
    ShiftCases(Sum(s, Low(x)));
    SumSwaps(Half(s), Half(x));
    hide Shift, Sum, Half, Odd, Low;
  }

  lemma SumSwaps(a: bv32, b: bv32)
    ensures Sum(Sum(a, b), 0xedb8_8320) == Sum(Sum(a, 0xedb8_8320), b)
  {
  }

  lemma {:induction false} ShiftedIsFed(s: bv32, x: bv32, n: nat)
    ensures Shifted(Sum(s, x), n) == Sum(FedBits(s, x, n), Rest(x, n))
    decreases n
  {
    if n > 0 {
      hide Half, Sum, Low, Shift;
      ShiftMovesRest(s, x);
      ShiftedIsFed(Shift(Sum(s, Low(x))), Half(x), n - 1);
    }
  }

  lemma ByteEnds(byte: Byte)
    ensures Rest(byte as bv32, 8) == 0
  {
    FourHalves(byte as bv32);
    FourHalves(Down(byte as bv32));
    var x := byte as bv32;
    assert Down(Down(x)) == 0;
    hide Half, Down;
    RestFour(x, 8);
    RestFour(Down(x), 4);
  }

  lemma RestFour(x: bv32, n: nat)
    requires n >= 4
    ensures Rest(x, n) == Rest(Down(x), n - 4)
  {
    FourHalves(x);
    hide Half, Down;
    var a, b, c := Half(x), Half(Half(x)), Half(Half(Half(x)));
    assert Rest(x, n) == Rest(a, n - 1) == Rest(b, n - 2) == Rest(c, n - 3) == Rest(Half(c), n - 4);
  }

  lemma SumOfZero(s: bv32)
    ensures Sum(s, 0) == s
  {
  }

  /** A byte into the register is its eight bits, lowest first. */
  lemma ByteIsSteps(s: bv32, byte: Byte)
    ensures BitsOf(CrcStep(s, byte), 32) == BitSteps(BitsOf(s, 32), BitsOf(byte as bv32, 8))
  {
    StepIsShifted(s, byte);
    assert s ^ byte as bv32 == Sum(s, byte as bv32);
    hide Sum, CrcStep;
    ShiftedIsFed(s, byte as bv32, 8);
    ByteEnds(byte);
    SumOfZero(FedBits(s, byte as bv32, 8));
    FedIsSteps(s, byte as bv32, 8);
  }

  lemma {:induction false} BitStepsJoin(r: Poly, a: Poly, b: Poly)
    requires |r| == 32
    ensures BitSteps(r, a + b) == BitSteps(BitSteps(r, a), b)
    decreases |b|
  {
    if b == [] {
      assert a + b == a;
    } else {
      var last := |b| - 1;
      BitStepsJoin(r, a, b[..last]);
      assert (a + b)[..|a + b| - 1] == a + b[..last];
    }
  }

  lemma {:induction false} MessageIsSteps(bytes: seq<Byte>)
    ensures BitsOf(Fold(CrcStep, CRC_START, bytes), 32) == BitSteps(BitsOf(CRC_START, 32), MessageBits(bytes))
  {
    hide BitsOf, CrcStep, BitStep;
    if bytes != [] {
      var front, byte := bytes[..|bytes| - 1], bytes[|bytes| - 1];
      MessageIsSteps(front);
      ByteIsSteps(Fold(CrcStep, CRC_START, front), byte);
      BitStepsJoin(BitsOf(CRC_START, 32), MessageBits(front), BitsOf(byte as bv32, 8));
    }
  }

  lemma OnesOctets()
    ensures var ones := [true, true, true, true, true, true, true, true];
            && Octet(0xffff_ffff) == ones && Octet(Down8(0xffff_ffff)) == ones
            && Octet(Down8(Down8(0xffff_ffff))) == ones && Octet(Down8(Down8(Down8(0xffff_ffff)))) == ones
  {
  }

  lemma OnesBits()
    ensures BitsOf(0xffff_ffff, 32) == seq(32, _ => true)
  {
    Octets(0xffff_ffff);
    OnesOctets();
  }

  lemma CrcInverts(bytes: seq<Byte>)
    ensures Crc(bytes) == Sum(Fold(CrcStep, CRC_START, bytes), 0xffff_ffff)
  {
  }

  /** The CRC of any message is its frame check sequence: the complement of the remainder that long division by
      the generating polynomial leaves of the message with its first 32 bits complemented. */
  lemma CrcIsFrameCheck(bytes: seq<Byte>)
    ensures BitsOf(Crc(bytes), 32) == FrameCheck(bytes)
  {
    OnesBits();
    CrcInverts(bytes);
    MessageIsSteps(bytes);
    hide Crc, BitsOf, Sum, Fold, BitStep, BitSteps, Remainder, MessageBits;
    BitsOfSum(Fold(CrcStep, CRC_START, bytes), 0xffff_ffff, 32);
    DivisionIsSteps(seq(32, _ => true), MessageBits(bytes));
  }
}
