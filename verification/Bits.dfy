/** Fixed-width unsigned integers as bounded naturals, and the bitwise operators on them. */
module Bits {
  const TWO8: nat := 0x100
  const TWO16: nat := 0x1_0000
  const TWO32: nat := 0x1_0000_0000
  const TWO48: nat := 0x1_0000_0000_0000
  const TWO64: nat := 0x1_0000_0000_0000_0000

  type U8 = x: nat | x < TWO8
  type U16 = x: nat | x < TWO16
  type U32 = x: nat | x < TWO32
  type U64 = x: nat | x < TWO64

  const MAX_U32: U32 := TWO32 - 1
  const MAX_U64: U64 := TWO64 - 1

  function Pow2(k: nat): (p: nat)
    ensures p > 0
  {
    if k == 0 then 1 else 2 * Pow2(k - 1)
  }

  /** Exclusive or, bit by bit from the low end. */
  function Xor(a: nat, b: nat): (r: nat)
    decreases a + b
  {
    if a == 0 && b == 0 then 0 else 2 * Xor(a / 2, b / 2) + (if a % 2 != b % 2 then 1 else 0)
  }

  /** Inclusive or, bit by bit from the low end. */
  function Or(a: nat, b: nat): (r: nat)
    decreases a + b
  {
    if a == 0 && b == 0 then 0 else 2 * Or(a / 2, b / 2) + (if a % 2 == 1 || b % 2 == 1 then 1 else 0)
  }

  /** Bit `i` of a number. */
  predicate BitAt(x: nat, i: nat) {
    x / Pow2(i) % 2 == 1
  }

  lemma BitAtNext(x: nat, i: nat)
    ensures BitAt(x, 0) <==> x % 2 == 1
    ensures BitAt(x, i + 1) <==> BitAt(x / 2, i)
  {
    DivTwice(x, 2, Pow2(i));
  }

  /** The inclusive or has exactly the bits that either number has. */
  lemma {:induction false} OrBits(a: nat, b: nat, i: nat)
    ensures BitAt(Or(a, b), i) <==> BitAt(a, i) || BitAt(b, i)
    decreases i
  {
    if i == 0 {
      BitAtNext(a, 0); BitAtNext(b, 0); BitAtNext(Or(a, b), 0);
    } else {
      BitAtNext(a, i - 1); BitAtNext(b, i - 1); BitAtNext(Or(a, b), i - 1);
      OrBits(a / 2, b / 2, i - 1);
      assert Or(a, b) / 2 == Or(a / 2, b / 2);
    }
  }

  /** The exclusive or has exactly the bits in which the numbers differ. */
  lemma {:induction false} XorBits(a: nat, b: nat, i: nat)
    ensures BitAt(Xor(a, b), i) <==> BitAt(a, i) != BitAt(b, i)
    decreases i
  {
    if i == 0 {
      BitAtNext(a, 0); BitAtNext(b, 0); BitAtNext(Xor(a, b), 0);
    } else {
      BitAtNext(a, i - 1); BitAtNext(b, i - 1); BitAtNext(Xor(a, b), i - 1);
      XorBits(a / 2, b / 2, i - 1);
      assert Xor(a, b) / 2 == Xor(a / 2, b / 2);
    }
  }

  lemma {:induction false} XorBound(a: nat, b: nat, k: nat)
    requires a < Pow2(k) && b < Pow2(k)
    ensures Xor(a, b) < Pow2(k)
  {
    if k > 0 {
      XorBound(a / 2, b / 2, k - 1);
    }
  }

  lemma Pow2Of64()
    ensures Pow2(32) == TWO32 && Pow2(64) == TWO64
  {
    Pow2Of16();
    Pow2Double(16);
    Pow2Double(32);
  }

  lemma Pow2Of16()
    ensures Pow2(16) == TWO16
  {
    assert Pow2(4) == 16;
    Pow2Double(4);
    Pow2Double(8);
  }

  lemma Pow2Double(n: nat)
    ensures Pow2(n + n) == Pow2(n) * Pow2(n)
  {
    Pow2Sum(n, n);
  }

  lemma {:induction false} Pow2Sum(a: nat, b: nat)
    ensures Pow2(a + b) == Pow2(a) * Pow2(b)
  {
    if b > 0 {
      Pow2Sum(a, b - 1);
      assert Pow2(a + b) == 2 * Pow2(a + b - 1);
    }
  }

  function Xor64(a: U64, b: U64): U64 {
    Pow2Of64();
    XorBound(a, b, 64);
    Xor(a, b)
  }

  /** A changed operand changes the exclusive or. */
  lemma {:induction false} XorInjective(a: nat, b: nat, c: nat)
    requires b != c
    ensures Xor(a, b) != Xor(a, c)
    decreases a + b + c
  {
    if b / 2 != c / 2 {
      XorInjective(a / 2, b / 2, c / 2);
    }
  }

  lemma {:induction false} XorCommutes(a: nat, b: nat)
    ensures Xor(a, b) == Xor(b, a)
    decreases a + b
  {
    if a != 0 || b != 0 {
      XorCommutes(a / 2, b / 2);
    }
  }

  lemma {:induction false} XorAssoc(a: nat, b: nat, c: nat)
    ensures Xor(Xor(a, b), c) == Xor(a, Xor(b, c))
    decreases a + b + c
  {
    if a + b + c > 0 {
      XorAssoc(a / 2, b / 2, c / 2);
    }
  }

  lemma {:induction false} XorSelf(a: nat)
    ensures Xor(a, a) == 0
  {
    if a > 0 {
      XorSelf(a / 2);
    }
  }

  lemma XorLowBit(a: nat, b: nat, p: nat, q: nat)
    requires p < 2 && q < 2
    ensures Xor(2 * a + p, 2 * b + q) == 2 * Xor(a, b) + (if p != q then 1 else 0)
  {
    assert (2 * a + p) / 2 == a && (2 * b + q) / 2 == b;
  }

  function Shifted(high: nat, k: nat): nat {
    if k == 0 then high else 2 * Shifted(high, k - 1)
  }

  lemma {:induction false} ShiftedIsProduct(high: nat, k: nat)
    ensures Shifted(high, k) == high * Pow2(k)
  {
    if k > 0 {
      ShiftedIsProduct(high, k - 1);
      TwiceProduct(high, Pow2(k - 1));
    }
  }

  lemma TwiceProduct(a: nat, b: nat)
    ensures a * (2 * b) == 2 * (a * b)
  {
  }

  lemma LowHalf(k: nat, a: nat)
    requires k > 0 && a < Pow2(k)
    ensures a / 2 < Pow2(k - 1)
  {
  }

  lemma XorSharedStep(a: nat, b: nat, p: nat, q: nat, s: nat)
    requires p < 2 && q < 2 && Xor(a + s, b + s) == Xor(a, b)
    ensures Xor(2 * a + p + 2 * s, 2 * b + q + 2 * s) == Xor(2 * a + p, 2 * b + q)
  {
    hide Xor;
    XorLowBit(a, b, p, q);
    XorLowBit(a + s, b + s, p, q);
  }

  /** What two numbers share above bit `k` cancels. */
  lemma {:induction false} XorShared(k: nat, a: nat, b: nat, high: nat)
    requires a < Pow2(k) && b < Pow2(k)
    ensures Xor(a + Shifted(high, k), b + Shifted(high, k)) == Xor(a, b)
  {
    if k == 0 {
      XorSelf(high);
    } else {
      hide Xor;
      LowHalf(k, a);
      LowHalf(k, b);
      hide Pow2;
      XorShared(k - 1, a / 2, b / 2, high);
      XorSharedStep(a / 2, b / 2, a % 2, b % 2, Shifted(high, k - 1));
    }
  }

  /** What only one number has above bit `k` stays. */
  lemma {:induction false} XorAbove(k: nat, a: nat, b: nat, high: nat)
    requires a < Pow2(k) && b < Pow2(k)
    ensures Xor(a + Shifted(high, k), b) == Xor(a, b) + Shifted(high, k)
  {
    if k == 0 {
      XorZero(high);
    } else {
      hide Xor;
      LowHalf(k, a);
      LowHalf(k, b);
      hide Pow2;
      XorAbove(k - 1, a / 2, b / 2, high);
      XorAboveStep(a / 2, b / 2, a % 2, b % 2, Shifted(high, k - 1));
    }
  }

  lemma {:induction false} XorZero(a: nat)
    ensures Xor(a, 0) == a
  {
    if a > 0 {
      XorZero(a / 2);
    }
  }

  lemma XorAboveStep(a: nat, b: nat, p: nat, q: nat, s: nat)
    requires p < 2 && q < 2 && Xor(a + s, b) == Xor(a, b) + s
    ensures Xor(2 * a + p + 2 * s, 2 * b + q) == Xor(2 * a + p, 2 * b + q) + 2 * s
  {
    hide Xor;
    XorLowBit(a, b, p, q);
    XorLowBit(a + s, b, p, q);
  }

  /** The exclusive or of all the words. */
  function XorAll(seed: U64, words: seq<U64>): U64 {
    if words == [] then seed else Xor64(XorAll(seed, words[..|words| - 1]), words[|words| - 1])
  }

  /** One changed word changes the exclusive or of all of them. */
  lemma {:induction false} XorAllDetects(seed: U64, words: seq<U64>, i: nat, w: U64)
    requires i < |words| && words[i] != w
    ensures XorAll(seed, words) != XorAll(seed, words[i := w])
  {
    var last := |words| - 1;
    var other := words[i := w];
    if i == last {
      assert other[..last] == words[..last];
      XorInjective(XorAll(seed, words[..last]), words[last], w);
    } else {
      XorAllDetects(seed, words[..last], i, w);
      assert other[..last] == words[..last][i := w];
      XorCommutes(XorAll(seed, words[..last]), words[last]);
      XorCommutes(XorAll(seed, other[..last]), words[last]);
      XorInjective(words[last], XorAll(seed, words[..last]), XorAll(seed, other[..last]));
    }
  }

  function Lo(x: U64): U32 { x % TWO32 }
  function Hi(x: U64): U32 { x / TWO32 }
  function Join(lo: U32, hi: U32): U64 { hi * TWO32 + lo }

  lemma JoinSplit(x: U64)
    ensures Join(Lo(x), Hi(x)) == x
  {
  }

  lemma SplitJoin(lo: U32, hi: U32)
    ensures Lo(Join(lo, hi)) == lo && Hi(Join(lo, hi)) == hi
  {
  }

  // ---- Division by a positive divisor ----

  lemma {:induction false} MulAtLeast(k: int, d: int)
    requires k >= 1 && d > 0
    ensures k * d >= d
  {
    if k > 1 {
      MulAtLeast(k - 1, d);
      assert k * d == (k - 1) * d + d;
    }
  }

  lemma DivUnique(x: int, d: int, q: int, r: int)
    requires d > 0 && x == q * d + r && 0 <= r < d
    ensures x / d == q && x % d == r
  {
    var q0, r0 := x / d, x % d;
    assert x == q0 * d + r0;
    assert q * d - q0 * d == (q - q0) * d;
    if q > q0 {
      MulAtLeast(q - q0, d);
    } else if q < q0 {
      MulAtLeast(q0 - q, d);
    }
  }

  lemma MulMono(a: int, b: int, k: nat)
    requires a >= b
    ensures a * k >= b * k
  {
  }

  lemma DivAtLeast(x: nat, d: nat, k: nat)
    requires d > 0 && k * d <= x
    ensures x / d >= k
  {
    var q := x / d;
    assert x == q * d + x % d;
    if q < k {
      assert k * d == q * d + (k - q) * d;
      MulAtLeast(k - q, d);
    }
  }

  lemma DivBelow(x: nat, d: nat, k: nat)
    requires d > 0 && x < k * d
    ensures x / d < k
  {
    var q := x / d;
    assert x == q * d + x % d;
    if q >= k {
      MulMono(q, k, d);
    }
  }

  lemma MultipleMod(n: int, d: int)
    requires d > 0
    ensures (n * d) % d == 0 && (n * d) / d == n
  {
    DivUnique(n * d, d, n, 0);
  }

  /** Splitting the quotient: dividing by a product is dividing twice. */
  lemma DivTwice(x: nat, a: nat, b: nat)
    requires a > 0 && b > 0
    ensures a * b > 0 && x / (a * b) == x / a / b && x % (a * b) == (x / a % b) * a + x % a
  {
    DigitsOf(x, a, b, x / a, x % a, x / a / b, x / a % b);
  }

  lemma DigitsOf(x: nat, a: nat, b: nat, q: nat, r: nat, q': nat, r': nat)
    requires a > 0 && b > 0 && r < a && r' < b
    requires x == q * a + r && q == q' * b + r'
    ensures a * b > 0 && x / (a * b) == q' && x % (a * b) == r' * a + r
  {
    Regroup(q', a, b, r', r);
    MulMono(b - 1, r', a);
    DivUnique(x, a * b, q', r' * a + r);
  }

  lemma Regroup(q: nat, a: nat, b: nat, r: nat, s: nat)
    requires a > 0 && b > 0
    ensures (q * b + r) * a + s == q * (a * b) + (r * a + s)
    ensures a * b == (b - 1) * a + a > 0
  {
    Swap3(q, b, a);
    Distribute(q * b, r, a);
    Distribute(b - 1, 1, a);
  }

  lemma Swap3(a: nat, b: nat, c: nat)
    ensures (a * b) * c == a * (c * b)
  {
  }

  lemma Distribute(a: nat, b: nat, c: nat)
    ensures (a + b) * c == a * c + b * c
  {
  }
}
