/** A byte between its bits and its value. */
module Bytes {
  lemma NextByte(b: bv8)
    requires b < 255
    ensures (b + 1) as nat == b as nat + 1
  {
  }

  lemma BelowLast(b: bv8)
    ensures b as nat < 255 <==> b < 255
  {
  }

  lemma ZeroByte()
    ensures (0 as bv8) as nat == 0
  {
  }

  lemma BitsBack(b: bv8)
    ensures (b as nat) as bv8 == b
  {
  }

  /** Every value of a byte is reached by counting up from zero. */
  lemma {:induction false} ByteOf(x: nat) returns (b: bv8)
    requires x < 256
    ensures b as nat == x
  {
    if x == 0 {
      b := 0;
      ZeroByte();
    } else {
      var p := ByteOf(x - 1);
      BelowLast(p);
      NextByte(p);
      b := p + 1;
    }
  }

  lemma ByteBack(x: nat)
    requires x < 256
    ensures (x as bv8) as nat == x
  {
    var b := ByteOf(x);
    BitsBack(b);
  }
}
