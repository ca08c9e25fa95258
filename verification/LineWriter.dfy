/** Building one line of text in a bounded buffer, and reading its fixed-width fields back. */
module LineWriter {
  import B = Bits
  import opened Options
  import opened Checksums

  // ---- Hexadecimal ----

  const DIGITS := "0123456789abcdef"

  function DigitOf(n: nat): char
    requires n < 16
  {
    DIGITS[n]
  }

  function NibbleOf(c: char): (n: Option<nat>)
    ensures n.Some? ==> n.value < 16 && DigitOf(n.value) == c
  {
    if '0' <= c <= '9' then Some((c - '0') as nat)
    else if 'a' <= c <= 'f' then Some((c - 'a') as nat + 10)
    else None
  }

  lemma NibbleOfDigit(n: nat)
    requires n < 16
    ensures NibbleOf(DigitOf(n)) == Some(n)
  {
  }

  function Pow16(k: nat): (p: nat)
    ensures p > 0
  {
    if k == 0 then 1 else 16 * Pow16(k - 1)
  }

  /** The low `width` hexadecimal digits, highest first. */
  function Hex(value: nat, width: nat): (s: string)
    ensures |s| == width
  {
    seq(width, i requires 0 <= i < width => DigitOf(value / Pow16(width - 1 - i) % 16))
  }

  /** The number that lower-case hexadecimal digits spell. */
  function UnHex(s: string): Option<nat> {
    if s == "" then Some(0)
    else
      match (UnHex(s[..|s| - 1]), NibbleOf(s[|s| - 1]))
      case (Some(high), Some(low)) => Some(high * 16 + low)
      case _ => None
  }

  lemma DivPow(value: nat, k: nat)
    ensures value / 16 / Pow16(k) == value / Pow16(k + 1)
  {
    B.DivTwice(value, 16, Pow16(k));
  }

  /** All digits but the last are the digits of a sixteenth. */
  lemma HexInit(value: nat, width: nat)
    ensures Hex(value, width + 1) == Hex(value / 16, width) + [DigitOf(value % 16)]
  {
    forall i | 0 <= i < width
      ensures Hex(value, width + 1)[i] == Hex(value / 16, width)[i]
    {
      DivPow(value, width - 1 - i);
    }
    assert Pow16(0) == 1;
  }

  lemma {:induction false} UnHexOfHex(value: nat, width: nat)
    requires value < Pow16(width)
    ensures UnHex(Hex(value, width)) == Some(value)
    decreases width
  {
    if width > 0 {
      UnHexOfHex(value / 16, width - 1);
      NibbleOfDigit(value % 16);
      HexInit(value, width - 1);
      LastOff(Hex(value / 16, width - 1), DigitOf(value % 16));
    }
  }

  lemma LastOff(front: string, c: char)
    ensures (front + [c])[..|front|] == front
  {
  }

  /** The two digits of a byte. */
  function ByteText(b: Byte): (s: string)
    ensures |s| == 2
  {
    [DigitOf(b as nat / 16), DigitOf(b as nat % 16)]
  }

  lemma ByteTextIsHex(b: Byte)
    ensures Hex(b as nat, 2) == ByteText(b)
  {
    TwoDigits(b as nat);
  }

  lemma TwoDigits(n: nat)
    requires n < 256
    ensures Hex(n, 2) == [DigitOf(n / 16), DigitOf(n % 16)]
  {
    HexInit(n, 1);
    HexInit(n / 16, 0);
    assert Hex(n / 16 / 16, 0) == "" && n / 16 % 16 == n / 16;
  }

  function HexBytes(bytes: seq<Byte>): (s: string)
    ensures |s| == 2 * |bytes|
  {
    if bytes == [] then "" else HexBytes(bytes[..|bytes| - 1]) + ByteText(bytes[|bytes| - 1])
  }

  // ---- The writer ----

  class Writer {
    const out: array<char>
    var length: nat
    var valid: bool
    /** Everything the caller asked to be written. */
    ghost var text: string

    ghost predicate Valid()
      reads this, out
    {
      && out.Length > 0 && length < out.Length && out[length] == '\0'
      && (valid <==> |text| < out.Length)
      && (valid ==> out[..length] == text)
    }

    constructor (capacity: nat)
      requires capacity > 0
      ensures Valid() && fresh(out) && text == "" && valid && out.Length == capacity
    {
      out := new char[capacity](_ => '\0');
      length, valid, text := 0, true, "";
    }

    method Character(value: char)
      requires Valid()
      modifies this, out
      ensures Valid() && text == old(text) + [value]
    {
      text := text + [value];
      if !valid || length + 1 >= out.Length {
        valid := false;
        return;
      }
      out[length] := value;
      length := length + 1;
      out[length] := '\0';
    }

    method Literal(value: string)
      requires Valid()
      modifies this, out
      ensures Valid() && text == old(text) + value
    {
      for i := 0 to |value|
        invariant Valid() && text == old(text) + value[..i]
      {
        Character(value[i]);
        assert value[..i + 1] == value[..i] + [value[i]];
      }
      assert value[..|value|] == value;
    }

    method Number(value: nat, width: nat)
      requires Valid()
      modifies this, out
      ensures Valid() && text == old(text) + Hex(value, width)
    {
      var i := width;
      while i > 0
        invariant 0 <= i <= width && Valid()
        invariant text == old(text) + Hex(value, width)[..width - i]
      {
        Character(DigitOf(value / Pow16(i - 1) % 16));
        i := i - 1;
        assert Hex(value, width)[..width - i] == Hex(value, width)[..width - i - 1] + [Hex(value, width)[width - i - 1]];
      }
      assert Hex(value, width)[..width] == Hex(value, width);
    }

    method Bytes(value: seq<Byte>)
      requires Valid()
      modifies this, out
      ensures Valid() && text == old(text) + HexBytes(value)
    {
      for i := 0 to |value|
        invariant Valid() && text == old(text) + HexBytes(value[..i])
      {
        Number(value[i] as nat, 2);
        ByteTextIsHex(value[i]);
        assert value[..i + 1][..i] == value[..i];
      }
      assert value[..|value|] == value;
    }
  }

  // ---- Lines as fields ----

  /** What stands at a place of a line: fixed text, or so many digits. */
  datatype Slot = Word(text: string) | Digits(width: nat)

  function One(slot: Slot, value: nat): (s: string)
    ensures |s| == SlotWidth(slot)
  {
    match slot
    case Word(t) => t
    case Digits(w) => Hex(value, w)
  }

  function SlotWidth(slot: Slot): nat {
    match slot
    case Word(t) => |t|
    case Digits(w) => w
  }

  /** The line, with one number for every slot. */
  function Render(slots: seq<Slot>, values: seq<nat>): string
    requires |slots| == |values|
    decreases values
  {
    if values == [] then "" else One(slots[0], values[0]) + Render(slots[1..], values[1..])
  }

  function WidthFrom(slots: seq<Slot>, k: nat): nat
    requires k <= |slots|
    decreases |slots| - k
  {
    if k == |slots| then 0 else SlotWidth(slots[k]) + WidthFrom(slots, k + 1)
  }

  lemma {:induction false} RenderWidth(slots: seq<Slot>, values: seq<nat>, k: nat)
    requires k <= |slots| == |values|
    ensures |Render(slots[k..], values[k..])| == WidthFrom(slots, k)
    decreases |slots| - k
  {
    if k < |slots| {
      RenderWidth(slots, values, k + 1);
      assert slots[k..][1..] == slots[k + 1..] && values[k..][1..] == values[k + 1..];
    }
  }

  /** Reads the fields; what follows them is left over. */
  function Read(slots: seq<Slot>, line: string): (r: Option<(seq<nat>, string)>)
    ensures r.Some? ==> |r.value.0| == |slots|
    decreases |line|, |slots|
  {
    if slots == [] then Some(([], line))
    else
      var w := SlotWidth(slots[0]);
      if w > |line| then None
      else
        match (Field(slots[0], line[..w]), Read(slots[1..], line[w..]))
        case (Some(v), Some((vs, rest))) => Some(([v] + vs, rest))
        case _ => None
  }

  /** One field: fixed text reads as zero. */
  function Field(slot: Slot, text: string): Option<nat> {
    match slot
    case Word(t) => if text == t then Some(0) else None
    case Digits(_) => UnHex(text)
  }

  predicate FieldFits(slot: Slot, value: nat) {
    match slot
    case Word(_) => value == 0
    case Digits(w) => value < Pow16(w)
  }

  predicate Fits(slots: seq<Slot>, values: seq<nat>) {
    |slots| == |values| && forall i :: 0 <= i < |slots| ==> FieldFits(slots[i], values[i])
  }

  /** Reading a rendered line gives its numbers back, whatever follows it. */
  lemma {:induction false} ReadRender(slots: seq<Slot>, values: seq<nat>, rest: string)
    requires Fits(slots, values)
    ensures Read(slots, Render(slots, values) + rest) == Some((values, rest))
    decreases values
  {
    if values == [] {
      assert Render(slots, values) + rest == rest;
    } else {
      SplitLine(One(slots[0], values[0]), Render(slots[1..], values[1..]), rest);
      ReadRender(slots[1..], values[1..], rest);
      FieldReads(slots[0], values[0]);
      assert [values[0]] + values[1..] == values;
    }
  }

  lemma SplitLine(first: string, tail: string, rest: string)
    ensures (first + tail + rest)[..|first|] == first && (first + tail + rest)[|first|..] == tail + rest
  {
  }

  lemma FieldReads(slot: Slot, value: nat)
    requires FieldFits(slot, value)
    ensures Field(slot, One(slot, value)) == Some(value)
  {
    if slot.Digits? {
      UnHexOfHex(value, slot.width);
    }
  }
}
