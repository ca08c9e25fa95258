/** Display registers whose index or whose fields moved between the two hardware generations. */
module DcnRegisters {
  // ---- Indices ----

  datatype Entry = Entry(from: nat, to: nat, moved: bool)
  datatype Mapping = Pass(index: nat) | Move(index: nat) | Drop

  predicate Sorted(table: seq<Entry>) {
    forall i, j :: 0 <= i < j < |table| ==> table[i].from < table[j].from
  }

  /** Binary search: the entry of the index decides, and an index without one passes unchanged. */
  method Translate(table: seq<Entry>, index: nat) returns (r: Mapping)
    requires Sorted(table)
    ensures forall e :: e in table && e.from == index ==> r == if e.moved then Move(e.to) else Drop
    ensures (forall e :: e in table ==> e.from != index) ==> r == Pass(index)
  {
    var lo, hi := 0, |table|;
    while lo < hi
      invariant 0 <= lo <= hi <= |table|
      invariant forall i :: 0 <= i < lo ==> table[i].from < index
      invariant forall i :: hi <= i < |table| ==> table[i].from >= index
    {
      var mid := lo + (hi - lo) / 2;
      if table[mid].from < index {
        lo := mid + 1;
      } else {
        hi := mid;
      }
    }
    if lo < |table| && table[lo].from == index {
      return if table[lo].moved then Move(table[lo].to) else Drop;
    }
    return Pass(index);
  }

  // ---- Fields ----

  /** A field of `width` bits that stands at `fromShift` in the old layout and at `toShift` in the new. */
  datatype FieldMove = FieldMove(fromShift: bv8, width: bv8, toShift: bv8)

  /** Shifts of a 32-bit word are defined below 32 only. */
  predicate Shiftable(fields: seq<FieldMove>) {
    forall i :: 0 <= i < |fields| ==> fields[i].fromShift < 32 && fields[i].toShift < 32
  }

  predicate Bit(x: bv32, k: bv8) {
    k < 32 && (x >> k) & 1 == 1
  }

  function Shl(x: bv32, n: bv8): bv32
    requires n < 32
  {
    x << n
  }

  function Shr(x: bv32, n: bv8): bv32
    requires n < 32
  {
    x >> n
  }

  function Both(x: bv32, y: bv32): bv32 { x & y }

  function Either(x: bv32, y: bv32): bv32 { x | y }

  function Except(x: bv32, y: bv32): bv32 { x & !y }

  function FieldMask(shift: bv8, width: bv8): bv32
    requires shift < 32
  {
    Shl(if width >= 32 then 0xffff_ffff else (1 << width) - 1, shift)
  }

  function PutField(f: FieldMove, value: bv32, word: bv32): bv32
    requires f.fromShift < 32 && f.toShift < 32
  {
    Either(Except(word, FieldMask(f.toShift, f.width)),
           Shl(Both(Shr(value, f.fromShift), FieldMask(0, f.width)), f.toShift))
  }

  function GetField(f: FieldMove, value: bv32, word: bv32): bv32
    requires f.fromShift < 32 && f.toShift < 32
  {
    Either(word, Shl(Both(Shr(value, f.toShift), FieldMask(0, f.width)), f.fromShift))
  }

  /** Whether bit `k` lies in a field of the given place and width. */
  predicate In(k: bv8, shift: bv8, width: bv8) {
    shift <= k < 32 && k - shift < width
  }

  /** The place in the other layout of bit `k` of a field that moved there from `from` to `to`. */
  function Home(k: bv8, to: bv8, from: bv8): bv8 { k - to + from }

  lemma MaskBit(shift: bv8, width: bv8, k: bv8)
    requires shift < 32 && k < 32
    ensures Bit(FieldMask(shift, width), k) <==> In(k, shift, width)
  {
  }

  lemma EitherBit(x: bv32, y: bv32, k: bv8)
    ensures Bit(Either(x, y), k) <==> Bit(x, k) || Bit(y, k)
  {
  }

  lemma BothBit(x: bv32, y: bv32, k: bv8)
    ensures Bit(Both(x, y), k) <==> Bit(x, k) && Bit(y, k)
  {
  }

  lemma AndNotBit(x: bv32, y: bv32, k: bv8)
    ensures Bit(x & !y, k) <==> Bit(x, k) && !Bit(y, k)
  {
  }

  lemma ExceptBit(x: bv32, y: bv32, k: bv8)
    ensures Bit(Except(x, y), k) <==> Bit(x, k) && !Bit(y, k)
  {
    hide Bit;
    AndNotBit(x, y, k);
  }

  lemma LeftBit(x: bv32, n: bv8, k: bv8)
    requires n < 32 && k < 32
    ensures Bit(x << n, k) <==> n <= k && Bit(x, k - n)
  {
  }

  lemma ShlBit(x: bv32, n: bv8, k: bv8)
    requires n < 32 && k < 32
    ensures Bit(Shl(x, n), k) <==> n <= k && Bit(x, k - n)
  {
    hide Bit;
    LeftBit(x, n, k);
  }

  lemma RightBit(x: bv32, n: bv8, k: bv8)
    requires n < 32 && k < 32
    ensures Bit(x >> n, k) <==> Bit(x, k + n)
  {
  }

  lemma ShrBit(x: bv32, n: bv8, k: bv8)
    requires n < 32 && k < 32
    ensures Bit(Shr(x, n), k) <==> Bit(x, k + n)
  {
    hide Bit;
    RightBit(x, n, k);
  }

  lemma HomeIs(k: bv8, to: bv8, from: bv8)
    ensures Home(k, to, from) == k - to + from
  {
  }

  lemma InMoved(k: bv8, shift: bv8, width: bv8)
    requires k < 32
    ensures In(k, shift, width) <==> shift <= k && In(k - shift, 0, width)
  {
  }

  /** A cut-out field, put elsewhere: bit `k` comes from as far into the field as it lies in the new place. */
  lemma MovedBit(value: bv32, from: bv8, width: bv8, to: bv8, k: bv8)
    requires from < 32 && to < 32 && k < 32
    ensures Bit(Shl(Both(Shr(value, from), FieldMask(0, width)), to), k) <==>
            In(k, to, width) && Bit(value, Home(k, to, from))
  {
    hide Bit, In, Shl, Shr, Both, FieldMask, Home;
    var mask := FieldMask(0, width);
    ShlBit(Both(Shr(value, from), mask), to, k);
    InMoved(k, to, width);
    HomeIs(k, to, from);
    if to <= k {
      BothBit(Shr(value, from), mask, k - to);
      ShrBit(value, from, k - to);
      MaskBit(0, width, k - to);
    }
  }

  lemma PutBit(f: FieldMove, value: bv32, word: bv32, k: bv8)
    requires f.fromShift < 32 && f.toShift < 32 && k < 32
    ensures Bit(PutField(f, value, word), k) <==>
            if In(k, f.toShift, f.width) then Bit(value, Home(k, f.toShift, f.fromShift)) else Bit(word, k)
  {
    hide Bit, In, Home, Shl, Shr, Both, Either, Except, FieldMask;
    var mask := FieldMask(f.toShift, f.width);
    EitherBit(Except(word, mask), Shl(Both(Shr(value, f.fromShift), FieldMask(0, f.width)), f.toShift), k);
    ExceptBit(word, mask, k);
    MaskBit(f.toShift, f.width, k);
    MovedBit(value, f.fromShift, f.width, f.toShift, k);
  }

  lemma GetBit(f: FieldMove, value: bv32, word: bv32, k: bv8)
    requires f.fromShift < 32 && f.toShift < 32 && k < 32
    ensures Bit(GetField(f, value, word), k) <==>
            Bit(word, k) || (In(k, f.fromShift, f.width) && Bit(value, Home(k, f.fromShift, f.toShift)))
  {
    hide Bit, In, Home, Shl, Shr, Both, Either, FieldMask;
    EitherBit(word, Shl(Both(Shr(value, f.toShift), FieldMask(0, f.width)), f.fromShift), k);
    MovedBit(value, f.toShift, f.width, f.fromShift, k);
  }

  lemma OneMoreBit(x: bv32, y: bv32, n: bv8)
    requires n < 32
    requires Both(x, FieldMask(0, n)) == Both(y, FieldMask(0, n)) && (Bit(x, n) <==> Bit(y, n))
    ensures Both(x, FieldMask(0, n + 1)) == Both(y, FieldMask(0, n + 1))
  {
  }

  lemma {:induction false} SameBitsBelow(x: bv32, y: bv32, n: bv8)
    requires n <= 32 && forall k: bv8 :: k < n ==> (Bit(x, k) <==> Bit(y, k))
    ensures Both(x, FieldMask(0, n)) == Both(y, FieldMask(0, n))
    decreases n
  {
    if n > 0 {
      SameBitsBelow(x, y, n - 1);
      OneMoreBit(x, y, n - 1);
    }
  }

  /** The fields moved one after the other into the current word. */
  function Written(fields: seq<FieldMove>, value: bv32, current: bv32): bv32
    requires Shiftable(fields)
  {
    if fields == [] then current
    else
      var last := |fields| - 1;
      PutField(fields[last], value, Written(fields[..last], value, current))
  }

  /** The fields collected one after the other. */
  function Collected(fields: seq<FieldMove>, value: bv32): bv32
    requires Shiftable(fields)
  {
    if fields == [] then 0
    else
      var last := |fields| - 1;
      GetField(fields[last], value, Collected(fields[..last], value))
  }

  method RemapWrite(fields: seq<FieldMove>, value: bv32, current: bv32) returns (out: bv32)
    requires Shiftable(fields)
    ensures out == Written(fields, value, current)
  {
    out := current;
    for i := 0 to |fields|
      invariant out == Written(fields[..i], value, current)
    {
      assert fields[..i + 1][..i] == fields[..i];
      out := PutField(fields[i], value, out);
    }
    assert fields[..|fields|] == fields;
  }

  method RemapRead(fields: seq<FieldMove>, value: bv32) returns (out: bv32)
    requires Shiftable(fields)
    ensures out == Collected(fields, value)
  {
    out := 0;
    for i := 0 to |fields|
      invariant out == Collected(fields[..i], value)
    {
      assert fields[..i + 1][..i] == fields[..i];
      out := GetField(fields[i], value, out);
    }
    assert fields[..|fields|] == fields;
  }

  predicate InOld(f: FieldMove, k: bv8) { In(k, f.fromShift, f.width) }
  predicate InNew(f: FieldMove, k: bv8) { In(k, f.toShift, f.width) }

  /** Every field lies whole in both words. */
  predicate Whole(fields: seq<FieldMove>) {
    Shiftable(fields) &&
    forall i :: 0 <= i < |fields| ==> fields[i].width <= 32 - fields[i].fromShift && fields[i].width <= 32 - fields[i].toShift
  }

  ghost predicate OldApart(fields: seq<FieldMove>) {
    forall i, j, k: bv8 :: 0 <= i < j < |fields| && InOld(fields[i], k) ==> !InOld(fields[j], k)
  }

  ghost predicate NewApart(fields: seq<FieldMove>) {
    forall i, j, k: bv8 :: 0 <= i < j < |fields| && InNew(fields[i], k) ==> !InNew(fields[j], k)
  }

  /** A bit outside every field keeps its current value. */
  lemma {:induction false} WriteKeeps(fields: seq<FieldMove>, value: bv32, current: bv32, k: bv8)
    requires Shiftable(fields) && k < 32
    requires forall i :: 0 <= i < |fields| ==> !InNew(fields[i], k)
    ensures Bit(Written(fields, value, current), k) <==> Bit(current, k)
  {
    hide Bit, In, Home, PutField;
    if fields != [] {
      var last := |fields| - 1;
      WriteKeeps(fields[..last], value, current, k);
      PutBit(fields[last], value, Written(fields[..last], value, current), k);
      assert !InNew(fields[last], k);
    }
  }

  /** Among overlapping fields the last one wins; its bit comes from its place in the old layout. */
  lemma {:induction false} LastFieldWins(fields: seq<FieldMove>, value: bv32, current: bv32, k: bv8, i: nat)
    requires Shiftable(fields) && k < 32
    requires i < |fields| && InNew(fields[i], k) && forall j :: i < j < |fields| ==> !InNew(fields[j], k)
    ensures Bit(Written(fields, value, current), k) <==> Bit(value, Home(k, fields[i].toShift, fields[i].fromShift))
  {
    hide Bit, In, Home, PutField;
    var last := |fields| - 1;
    var before := fields[..last];
    PutBit(fields[last], value, Written(before, value, current), k);
    if i < last {
      LastFieldWins(before, value, current, k, i);
      assert !InNew(fields[last], k);
    }
  }

  /** A bit is collected exactly when some field that holds it is set there. */
  lemma {:induction false} CollectedBit(fields: seq<FieldMove>, value: bv32, k: bv8)
    requires Shiftable(fields) && k < 32
    ensures Bit(Collected(fields, value), k) <==>
            exists i :: 0 <= i < |fields| && InOld(fields[i], k) && Bit(value, Home(k, fields[i].fromShift, fields[i].toShift))
  {
    if fields == [] {
      assert !Bit(0, k);
    } else {
      hide Bit, In, Home, GetField;
      var last := |fields| - 1;
      var before := fields[..last];
      CollectedBit(before, value, k);
      GetBit(fields[last], value, Collected(before, value), k);
      if i :| 0 <= i < last && InOld(before[i], k) && Bit(value, Home(k, before[i].fromShift, before[i].toShift)) {
        assert InOld(fields[i], k);
      }
    }
  }

  lemma Moves(k: bv8, from: bv8, width: bv8, to: bv8)
    requires from < 32 && to < 32 && width <= 32 - from && width <= 32 - to && In(k, from, width)
    ensures k < 32 && Home(k, from, to) < 32 && In(Home(k, from, to), to, width)
  {
  }

  lemma MovesBack(k: bv8, from: bv8, to: bv8)
    requires k < 32 && from < 32 && to < 32
    ensures Home(Home(k, from, to), to, from) == k
  {
  }

  /** A field that lies whole in both words moves there and back without loss. */
  lemma HomeAndBack(f: FieldMove, k: bv8)
    requires f.fromShift < 32 && f.toShift < 32 && f.width <= 32 - f.fromShift && f.width <= 32 - f.toShift
    ensures InOld(f, k) ==> var there := Home(k, f.fromShift, f.toShift);
                            there < 32 && InNew(f, there) && Home(there, f.toShift, f.fromShift) == k
    ensures InNew(f, k) ==> var there := Home(k, f.toShift, f.fromShift);
                            there < 32 && InOld(f, there) && Home(there, f.fromShift, f.toShift) == k
  {
    hide In, Home;
    if InOld(f, k) {
      Moves(k, f.fromShift, f.width, f.toShift);
      MovesBack(k, f.fromShift, f.toShift);
    }
    if InNew(f, k) {
      Moves(k, f.toShift, f.width, f.fromShift);
      MovesBack(k, f.toShift, f.fromShift);
    }
  }

  lemma WrittenFieldBit(fields: seq<FieldMove>, value: bv32, current: bv32, k: bv8, i: nat)
    requires Whole(fields) && NewApart(fields) && i < |fields| && k < 32 && InOld(fields[i], k)
    ensures Bit(Written(fields, value, current), Home(k, fields[i].fromShift, fields[i].toShift)) <==> Bit(value, k)
  {
    hide Bit, In, InOld, InNew, Home;
    HomeAndBack(fields[i], k);
    LastFieldWins(fields, value, current, Home(k, fields[i].fromShift, fields[i].toShift), i);
  }

  /** What is written in the old layout is read back in it, bit by bit, wherever the old layout has a field. */
  lemma ReadsBackWritten(fields: seq<FieldMove>, value: bv32, current: bv32, k: bv8)
    requires Whole(fields) && NewApart(fields) && k < 32
    ensures Bit(Collected(fields, Written(fields, value, current)), k) <==>
            Bit(value, k) && exists i :: 0 <= i < |fields| && InOld(fields[i], k)
  {
    hide Bit, In, InOld, InNew, Home, Collected, Written;
    CollectedBit(fields, Written(fields, value, current), k);
    forall i | 0 <= i < |fields| && InOld(fields[i], k)
      ensures Bit(Written(fields, value, current), Home(k, fields[i].fromShift, fields[i].toShift)) <==> Bit(value, k)
    {
      WrittenFieldBit(fields, value, current, k, i);
    }
  }

  /** The field that has the last word about a bit. */
  lemma {:induction false} LastCovering(fields: seq<FieldMove>, k: bv8) returns (i: nat)
    requires exists i :: 0 <= i < |fields| && InNew(fields[i], k)
    ensures i < |fields| && InNew(fields[i], k) && forall j :: i < j < |fields| ==> !InNew(fields[j], k)
  {
    i := |fields| - 1;
    if !InNew(fields[i], k) {
      var w :| 0 <= w < |fields| && InNew(fields[w], k);
      assert InNew(fields[..i][w], k);
      i := LastCovering(fields[..i], k);
    }
  }

  lemma RewrittenBit(fields: seq<FieldMove>, value: bv32, k: bv8)
    requires Whole(fields) && OldApart(fields) && k < 32
    ensures Bit(Written(fields, Collected(fields, value), value), k) <==> Bit(value, k)
  {
    hide Bit, In, InOld, InNew, Home, Collected, Written;
    var before := Collected(fields, value);
    if exists i :: 0 <= i < |fields| && InNew(fields[i], k) {
      var i := LastCovering(fields, k);
      HomeAndBack(fields[i], k);
      var there := Home(k, fields[i].toShift, fields[i].fromShift);
      LastFieldWins(fields, before, value, k, i);
      CollectedBit(fields, value, there);
    } else {
      WriteKeeps(fields, before, value, k);
    }
  }

  /** Writing back what was read changes no bit of the register. */
  lemma WritingBackChangesNothing(fields: seq<FieldMove>, value: bv32)
    requires Whole(fields) && OldApart(fields)
    ensures Written(fields, Collected(fields, value), value) == value
  {
    forall k: bv8 | k < 32
      ensures Bit(Written(fields, Collected(fields, value), value), k) <==> Bit(value, k)
    {
      RewrittenBit(fields, value, k);
    }
    SameBitsBelow(Written(fields, Collected(fields, value), value), value, 32);
  }
}
