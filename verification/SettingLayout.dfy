/** The bitfield layout that an Objective-C type encoding spells out, and the bit of one named flag in it. */
module SettingLayout {
  import opened Options

  datatype Status = Ok | NoMetadata | BadMetadata | FieldAbsent | FieldNotBoolean | FieldTooWide | LayoutConflict

  const MARKER := "{AMD_DeviceSettings="
  const MAX_NAME: nat := 64
  const MAX_FIELDS: nat := 4096
  const WORD_BITS: nat := 64

  /** What one run says: whether the flag is in it, and at which bit. */
  datatype Reading = Reading(status: Status, bit: nat, found: bool)

  const BAD := Reading(BadMetadata, 0, false)

  predicate IsDigit(c: char) {
    '0' <= c <= '9'
  }

  function Digit(c: char): (d: nat)
    requires IsDigit(c)
    ensures d < 10
  {
    (c - '0') as int
  }

  /** Where the name that starts here ends: at a quote, a NUL or the end of the blob. */
  function NameEnd(blob: string, p: nat): (e: nat)
    requires p <= |blob|
    ensures p <= e <= |blob| && (e < |blob| ==> blob[e] == '"' || blob[e] == '\0')
    ensures forall i :: p <= i < e ==> blob[i] != '"' && blob[i] != '\0'
    decreases |blob| - p
  {
    if p < |blob| && blob[p] != '"' && blob[p] != '\0' then NameEnd(blob, p + 1) else p
  }

  /** The digits from here on, as a number of at most a word's bits, and where they end. */
  function Number(blob: string, p: nat, so: nat): (r: Option<(nat, nat)>)
    requires p <= |blob| && so <= WORD_BITS
    ensures r.Some? ==> p <= r.value.1 <= |blob| && r.value.0 <= WORD_BITS
    decreases |blob| - p
  {
    if p < |blob| && IsDigit(blob[p]) then
      if so * 10 + Digit(blob[p]) > WORD_BITS then None else Number(blob, p + 1, so * 10 + Digit(blob[p]))
    else Some((so, p))
  }

  /** One field at this place: none, an error, or its name's ends, its width and where the next one starts. */
  datatype Token = End | Malformed | Bits(from: nat, to: nat, width: nat, next: nat)

  function TokenAt(blob: string, p: nat): (t: Token)
    requires p <= |blob|
    ensures t.Bits? ==> p < t.from <= t.to < t.next <= |blob| && t.to - t.from <= MAX_NAME && 1 <= t.width <= WORD_BITS
  {
    if p == |blob| || blob[p] != '"' then End
    else
      var q := NameEnd(blob, p + 1);
      if q == |blob| || blob[q] != '"' then Malformed
      else if q == p + 1 || q - (p + 1) > MAX_NAME then Malformed
      else if q + 1 == |blob| || blob[q + 1] != 'b' then End
      else if q + 2 == |blob| || !IsDigit(blob[q + 2]) then Malformed
      else
        match Number(blob, q + 2, 0)
        case None => Malformed
        case Some((width, next)) => if width < 1 then Malformed else Bits(p + 1, q, width, next)
  }

  function Wanted(field: string): string {
    if |field| <= MAX_NAME then field else field[..MAX_NAME]
  }

  /** What has been seen of the run so far. */
  datatype Seen = Seen(bit: nat, found: Option<nat>, fields: nat)

  function Answer(seen: Seen): Reading {
    Reading(Ok, if seen.found.Some? then seen.found.value else 0, seen.found.Some?)
  }

  /** One more field either settles the run or is added to what has been seen. */
  datatype Absorbed = Stop(reading: Reading) | Go(seen: Seen)

  function Absorb(seen: Seen, wanted: string, name: string, width: nat): (a: Absorbed)
    ensures a.Stop? ==> a.reading.status == BadMetadata || a.reading.status == FieldNotBoolean
  {
    if seen.fields >= MAX_FIELDS then Stop(BAD)
    else if name != wanted then Go(Seen(seen.bit + width, seen.found, seen.fields + 1))
    else if seen.found.Some? then Stop(BAD)
    else if width != 1 then Stop(Reading(FieldNotBoolean, 0, false))
    else Go(Seen(seen.bit + width, Some(seen.bit), seen.fields + 1))
  }

  /** The run from this place on. */
  function Run(blob: string, p: nat, field: string, seen: Seen): (r: Reading)
    requires p <= |blob|
    ensures r.status == Ok || r.status == BadMetadata || r.status == FieldNotBoolean
    decreases |blob| - p
  {
    match TokenAt(blob, p)
    case End => Answer(seen)
    case Malformed => BAD
    case Bits(from, to, width, next) =>
      match Absorb(seen, Wanted(field), blob[from..to], width)
      case Stop(reading) => reading
      case Go(more) => Run(blob, next, field, more)
  }

  const NOTHING := Seen(0, None, 0)

  /** The name scan of the parser. */
  method FindNameEnd(blob: string, start: nat) returns (p: nat)
    requires start <= |blob|
    ensures p == NameEnd(blob, start)
  {
    p := start;
    while p < |blob| && blob[p] != '"' && blob[p] != '\0'
      invariant start <= p <= |blob| && NameEnd(blob, start) == NameEnd(blob, p)
    {
      p := p + 1;
    }
  }

  /** The width scan of the parser; a width over a word's bits is refused as soon as it shows. */
  method ReadWidth(blob: string, start: nat) returns (width: nat, p: nat, ok: bool)
    requires start <= |blob|
    ensures ok ==> Number(blob, start, 0) == Some((width, p))
    ensures !ok ==> Number(blob, start, 0) == None
  {
    p, width := start, 0;
    while p < |blob| && IsDigit(blob[p])
      invariant start <= p <= |blob| && width <= WORD_BITS && Number(blob, start, 0) == Number(blob, p, width)
    {
      width := width * 10 + Digit(blob[p]);
      if width > WORD_BITS {
        return width, p, false;
      }
      p := p + 1;
    }
    ok := true;
  }

  /** One step of the parser's loop, up to the width. */
  method ReadField(blob: string, start: nat) returns (t: Token)
    requires start <= |blob|
    ensures t == TokenAt(blob, start)
  {
    if start == |blob| || blob[start] != '"' {
      return End;
    }
    var p := FindNameEnd(blob, start + 1);
    if p >= |blob| || blob[p] != '"' {
      return Malformed;
    }
    var nameLength := p - (start + 1);
    if nameLength == 0 || nameLength > MAX_NAME {
      return Malformed;
    }
    if p + 1 >= |blob| || blob[p + 1] != 'b' {
      return End;
    }
    if p + 2 >= |blob| || !IsDigit(blob[p + 2]) {
      return Malformed;
    }
    var width, next, ok := ReadWidth(blob, p + 2);
    if !ok || width < 1 {
      return Malformed;
    }
    return Bits(start + 1, p, width, next);
  }

  /** The bookkeeping of the loop; the sum of the widths never overflows 32 bits. */
  method TakeField(seen: Seen, wanted: string, name: string, width: nat) returns (a: Absorbed)
    requires width <= WORD_BITS && seen.fields <= MAX_FIELDS && seen.bit <= 64 * seen.fields
    ensures a == Absorb(seen, wanted, name, width)
    ensures a.Go? ==> a.seen.fields <= MAX_FIELDS && a.seen.bit <= 64 * a.seen.fields
  {
    var bit, found, fields := seen.bit, seen.found, seen.fields;
    fields := fields + 1;
    if fields > MAX_FIELDS {
      return Stop(BAD);
    }
    if name == wanted {
      if found.Some? {
        return Stop(BAD);
      }
      if width != 1 {
        return Stop(Reading(FieldNotBoolean, 0, false));
      }
      found := Some(bit);
    }
    if bit > 0xffff_ffff - width {
      assert false;
    }
    bit := bit + width;
    return Go(Seen(bit, found, fields));
  }

  /** Parses one run. */
  method BitFromLayout(blob: string, start: nat, field: string) returns (r: Reading)
    requires start <= |blob|
    ensures r == Run(blob, start, field, NOTHING)
  {
    var p, seen := start, NOTHING;
    while p < |blob|
      invariant p <= |blob| && seen.fields <= MAX_FIELDS && seen.bit <= 64 * seen.fields
      invariant Run(blob, start, field, NOTHING) == Run(blob, p, field, seen)
    {
      var t := ReadField(blob, p);
      if t == End {
        break;
      }
      if t == Malformed {
        return BAD;
      }
      var a := TakeField(seen, Wanted(field), blob[t.from..t.to], t.width);
      if a.Stop? {
        return a.reading;
      }
      p, seen := t.next, a.seen;
    }
    return Answer(seen);
  }

  predicate MarkerAt(blob: string, i: nat) {
    i + |MARKER| <= |blob| && blob[i..i + |MARKER|] == MARKER
  }

  function RunAt(blob: string, i: nat, field: string): Reading
    requires MarkerAt(blob, i)
  {
    Run(blob, i + |MARKER|, field, NOTHING)
  }

  /** A run that names the flag. */
  predicate Names(blob: string, i: nat, field: string) {
    MarkerAt(blob, i) && RunAt(blob, i, field).status == Ok && RunAt(blob, i, field).found
  }

  ghost predicate AllParse(blob: string, field: string, upTo: nat) {
    forall i: nat :: i < upTo && MarkerAt(blob, i) ==> RunAt(blob, i, field).status == Ok
  }

  ghost predicate Agree(blob: string, field: string, upTo: nat, bit: nat) {
    forall i: nat :: i < upTo && Names(blob, i, field) ==> RunAt(blob, i, field).bit == bit
  }

  ghost predicate SomeNames(blob: string, field: string, upTo: nat) {
    exists i: nat :: i < upTo && Names(blob, i, field)
  }

  ghost predicate SomeMarker(blob: string, upTo: nat) {
    exists i: nat :: i < upTo && MarkerAt(blob, i)
  }

  ghost predicate SameBits(blob: string, field: string, upTo: nat) {
    forall i: nat, j: nat :: i < upTo && j < upTo && Names(blob, i, field) && Names(blob, j, field) ==>
      RunAt(blob, i, field).bit == RunAt(blob, j, field).bit
  }

  /** No run before this place settled the answer: all of them parse, and those that name the flag agree. */
  ghost predicate Undecided(blob: string, field: string, upTo: nat) {
    AllParse(blob, field, upTo) && SameBits(blob, field, upTo)
  }

  ghost predicate FirstBadRun(blob: string, field: string, i: nat) {
    Undecided(blob, field, i) && MarkerAt(blob, i) && RunAt(blob, i, field).status != Ok
  }

  /** The first run that names another bit than an earlier one. */
  ghost predicate FirstConflict(blob: string, field: string, i: nat, j: nat) {
    && Undecided(blob, field, j) && i < j && Names(blob, i, field) && Names(blob, j, field)
    && RunAt(blob, i, field).bit != RunAt(blob, j, field).bit
  }

  /** The flag's bit over all the runs of the section; the first run that fails or conflicts decides. */
  ghost predicate Derives(blob: string, field: string, status: Status, bit: nat) {
    var n := |blob|;
    match status
    case NoMetadata => !SomeMarker(blob, n)
    case FieldAbsent => SomeMarker(blob, n) && AllParse(blob, field, n) && !SomeNames(blob, field, n)
    case Ok => AllParse(blob, field, n) && SomeNames(blob, field, n) && Agree(blob, field, n, bit) && bit < WORD_BITS
    case FieldTooWide =>
      AllParse(blob, field, n) && SomeNames(blob, field, n) && exists b: nat :: b >= WORD_BITS && Agree(blob, field, n, b)
    case LayoutConflict => exists i: nat, j: nat :: FirstConflict(blob, field, i, j)
    case _ => exists i: nat :: FirstBadRun(blob, field, i) && RunAt(blob, i, field).status == status
  }

  lemma OneFirstBadRun(blob: string, field: string, i: nat, j: nat)
    requires FirstBadRun(blob, field, i) && FirstBadRun(blob, field, j)
    ensures i == j
  {
  }

  lemma BadRunOrConflict(blob: string, field: string, bad: nat, i: nat, j: nat)
    requires FirstBadRun(blob, field, bad)
    ensures !FirstConflict(blob, field, i, j)
  {
  }

  lemma NotSettled(blob: string, field: string, status: Status, bit: nat)
    requires Derives(blob, field, status, bit) && status != LayoutConflict && status != BadMetadata && status != FieldNotBoolean
    ensures forall i: nat :: !FirstBadRun(blob, field, i)
    ensures forall i: nat, j: nat :: !FirstConflict(blob, field, i, j)
  {
    assert forall i: nat :: MarkerAt(blob, i) ==> i < |blob|;
  }

  /** Every section has one answer: no two statuses, and no two bits, fit. */
  lemma DerivesOne(blob: string, field: string, status: Status, bit: nat, status': Status, bit': nat)
    requires Derives(blob, field, status, bit) && Derives(blob, field, status', bit')
    ensures status == status' && (status == Ok ==> bit == bit')
  {
    if status.LayoutConflict? || status.BadMetadata? || status.FieldNotBoolean? {
      Settled(blob, field, status, bit, status', bit');
    } else if status'.LayoutConflict? || status'.BadMetadata? || status'.FieldNotBoolean? {
      Settled(blob, field, status', bit', status, bit);
    } else {
      Unsettled(blob, field, status, bit, status', bit');
    }
  }

  lemma Settled(blob: string, field: string, status: Status, bit: nat, status': Status, bit': nat)
    requires Derives(blob, field, status, bit) && Derives(blob, field, status', bit')
    requires status.LayoutConflict? || status.BadMetadata? || status.FieldNotBoolean?
    ensures status == status'
  {
    if !(status'.LayoutConflict? || status'.BadMetadata? || status'.FieldNotBoolean?) {
      NotSettled(blob, field, status', bit');
    } else if status.LayoutConflict? && !status'.LayoutConflict? {
      ConflictAlone(blob, field, bit);
    } else if status'.LayoutConflict? && !status.LayoutConflict? {
      ConflictAlone(blob, field, bit');
    } else if !status.LayoutConflict? {
      var i: nat :| FirstBadRun(blob, field, i) && RunAt(blob, i, field).status == status;
      var j: nat :| FirstBadRun(blob, field, j) && RunAt(blob, j, field).status == status';
      OneFirstBadRun(blob, field, i, j);
    }
  }

  lemma ConflictAlone(blob: string, field: string, bit: nat)
    requires Derives(blob, field, LayoutConflict, bit)
    ensures forall bad: nat :: !FirstBadRun(blob, field, bad)
  {
    var i: nat, j: nat :| FirstConflict(blob, field, i, j);
    forall bad: nat
      ensures !FirstBadRun(blob, field, bad)
    {
      if FirstBadRun(blob, field, bad) {
        BadRunOrConflict(blob, field, bad, i, j);
      }
    }
  }

  lemma Unsettled(blob: string, field: string, status: Status, bit: nat, status': Status, bit': nat)
    requires Derives(blob, field, status, bit) && Derives(blob, field, status', bit')
    requires !status.LayoutConflict? && !status.BadMetadata? && !status.FieldNotBoolean?
    requires !status'.LayoutConflict? && !status'.BadMetadata? && !status'.FieldNotBoolean?
    ensures status == status' && (status == Ok ==> bit == bit')
  {
    if SomeNames(blob, field, |blob|) {
      var i: nat :| i < |blob| && Names(blob, i, field);
      assert SomeMarker(blob, |blob|);
    }
  }

  /** What the walk over the section knows when it stands at `i`; `first` is the run it took the bit from. */
  ghost predicate Walked(blob: string, field: string, i: nat, saw: bool, agreed: Option<nat>, first: nat) {
    && AllParse(blob, field, i)
    && (saw <==> SomeMarker(blob, i))
    && (agreed.Some? <==> SomeNames(blob, field, i))
    && (agreed.Some? ==> Agree(blob, field, i, agreed.value) && first < i && Names(blob, first, field) &&
                         RunAt(blob, first, field).bit == agreed.value)
  }

  lemma NotNamed(blob: string, field: string, i: nat)
    requires !Names(blob, i, field)
    ensures SomeNames(blob, field, i + 1) <==> SomeNames(blob, field, i)
    ensures forall bit: nat :: Agree(blob, field, i, bit) ==> Agree(blob, field, i + 1, bit)
  {
  }

  lemma MarkersOneMore(blob: string, field: string, i: nat)
    requires MarkerAt(blob, i) ==> RunAt(blob, i, field).status == Ok
    ensures SomeMarker(blob, i + 1) <==> SomeMarker(blob, i) || MarkerAt(blob, i)
    ensures AllParse(blob, field, i) ==> AllParse(blob, field, i + 1)
  {
  }

  lemma WalkedOn(blob: string, field: string, i: nat, saw: bool, agreed: Option<nat>, first: nat)
    requires Walked(blob, field, i, saw, agreed, first) && !Names(blob, i, field)
    requires MarkerAt(blob, i) ==> RunAt(blob, i, field).status == Ok
    ensures Walked(blob, field, i + 1, saw || MarkerAt(blob, i), agreed, first)
  {
    NotNamed(blob, field, i);
    MarkersOneMore(blob, field, i);
  }

  lemma AgreeOneMore(blob: string, field: string, i: nat, bit: nat)
    requires Agree(blob, field, i, bit) && Names(blob, i, field) && RunAt(blob, i, field).bit == bit
    ensures Agree(blob, field, i + 1, bit)
  {
  }

  lemma NoneAgree(blob: string, field: string, i: nat, bit: nat)
    requires !SomeNames(blob, field, i)
    ensures Agree(blob, field, i, bit)
  {
  }

  lemma WalkedAgreeing(blob: string, field: string, i: nat, saw: bool, agreed: Option<nat>, first: nat)
    requires Walked(blob, field, i, saw, agreed, first) && Names(blob, i, field)
    requires agreed.Some? ==> agreed.value == RunAt(blob, i, field).bit
    ensures Walked(blob, field, i + 1, true, Some(RunAt(blob, i, field).bit), if agreed.Some? then first else i)
  {
    var bit := RunAt(blob, i, field).bit;
    if agreed == None {
      NoneAgree(blob, field, i, bit);
    }
    AgreeOneMore(blob, field, i, bit);
    MarkersOneMore(blob, field, i);
    assert SomeNames(blob, field, i + 1);
  }

  lemma WalkedAll(blob: string, field: string, i: nat, saw: bool, agreed: Option<nat>, first: nat)
    requires Walked(blob, field, i, saw, agreed, first) && i + |MARKER| > |blob| && i <= |blob|
    ensures Walked(blob, field, |blob|, saw, agreed, first)
  {
    forall j: nat | i <= j
      ensures !MarkerAt(blob, j)
    {
    }
  }

  lemma WalkedUndecided(blob: string, field: string, i: nat, saw: bool, agreed: Option<nat>, first: nat)
    requires Walked(blob, field, i, saw, agreed, first)
    ensures Undecided(blob, field, i)
  {
  }

  method DeriveBit(methtype: string, field: string) returns (status: Status, bit: nat)
    ensures Derives(methtype, field, status, bit)
  {
    status, bit := NoMetadata, 0;
    var size := |methtype|;
    if size < |MARKER| {
      return;
    }
    var sawLayout := false;
    var agreed: Option<nat> := None;
    ghost var first: nat := 0;
    for i := 0 to size - |MARKER| + 1
      invariant Walked(methtype, field, i, sawLayout, agreed, first)
    {
      if methtype[i..i + |MARKER|] != MARKER {
        WalkedOn(methtype, field, i, sawLayout, agreed, first);
        continue;
      }
      var r := BitFromLayout(methtype, i + |MARKER|, field);
      assert MarkerAt(methtype, i) && r == RunAt(methtype, i, field);
      if r.status != Ok {
        WalkedUndecided(methtype, field, i, sawLayout, agreed, first);
        assert FirstBadRun(methtype, field, i);
        return r.status, 0;
      }
      if !r.found {
        WalkedOn(methtype, field, i, sawLayout, agreed, first);
        sawLayout := true;
        continue;
      }
      assert Names(methtype, i, field);
      if agreed.Some? && agreed.value != r.bit {
        WalkedUndecided(methtype, field, i, sawLayout, agreed, first);
        assert FirstConflict(methtype, field, first, i);
        return LayoutConflict, 0;
      }
      WalkedAgreeing(methtype, field, i, sawLayout, agreed, first);
      first := if agreed.Some? then first else i;
      sawLayout, agreed := true, Some(r.bit);
    }
    WalkedAll(methtype, field, size - |MARKER| + 1, sawLayout, agreed, first);
    status, bit := Verdict(sawLayout, agreed);
  }

  method Verdict(sawLayout: bool, agreed: Option<nat>) returns (status: Status, bit: nat)
    ensures status == if !sawLayout then NoMetadata else if agreed == None then FieldAbsent
                      else if agreed.value >= WORD_BITS then FieldTooWide else Ok
    ensures status == Ok ==> agreed == Some(bit)
  {
    bit := 0;
    if !sawLayout {
      return NoMetadata, 0;
    }
    if agreed == None {
      return FieldAbsent, 0;
    }
    if agreed.value >= WORD_BITS {
      return FieldTooWide, 0;
    }
    return Ok, agreed.value;
  }

  // ---- The printer ----

  datatype Field = Field(name: string, width: nat)

  function Decimal(n: nat): string
    requires n <= 99
  {
    if n < 10 then ['0' + n as char] else ['0' + (n / 10) as char, '0' + (n % 10) as char]
  }

  predicate ValidField(f: Field) {
    1 <= |f.name| <= MAX_NAME && '"' !in f.name && '\0' !in f.name && 1 <= f.width <= WORD_BITS
  }

  function FieldText(f: Field): string
    requires ValidField(f)
  {
    "\"" + f.name + "\"b" + Decimal(f.width)
  }

  predicate ValidLayout(fields: seq<Field>) {
    forall i :: 0 <= i < |fields| ==> ValidField(fields[i])
  }

  function Print(fields: seq<Field>): string
    requires ValidLayout(fields)
  {
    if fields == [] then "" else FieldText(fields[0]) + Print(fields[1..])
  }

  /** The text that follows a printed run: nothing, or something that is neither a field nor a digit. */
  predicate Terminated(blob: string, p: nat) {
    p == |blob| || (p < |blob| && blob[p] != '"' && !IsDigit(blob[p]))
  }

  /** The layout is printed from here on. */
  predicate PrintedAt(blob: string, p: nat, fields: seq<Field>) {
    && ValidLayout(fields) && p + |Print(fields)| <= |blob|
    && blob[p..p + |Print(fields)|] == Print(fields) && Terminated(blob, p + |Print(fields)|)
  }

  /** What a layout means, field by field. */
  function Meaning(fields: seq<Field>, field: string, seen: Seen): Reading {
    if fields == [] then Answer(seen)
    else
      match Absorb(seen, Wanted(field), fields[0].name, fields[0].width)
      case Stop(reading) => reading
      case Go(more) => Meaning(fields[1..], field, more)
  }

  lemma {:induction false} NameEndAt(blob: string, p: nat, e: nat)
    requires p <= e < |blob| && blob[e] == '"' && forall i :: p <= i < e ==> blob[i] != '"' && blob[i] != '\0'
    ensures NameEnd(blob, p) == e
    decreases e - p
  {
    if p < e {
      NameEndAt(blob, p + 1, e);
    }
  }

  lemma NumberAt(blob: string, p: nat, n: nat)
    requires 1 <= n <= 64 && p + |Decimal(n)| <= |blob| && blob[p..p + |Decimal(n)|] == Decimal(n)
    requires p + |Decimal(n)| == |blob| || !IsDigit(blob[p + |Decimal(n)|])
    ensures IsDigit(blob[p]) && Number(blob, p, 0) == Some((n, p + |Decimal(n)|))
  {
    var d := Decimal(n);
    assert blob[p] == d[0];
    if n >= 10 {
      assert blob[p + 1] == d[1];
      assert Number(blob, p + 1, n / 10) == Number(blob, p + 2, n);
    }
    assert Number(blob, p + |d|, n) == Some((n, p + |d|));
  }

  /** The pieces of a printed field. */
  lemma PiecesOfField(blob: string, p: nat, f: Field)
    requires ValidField(f) && p + |FieldText(f)| <= |blob| && blob[p..p + |FieldText(f)|] == FieldText(f)
    ensures var n := |f.name|;
            && |FieldText(f)| == 3 + n + |Decimal(f.width)|
            && blob[p] == '"' && blob[p + 1 + n] == '"' && blob[p + 2 + n] == 'b'
            && blob[p + 1..p + 1 + n] == f.name
            && blob[p + 3 + n..p + 3 + n + |Decimal(f.width)|] == Decimal(f.width)
  {
    var text, n := FieldText(f), |f.name|;
    var here := blob[p..p + |text|];
    assert here[0] == '"' && here[1 + n] == '"' && here[2 + n] == 'b';
    assert here[1..1 + n] == f.name && here[3 + n..] == Decimal(f.width);
    assert blob[p + 1..p + 1 + n] == here[1..1 + n];
    assert blob[p + 3 + n..p + |text|] == here[3 + n..];
  }

  /** The parser reads back one printed field. */
  lemma TokenOfField(blob: string, p: nat, f: Field)
    requires ValidField(f) && p + |FieldText(f)| <= |blob| && blob[p..p + |FieldText(f)|] == FieldText(f)
    requires p + |FieldText(f)| == |blob| || !IsDigit(blob[p + |FieldText(f)|])
    ensures TokenAt(blob, p) == Bits(p + 1, p + 1 + |f.name|, f.width, p + |FieldText(f)|)
    ensures blob[p + 1..p + 1 + |f.name|] == f.name
  {
    var n := |f.name|;
    PiecesOfField(blob, p, f);
    forall i | p + 1 <= i < p + 1 + n
      ensures blob[i] != '"' && blob[i] != '\0'
    {
      assert blob[i] == f.name[i - (p + 1)];
    }
    NameEndAt(blob, p + 1, p + 1 + n);
    NumberAt(blob, p + 3 + n, f.width);
  }

  /** A printed layout is its first field's text and the printed rest. */
  lemma PrintedRest(blob: string, p: nat, fields: seq<Field>)
    requires PrintedAt(blob, p, fields) && fields != []
    ensures var text := FieldText(fields[0]);
            var next := p + |text|;
            && next <= |blob| && blob[p..next] == text && PrintedAt(blob, next, fields[1..])
            && (next == |blob| || !IsDigit(blob[next]))
  {
    var text, rest := FieldText(fields[0]), Print(fields[1..]);
    var next := p + |text|;
    var all := blob[p..p + |text + rest|];
    assert all == text + rest;
    assert blob[p..next] == all[..|text|] == text;
    assert blob[next..next + |rest|] == all[|text|..] == rest;
    if fields[1..] != [] {
      assert rest[0] == '"' == blob[next];
    }
  }

  lemma RunStep(blob: string, p: nat, field: string, seen: Seen, from: nat, to: nat, width: nat, next: nat)
    requires p <= |blob| && TokenAt(blob, p) == Bits(from, to, width, next)
    ensures from <= to <= |blob| && next <= |blob|
    ensures Run(blob, p, field, seen) ==
              match Absorb(seen, Wanted(field), blob[from..to], width)
              case Stop(reading) => reading
              case Go(more) => Run(blob, next, field, more)
  {
    hide TokenAt, Absorb;
  }

  lemma RunOfPrinted(blob: string, p: nat, fields: seq<Field>, field: string, seen: Seen)
    requires PrintedAt(blob, p, fields) && fields != []
    ensures p + |FieldText(fields[0])| <= |blob|
    ensures Run(blob, p, field, seen) ==
              match Absorb(seen, Wanted(field), fields[0].name, fields[0].width)
              case Stop(reading) => reading
              case Go(more) => Run(blob, p + |FieldText(fields[0])|, field, more)
  {
    hide TokenAt, Print, Run, Absorb;
    var f := fields[0];
    var to, next := p + 1 + |f.name|, p + |FieldText(f)|;
    assert p < next <= |blob| && TokenAt(blob, p) == Bits(p + 1, to, f.width, next) && blob[p + 1..to] == f.name by {
      PrintedRest(blob, p, fields);
      TokenOfField(blob, p, f);
    }
    hide FieldText;
    RunStep(blob, p, field, seen, p + 1, to, f.width, next);
  }

  /** Parsing what was printed gives the layout's meaning, whatever the layout and whatever follows. */
  lemma {:induction false} ParseInvertsPrint(blob: string, p: nat, fields: seq<Field>, field: string, seen: Seen)
    requires PrintedAt(blob, p, fields)
    ensures Run(blob, p, field, seen) == Meaning(fields, field, seen)
    decreases |fields|
  {
    if fields != [] {
      RunOfPrinted(blob, p, fields, field, seen);
      hide TokenAt, FieldText, Print, Run;
      match Absorb(seen, Wanted(field), fields[0].name, fields[0].width)
      case Stop(_) =>
      case Go(more) =>
        PrintedRest(blob, p, fields);
        ParseInvertsPrint(blob, p + |FieldText(fields[0])|, fields[1..], field, more);
    }
  }

  // ---- The meaning in closed form ----

  function Widths(fields: seq<Field>): nat {
    if fields == [] then 0 else fields[0].width + Widths(fields[1..])
  }

  /** `k` is where the flag stands, once, and as a single bit. */
  predicate FlagAt(fields: seq<Field>, field: string, k: nat) {
    && k < |fields| && fields[k] == Field(field, 1)
    && forall i :: 0 <= i < |fields| && i != k ==> fields[i].name != field
  }

  lemma {:induction false} MeaningAbsent(fields: seq<Field>, field: string, seen: Seen)
    requires |field| <= MAX_NAME && seen.fields + |fields| <= MAX_FIELDS
    requires forall i :: 0 <= i < |fields| ==> fields[i].name != field
    ensures Meaning(fields, field, seen) == Answer(seen)
    decreases |fields|
  {
    if fields != [] {
      MeaningAbsent(fields[1..], field, Seen(seen.bit + fields[0].width, seen.found, seen.fields + 1));
    }
  }

  /** The flag's bit is the sum of the widths in front of it. */
  lemma {:induction false} MeaningIsSum(fields: seq<Field>, field: string, k: nat, seen: Seen)
    requires |field| <= MAX_NAME && seen.fields + |fields| <= MAX_FIELDS && seen.found == None && FlagAt(fields, field, k)
    ensures Meaning(fields, field, seen) == Reading(Ok, seen.bit + Widths(fields[..k]), true)
    decreases |fields|
  {
    if k == 0 {
      assert fields[..0] == [];
      MeaningAbsent(fields[1..], field, Seen(seen.bit + 1, Some(seen.bit), seen.fields + 1));
    } else {
      assert fields[..k][0] == fields[0] && fields[..k][1..] == fields[1..][..k - 1];
      MeaningIsSum(fields[1..], field, k - 1, Seen(seen.bit + fields[0].width, None, seen.fields + 1));
    }
  }

  /** Layouts with repeated flags, wide flags or too many fields are refused. */
  lemma {:induction false} MeaningRefuses(fields: seq<Field>, field: string, seen: Seen)
    requires |field| <= MAX_NAME && seen.fields <= MAX_FIELDS
    requires seen.fields + |fields| > MAX_FIELDS || (exists i :: 0 <= i < |fields| && fields[i].name == field && fields[i].width != 1) ||
             (exists i :: 0 <= i < |fields| && fields[i].name == field && seen.found.Some?) ||
             (exists i, j :: 0 <= i < j < |fields| && fields[i].name == fields[j].name == field)
    ensures Meaning(fields, field, seen).status in {BadMetadata, FieldNotBoolean}
    decreases |fields|
  {
    if fields != [] && seen.fields < MAX_FIELDS {
      var tail := fields[1..];
      var hit := fields[0].name == field;
      if hit && (seen.found.Some? || fields[0].width != 1) {
        return;
      }
      assert forall i :: 0 < i < |fields| ==> fields[i] == tail[i - 1];
      MeaningRefuses(tail, field, Seen(seen.bit + fields[0].width, if hit then Some(seen.bit) else seen.found, seen.fields + 1));
    }
  }

  /** Every run of the section is a printed layout, and every layout that has the flag has it at bit `bit`. */
  ghost predicate Section(blob: string, layouts: map<nat, seq<Field>>, field: string, bit: nat) {
    && (forall i: nat :: MarkerAt(blob, i) ==> i in layouts && PrintedAt(blob, i + |MARKER|, layouts[i]) && |layouts[i]| <= MAX_FIELDS)
    && (forall i :: i in layouts ==> HasOrLacks(layouts[i], field, bit))
  }

  ghost predicate HasOrLacks(fields: seq<Field>, field: string, bit: nat) {
    (forall i :: 0 <= i < |fields| ==> fields[i].name != field) || HasAt(fields, field, bit)
  }

  ghost predicate HasAt(fields: seq<Field>, field: string, bit: nat) {
    exists k: nat :: FlagAt(fields, field, k) && Widths(fields[..k]) == bit
  }

  lemma RunOfLayout(blob: string, i: nat, fields: seq<Field>, field: string, bit: nat)
    requires MarkerAt(blob, i) && PrintedAt(blob, i + |MARKER|, fields) && |fields| <= MAX_FIELDS && |field| <= MAX_NAME
    requires HasOrLacks(fields, field, bit)
    ensures RunAt(blob, i, field) == if HasAt(fields, field, bit) then Reading(Ok, bit, true) else Reading(Ok, 0, false)
  {
    ParseInvertsPrint(blob, i + |MARKER|, fields, field, NOTHING);
    if HasAt(fields, field, bit) {
      var k: nat :| FlagAt(fields, field, k) && Widths(fields[..k]) == bit;
      MeaningIsSum(fields, field, k, NOTHING);
    } else {
      MeaningAbsent(fields, field, NOTHING);
    }
  }

  /** On a section of printed layouts, whatever surrounds them, the derived bit is the sum of the widths
      before the flag, or the flag is reported as outside the word, or as absent. */
  lemma DeriveInvertsPrint(blob: string, layouts: map<nat, seq<Field>>, field: string, bit: nat, status: Status, derived: nat)
    requires |field| <= MAX_NAME && Section(blob, layouts, field, bit) && Derives(blob, field, status, derived)
    requires exists i: nat :: MarkerAt(blob, i) && HasAt(layouts[i], field, bit)
    ensures if bit < WORD_BITS then status == Ok && derived == bit else status == FieldTooWide
  {
    forall i: nat | MarkerAt(blob, i)
      ensures RunAt(blob, i, field).status == Ok && (Names(blob, i, field) ==> RunAt(blob, i, field).bit == bit)
      ensures HasAt(layouts[i], field, bit) ==> Names(blob, i, field)
    {
      RunOfLayout(blob, i, layouts[i], field, bit);
    }
    var i: nat :| MarkerAt(blob, i) && HasAt(layouts[i], field, bit);
    assert i < |blob| && Names(blob, i, field);
  }
}
