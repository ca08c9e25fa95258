/** What the layout parser accepts, as a grammar: a run of quoted names, each with a decimal width, up to
    something that is not such a field. */
module SettingGrammar {
  import opened Options
  import opened SettingLayout

  predicate Digits(s: string) {
    forall i :: 0 <= i < |s| ==> IsDigit(s[i])
  }

  /** The number that decimal digits spell, leading zeros allowed. */
  function Amount(s: string): nat
    requires Digits(s)
  {
    if s == "" then 0 else 10 * Amount(s[..|s| - 1]) + Digit(s[|s| - 1])
  }

  predicate IsName(s: string) {
    1 <= |s| <= 64 && '"' !in s && '\0' !in s
  }

  /** A field as it is written: its name, and its width with whatever leading zeros. */
  datatype Piece = Piece(name: string, digits: string)

  predicate ValidPiece(x: Piece) {
    IsName(x.name) && x.digits != "" && Digits(x.digits) && 1 <= Amount(x.digits) <= 64
  }

  function Text(x: Piece): string {
    "\"" + x.name + "\"b" + x.digits
  }

  predicate DigitsEnd(blob: string, p: nat) {
    p >= |blob| || !IsDigit(blob[p])
  }

  /** This field is written here, and its width ends where the text does. */
  predicate FieldAt(blob: string, p: nat, x: Piece) {
    && ValidPiece(x) && p + |Text(x)| <= |blob| && blob[p..p + |Text(x)|] == Text(x)
    && DigitsEnd(blob, p + |Text(x)|)
  }

  predicate QuotedAt(blob: string, p: nat, name: string) {
    IsName(name) && p + |name| + 2 <= |blob| && blob[p..p + |name| + 2] == "\"" + name + "\""
  }

  /** The run ends here: at the end, at something unquoted, or at a quoted name that is no bitfield. */
  ghost predicate EndAt(blob: string, p: nat) {
    p >= |blob| || blob[p] != '"' ||
    exists name :: QuotedAt(blob, p, name) && (p + |name| + 2 == |blob| || blob[p + |name| + 2] != 'b')
  }

  // ---- Numbers ----

  function Horner(so: nat, s: string): (r: nat)
    requires Digits(s)
    ensures r >= so
    decreases |s|
  {
    if s == "" then so else Horner(so * 10 + Digit(s[0]), s[1..])
  }

  lemma {:induction false} HornerSplit(so: nat, s: string)
    requires s != "" && Digits(s)
    ensures Horner(so, s) == 10 * Horner(so, s[..|s| - 1]) + Digit(s[|s| - 1])
    decreases |s|
  {
    if |s| > 1 {
      HornerSplit(so * 10 + Digit(s[0]), s[1..]);
      assert s[1..][..|s| - 2] == s[..|s| - 1][1..];
    }
  }

  lemma {:induction false} HornerIsAmount(s: string)
    requires Digits(s)
    ensures Horner(0, s) == Amount(s)
  {
    if s != "" {
      HornerSplit(0, s);
      HornerIsAmount(s[..|s| - 1]);
    }
  }

  lemma {:induction false} NumberGives(blob: string, p: nat, so: nat, next: nat)
    requires p <= next <= |blob| && so <= WORD_BITS && Digits(blob[p..next]) && DigitsEnd(blob, next)
    ensures Number(blob, p, so) ==
            if Horner(so, blob[p..next]) <= WORD_BITS then Some((Horner(so, blob[p..next]), next)) else None
    decreases next - p
  {
    var s := blob[p..next];
    if p < next {
      assert s[0] == blob[p] && s[1..] == blob[p + 1..next];
      var so' := so * 10 + Digit(s[0]);
      if so' <= WORD_BITS {
        NumberGives(blob, p + 1, so', next);
      }
    }
  }

  lemma {:induction false} DigitsFrom(blob: string, p: nat) returns (next: nat)
    requires p <= |blob|
    ensures p <= next <= |blob| && Digits(blob[p..next]) && DigitsEnd(blob, next)
    decreases |blob| - p
  {
    next := p;
    if p < |blob| && IsDigit(blob[p]) {
      next := DigitsFrom(blob, p + 1);
      assert blob[p..next] == [blob[p]] + blob[p + 1..next];
    }
  }

  // ---- One field ----

  lemma SliceOf(blob: string, p: nat, text: string, i: nat, j: nat)
    requires p + |text| <= |blob| && blob[p..p + |text|] == text && i <= j <= |text|
    ensures blob[p + i..p + j] == text[i..j]
    ensures i < |text| ==> blob[p + i] == text[i]
  {
    forall k | 0 <= k < j - i
      ensures blob[p + i..p + j][k] == text[i..j][k]
    {
      assert blob[p..p + |text|][i + k] == blob[p + i + k];
    }
    assert blob[p + i..p + j] == text[i..j];
    if i < |text| {
      assert blob[p..p + |text|][i] == blob[p + i];
    }
  }

  lemma TextPieces(x: Piece)
    ensures var t, n := Text(x), |x.name|;
            && |t| == 3 + n + |x.digits| && t[0] == '"' && t[1 + n] == '"' && t[2 + n] == 'b'
            && t[1..1 + n] == x.name && t[3 + n..|t|] == x.digits
  {
  }

  lemma PiecesOf(blob: string, p: nat, x: Piece)
    requires FieldAt(blob, p, x)
    ensures var q := p + 1 + |x.name|;
            && p + |Text(x)| == q + 2 + |x.digits|
            && blob[p] == '"' && blob[q] == '"' && blob[q + 1] == 'b'
            && blob[p + 1..q] == x.name && blob[q + 2..q + 2 + |x.digits|] == x.digits
  {
    hide ValidPiece, DigitsEnd, Text;
    var t, n := Text(x), |x.name|;
    TextPieces(x);
    SliceOf(blob, p, t, 0, 1);
    SliceOf(blob, p, t, 1, 1 + n);
    SliceOf(blob, p, t, 1 + n, 2 + n);
    SliceOf(blob, p, t, 2 + n, 3 + n);
    SliceOf(blob, p, t, 3 + n, |t|);
  }

  lemma NameEnds(blob: string, p: nat, name: string)
    requires p + 1 + |name| < |blob| && blob[p + 1..p + 1 + |name|] == name && blob[p + 1 + |name|] == '"' && IsName(name)
    ensures NameEnd(blob, p + 1) == p + 1 + |name|
  {
    forall i | p + 1 <= i < p + 1 + |name|
      ensures blob[i] != '"' && blob[i] != '\0'
    {
      assert blob[i] == name[i - (p + 1)];
    }
    NameEndAt(blob, p + 1, p + 1 + |name|);
  }

  lemma WidthAt(blob: string, p: nat, digits: string)
    requires p + |digits| <= |blob| && blob[p..p + |digits|] == digits && DigitsEnd(blob, p + |digits|)
    requires digits != "" && Digits(digits) && Amount(digits) <= 64
    ensures IsDigit(blob[p]) && Number(blob, p, 0) == Some((Amount(digits), p + |digits|))
  {
    assert blob[p] == digits[0];
    NumberGives(blob, p, 0, p + |digits|);
    HornerIsAmount(digits);
  }

  lemma FieldIsToken(blob: string, p: nat, x: Piece)
    requires FieldAt(blob, p, x)
    ensures TokenAt(blob, p) == Bits(p + 1, p + 1 + |x.name|, Amount(x.digits), p + |Text(x)|)
    ensures p + |Text(x)| <= |blob| && blob[p + 1..p + 1 + |x.name|] == x.name
  {
    PiecesOf(blob, p, x);
    NameEnds(blob, p, x.name);
    WidthAt(blob, p + 3 + |x.name|, x.digits);
    hide NameEnd, Number, Amount, Digits, IsDigit;
  }

  lemma QuotedPieces(blob: string, p: nat, name: string)
    requires QuotedAt(blob, p, name)
    ensures blob[p] == '"' && blob[p + 1..p + 1 + |name|] == name && blob[p + 1 + |name|] == '"'
  {
    var t, n := "\"" + name + "\"", |name|;
    assert t[1..1 + n] == name;
    SliceOf(blob, p, t, 0, 1);
    SliceOf(blob, p, t, 1, 1 + n);
    SliceOf(blob, p, t, 1 + n, 2 + n);
  }

  lemma EndIsToken(blob: string, p: nat)
    requires p <= |blob| && EndAt(blob, p)
    ensures TokenAt(blob, p) == End
  {
    if p < |blob| && blob[p] == '"' {
      var name :| QuotedAt(blob, p, name) && (p + |name| + 2 == |blob| || blob[p + |name| + 2] != 'b');
      QuotedPieces(blob, p, name);
      NameEnds(blob, p, name);
    }
  }

  lemma NameThere(blob: string, p: nat)
    requires p < |blob| && blob[p] == '"'
    requires var q := NameEnd(blob, p + 1); q < |blob| && blob[q] == '"' && 1 <= q - (p + 1) <= MAX_NAME
    ensures var name := blob[p + 1..NameEnd(blob, p + 1)]; QuotedAt(blob, p, name)
  {
    var name := blob[p + 1..NameEnd(blob, p + 1)];
    assert blob[p..p + |name| + 2] == "\"" + name + "\"";
  }

  lemma TokenIsEnd(blob: string, p: nat)
    requires p <= |blob| && TokenAt(blob, p) == End
    ensures EndAt(blob, p)
  {
    if p < |blob| && blob[p] == '"' {
      NameThere(blob, p);
      assert QuotedAt(blob, p, blob[p + 1..NameEnd(blob, p + 1)]);
    }
  }

  lemma TokenIsField(blob: string, p: nat) returns (x: Piece)
    requires p <= |blob| && TokenAt(blob, p).Bits?
    ensures FieldAt(blob, p, x)
  {
    NameThere(blob, p);
    var q := NameEnd(blob, p + 1);
    var next := DigitsFrom(blob, q + 2);
    NumberGives(blob, q + 2, 0, next);
    x := Piece(blob[p + 1..q], blob[q + 2..next]);
    HornerIsAmount(x.digits);
    assert ValidPiece(x);
    hide ValidPiece, TokenAt, Number, Text;
    Rebuilt(blob, p, q, next);
  }

  lemma Rebuilt(blob: string, p: nat, q: nat, next: nat)
    requires p < q && q + 2 <= next <= |blob| && blob[p] == '"' && blob[q] == '"' && blob[q + 1] == 'b'
    ensures var x := Piece(blob[p + 1..q], blob[q + 2..next]); p + |Text(x)| == next && blob[p..next] == Text(x)
  {
    assert blob[p..next] == [blob[p]] + blob[p + 1..q] + [blob[q], blob[q + 1]] + blob[q + 2..next];
    assert "\"b" == [blob[q], blob[q + 1]];
  }

  // ---- Whole runs ----

  /** These fields are written from here on, one after the other, and then the run ends. */
  ghost predicate Spelled(blob: string, p: nat, pieces: seq<Piece>)
    decreases |pieces|
  {
    if pieces == [] then EndAt(blob, p)
    else FieldAt(blob, p, pieces[0]) && Spelled(blob, p + |Text(pieces[0])|, pieces[1..])
  }

  predicate AllValid(pieces: seq<Piece>) {
    forall i :: 0 <= i < |pieces| ==> ValidPiece(pieces[i])
  }

  function FieldsOf(pieces: seq<Piece>): (fields: seq<Field>)
    requires AllValid(pieces)
    ensures |fields| == |pieces|
    ensures forall i :: 0 <= i < |pieces| ==> fields[i] == Field(pieces[i].name, Amount(pieces[i].digits))
  {
    if pieces == [] then [] else [Field(pieces[0].name, Amount(pieces[0].digits))] + FieldsOf(pieces[1..])
  }

  lemma {:induction false} SpelledValid(blob: string, p: nat, pieces: seq<Piece>)
    requires Spelled(blob, p, pieces)
    ensures AllValid(pieces)
    decreases |pieces|
  {
    if pieces != [] {
      SpelledValid(blob, p + |Text(pieces[0])|, pieces[1..]);
      assert pieces == [pieces[0]] + pieces[1..];
    }
  }

  /** What is spelled means what its fields mean, however its widths are written and whatever follows. */
  lemma {:induction false} SpelledMeans(blob: string, p: nat, pieces: seq<Piece>, field: string, seen: Seen)
    requires p <= |blob| && Spelled(blob, p, pieces)
    ensures AllValid(pieces)
    ensures Run(blob, p, field, seen) == Meaning(FieldsOf(pieces), field, seen)
    decreases |pieces|
  {
    SpelledValid(blob, p, pieces);
    hide AllValid, Amount, Digits, ValidPiece, IsName, DigitsEnd, TokenAt;
    if pieces == [] {
      hide EndAt, FieldAt, TokenAt;
      EndIsToken(blob, p);
    } else {
      var x, rest := pieces[0], pieces[1..];
      RestOfFields(pieces);
      FirstField(blob, p, x, field, seen);
      hide Run, FieldAt, EndAt, Text, FieldsOf, Absorb;
      match Absorb(seen, Wanted(field), x.name, Amount(x.digits))
      case Stop(_) =>
      case Go(more) => SpelledMeans(blob, p + |Text(x)|, rest, field, more);
    }
  }

  lemma RestOfFields(pieces: seq<Piece>)
    requires pieces != [] && AllValid(pieces)
    ensures AllValid(pieces[1..]) && FieldsOf(pieces)[1..] == FieldsOf(pieces[1..])
    ensures FieldsOf(pieces)[0] == Field(pieces[0].name, Amount(pieces[0].digits))
  {
    hide ValidPiece;
  }

  lemma FirstField(blob: string, p: nat, x: Piece, field: string, seen: Seen)
    requires p <= |blob| && FieldAt(blob, p, x)
    ensures p + |Text(x)| <= |blob|
    ensures Run(blob, p, field, seen) ==
              match Absorb(seen, Wanted(field), x.name, Amount(x.digits))
              case Stop(reading) => reading
              case Go(more) => Run(blob, p + |Text(x)|, field, more)
  {
    FieldIsToken(blob, p, x);
    hide FieldAt, TokenAt, Absorb, Text, Amount, Digits, Run;
    RunStep(blob, p, field, seen, p + 1, p + 1 + |x.name|, Amount(x.digits), p + |Text(x)|);
  }

  /** And only what is spelled parses. */
  lemma {:induction false} ParsedIsSpelled(blob: string, p: nat, field: string, seen: Seen) returns (pieces: seq<Piece>)
    requires p <= |blob| && Run(blob, p, field, seen).status == Ok
    ensures Spelled(blob, p, pieces)
    decreases |blob| - p
  {
    hide EndAt, FieldAt, Absorb, Text;
    match TokenAt(blob, p)
    case End =>
      hide TokenAt;
      TokenIsEnd(blob, p);
      pieces := [];
    case Malformed =>
      assert false;
    case Bits(from, to, width, next) =>
      hide TokenAt;
      var x := TokenIsField(blob, p);
      FieldIsToken(blob, p, x);
      var a := Absorb(seen, Wanted(field), blob[from..to], width);
      RunStep(blob, p, field, seen, from, to, width, next);
      var rest := ParsedIsSpelled(blob, next, field, a.seen);
      pieces := [x] + rest;
      assert pieces[1..] == rest;
  }

  /** A run parses exactly when it is spelled by fields that the parser does not stop at, and then it says
      what they mean. */
  lemma ParsesExactly(blob: string, p: nat, field: string, seen: Seen, bit: nat, found: bool)
    requires p <= |blob|
    ensures Run(blob, p, field, seen) == Reading(Ok, bit, found) <==>
            exists pieces :: Spelled(blob, p, pieces) && AllValid(pieces) &&
                             Meaning(FieldsOf(pieces), field, seen) == Reading(Ok, bit, found)
  {
    hide EndAt, FieldAt, TokenAt, Absorb, Text, Run, Meaning, Spelled, FieldsOf, AllValid;
    if Run(blob, p, field, seen) == Reading(Ok, bit, found) {
      var pieces := ParsedIsSpelled(blob, p, field, seen);
      SpelledMeans(blob, p, pieces, field, seen);
    }
    if pieces :| Spelled(blob, p, pieces) && AllValid(pieces) &&
                 Meaning(FieldsOf(pieces), field, seen) == Reading(Ok, bit, found)
    {
      SpelledMeans(blob, p, pieces, field, seen);
    }
  }

  // ---- Names longer than the parser compares ----

  lemma {:induction false} RunOfPrefix(blob: string, p: nat, field: string, seen: Seen)
    requires p <= |blob|
    ensures Run(blob, p, field, seen) == Run(blob, p, Wanted(field), seen)
    decreases |blob| - p
  {
    hide TokenAt;
    match TokenAt(blob, p)
    case End =>
    case Malformed =>
    case Bits(from, to, width, next) =>
      var a := Absorb(seen, Wanted(field), blob[from..to], width);
      if a.Go? {
        RunOfPrefix(blob, next, field, a.seen);
      }
  }

  /** Every run says the same of both names. */
  ghost predicate Alike(blob: string, field: string, other: string) {
    forall i: nat :: MarkerAt(blob, i) ==> RunAt(blob, i, field) == RunAt(blob, i, other)
  }

  lemma AlikeTold(blob: string, field: string, other: string, n: nat, bit: nat)
    requires Alike(blob, field, other)
    ensures AllParse(blob, field, n) ==> AllParse(blob, other, n)
    ensures SomeNames(blob, field, n) <==> SomeNames(blob, other, n)
    ensures Agree(blob, field, n, bit) ==> Agree(blob, other, n, bit)
    ensures SameBits(blob, field, n) ==> SameBits(blob, other, n)
  {
    hide RunAt, MarkerAt;
    if i: nat :| i < n && Names(blob, i, field) {
      assert Names(blob, i, other);
    }
    if i: nat :| i < n && Names(blob, i, other) {
      assert Names(blob, i, field);
    }
  }

  lemma AlikeConflict(blob: string, field: string, other: string, i: nat, j: nat)
    requires Alike(blob, field, other) && FirstConflict(blob, field, i, j)
    ensures FirstConflict(blob, other, i, j)
  {
    AlikeTold(blob, field, other, j, 0);
    hide MarkerAt, RunAt, AllParse, SameBits;
  }

  lemma AlikeBadRun(blob: string, field: string, other: string, i: nat)
    requires Alike(blob, field, other) && FirstBadRun(blob, field, i)
    ensures FirstBadRun(blob, other, i) && RunAt(blob, i, other) == RunAt(blob, i, field)
  {
    AlikeTold(blob, field, other, i, 0);
    hide MarkerAt, RunAt, AllParse, SameBits;
  }

  lemma AlikeDerives(blob: string, field: string, other: string, status: Status, bit: nat)
    requires Alike(blob, field, other) && Derives(blob, field, status, bit)
    ensures Derives(blob, other, status, bit)
  {
    hide Alike, RunAt, AllParse, SomeNames, SomeMarker, Agree, SameBits, Names, FirstConflict;
    var n := |blob|;
    AlikeTold(blob, field, other, n, bit);
    match status
    case NoMetadata =>
    case FieldAbsent =>
    case Ok =>
    case FieldTooWide =>
      var b: nat :| b >= WORD_BITS && Agree(blob, field, n, b);
      AlikeTold(blob, field, other, n, b);
    case LayoutConflict =>
      var i: nat, j: nat :| FirstConflict(blob, field, i, j);
      AlikeConflict(blob, field, other, i, j);
    case _ =>
      var i: nat :| FirstBadRun(blob, field, i) && RunAt(blob, i, field).status == status;
      AlikeBadRun(blob, field, other, i);
      hide FirstBadRun;
  }

  /** A flag whose name is longer than 64 characters is answered as the flag named by its first 64. */
  lemma LongNamesAnswerAsPrefix(blob: string, field: string, status: Status, bit: nat)
    ensures Derives(blob, field, status, bit) ==> Derives(blob, Wanted(field), status, bit)
    ensures Wanted(field) == if |field| <= 64 then field else field[..64]
  {
    forall i: nat | MarkerAt(blob, i)
      ensures RunAt(blob, i, field) == RunAt(blob, i, Wanted(field))
    {
      RunOfPrefix(blob, i + |MARKER|, field, NOTHING);
    }
    hide Derives, Run;
    if Derives(blob, field, status, bit) {
      AlikeDerives(blob, field, Wanted(field), status, bit);
    }
  }
}
