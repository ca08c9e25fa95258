/** The append-only record slots that any number of producers fill without waiting for each other, and
    that readers copy out meanwhile. Every shared access is one step of one thread. */
module DiagnosticRecords {
  type ThreadId = nat
  type Byte = bv8

  /** A C string: what precedes its terminating NUL. */
  type Text = t: seq<Byte> | 0 !in t witness []

  datatype Slot = Slot(ready: bool, text: seq<Byte>)

  /** Where an append stands. */
  datatype Producer =
    | Reserving(text: Text, cut: bool)
    | Dropping
    | Copying(slot: nat, text: Text, cut: bool, n: nat)
    | Ended(slot: nat, text: Text, cut: bool, n: nat)
    | Publishing(slot: nat, text: Text)

  /** Where a read stands: what it has copied so far of the slot it found ready. */
  datatype Reader = Reading(slot: nat, out: seq<Byte>)

  /** `owners` are the texts whose append reserved each slot, `flags` whether those were already cut when
      they came in; `copies` are the finished reads. */
  datatype Store = Store(
    slots: seq<Slot>, reserved: nat, dropped: nat, truncated: nat,
    producers: map<ThreadId, Producer>, readers: map<ThreadId, Reader>,
    owners: seq<Text>, flags: seq<bool>, started: nat, finished: nat, copies: seq<(nat, seq<Byte>)>)

  function Start(capacity: nat, width: nat): Store {
    Store(seq(capacity, _ => Slot(false, seq(width, _ => 0))), 0, 0, 0, map[], map[], [], [], 0, 0, [])
  }

  /** What fits of a text. */
  function Kept(text: Text, width: nat): (k: seq<Byte>)
    requires width > 1
    ensures |k| < width && 0 !in k
  {
    if |text| < width then text else text[..width - 1]
  }

  datatype Event =
    | Call(thread: ThreadId, text: Text, cut: bool)
    | Advance(thread: ThreadId)
    | ReadCall(thread: ThreadId, slot: nat)
    | ReadByte(thread: ThreadId)

  predicate Enabled(s: Store, e: Event) {
    match e
    case Call(t, _, _) => t !in s.producers
    case Advance(t) => t in s.producers
    case ReadCall(t, _) => t !in s.readers
    case ReadByte(t) => t in s.readers
  }

  function With(s: Store, t: ThreadId, pc: Producer): Store {
    s.(producers := s.producers[t := pc])
  }

  function SetByte(s: Store, slot: nat, n: nat, b: Byte): Store
    requires slot < |s.slots| && n < |s.slots[slot].text|
  {
    s.(slots := s.slots[slot := s.slots[slot].(text := s.slots[slot].text[n := b])])
  }

  /** One step of an append, on a store of this width. */
  function Advanced(s: Store, width: nat, t: ThreadId): Store
    requires t in s.producers && SlotsInRange(s, width)
  {
    match s.producers[t]
    case Reserving(text, cut) =>
      var reserved := s.(reserved := s.reserved + 1);
      if s.reserved >= |s.slots| then With(reserved, t, Dropping)
      else With(reserved, t, Copying(s.reserved, text, cut, 0)).(owners := s.owners + [text], flags := s.flags + [cut])
    case Dropping => s.(dropped := s.dropped + 1, finished := s.finished + 1, producers := s.producers - {t})
    case Copying(slot, text, cut, n) =>
      if n < width - 1 && n < |text| then With(SetByte(s, slot, n, text[n]), t, Copying(slot, text, cut, n + 1))
      else With(SetByte(s, slot, n, 0), t, Ended(slot, text, cut, n))
    case Ended(slot, text, cut, n) =>
      With(s.(truncated := s.truncated + if n < |text| || cut then 1 else 0), t, Publishing(slot, text))
    case Publishing(slot, text) =>
      s.(slots := s.slots[slot := s.slots[slot].(ready := true)], finished := s.finished + 1, producers := s.producers - {t})
  }

  /** A read that finds its slot not ready, or that reaches the NUL or the width, is over. */
  function ReadCalled(s: Store, t: ThreadId, slot: nat): Store {
    if slot >= |s.slots| || !s.slots[slot].ready then s
    else s.(readers := s.readers[t := Reading(slot, [])])
  }

  function ReadAdvanced(s: Store, t: ThreadId): Store
    requires t in s.readers && ReaderInRange(s.slots, s.readers[t])
  {
    var Reading(slot, out) := s.readers[t];
    var more := out + [s.slots[slot].text[|out|]];
    if more[|out|] == 0 || |more| == |s.slots[slot].text|
    then s.(readers := s.readers - {t}, copies := s.copies + [(slot, more)])
    else s.(readers := s.readers[t := Reading(slot, more)])
  }

  predicate Holds(pc: Producer) {
    pc.Copying? || pc.Ended? || pc.Publishing?
  }

  predicate Wide(slots: seq<Slot>, width: nat) {
    width > 1 && forall i :: 0 <= i < |slots| ==> |slots[i].text| == width
  }

  predicate SlotsInRange(s: Store, width: nat) {
    && Wide(s.slots, width)
    && forall t :: t in s.producers && Holds(s.producers[t]) ==>
         s.producers[t].slot < |s.slots| && (s.producers[t].Copying? ==> s.producers[t].n < width)
  }

  predicate ReaderInRange(slots: seq<Slot>, r: Reader) {
    r.slot < |slots| && |r.out| < |slots[r.slot].text|
  }

  predicate ReadersInRange(s: Store) {
    forall t :: t in s.readers ==> ReaderInRange(s.slots, s.readers[t])
  }

  function Step(s: Store, width: nat, e: Event): Store
    requires Enabled(s, e) && SlotsInRange(s, width) && ReadersInRange(s)
  {
    match e
    case Call(t, text, cut) => With(s, t, Reserving(text, cut)).(started := s.started + 1)
    case Advance(t) => Advanced(s, width, t)
    case ReadCall(t, slot) => ReadCalled(s, t, slot)
    case ReadByte(t) => ReadAdvanced(s, t)
  }

  /** A read starts exactly on a slot that is ready; each step then copies one more byte of it, and the read
      is over, with its copy kept, at the first NUL and at the width at the latest. */
  lemma ReadProgress(s: Store, t: ThreadId, slot: nat)
    ensures t !in s.readers ==>
              var s' := ReadCalled(s, t, slot);
              (t in s'.readers <==> IsReady(s, slot)) && (IsReady(s, slot) ==> s'.readers[t] == Reading(slot, []))
    ensures t in s.readers && ReaderInRange(s.slots, s.readers[t]) && IsReady(s, s.readers[t].slot) ==>
              var s' := ReadAdvanced(s, t);
              var Reading(at, out) := s.readers[t];
              var text := s.slots[at].text;
              && (t in s'.readers <==> text[|out|] != 0 && |out| + 1 < |text|)
              && (t in s'.readers ==> s'.readers[t] == Reading(at, out + [text[|out|]]) && s'.copies == s.copies)
              && (t !in s'.readers ==> s'.copies == s.copies + [(at, out + [text[|out|]])])
  {
  }

  predicate IsReady(s: Store, slot: nat) {
    slot < |s.slots| && s.slots[slot].ready
  }

  // ---- The invariant ----

  /** A slot's bytes are this text and its NUL. */
  predicate Terminated(bytes: seq<Byte>, text: seq<Byte>) {
    |text| < |bytes| && bytes[..|text|] == text && bytes[|text|] == 0
  }

  /** What an append in progress has written into its own slot. */
  predicate Written(slots: seq<Slot>, owners: seq<Text>, width: nat, pc: Producer)
    requires Wide(slots, width)
  {
    Holds(pc) ==>
      && pc.slot < |slots| && pc.slot < |owners| && !slots[pc.slot].ready && owners[pc.slot] == pc.text
      && (pc.Copying? ==> pc.n < width && pc.n <= |pc.text| && slots[pc.slot].text[..pc.n] == pc.text[..pc.n])
      && (pc.Ended? ==> pc.n == |Kept(pc.text, width)|)
      && (pc.Ended? || pc.Publishing? ==> Terminated(slots[pc.slot].text, Kept(pc.text, width)))
  }

  predicate AllWritten(slots: seq<Slot>, owners: seq<Text>, width: nat, producers: map<ThreadId, Producer>)
    requires Wide(slots, width)
  {
    forall t :: t in producers ==> Written(slots, owners, width, producers[t])
  }

  /** No two appends in progress share a slot. */
  predicate Distinct(producers: map<ThreadId, Producer>) {
    forall t, u :: t in producers && u in producers && t != u && Holds(producers[t]) && Holds(producers[u]) ==>
                     producers[t].slot != producers[u].slot
  }

  /** Every ready slot holds its owner's text. */
  predicate ReadyHold(slots: seq<Slot>, owners: seq<Text>, width: nat)
    requires Wide(slots, width)
  {
    forall i :: 0 <= i < |slots| && slots[i].ready ==> i < |owners| && Terminated(slots[i].text, Kept(owners[i], width))
  }

  /** A reader has copied a prefix of its slot's owner's text. */
  predicate ReaderSound(slots: seq<Slot>, owners: seq<Text>, width: nat, r: Reader)
    requires width > 1
  {
    && r.slot < |slots| && slots[r.slot].ready && r.slot < |owners|
    && |r.out| <= |Kept(owners[r.slot], width)| && r.out == Kept(owners[r.slot], width)[..|r.out|]
  }

  predicate ReadersSound(slots: seq<Slot>, owners: seq<Text>, width: nat, readers: map<ThreadId, Reader>)
    requires width > 1
  {
    forall t :: t in readers ==> ReaderSound(slots, owners, width, readers[t])
  }

  /** A finished read is the whole of one append's kept text, with its NUL. */
  predicate CopySound(owners: seq<Text>, width: nat, copied: (nat, seq<Byte>))
    requires width > 1
  {
    copied.0 < |owners| && copied.1 == Kept(owners[copied.0], width) + [0]
  }

  predicate CopiesSound(owners: seq<Text>, width: nat, copies: seq<(nat, seq<Byte>)>)
    requires width > 1
  {
    forall k :: 0 <= k < |copies| ==> CopySound(owners, width, copies[k])
  }

  function ReadySlots(slots: seq<Slot>): set<nat> {
    set i | 0 <= i < |slots| && slots[i].ready
  }

  /** Every append that finished is a ready slot or was dropped; the others are still in progress. */
  predicate Counts(s: Store) {
    && s.finished == |ReadySlots(s.slots)| + s.dropped
    && s.started == s.finished + |s.producers|
    && |s.owners| == if s.reserved < |s.slots| then s.reserved else |s.slots|
  }

  ghost predicate Inv(s: Store, width: nat) {
    && Wide(s.slots, width) && AllWritten(s.slots, s.owners, width, s.producers) && Distinct(s.producers)
    && ReadyHold(s.slots, s.owners, width) && ReadersSound(s.slots, s.owners, width, s.readers)
    && CopiesSound(s.owners, width, s.copies) && Counts(s)
  }

  lemma InvInRange(s: Store, width: nat)
    requires Inv(s, width)
    ensures SlotsInRange(s, width) && ReadersInRange(s)
  {
    forall t | t in s.producers && Holds(s.producers[t])
      ensures s.producers[t].slot < |s.slots| && (s.producers[t].Copying? ==> s.producers[t].n < width)
    {
      assert Written(s.slots, s.owners, width, s.producers[t]);
    }
    forall t | t in s.readers
      ensures ReaderInRange(s.slots, s.readers[t])
    {
      assert ReaderSound(s.slots, s.owners, width, s.readers[t]);
    }
  }

  lemma StartInv(capacity: nat, width: nat)
    requires width > 1
    ensures Inv(Start(capacity, width), width)
  {
    assert ReadySlots(Start(capacity, width).slots) == {};
  }

  // ---- Frames ----

  lemma Sized<V>(m: map<ThreadId, V>, t: ThreadId, v: V)
    ensures |m[t := v]| == if t in m then |m| else |m| + 1
    ensures t in m ==> |m - {t}| == |m| - 1
  {
    assert m[t := v].Keys == m.Keys + {t};
    assert |m[t := v]| == |m[t := v].Keys| && |m| == |m.Keys|;
    if t in m {
      assert (m - {t}).Keys == m.Keys - {t};
      assert |m - {t}| == |(m - {t}).Keys|;
    }
  }

  /** Only slot `k` was touched. */
  predicate Elsewhere(slots: seq<Slot>, slots': seq<Slot>, k: nat) {
    |slots| == |slots'| && forall i :: 0 <= i < |slots| && i != k ==> slots'[i] == slots[i]
  }

  /** The other appends do not notice. */
  lemma OthersWritten(slots: seq<Slot>, slots': seq<Slot>, owners: seq<Text>, width: nat,
                      producers: map<ThreadId, Producer>, t: ThreadId, k: nat)
    requires Wide(slots, width) && Wide(slots', width) && Elsewhere(slots, slots', k)
    requires AllWritten(slots, owners, width, producers) && Distinct(producers)
    requires t in producers && Holds(producers[t]) && producers[t].slot == k
    ensures AllWritten(slots', owners, width, producers - {t})
  {
    forall u | u in producers - {t}
      ensures Written(slots', owners, width, (producers - {t})[u])
    {
      assert Written(slots, owners, width, producers[u]);
    }
  }

  /** A slot that is not ready is nobody else's business. */
  lemma UnreadyWrite(slots: seq<Slot>, slots': seq<Slot>, owners: seq<Text>, width: nat, readers: map<ThreadId, Reader>, k: nat)
    requires Wide(slots, width) && Wide(slots', width) && Elsewhere(slots, slots', k) && k < |slots|
    requires !slots[k].ready && !slots'[k].ready
    requires ReadyHold(slots, owners, width) && ReadersSound(slots, owners, width, readers)
    ensures ReadyHold(slots', owners, width) && ReadersSound(slots', owners, width, readers)
    ensures ReadySlots(slots') == ReadySlots(slots)
  {
    forall t | t in readers
      ensures ReaderSound(slots', owners, width, readers[t])
    {
      assert ReaderSound(slots, owners, width, readers[t]);
    }
  }

  lemma OwnersGrow(s: Store, width: nat, text: Text)
    requires Inv(s, width)
    ensures var owners := s.owners + [text];
            && AllWritten(s.slots, owners, width, s.producers) && ReadyHold(s.slots, owners, width)
            && ReadersSound(s.slots, owners, width, s.readers) && CopiesSound(owners, width, s.copies)
  {
    var owners := s.owners + [text];
    forall t | t in s.producers
      ensures Written(s.slots, owners, width, s.producers[t])
    {
      assert Written(s.slots, s.owners, width, s.producers[t]);
    }
    forall t | t in s.readers
      ensures ReaderSound(s.slots, owners, width, s.readers[t])
    {
      assert ReaderSound(s.slots, s.owners, width, s.readers[t]);
    }
    forall k | 0 <= k < |s.copies|
      ensures CopySound(owners, width, s.copies[k])
    {
      assert CopySound(s.owners, width, s.copies[k]);
    }
  }

  /** One thread goes on with a place in the code of its own. */
  lemma WithWritten(slots: seq<Slot>, owners: seq<Text>, width: nat, producers: map<ThreadId, Producer>, t: ThreadId, pc: Producer)
    requires Wide(slots, width) && AllWritten(slots, owners, width, producers - {t}) && Written(slots, owners, width, pc)
    ensures AllWritten(slots, owners, width, producers[t := pc])
  {
    var next := producers[t := pc];
    forall u | u in next
      ensures Written(slots, owners, width, next[u])
    {
      assert u != t ==> u in producers - {t} && (producers - {t})[u] == producers[u];
    }
  }

  lemma FewerWritten(slots: seq<Slot>, owners: seq<Text>, width: nat, producers: map<ThreadId, Producer>, t: ThreadId)
    requires Wide(slots, width) && AllWritten(slots, owners, width, producers)
    ensures AllWritten(slots, owners, width, producers - {t})
  {
  }

  lemma DistinctWith(producers: map<ThreadId, Producer>, t: ThreadId, pc: Producer)
    requires Distinct(producers)
    requires Holds(pc) ==> forall u :: u in producers && u != t && Holds(producers[u]) ==> producers[u].slot != pc.slot
    ensures Distinct(producers[t := pc]) && Distinct(producers - {t})
  {
  }

  // ---- Each step keeps the invariant ----

  lemma CallKeeps(s: Store, width: nat, t: ThreadId, text: Text, cut: bool)
    requires Inv(s, width) && t !in s.producers
    ensures Inv(With(s, t, Reserving(text, cut)).(started := s.started + 1), width)
  {
    Sized(s.producers, t, Reserving(text, cut));
    FewerWritten(s.slots, s.owners, width, s.producers, t);
    WithWritten(s.slots, s.owners, width, s.producers, t, Reserving(text, cut));
    DistinctWith(s.producers, t, Reserving(text, cut));
  }

  lemma ReserveFullKeeps(s: Store, width: nat, t: ThreadId)
    requires Inv(s, width) && t in s.producers && s.producers[t].Reserving? && s.reserved >= |s.slots|
    ensures Inv(With(s.(reserved := s.reserved + 1), t, Dropping), width)
  {
    Sized(s.producers, t, Dropping);
    FewerWritten(s.slots, s.owners, width, s.producers, t);
    WithWritten(s.slots, s.owners, width, s.producers, t, Dropping);
    DistinctWith(s.producers, t, Dropping);
  }

  /** A reservation hands out a slot that no append has had before. */
  lemma ReserveKeeps(s: Store, width: nat, t: ThreadId, text: Text, cut: bool)
    requires Inv(s, width) && t in s.producers && s.producers[t].Reserving? && s.reserved < |s.slots|
    ensures Inv(With(s.(reserved := s.reserved + 1), t, Copying(s.reserved, text, cut, 0)).(owners := s.owners + [text], flags := s.flags + [cut]), width)
  {
    var pc := Copying(s.reserved, text, cut, 0);
    var owners := s.owners + [text];
    Sized(s.producers, t, pc);
    OwnersGrow(s, width, text);
    forall u | u in s.producers && u != t && Holds(s.producers[u])
      ensures s.producers[u].slot != pc.slot
    {
      assert Written(s.slots, s.owners, width, s.producers[u]);
    }
    FewerWritten(s.slots, owners, width, s.producers, t);
    FreshSlot(s, width, pc, owners);
    WithWritten(s.slots, owners, width, s.producers, t, pc);
    DistinctWith(s.producers, t, pc);
  }

  lemma FreshSlot(s: Store, width: nat, pc: Producer, owners: seq<Text>)
    requires Inv(s, width) && s.reserved < |s.slots| && pc.Copying? && pc.slot == s.reserved && pc.n == 0
    requires owners == s.owners + [pc.text]
    ensures Written(s.slots, owners, width, pc)
  {
    assert s.slots[pc.slot].text[..0] == pc.text[..0];
  }

  lemma DropKeeps(s: Store, width: nat, t: ThreadId)
    requires Inv(s, width) && t in s.producers && s.producers[t].Dropping?
    ensures Inv(s.(dropped := s.dropped + 1, finished := s.finished + 1, producers := s.producers - {t}), width)
  {
    Sized(s.producers, t, Dropping);
    FewerWritten(s.slots, s.owners, width, s.producers, t);
    DistinctWith(s.producers, t, Dropping);
  }

  /** Writing one byte of its own slot and going on, an append disturbs nothing. */
  lemma OwnWriteKeeps(s: Store, width: nat, t: ThreadId, n: nat, b: Byte, pc: Producer)
    requires Inv(s, width) && t in s.producers && s.producers[t].Copying? && n < width
    requires Holds(pc) && pc.slot == s.producers[t].slot < |s.slots|
    requires Wide(SetByte(s, pc.slot, n, b).slots, width) && Written(SetByte(s, pc.slot, n, b).slots, s.owners, width, pc)
    ensures Inv(With(SetByte(s, pc.slot, n, b), t, pc), width)
  {
    var k := pc.slot;
    var slots' := SetByte(s, k, n, b).slots;
    assert Written(s.slots, s.owners, width, s.producers[t]);
    Sized(s.producers, t, pc);
    OthersWritten(s.slots, slots', s.owners, width, s.producers, t, k);
    UnreadyWrite(s.slots, slots', s.owners, width, s.readers, k);
    WithWritten(slots', s.owners, width, s.producers, t, pc);
    DistinctWith(s.producers, t, pc);
  }

  lemma ByteWritten(bytes: seq<Byte>, text: seq<Byte>, n: nat)
    requires n < |bytes| && n <= |text| && bytes[..n] == text[..n]
    ensures n < |text| ==> bytes[n := text[n]][..n + 1] == text[..n + 1]
    ensures Terminated(bytes[n := 0], text[..n])
  {
    if n < |text| {
      assert bytes[n := text[n]][..n + 1] == bytes[..n] + [text[n]];
      assert text[..n + 1] == text[..n] + [text[n]];
    }
    assert bytes[n := 0][..n] == bytes[..n];
  }

  lemma CopyByteKeeps(s: Store, width: nat, t: ThreadId, slot: nat, text: Text, cut: bool, n: nat)
    requires Inv(s, width) && t in s.producers && s.producers[t] == Copying(slot, text, cut, n)
    requires n < width - 1 && n < |text| && slot < |s.slots| && |s.slots[slot].text| == width
    ensures Inv(With(SetByte(s, slot, n, text[n]), t, Copying(slot, text, cut, n + 1)), width)
  {
    assert Written(s.slots, s.owners, width, s.producers[t]);
    ByteWritten(s.slots[slot].text, text, n);
    OwnWriteKeeps(s, width, t, n, text[n], Copying(slot, text, cut, n + 1));
  }

  lemma TerminateKeeps(s: Store, width: nat, t: ThreadId, slot: nat, text: Text, cut: bool, n: nat)
    requires Inv(s, width) && t in s.producers && s.producers[t] == Copying(slot, text, cut, n)
    requires n < width && (n == width - 1 || n >= |text|) && slot < |s.slots| && |s.slots[slot].text| == width
    ensures Inv(With(SetByte(s, slot, n, 0), t, Ended(slot, text, cut, n)), width)
  {
    assert Written(s.slots, s.owners, width, s.producers[t]);
    ByteWritten(s.slots[slot].text, text, n);
    assert text[..n] == Kept(text, width);
    OwnWriteKeeps(s, width, t, n, 0, Ended(slot, text, cut, n));
  }

  lemma CopyKeeps(s: Store, width: nat, t: ThreadId)
    requires Inv(s, width) && t in s.producers && s.producers[t].Copying?
    ensures SlotsInRange(s, width) && Inv(Advanced(s, width, t), width)
  {
    InvInRange(s, width);
    var Copying(slot, text, cut, n) := s.producers[t];
    if n < width - 1 && n < |text| {
      CopyByteKeeps(s, width, t, slot, text, cut, n);
    } else {
      TerminateKeeps(s, width, t, slot, text, cut, n);
    }
  }

  lemma EndKeeps(s: Store, width: nat, t: ThreadId)
    requires Inv(s, width) && t in s.producers && s.producers[t].Ended?
    ensures SlotsInRange(s, width) && Inv(Advanced(s, width, t), width)
  {
    InvInRange(s, width);
    var pc := Publishing(s.producers[t].slot, s.producers[t].text);
    assert Written(s.slots, s.owners, width, s.producers[t]);
    Sized(s.producers, t, pc);
    FewerWritten(s.slots, s.owners, width, s.producers, t);
    WithWritten(s.slots, s.owners, width, s.producers, t, pc);
    DistinctWith(s.producers, t, pc);
  }

  /** Publication adds one ready slot, complete with its owner's text. */
  lemma NowReady(s: Store, width: nat, k: nat)
    requires Inv(s, width) && k < |s.slots| && !s.slots[k].ready && k < |s.owners|
    requires Terminated(s.slots[k].text, Kept(s.owners[k], width))
    ensures var slots' := s.slots[k := s.slots[k].(ready := true)];
            && Wide(slots', width) && ReadyHold(slots', s.owners, width) && ReadersSound(slots', s.owners, width, s.readers)
            && |ReadySlots(slots')| == |ReadySlots(s.slots)| + 1
  {
    var slots' := s.slots[k := s.slots[k].(ready := true)];
    assert ReadySlots(slots') == ReadySlots(s.slots) + {k};
    hide ReadyHold, ReadersSound, AllWritten, Distinct, CopiesSound, Counts, Terminated;
    ReadyHoldMore(s.slots, s.owners, width, k);
    ReadersSeeReady(s.slots, s.owners, width, s.readers, k);
  }

  lemma ReadyHoldMore(slots: seq<Slot>, owners: seq<Text>, width: nat, k: nat)
    requires Wide(slots, width) && ReadyHold(slots, owners, width) && k < |slots| && k < |owners|
    requires Terminated(slots[k].text, Kept(owners[k], width))
    ensures Wide(slots[k := slots[k].(ready := true)], width)
    ensures ReadyHold(slots[k := slots[k].(ready := true)], owners, width)
  {
  }

  lemma ReadersSeeReady(slots: seq<Slot>, owners: seq<Text>, width: nat, readers: map<ThreadId, Reader>, k: nat)
    requires width > 1 && k < |slots| && ReadersSound(slots, owners, width, readers)
    ensures ReadersSound(slots[k := slots[k].(ready := true)], owners, width, readers)
  {
    forall t | t in readers
      ensures ReaderSound(slots[k := slots[k].(ready := true)], owners, width, readers[t])
    {
      assert ReaderSound(slots, owners, width, readers[t]);
    }
  }

  lemma PublishKeeps(s: Store, width: nat, t: ThreadId)
    requires Inv(s, width) && t in s.producers && s.producers[t].Publishing?
    ensures SlotsInRange(s, width) && Inv(Advanced(s, width, t), width)
  {
    InvInRange(s, width);
    var k := s.producers[t].slot;
    assert Written(s.slots, s.owners, width, s.producers[t]);
    NowReady(s, width, k);
    Sized(s.producers, t, Dropping);
    OthersWritten(s.slots, s.slots[k := s.slots[k].(ready := true)], s.owners, width, s.producers, t, k);
    DistinctWith(s.producers, t, Dropping);
  }

  lemma ReadCallKeeps(s: Store, width: nat, t: ThreadId, slot: nat)
    requires Inv(s, width)
    ensures Inv(ReadCalled(s, t, slot), width)
  {
    if slot < |s.slots| && s.slots[slot].ready {
      assert Terminated(s.slots[slot].text, Kept(s.owners[slot], width));
      assert ReaderSound(s.slots, s.owners, width, Reading(slot, []));
    }
  }

  /** The next byte of a ready slot is the next of its owner's text, or the NUL after it. */
  lemma NextByte(bytes: seq<Byte>, kept: seq<Byte>, out: seq<Byte>)
    requires Terminated(bytes, kept) && 0 !in kept && |out| <= |kept| && out == kept[..|out|]
    ensures var more := out + [bytes[|out|]];
            if bytes[|out|] == 0 then more == kept + [0] else |more| <= |kept| && more == kept[..|more|]
  {
    if |out| < |kept| {
      assert bytes[|out|] == bytes[..|kept|][|out|] == kept[|out|];
      assert kept[|out|] in kept;
      assert kept[..|out| + 1] == kept[..|out|] + [kept[|out|]];
    }
  }

  /** A read that goes on has copied one byte more, and one that ends has copied all. */
  lemma ReaderGoesOn(slots: seq<Slot>, owners: seq<Text>, width: nat, r: Reader)
    requires Wide(slots, width) && ReadyHold(slots, owners, width) && ReaderSound(slots, owners, width, r)
    requires ReaderInRange(slots, r)
    ensures var more := r.out + [slots[r.slot].text[|r.out|]];
            if more[|r.out|] == 0 || |more| == |slots[r.slot].text| then CopySound(owners, width, (r.slot, more))
            else ReaderSound(slots, owners, width, Reading(r.slot, more))
  {
    var kept := Kept(owners[r.slot], width);
    assert Terminated(slots[r.slot].text, kept);
    NextByte(slots[r.slot].text, kept, r.out);
  }

  lemma ReadersStay(slots: seq<Slot>, owners: seq<Text>, width: nat, readers: map<ThreadId, Reader>, t: ThreadId)
    requires width > 1 && ReadersSound(slots, owners, width, readers)
    ensures ReadersSound(slots, owners, width, readers - {t})
  {
    assert forall u :: u in readers - {t} ==> (readers - {t})[u] == readers[u];
  }

  lemma ReadersWith(slots: seq<Slot>, owners: seq<Text>, width: nat, readers: map<ThreadId, Reader>, t: ThreadId, r: Reader)
    requires width > 1 && ReadersSound(slots, owners, width, readers) && ReaderSound(slots, owners, width, r)
    ensures ReadersSound(slots, owners, width, readers[t := r])
  {
  }

  lemma CopiesMore(owners: seq<Text>, width: nat, copies: seq<(nat, seq<Byte>)>, copied: (nat, seq<Byte>))
    requires width > 1 && CopiesSound(owners, width, copies) && CopySound(owners, width, copied)
    ensures CopiesSound(owners, width, copies + [copied])
  {
  }

  lemma ReadEndKeeps(s: Store, width: nat, t: ThreadId, copied: (nat, seq<Byte>))
    requires Inv(s, width) && CopySound(s.owners, width, copied)
    ensures Inv(s.(readers := s.readers - {t}, copies := s.copies + [copied]), width)
  {
    hide AllWritten, Distinct, ReadyHold, ReadersSound, CopiesSound, CopySound, ReadySlots;
    ReadersStay(s.slots, s.owners, width, s.readers, t);
    CopiesMore(s.owners, width, s.copies, copied);
  }

  lemma ReadOnKeeps(s: Store, width: nat, t: ThreadId, r: Reader)
    requires Inv(s, width) && ReaderSound(s.slots, s.owners, width, r)
    ensures Inv(s.(readers := s.readers[t := r]), width)
  {
    hide AllWritten, Distinct, ReadyHold, ReadersSound, CopiesSound, ReaderSound, ReadySlots;
    ReadersWith(s.slots, s.owners, width, s.readers, t, r);
  }

  lemma ReadByteKeeps(s: Store, width: nat, t: ThreadId)
    requires Inv(s, width) && t in s.readers
    ensures ReadersInRange(s) && Inv(ReadAdvanced(s, t), width)
  {
    InvInRange(s, width);
    var r := s.readers[t];
    assert ReaderSound(s.slots, s.owners, width, r);
    ReaderGoesOn(s.slots, s.owners, width, r);
    hide Inv, ReaderSound, CopySound;
    var more := r.out + [s.slots[r.slot].text[|r.out|]];
    if more[|r.out|] == 0 || |more| == |s.slots[r.slot].text| {
      ReadEndKeeps(s, width, t, (r.slot, more));
    } else {
      ReadOnKeeps(s, width, t, Reading(r.slot, more));
    }
  }

  lemma AdvanceKeeps(s: Store, width: nat, t: ThreadId)
    requires Inv(s, width) && t in s.producers
    ensures SlotsInRange(s, width) && Inv(Advanced(s, width, t), width)
  {
    InvInRange(s, width);
    match s.producers[t]
    case Reserving(text, cut) =>
      if s.reserved >= |s.slots| {
        ReserveFullKeeps(s, width, t);
      } else {
        ReserveKeeps(s, width, t, text, cut);
      }
    case Dropping => DropKeeps(s, width, t);
    case Copying(_, _, _, _) => CopyKeeps(s, width, t);
    case Ended(_, _, _, _) => EndKeeps(s, width, t);
    case Publishing(_, _) => PublishKeeps(s, width, t);
  }

  lemma StepKeeps(s: Store, width: nat, e: Event)
    requires Inv(s, width) && Enabled(s, e)
    ensures SlotsInRange(s, width) && ReadersInRange(s) && Inv(Step(s, width, e), width)
  {
    InvInRange(s, width);
    match e
    case Call(t, text, cut) => CallKeeps(s, width, t, text, cut);
    case Advance(t) => AdvanceKeeps(s, width, t);
    case ReadCall(t, slot) => ReadCallKeeps(s, width, t, slot);
    case ReadByte(t) => ReadByteKeeps(s, width, t);
  }

  // ---- Whole runs ----

  predicate Leads(s: Store, width: nat, e: Event, s': Store) {
    Enabled(s, e) && SlotsInRange(s, width) && ReadersInRange(s) && s' == Step(s, width, e)
  }

  predicate IsRun(run: seq<Store>, events: seq<Event>, capacity: nat, width: nat) {
    && |run| == |events| + 1 && run[0] == Start(capacity, width)
    && forall i :: 0 <= i < |events| ==> Leads(run[i], width, events[i], run[i + 1])
  }

  /** In every interleaving of any appends and reads: no two appends share a slot, a finished read is the
      kept text of exactly one append with its NUL, and the finished appends are the ready slots and the
      dropped ones. */
  lemma {:induction false} RecordsSafety(run: seq<Store>, events: seq<Event>, capacity: nat, width: nat, i: nat)
    requires width > 1 && IsRun(run, events, capacity, width) && i < |run|
    ensures Inv(run[i], width)
  {
    if i == 0 {
      StartInv(capacity, width);
    } else {
      RecordsSafety(run, events, capacity, width, i - 1);
      assert Leads(run[i - 1], width, events[i - 1], run[i - 1 + 1]);
      StepKeeps(run[i - 1], width, events[i - 1]);
    }
  }

  /** When no append is in progress, every append that was ever started is ready or dropped. */
  lemma QuietTotals(run: seq<Store>, events: seq<Event>, capacity: nat, width: nat, i: nat)
    requires width > 1 && IsRun(run, events, capacity, width) && i < |run| && run[i].producers == map[]
    ensures run[i].started == |ReadySlots(run[i].slots)| + run[i].dropped
  {
    RecordsSafety(run, events, capacity, width, i);
  }

  // ---- Counting the texts that were cut ----

  /** The text does not come through whole: the slot is too narrow, or the caller cut it before. */
  predicate Cut(text: Text, flag: bool, width: nat) {
    |text| >= width || flag
  }

  function PublishingSlots(producers: map<ThreadId, Producer>): set<nat> {
    set t | t in producers && producers[t].Publishing? :: producers[t].slot
  }

  /** The slots whose append is past its counting. */
  function Counted(s: Store): set<nat> {
    ReadySlots(s.slots) + PublishingSlots(s.producers)
  }

  function CutAmong(owners: seq<Text>, flags: seq<bool>, width: nat, among: set<nat>): set<nat> {
    set i | i in among && i < |owners| && i < |flags| && Cut(owners[i], flags[i], width)
  }

  /** An append before its counting knows whether its text was cut when it came in. */
  predicate FlagKnown(flags: seq<bool>, pc: Producer) {
    pc.Copying? || pc.Ended? ==> pc.slot < |flags| && flags[pc.slot] == pc.cut
  }

  ghost predicate FlagsKnown(flags: seq<bool>, producers: map<ThreadId, Producer>) {
    forall t :: t in producers ==> FlagKnown(flags, producers[t])
  }

  ghost predicate CutsCounted(s: Store, width: nat) {
    && |s.flags| == |s.owners| && FlagsKnown(s.flags, s.producers)
    && s.truncated == |CutAmong(s.owners, s.flags, width, Counted(s))|
  }

  lemma PublishingWith(producers: map<ThreadId, Producer>, t: ThreadId, pc: Producer)
    requires t in producers ==> !producers[t].Publishing?
    ensures PublishingSlots(producers[t := pc]) == PublishingSlots(producers) + (if pc.Publishing? then {pc.slot} else {})
    ensures PublishingSlots(producers - {t}) == PublishingSlots(producers)
  {
    var next := producers[t := pc];
    forall k | k in PublishingSlots(producers)
      ensures k in PublishingSlots(next) && k in PublishingSlots(producers - {t})
    {
      var u :| u in producers && producers[u].Publishing? && producers[u].slot == k;
      assert u != t && next[u] == producers[u] && (producers - {t})[u] == producers[u];
    }
    if pc.Publishing? {
      assert next[t] == pc;
    }
  }

  lemma FlagsWith(flags: seq<bool>, producers: map<ThreadId, Producer>, t: ThreadId, pc: Producer)
    requires FlagsKnown(flags, producers) && FlagKnown(flags, pc)
    ensures FlagsKnown(flags, producers[t := pc]) && FlagsKnown(flags, producers - {t})
  {
    assert forall u :: u in producers - {t} ==> (producers - {t})[u] == producers[u];
  }

  /** Whatever counts nothing and publishes nothing leaves the counts right. */
  lemma CountsStay(s: Store, s': Store, width: nat)
    requires CutsCounted(s, width) && FlagsKnown(s'.flags, s'.producers)
    requires s'.owners == s.owners && s'.flags == s.flags && s'.truncated == s.truncated
    requires ReadySlots(s'.slots) == ReadySlots(s.slots) && PublishingSlots(s'.producers) == PublishingSlots(s.producers)
    ensures CutsCounted(s', width)
  {
    assert Counted(s') == Counted(s);
  }

  lemma CallCounts(s: Store, width: nat, t: ThreadId, text: Text, cut: bool)
    requires CutsCounted(s, width) && t !in s.producers
    ensures CutsCounted(With(s, t, Reserving(text, cut)).(started := s.started + 1), width)
  {
    hide CutAmong, ReadySlots;
    FlagsWith(s.flags, s.producers, t, Reserving(text, cut));
    PublishingWith(s.producers, t, Reserving(text, cut));
    CountsStay(s, With(s, t, Reserving(text, cut)).(started := s.started + 1), width);
  }

  /** Only slots that were reserved have been counted. */
  lemma CountedAreOwned(s: Store, width: nat, i: nat)
    requires Inv(s, width) && i in Counted(s)
    ensures i < |s.owners|
  {
    if i in PublishingSlots(s.producers) {
      var u :| u in s.producers && s.producers[u].Publishing? && s.producers[u].slot == i;
      assert Written(s.slots, s.owners, width, s.producers[u]);
    }
  }

  lemma OwnersMore(owners: seq<Text>, flags: seq<bool>, width: nat, among: set<nat>, text: Text, flag: bool)
    requires |owners| == |flags| && forall i :: i in among ==> i < |owners|
    ensures CutAmong(owners + [text], flags + [flag], width, among) == CutAmong(owners, flags, width, among)
  {
  }

  lemma FlagsMore(flags: seq<bool>, producers: map<ThreadId, Producer>, flag: bool)
    requires FlagsKnown(flags, producers)
    ensures FlagsKnown(flags + [flag], producers)
  {
    assert forall u :: u in producers ==> FlagKnown(flags, producers[u]);
  }

  lemma AllOwned(s: Store, width: nat)
    requires Inv(s, width)
    ensures forall i :: i in Counted(s) ==> i < |s.owners|
  {
    hide Inv;
    forall i | i in Counted(s)
      ensures i < |s.owners|
    {
      CountedAreOwned(s, width, i);
    }
  }

  lemma CountedStays(s: Store, t: ThreadId, pc: Producer)
    requires (t in s.producers ==> !s.producers[t].Publishing?) && !pc.Publishing?
    ensures ReadySlots(s.slots) + PublishingSlots(s.producers[t := pc]) == Counted(s)
  {
    PublishingWith(s.producers, t, pc);
  }

  /** An append that begins to copy adds its own text and flag. */
  lemma ReserveCounts(s: Store, width: nat, t: ThreadId, text: Text, cut: bool)
    requires Inv(s, width) && CutsCounted(s, width) && t in s.producers && s.producers[t].Reserving? && s.reserved < |s.slots|
    ensures CutsCounted(With(s.(reserved := s.reserved + 1), t, Copying(s.reserved, text, cut, 0)).(owners := s.owners + [text],
                                                                                                   flags := s.flags + [cut]), width)
  {
    AllOwned(s, width);
    assert |s.owners| == s.reserved;
    var pc := Copying(s.reserved, text, cut, 0);
    hide Inv;
    CountedStays(s, t, pc);
    OwnersMore(s.owners, s.flags, width, Counted(s), text, cut);
    FlagsMore(s.flags, s.producers, cut);
    FlagsWith(s.flags + [cut], s.producers, t, pc);
    hide CutAmong, ReadySlots, PublishingSlots, FlagsKnown;
  }

  lemma ReserveFullCounts(s: Store, width: nat, t: ThreadId)
    requires CutsCounted(s, width) && t in s.producers && s.producers[t].Reserving?
    ensures CutsCounted(With(s.(reserved := s.reserved + 1), t, Dropping), width)
  {
    hide CutAmong, ReadySlots;
    FlagsWith(s.flags, s.producers, t, Dropping);
    PublishingWith(s.producers, t, Dropping);
    CountsStay(s, With(s.(reserved := s.reserved + 1), t, Dropping), width);
  }

  lemma DropCounts(s: Store, width: nat, t: ThreadId)
    requires CutsCounted(s, width) && t in s.producers && s.producers[t].Dropping?
    ensures CutsCounted(s.(dropped := s.dropped + 1, finished := s.finished + 1, producers := s.producers - {t}), width)
  {
    hide CutAmong, ReadySlots;
    FlagsWith(s.flags, s.producers, t, Dropping);
    PublishingWith(s.producers, t, Dropping);
    CountsStay(s, s.(dropped := s.dropped + 1, finished := s.finished + 1, producers := s.producers - {t}), width);
  }

  /** Writing one byte counts nothing. */
  lemma CopyCounts(s: Store, width: nat, t: ThreadId, n: nat, b: Byte, pc: Producer)
    requires CutsCounted(s, width) && t in s.producers && s.producers[t].Copying? && (pc.Copying? || pc.Ended?)
    requires pc.slot == s.producers[t].slot && pc.cut == s.producers[t].cut
    requires pc.slot < |s.slots| && n < |s.slots[pc.slot].text|
    ensures CutsCounted(With(SetByte(s, pc.slot, n, b), t, pc), width)
  {
    assert FlagKnown(s.flags, s.producers[t]);
    assert ReadySlots(SetByte(s, pc.slot, n, b).slots) == ReadySlots(s.slots);
    hide CutAmong, ReadySlots;
    FlagsWith(s.flags, s.producers, t, pc);
    PublishingWith(s.producers, t, pc);
    CountsStay(s, With(SetByte(s, pc.slot, n, b), t, pc), width);
  }

  /** A slot that an append is about to count has not been counted. */
  lemma NotYetCounted(s: Store, width: nat, t: ThreadId)
    requires Inv(s, width) && t in s.producers && s.producers[t].Ended?
    ensures s.producers[t].slot !in Counted(s)
  {
    assert Written(s.slots, s.owners, width, s.producers[t]);
    forall u | u in s.producers && s.producers[u].Publishing?
      ensures s.producers[u].slot != s.producers[t].slot
    {
      assert u != t;
    }
  }

  lemma CutOneMore(owners: seq<Text>, flags: seq<bool>, width: nat, among: set<nat>, k: nat)
    requires k < |owners| == |flags| && k !in among
    ensures |CutAmong(owners, flags, width, among + {k})| ==
            |CutAmong(owners, flags, width, among)| + (if Cut(owners[k], flags[k], width) then 1 else 0)
  {
    var few, more := CutAmong(owners, flags, width, among), CutAmong(owners, flags, width, among + {k});
    if Cut(owners[k], flags[k], width) {
      assert more == few + {k};
    } else {
      assert more == few;
    }
  }

  /** The counting step adds its own slot, and one exactly when its text was cut. */
  lemma EndCounts(s: Store, width: nat, t: ThreadId, k: nat, text: Text, cut: bool, n: nat)
    requires CutsCounted(s, width) && t in s.producers && s.producers[t] == Ended(k, text, cut, n)
    requires k < |s.owners| && s.owners[k] == text && k !in Counted(s) && (n < |text| <==> |text| >= width)
    ensures CutsCounted(With(s.(truncated := s.truncated + if n < |text| || cut then 1 else 0), t, Publishing(k, text)), width)
  {
    assert FlagKnown(s.flags, s.producers[t]);
    FlagsWith(s.flags, s.producers, t, Publishing(k, text));
    PublishingWith(s.producers, t, Publishing(k, text));
    CutOneMore(s.owners, s.flags, width, Counted(s), k);
    var s' := With(s.(truncated := s.truncated + if n < |text| || cut then 1 else 0), t, Publishing(k, text));
    assert Counted(s') == Counted(s) + {k} by {
      hide ReadySlots, PublishingSlots;
    }
    hide CutAmong, Counted, FlagsKnown;
  }

  lemma PublishingLess(producers: map<ThreadId, Producer>, t: ThreadId)
    requires t in producers && producers[t].Publishing?
    ensures PublishingSlots(producers - {t}) + {producers[t].slot} == PublishingSlots(producers)
  {
    var less := producers - {t};
    forall k | k in PublishingSlots(producers) && k != producers[t].slot
      ensures k in PublishingSlots(less)
    {
      var u :| u in producers && producers[u].Publishing? && producers[u].slot == k;
      assert less[u] == producers[u];
    }
    assert forall u :: u in less ==> less[u] == producers[u];
  }

  /** Publication turns a counted append into a ready slot. */
  lemma PublishCounts(s: Store, width: nat, t: ThreadId, k: nat)
    requires CutsCounted(s, width) && t in s.producers && s.producers[t].Publishing? && s.producers[t].slot == k < |s.slots|
    ensures CutsCounted(s.(slots := s.slots[k := s.slots[k].(ready := true)], finished := s.finished + 1,
                           producers := s.producers - {t}), width)
  {
    var slots' := s.slots[k := s.slots[k].(ready := true)];
    assert ReadySlots(slots') == ReadySlots(s.slots) + {k};
    hide CutAmong, ReadySlots;
    FlagsWith(s.flags, s.producers, t, s.producers[t]);
    PublishingLess(s.producers, t);
    hide PublishingSlots;
    assert ReadySlots(slots') + PublishingSlots(s.producers - {t}) == Counted(s);
  }

  lemma EndedFacts(s: Store, width: nat, t: ThreadId, k: nat, text: Text, cut: bool, n: nat)
    requires Inv(s, width) && t in s.producers && s.producers[t] == Ended(k, text, cut, n)
    ensures k < |s.owners| && s.owners[k] == text && k !in Counted(s) && (n < |text| <==> |text| >= width)
  {
    assert Written(s.slots, s.owners, width, s.producers[t]);
    NotYetCounted(s, width, t);
  }

  lemma CopyStepCounts(s: Store, width: nat, t: ThreadId)
    requires SlotsInRange(s, width) && CutsCounted(s, width) && t in s.producers && s.producers[t].Copying?
    ensures CutsCounted(Advanced(s, width, t), width)
  {
    hide CutsCounted;
    var Copying(slot, text, cut, n) := s.producers[t];
    if n < width - 1 && n < |text| {
      CopyCounts(s, width, t, n, text[n], Copying(slot, text, cut, n + 1));
    } else {
      CopyCounts(s, width, t, n, 0, Ended(slot, text, cut, n));
    }
  }

  lemma AdvanceCounts(s: Store, width: nat, t: ThreadId)
    requires Inv(s, width) && CutsCounted(s, width) && t in s.producers
    ensures SlotsInRange(s, width) && CutsCounted(Advanced(s, width, t), width)
  {
    InvInRange(s, width);
    hide CutsCounted, Counted, Inv;
    match s.producers[t]
    case Reserving(text, cut) =>
      if s.reserved >= |s.slots| {
        ReserveFullCounts(s, width, t);
      } else {
        ReserveCounts(s, width, t, text, cut);
      }
    case Dropping => DropCounts(s, width, t);
    case Copying(_, _, _, _) => CopyStepCounts(s, width, t);
    case Ended(slot, text, cut, n) =>
      EndedFacts(s, width, t, slot, text, cut, n);
      EndCounts(s, width, t, slot, text, cut, n);
    case Publishing(slot, _) => PublishCounts(s, width, t, slot);
  }

  lemma ReadCounts(s: Store, s': Store, width: nat)
    requires CutsCounted(s, width) && s' == s.(readers := s'.readers, copies := s'.copies)
    ensures CutsCounted(s', width)
  {
    hide CutAmong, ReadySlots, PublishingSlots, FlagsKnown;
    CountsStay(s, s', width);
  }

  lemma StepCounts(s: Store, width: nat, e: Event)
    requires Inv(s, width) && CutsCounted(s, width) && Enabled(s, e)
    ensures SlotsInRange(s, width) && ReadersInRange(s) && CutsCounted(Step(s, width, e), width)
  {
    InvInRange(s, width);
    hide CutsCounted, Inv, Advanced;
    match e
    case Call(t, text, cut) => CallCounts(s, width, t, text, cut);
    case Advance(t) => AdvanceCounts(s, width, t);
    case ReadCall(t, slot) => ReadCounts(s, ReadCalled(s, t, slot), width);
    case ReadByte(t) => ReadCounts(s, ReadAdvanced(s, t), width);
  }

  lemma StartCounts(capacity: nat, width: nat)
    ensures CutsCounted(Start(capacity, width), width)
  {
    assert CutAmong([], [], width, Counted(Start(capacity, width))) == {};
  }

  /** In every interleaving the truncation counter is the number of appends past their counting whose text
      did not come through whole. */
  lemma {:induction false} TruncatedCounts(run: seq<Store>, events: seq<Event>, capacity: nat, width: nat, i: nat)
    requires width > 1 && IsRun(run, events, capacity, width) && i < |run|
    ensures CutsCounted(run[i], width)
  {
    hide CutsCounted, Inv;
    if i == 0 {
      StartCounts(capacity, width);
    } else {
      TruncatedCounts(run, events, capacity, width, i - 1);
      RecordsSafety(run, events, capacity, width, i - 1);
      assert Leads(run[i - 1], width, events[i - 1], run[i - 1 + 1]);
      StepCounts(run[i - 1], width, events[i - 1]);
    }
  }

  /** When no append is in progress the counter is the number of ready slots whose text was cut. */
  lemma QuietTruncated(run: seq<Store>, events: seq<Event>, capacity: nat, width: nat, i: nat)
    requires width > 1 && IsRun(run, events, capacity, width) && i < |run| && run[i].producers == map[]
    ensures |run[i].flags| == |run[i].owners|
    ensures run[i].truncated == |CutAmong(run[i].owners, run[i].flags, width, ReadySlots(run[i].slots))|
  {
    TruncatedCounts(run, events, capacity, width, i);
    assert Counted(run[i]) == ReadySlots(run[i].slots);
  }
}
