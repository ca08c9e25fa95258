/** The fixed store of distinct fault observations. Callers never wait: one at a time claims it, and the
    others count themselves out. Every shared access is one step of one caller. */
module FaultStore {
  import opened Bits
  import opened Options

  type ThreadId = nat

  datatype Observation = Observation(status: U32, address: U64)

  /** The process whose fault it is: four bits of the status word. */
  function Vmid(status: U32): nat {
    status / 0x10_0000 % 16
  }

  /** They are bits 20 to 23. */
  lemma VmidIs(status: U32, low: nat, vmid: nat, high: nat)
    requires status == low + 0x10_0000 * vmid + 0x100_0000 * high && low < 0x10_0000 && vmid < 16
    ensures Vmid(status) == vmid
  {
    DivUnique(status, 0x10_0000, vmid + 16 * high, low);
    DivUnique(vmid + 16 * high, 16, high, vmid);
  }

  datatype Slot = Slot(ready: bool, value: Observation)

  /** Where a call of capture stands. */
  datatype Caller =
    | Entering(o: Observation)
    | NotClient(o: Observation)
    | Claiming(o: Observation)
    | Contended(o: Observation)
    | Scanning(o: Observation, i: nat, empty: Option<nat>)
    | Matched(o: Observation)
    | NoRoom(o: Observation)
    | Storing(o: Observation, slot: nat)
    | Publishing(o: Observation, slot: nat)
    | Releasing

  datatype Counters = Counters(nonClient: nat, duplicate: nat, contention: nat, full: nat)

  datatype Store = Store(slots: seq<Slot>, busy: bool, counters: Counters, callers: map<ThreadId, Caller>, attempts: nat)

  function Start(capacity: nat): Store {
    Store(seq(capacity, _ => Slot(false, Observation(0, 0))), false, Counters(0, 0, 0, 0), map[], 0)
  }

  function With(s: Store, t: ThreadId, pc: Caller): Store {
    s.(callers := s.callers[t := pc])
  }

  function Gone(s: Store, t: ThreadId): Store {
    s.(callers := s.callers - {t})
  }

  function Scanned(slots: seq<Slot>, o: Observation, i: nat, empty: Option<nat>): Caller {
    if i >= |slots| then if empty == None then NoRoom(o) else Storing(o, empty.value)
    else if slots[i].ready then if slots[i].value == o then Matched(o) else Scanning(o, i + 1, empty)
    else Scanning(o, i + 1, if empty == None then Some(i) else empty)
  }

  /** One step of a call. */
  function Advanced(s: Store, t: ThreadId): Store
    requires t in s.callers && CallerInRange(s.slots, s.callers[t])
  {
    match s.callers[t]
    case Entering(o) => With(s, t, if Vmid(o.status) == 0 || Vmid(o.status) >= 16 then NotClient(o) else Claiming(o))
    case NotClient(_) => Gone(s.(counters := s.counters.(nonClient := s.counters.nonClient + 1)), t)
    case Claiming(o) => if s.busy then With(s, t, Contended(o)) else With(s.(busy := true), t, Scanning(o, 0, None))
    case Contended(_) => Gone(s.(counters := s.counters.(contention := s.counters.contention + 1)), t)
    case Scanning(o, i, empty) => With(s, t, Scanned(s.slots, o, i, empty))
    case Matched(_) => With(s.(counters := s.counters.(duplicate := s.counters.duplicate + 1)), t, Releasing)
    case NoRoom(_) => With(s.(counters := s.counters.(full := s.counters.full + 1)), t, Releasing)
    case Storing(o, slot) => With(s.(slots := s.slots[slot := s.slots[slot].(value := o)]), t, Publishing(o, slot))
    case Publishing(o, slot) => With(s.(slots := s.slots[slot := s.slots[slot].(ready := true)]), t, Releasing)
    case Releasing => Gone(s.(busy := false), t)
  }

  predicate CallerInRange(slots: seq<Slot>, pc: Caller) {
    pc.Storing? || pc.Publishing? ==> pc.slot < |slots|
  }

  datatype Event = Call(thread: ThreadId, o: Observation) | Advance(thread: ThreadId)

  predicate Leads(s: Store, e: Event, s': Store) {
    match e
    case Call(t, o) => t !in s.callers && s' == With(s, t, Entering(o)).(attempts := s.attempts + 1)
    case Advance(t) => t in s.callers && CallerInRange(s.slots, s.callers[t]) && s' == Advanced(s, t)
  }

  // ---- The invariant ----

  predicate Inside(pc: Caller) {
    pc.Scanning? || pc.Matched? || pc.NoRoom? || pc.Storing? || pc.Publishing? || pc.Releasing?
  }

  /** The store is busy exactly while a caller has claimed it, and then only one has. */
  predicate Exclusive(callers: map<ThreadId, Caller>, busy: bool) {
    && (forall t, u :: t in callers && u in callers && Inside(callers[t]) && Inside(callers[u]) ==> t == u)
    && (busy <==> exists t :: t in callers && Inside(callers[t]))
  }

  predicate Client(o: Observation) {
    1 <= Vmid(o.status) < 16
  }

  predicate Absent(slots: seq<Slot>, o: Observation, n: nat)
    requires n <= |slots|
  {
    forall j :: 0 <= j < n && slots[j].ready ==> slots[j].value != o
  }

  predicate AllReady(slots: seq<Slot>, n: nat)
    requires n <= |slots|
  {
    forall j :: 0 <= j < n ==> slots[j].ready
  }

  predicate Stored(slots: seq<Slot>, o: Observation) {
    Slot(true, o) in slots
  }

  /** What a caller has learnt about the slots. */
  predicate Learnt(slots: seq<Slot>, pc: Caller) {
    match pc
    case NotClient(o) => !Client(o)
    case Claiming(o) => Client(o)
    case Contended(o) => Client(o)
    case Scanning(o, i, empty) =>
      && Client(o) && i <= |slots| && Absent(slots, o, i)
      && (empty.None? ==> AllReady(slots, i))
      && (empty.Some? ==> empty.value < i && AllReady(slots, empty.value) && !slots[empty.value].ready)
    case Matched(o) => Client(o) && Stored(slots, o)
    case NoRoom(o) => Client(o) && AllReady(slots, |slots|) && !Stored(slots, o)
    case Storing(o, slot) =>
      && Client(o) && slot < |slots| && AllReady(slots, slot) && !slots[slot].ready && Absent(slots, o, |slots|)
    case Publishing(o, slot) =>
      Client(o) && slot < |slots| && !slots[slot].ready && slots[slot].value == o && Absent(slots, o, |slots|)
    case _ => true
  }

  predicate AllLearnt(slots: seq<Slot>, callers: map<ThreadId, Caller>) {
    forall t :: t in callers ==> Learnt(slots, callers[t])
  }

  /** No observation is stored twice, and all are clients' faults. */
  predicate DistinctValues(slots: seq<Slot>) {
    && (forall i, j :: 0 <= i < j < |slots| && slots[i].ready && slots[j].ready ==> slots[i].value != slots[j].value)
    && forall i :: 0 <= i < |slots| && slots[i].ready ==> Client(slots[i].value)
  }

  function ReadySlots(slots: seq<Slot>): set<nat> {
    set i | 0 <= i < |slots| && slots[i].ready
  }

  function Undecided(callers: map<ThreadId, Caller>): set<ThreadId> {
    set t | t in callers && !callers[t].Releasing?
  }

  /** Every attempt is stored, counted out for one reason, or still undecided. */
  predicate Accounted(s: Store) {
    s.attempts == |ReadySlots(s.slots)| + s.counters.nonClient + s.counters.duplicate + s.counters.contention +
                  s.counters.full + |Undecided(s.callers)|
  }

  ghost predicate Inv(s: Store) {
    Exclusive(s.callers, s.busy) && AllLearnt(s.slots, s.callers) && DistinctValues(s.slots) && Accounted(s)
  }

  lemma StartInv(capacity: nat)
    ensures Inv(Start(capacity))
  {
    assert ReadySlots(Start(capacity).slots) == {} && Undecided(map[]) == {};
  }

  // ---- Counting the undecided ----

  function One(yes: bool): nat {
    if yes then 1 else 0
  }

  lemma UndecidedWith(callers: map<ThreadId, Caller>, t: ThreadId, pc: Caller)
    ensures |Undecided(callers[t := pc])| + One(t in callers && !callers[t].Releasing?) == |Undecided(callers)| + One(!pc.Releasing?)
    ensures t in callers ==> |Undecided(callers - {t})| + One(!callers[t].Releasing?) == |Undecided(callers)|
  {
    var others := Undecided(callers) - {t};
    assert Undecided(callers) == if t in callers && !callers[t].Releasing? then others + {t} else others;
    assert Undecided(callers[t := pc]) == if !pc.Releasing? then others + {t} else others;
    if t in callers {
      assert Undecided(callers - {t}) == others;
    }
  }

  // ---- Each step keeps the invariant ----

  /** A caller that stays outside, goes inside alone, or stays inside. */
  lemma ExclusiveWith(callers: map<ThreadId, Caller>, busy: bool, busy': bool, t: ThreadId, pc: Caller)
    requires Exclusive(callers, busy)
    requires busy' == (busy || Inside(pc))
    requires busy ==> (Inside(pc) <==> t in callers && Inside(callers[t]))
    ensures Exclusive(callers[t := pc], busy')
  {
    if Inside(pc) {
      assert Inside(callers[t := pc][t]);
    } else if busy {
      var u :| u in callers && Inside(callers[u]);
      assert Inside(callers[t := pc][u]);
    }
  }

  lemma ExclusiveGone(callers: map<ThreadId, Caller>, busy: bool, t: ThreadId)
    requires Exclusive(callers, busy) && t in callers
    ensures Exclusive(callers - {t}, busy && !Inside(callers[t]))
  {
    if busy && !Inside(callers[t]) {
      var u :| u in callers && Inside(callers[u]);
      assert u in callers - {t};
    }
  }

  lemma LearntWith(slots: seq<Slot>, callers: map<ThreadId, Caller>, t: ThreadId, pc: Caller)
    requires AllLearnt(slots, callers) && Learnt(slots, pc)
    ensures AllLearnt(slots, callers[t := pc]) && AllLearnt(slots, callers - {t})
  {
  }

  /** A step that leaves the slots alone. */
  lemma MoveKeeps(s: Store, t: ThreadId, busy': bool, counters': Counters, pc: Caller)
    requires Inv(s) && t in s.callers && busy' == (s.busy || Inside(pc))
    requires s.busy ==> (Inside(pc) <==> Inside(s.callers[t]))
    requires Learnt(s.slots, pc)
    requires counters'.nonClient == s.counters.nonClient && counters'.contention == s.counters.contention
    requires counters'.duplicate + counters'.full + One(!pc.Releasing?) ==
             s.counters.duplicate + s.counters.full + One(!s.callers[t].Releasing?)
    ensures Inv(With(s.(busy := busy', counters := counters'), t, pc))
  {
    ExclusiveWith(s.callers, s.busy, busy', t, pc);
    LearntWith(s.slots, s.callers, t, pc);
    UndecidedWith(s.callers, t, pc);
  }

  /** A caller that counts itself out, or releases the store, and leaves. */
  lemma LeaveKeeps(s: Store, t: ThreadId, busy': bool, counters': Counters)
    requires Inv(s) && t in s.callers && busy' == (s.busy && !Inside(s.callers[t]))
    requires counters'.duplicate == s.counters.duplicate && counters'.full == s.counters.full
    requires counters'.nonClient + counters'.contention == s.counters.nonClient + s.counters.contention + One(!s.callers[t].Releasing?)
    ensures Inv(Gone(s.(busy := busy', counters := counters'), t))
  {
    ExclusiveGone(s.callers, s.busy, t);
    LearntWith(s.slots, s.callers, t, Releasing);
    UndecidedWith(s.callers, t, Releasing);
  }

  /** The scan learns one slot at a time, and at the end knows that the observation is new. */
  lemma ScanLearns(slots: seq<Slot>, o: Observation, i: nat, empty: Option<nat>)
    requires Learnt(slots, Scanning(o, i, empty))
    ensures Learnt(slots, Scanned(slots, o, i, empty)) && Inside(Scanned(slots, o, i, empty))
  {
  }

  /** Only the claimant writes, and only to a slot that is not ready: the others know nothing of it. */
  lemma OthersOutside(s: Store, t: ThreadId, slots': seq<Slot>)
    requires Inv(s) && t in s.callers && Inside(s.callers[t])
    ensures AllLearnt(slots', s.callers - {t})
  {
    forall u | u in s.callers - {t}
      ensures Learnt(slots', (s.callers - {t})[u])
    {
      assert !Inside(s.callers[u]) && Learnt(s.slots, s.callers[u]);
    }
  }

  lemma LearntRejoined(slots: seq<Slot>, callers: map<ThreadId, Caller>, t: ThreadId, pc: Caller)
    requires AllLearnt(slots, callers - {t}) && Learnt(slots, pc)
    ensures AllLearnt(slots, callers[t := pc])
  {
    var next := callers[t := pc];
    forall u | u in next
      ensures Learnt(slots, next[u])
    {
      assert u != t ==> u in callers - {t} && (callers - {t})[u] == callers[u];
    }
  }

  lemma StoreKeeps(s: Store, t: ThreadId, o: Observation, slot: nat)
    requires Inv(s) && t in s.callers && s.callers[t] == Storing(o, slot)
    ensures slot < |s.slots| && Inv(With(s.(slots := s.slots[slot := s.slots[slot].(value := o)]), t, Publishing(o, slot)))
  {
    assert Learnt(s.slots, s.callers[t]);
    var slots' := s.slots[slot := s.slots[slot].(value := o)];
    assert ReadySlots(slots') == ReadySlots(s.slots);
    OthersOutside(s, t, slots');
    LearntRejoined(slots', s.callers, t, Publishing(o, slot));
    ExclusiveWith(s.callers, s.busy, s.busy, t, Publishing(o, slot));
    UndecidedWith(s.callers, t, Publishing(o, slot));
  }

  lemma OneMoreReady(slots: seq<Slot>, slot: nat)
    requires slot < |slots| && !slots[slot].ready
    ensures |ReadySlots(slots[slot := slots[slot].(ready := true)])| == |ReadySlots(slots)| + 1
  {
    assert ReadySlots(slots[slot := slots[slot].(ready := true)]) == ReadySlots(slots) + {slot};
  }

  lemma PublishKeeps(s: Store, t: ThreadId, o: Observation, slot: nat)
    requires Inv(s) && t in s.callers && s.callers[t] == Publishing(o, slot)
    ensures slot < |s.slots| && Inv(With(s.(slots := s.slots[slot := s.slots[slot].(ready := true)]), t, Releasing))
  {
    assert Learnt(s.slots, s.callers[t]);
    var slots' := s.slots[slot := s.slots[slot].(ready := true)];
    OneMoreReady(s.slots, slot);
    OthersOutside(s, t, slots');
    LearntRejoined(slots', s.callers, t, Releasing);
    ExclusiveWith(s.callers, s.busy, s.busy, t, Releasing);
    UndecidedWith(s.callers, t, Releasing);
  }

  lemma AdvanceKeeps(s: Store, t: ThreadId)
    requires Inv(s) && t in s.callers
    ensures CallerInRange(s.slots, s.callers[t]) && Inv(Advanced(s, t))
  {
    assert Learnt(s.slots, s.callers[t]);
    var c := s.counters;
    match s.callers[t]
    case Entering(o) => MoveKeeps(s, t, s.busy, c, if Vmid(o.status) == 0 || Vmid(o.status) >= 16 then NotClient(o) else Claiming(o));
    case NotClient(_) => LeaveKeeps(s, t, s.busy, c.(nonClient := c.nonClient + 1));
    case Claiming(o) =>
      if s.busy {
        MoveKeeps(s, t, s.busy, c, Contended(o));
      } else {
        MoveKeeps(s, t, true, c, Scanning(o, 0, None));
      }
    case Contended(_) => LeaveKeeps(s, t, s.busy, c.(contention := c.contention + 1));
    case Scanning(o, i, empty) =>
      ScanLearns(s.slots, o, i, empty);
      MoveKeeps(s, t, s.busy, c, Scanned(s.slots, o, i, empty));
    case Matched(_) => MoveKeeps(s, t, s.busy, c.(duplicate := c.duplicate + 1), Releasing);
    case NoRoom(_) => MoveKeeps(s, t, s.busy, c.(full := c.full + 1), Releasing);
    case Storing(o, slot) => StoreKeeps(s, t, o, slot);
    case Publishing(o, slot) => PublishKeeps(s, t, o, slot);
    case Releasing => LeaveKeeps(s, t, false, c);
  }

  lemma CallKeeps(s: Store, t: ThreadId, o: Observation)
    requires Inv(s) && t !in s.callers
    ensures Inv(With(s, t, Entering(o)).(attempts := s.attempts + 1))
  {
    ExclusiveWith(s.callers, s.busy, s.busy, t, Entering(o));
    LearntWith(s.slots, s.callers, t, Entering(o));
    UndecidedWith(s.callers, t, Entering(o));
  }

  // ---- Whole runs ----

  predicate IsRun(run: seq<Store>, events: seq<Event>, capacity: nat) {
    && |run| == |events| + 1 && run[0] == Start(capacity)
    && forall i :: 0 <= i < |events| ==> Leads(run[i], events[i], run[i + 1])
  }

  /** In every interleaving of any calls: one caller at most is inside, no two ready slots hold equal
      observations, and the attempts add up. */
  lemma {:induction false} StoreSafety(run: seq<Store>, events: seq<Event>, capacity: nat, i: nat)
    requires IsRun(run, events, capacity) && i < |run|
    ensures Inv(run[i])
  {
    if i == 0 {
      StartInv(capacity);
    } else {
      StoreSafety(run, events, capacity, i - 1);
      var s := run[i - 1];
      assert Leads(s, events[i - 1], run[i - 1 + 1]);
      match events[i - 1]
      case Call(t, o) => CallKeeps(s, t, o);
      case Advance(t) => AdvanceKeeps(s, t);
    }
  }

  /** When nobody is inside any more, every attempt was stored or counted out for exactly one reason. */
  lemma QuietTotals(run: seq<Store>, events: seq<Event>, capacity: nat, i: nat)
    requires IsRun(run, events, capacity) && i < |run| && run[i].callers == map[]
    ensures run[i].attempts == |ReadySlots(run[i].slots)| + run[i].counters.nonClient + run[i].counters.duplicate +
                               run[i].counters.contention + run[i].counters.full
  {
    StoreSafety(run, events, capacity, i);
    assert Undecided(map[]) == {};
  }

  /** A ready slot never changes again, so a reader that finds it ready copies one whole observation. */
  lemma {:induction false} ReadyIsForever(run: seq<Store>, events: seq<Event>, capacity: nat, i: nat, j: nat, k: nat)
    requires IsRun(run, events, capacity) && i <= j < |run| && k < |run[i].slots| && run[i].slots[k].ready
    ensures k < |run[j].slots| && run[j].slots[k] == run[i].slots[k]
    decreases j
  {
    if i < j {
      ReadyIsForever(run, events, capacity, i, j - 1, k);
      StoreSafety(run, events, capacity, j - 1);
      assert Leads(run[j - 1], events[j - 1], run[j - 1 + 1]);
      if events[j - 1].Advance? {
        assert Learnt(run[j - 1].slots, run[j - 1].callers[events[j - 1].thread]);
      }
    }
  }

  /** Why a step of a caller may count its call out. */
  predicate CountedRightly(s: Store, pc: Caller, s': Store) {
    && (s'.counters.nonClient != s.counters.nonClient ==> pc.NotClient? && !Client(pc.o))
    && (s'.counters.duplicate != s.counters.duplicate ==> pc.Matched? && Client(pc.o) && Stored(s.slots, pc.o))
    && (s'.counters.full != s.counters.full ==>
          pc.NoRoom? && Client(pc.o) && AllReady(s.slots, |s.slots|) && !Stored(s.slots, pc.o))
    && (s'.counters.contention != s.counters.contention ==> pc.Contended? && Client(pc.o))
  }

  /** In every run: what is counted as no client's fault is none, as a duplicate is stored, as full finds
      every slot taken by another observation, and a call gives way only to one that is inside. */
  lemma CountsTellTheReason(run: seq<Store>, events: seq<Event>, capacity: nat, i: nat)
    requires IsRun(run, events, capacity) && i < |events|
    ensures events[i].Call? ==> run[i + 1].counters == run[i].counters
    ensures events[i].Advance? ==>
              var t := events[i].thread;
              && t in run[i].callers && CountedRightly(run[i], run[i].callers[t], run[i + 1])
              && (run[i].callers[t].Claiming? && t in run[i + 1].callers && run[i + 1].callers[t].Contended? ==>
                    exists u :: u != t && u in run[i].callers && Inside(run[i].callers[u]))
  {
    StoreSafety(run, events, capacity, i);
    assert Leads(run[i], events[i], run[i + 1]);
    if events[i].Advance? {
      assert Learnt(run[i].slots, run[i].callers[events[i].thread]);
    }
  }

  /** A new observation goes to the lowest slot that is free. */
  lemma StoredInFirstFree(run: seq<Store>, events: seq<Event>, capacity: nat, i: nat, t: ThreadId)
    requires IsRun(run, events, capacity) && i < |run| && t in run[i].callers && run[i].callers[t].Storing?
    ensures var slot := run[i].callers[t].slot;
            slot < |run[i].slots| && AllReady(run[i].slots, slot) && !run[i].slots[slot].ready
  {
    StoreSafety(run, events, capacity, i);
    assert Learnt(run[i].slots, run[i].callers[t]);
  }
}
