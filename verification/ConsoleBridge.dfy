/** The snapshot bridge: many client connections, one owner at a time, a bounded pool of counted
    buffers, and a device whose registers may answer anything. */
module ConsoleBridge {
  import opened Options
  import opened Bits
  import opened BufferPool

  const SNAPSHOT_BYTES: nat := 32 * 1024 * 1024
  const MAGIC_ONCE: U32 := 0x5253_4731
  const MAGIC_RESTARTABLE: U32 := 0x5253_4732

  /** A store to one of the bridge registers. */
  datatype Store = Store(register: nat, value: U32)

  /** What the device answers to the reads of one arm, in program order. */
  datatype ArmReads = ArmReads(state: U32, magic: U32, echo: U32, armed: U32, error: U32, ack: U32, echoAfter: U32)

  /** The status reads around a commit: state, error, acknowledged number, echoed epoch. */
  datatype StatusReads = StatusReads(state: U32, error: U32, ack: U32, echo: U32)

  datatype RetireReads = RetireReads(state: U32, echo: U32)

  /** What happened so far: register stores, connections that became owner, epochs announced by arm
      attempts, numbers acknowledged to each connection, and the buffer each frame was copied from. */
  datatype Trace = Trace(
    stores: seq<Store>, grants: seq<ClientId>, epochs: seq<nat>, acks: map<ClientId, seq<nat>>,
    frames: seq<(ClientId, BufferId)>)

  datatype Bridge = Bridge(
    restartable: bool, available: bool, inactive: bool, poisoned: bool, leased: bool,
    owner: Option<ClientId>, epoch: nat, sequence: nat, attempted: set<ClientId>,
    holders: Holders, pool: Pool, trace: Trace)

  function Start(restartable: bool, available: bool): Bridge {
    Bridge(restartable, available, false, false, false, None, 0, 0, {}, NO_HOLDERS, EMPTY_POOL,
           Trace([], [], [], map[], []))
  }

  function Stored(s: Bridge, stores: seq<Store>): Bridge {
    s.(trace := s.trace.(stores := s.trace.stores + stores))
  }

  // ---- The locked regions ----

  /** retireLocked: tell the device, drop the owner, release its buffer. */
  function Retire(s: Bridge, d: RetireReads): Bridge {
    var told := if s.owner == None then s
                else Stored(s, (if s.restartable then [Store(12, s.epoch % TWO32)] else []) + [Store(2, 2)])
                     .(poisoned := s.poisoned || d.state != 2 || (s.restartable && d.echo != s.epoch));
    match s.holders.active
    case None => told.(owner := None)
    case Some(b) => told.(owner := None, holders := s.holders.(active := None), pool := Release(s.pool, b))
  }

  predicate ArmRefused(s: Bridge, c: ClientId) {
    s.inactive || !s.available || s.owner != None || s.poisoned || c in s.attempted || (!s.restartable && s.leased)
  }

  predicate ArmAmbiguous(s: Bridge, d: ArmReads) {
    d.magic != (if s.restartable then MAGIC_RESTARTABLE else MAGIC_ONCE) ||
    (d.state != 0 && !(s.restartable && d.state == 2)) ||
    (s.restartable && (s.epoch == MAX_U32 || d.echo != s.epoch))
  }

  /** The stores of an arm attempt and what they make true before the answer is known. */
  function ArmAnnounced(s: Bridge, c: ClientId): Bridge {
    var epoch := if s.restartable then s.epoch + 1 else s.epoch;
    s.(attempted := s.attempted + {c}, leased := true, epoch := epoch,
       trace := s.trace.(stores := s.trace.stores + (if s.restartable then [Store(12, epoch % TWO32)] else []) + [Store(2, 1)],
                         epochs := s.trace.epochs + [epoch]))
  }

  predicate ArmConfirmed(announced: Bridge, d: ArmReads) {
    d.armed == 1 && d.error == 0 && d.ack == 0 && (announced.restartable ==> d.echoAfter == announced.epoch)
  }

  function ArmGranted(announced: Bridge, t: ThreadId, c: ClientId, b: BufferId): Bridge {
    announced.(owner := Some(c), sequence := 0, pool := Retain(announced.pool, b),
               holders := Holders(announced.holders.threads - {t}, announced.holders.privates[c := b],
                                  announced.holders.aliases, Some(b)),
               trace := announced.trace.(grants := announced.trace.grants + [c]))
  }

  function ArmDropped(s: Bridge, t: ThreadId, b: BufferId): Bridge {
    s.(holders := s.holders.(threads := s.holders.threads[t := Dropping(b)]))
  }

  function ArmDistrusted(announced: Bridge, t: ThreadId, b: BufferId): Bridge {
    ArmDropped(Stored(announced, [Store(2, 2)]).(poisoned := true), t, b)
  }

  /** The locked region of snapshotArm, entered by a thread holding a new buffer. */
  function ArmLocked(s: Bridge, t: ThreadId, c: ClientId, b: BufferId, d: ArmReads): Bridge {
    if ArmRefused(s, c) then ArmDropped(s, t, b)
    else if ArmAmbiguous(s, d) then ArmDropped(s.(poisoned := true), t, b)
    else if ArmConfirmed(ArmAnnounced(s, c), d) then ArmGranted(ArmAnnounced(s, c), t, c, b)
    else ArmDistrusted(ArmAnnounced(s, c), t, b)
  }

  predicate ArmGrants(s: Bridge, c: ClientId, d: ArmReads) {
    !ArmRefused(s, c) && !ArmAmbiguous(s, d) && ArmConfirmed(ArmAnnounced(s, c), d)
  }

  predicate CommitArguments(w: U64, h: U64, number: U64) {
    320 <= w <= 3840 && 200 <= h <= 2160 && 0 < number <= MAX_U32 && w * h * 4 <= SNAPSHOT_BYTES
  }

  predicate StatusGood(s: Bridge, d: StatusReads, number: nat) {
    d.state == 1 && d.error == 0 && d.ack == number && (s.restartable ==> d.echo == s.epoch)
  }

  function FrameStores(s: Bridge, w: U64, h: U64, number: U64): seq<Store> {
    (if s.restartable then [Store(12, s.epoch % TWO32)] else []) +
    [Store(4, w % TWO32), Store(5, h % TWO32), Store(6, number % TWO32)]
  }

  function Poison(s: Bridge, d: RetireReads): Bridge {
    Retire(s.(poisoned := true), d)
  }

  function AcksOf(t: Trace, c: ClientId): seq<nat> {
    if c in t.acks then t.acks[c] else []
  }

  /** Whether snapshotCommit reaches the device at all. */
  predicate CommitAdmitted(s: Bridge, c: ClientId, w: U64, h: U64, number: U64) {
    && CommitArguments(w, h, number)
    && !s.inactive && s.owner == Some(c) && s.holders.active != None && !s.poisoned
    && s.sequence != MAX_U32 && number == s.sequence + 1
  }

  /** The frame copied and announced, before its acknowledgement is known. */
  function Shown(s: Bridge, c: ClientId, b: BufferId, w: U64, h: U64, number: U64): Bridge {
    s.(trace := s.trace.(stores := s.trace.stores + FrameStores(s, w, h, number), frames := s.trace.frames + [(c, b)]))
  }

  /** snapshotCommit: the bridge afterwards and the number acknowledged to the caller, zero for none. */
  function Commit(s: Bridge, c: ClientId, w: U64, h: U64, number: U64,
                  before: StatusReads, after: StatusReads, retire: RetireReads): (Bridge, nat) {
    if !CommitAdmitted(s, c, w, h, number) then (s, 0)
    else if !StatusGood(s, before, s.sequence) then (Poison(s, retire), 0)
    else
      var shown := Shown(s, c, s.holders.active.value, w, h, number);
      if !StatusGood(shown, after, number) then (Poison(shown, retire), 0)
      else (shown.(sequence := number,
                   trace := shown.trace.(acks := s.trace.acks[c := AcksOf(s.trace, c) + [number]])), number)
  }

  /** The final close gives up the connection's private buffer. */
  function GiveUpPrivate(s: Bridge, c: ClientId): Bridge {
    if c in s.holders.privates
    then s.(holders := s.holders.(privates := s.holders.privates - {c}), pool := Release(s.pool, s.holders.privates[c]))
    else s
  }

  /** snapshotClose: never lets this connection arm again, and retires it if it owns. */
  function Close(s: Bridge, c: ClientId, final: bool, d: RetireReads): Bridge {
    var barred := s.(attempted := s.attempted + {c});
    var retired := if s.owner == Some(c) then Retire(barred, d) else barred;
    if final then GiveUpPrivate(retired, c) else retired
  }

  // ---- Steps ----

  datatype Event =
    | PoolEvent(step: PoolStep)
    | ArmEnter(thread: ThreadId, armReads: ArmReads)
    | CommitCall(client: ClientId, w: U64, h: U64, number: U64, before: StatusReads, after: StatusReads, retire: RetireReads)
    | CloseCall(client: ClientId, final: bool, retire: RetireReads)
    | Deactivate
    | StopCall(retire: RetireReads)

  predicate Enabled(s: Bridge, e: Event) {
    match e
    case PoolEvent(p) => PoolEnabled(s.holders, s.pool, p) && (p.MapPrivate? ==> !s.inactive)
    case ArmEnter(t, _) => t in s.holders.threads && s.holders.threads[t].Holding?
    case _ => true
  }

  function Step(s: Bridge, e: Event): Bridge
    requires Enabled(s, e)
  {
    match e
    case PoolEvent(p) => var (holders, pool) := PoolNext(s.holders, s.pool, p); s.(holders := holders, pool := pool)
    case ArmEnter(t, d) => ArmLocked(s, t, s.holders.threads[t].client, s.holders.threads[t].buffer, d)
    case CommitCall(c, w, h, number, before, after, retire) => Commit(s, c, w, h, number, before, after, retire).0
    case CloseCall(c, final, d) => Close(s, c, final, d)
    case Deactivate => s.(inactive := true)
    case StopCall(d) => Retire(s.(inactive := true), d)
  }

  // ---- Invariants ----

  /** The owner holds the active buffer as its private one, and a poisoned bridge has no owner. */
  predicate Owned(s: Bridge) {
    && (s.owner == None <==> s.holders.active == None)
    && (s.owner.Some? ==> s.owner.value in s.attempted && s.owner.value in s.holders.privates &&
                          s.holders.active == Some(s.holders.privates[s.owner.value]) && !s.poisoned)
    && (forall c :: c in s.holders.privates ==> c in s.attempted)
  }

  /** Each connection became owner at most once, and its acknowledgements count 1, 2, 3, ... */
  predicate Numbered(s: Bridge) {
    && (forall i, j :: 0 <= i < j < |s.trace.grants| ==> s.trace.grants[i] != s.trace.grants[j])
    && (forall i :: 0 <= i < |s.trace.grants| ==> s.trace.grants[i] in s.attempted)
    && (forall c :: c in s.trace.acks ==> c in s.trace.grants)
    && (forall c :: c in s.trace.acks ==> CountsUp(s.trace.acks[c]))
    && (s.owner.Some? ==> s.owner.value in s.trace.grants && |AcksOf(s.trace, s.owner.value)| == s.sequence)
    && s.sequence <= MAX_U32
  }

  predicate CountsUp(numbers: seq<nat>) {
    forall i :: 0 <= i < |numbers| ==> numbers[i] == i + 1
  }

  /** Arm attempts announce epochs 1, 2, 3, ... when restartable, and there is at most one otherwise. */
  predicate Epochal(s: Bridge) {
    && (s.restartable ==> s.epoch == |s.trace.epochs| && CountsUp(s.trace.epochs))
    && (!s.restartable ==> |s.trace.epochs| <= 1 && (s.leased <==> |s.trace.epochs| == 1))
    && s.epoch <= MAX_U32
    && |s.trace.grants| <= |s.trace.epochs|
  }

  ghost predicate Inv(s: Bridge) {
    Counted(s.holders, s.pool) && Slotted(s.holders, s.pool) && Owned(s) && Numbered(s) && Epochal(s)
  }

  lemma StartInv(restartable: bool, available: bool)
    ensures Inv(Start(restartable, available))
  {
  }

  lemma RetireKeeps(s: Bridge, d: RetireReads)
    requires Counted(s.holders, s.pool) && Slotted(s.holders, s.pool) && Numbered(s) && Epochal(s)
    requires Owned(s) || Owned(s.(poisoned := false))
    ensures Inv(Retire(s, d)) && Retire(s, d).owner == None
    ensures s.poisoned ==> Retire(s, d).poisoned
    ensures Retire(s, d).attempted == s.attempted && Retire(s, d).holders.privates == s.holders.privates
  {
    if s.holders.active.Some? {
      ActiveDropped(s.holders, s.pool);
    }
  }

  lemma GiveUpPrivateKeeps(s: Bridge, c: ClientId)
    requires Inv(s) && s.owner != Some(c)
    ensures Inv(GiveUpPrivate(s, c))
  {
    if c in s.holders.privates {
      PrivateDropped(s.holders, s.pool, c);
    }
  }

  lemma CloseKeeps(s: Bridge, c: ClientId, final: bool, d: RetireReads)
    requires Inv(s)
    ensures Inv(Close(s, c, final, d))
  {
    var barred := s.(attempted := s.attempted + {c});
    assert Inv(barred);
    if s.owner == Some(c) {
      RetireKeeps(barred, d);
      GiveUpPrivateKeeps(Retire(barred, d), c);
    } else {
      GiveUpPrivateKeeps(barred, c);
    }
  }

  lemma ArmDroppedKeeps(s: Bridge, t: ThreadId)
    requires Inv(s) && t in s.holders.threads && s.holders.threads[t].Holding?
    ensures Inv(ArmDropped(s, t, s.holders.threads[t].buffer))
  {
    HoldingDrops(s.holders, s.pool, t);
  }

  lemma DistrustKeeps(s: Bridge, c: ClientId)
    requires Inv(s) && !ArmRefused(s, c)
    ensures Inv(s.(poisoned := true))
    ensures (s.restartable ==> s.epoch != MAX_U32) ==>
              Inv(Stored(ArmAnnounced(s, c), [Store(2, 2)]).(poisoned := true))
  {
  }

  lemma ArmFailKeeps(s: Bridge, t: ThreadId, c: ClientId, b: BufferId, d: ArmReads)
    requires Inv(s) && t in s.holders.threads && s.holders.threads[t] == Holding(c, b)
    requires !ArmGrants(s, c, d)
    ensures Inv(ArmLocked(s, t, c, b, d))
  {
    if ArmRefused(s, c) {
      ArmDroppedKeeps(s, t);
    } else {
      DistrustKeeps(s, c);
      if ArmAmbiguous(s, d) {
        ArmDroppedKeeps(s.(poisoned := true), t);
      } else {
        ArmDroppedKeeps(Stored(ArmAnnounced(s, c), [Store(2, 2)]).(poisoned := true), t);
      }
    }
  }

  predicate ArmSucceeds(s: Bridge, t: ThreadId, d: ArmReads) {
    t in s.holders.threads && s.holders.threads[t].Holding? &&
    ArmGrants(s, s.holders.threads[t].client, d)
  }

  lemma ArmNumbers(s: Bridge, t: ThreadId, d: ArmReads)
    requires Owned(s) && Numbered(s) && ArmSucceeds(s, t, d)
    ensures Numbered(ArmLocked(s, t, s.holders.threads[t].client, s.holders.threads[t].buffer, d))
  {
    var c := s.holders.threads[t].client;
    var s' := ArmLocked(s, t, c, s.holders.threads[t].buffer, d);
    assert c !in s.trace.grants;
    assert s'.trace.grants == s.trace.grants + [c];
    assert c in s'.trace.grants;
  }

  lemma ArmEpochs(s: Bridge, t: ThreadId, d: ArmReads)
    requires Epochal(s) && ArmSucceeds(s, t, d)
    ensures Epochal(ArmLocked(s, t, s.holders.threads[t].client, s.holders.threads[t].buffer, d))
  {
  }

  lemma ArmOwns(s: Bridge, t: ThreadId, d: ArmReads)
    requires Owned(s) && ArmSucceeds(s, t, d)
    ensures Owned(ArmLocked(s, t, s.holders.threads[t].client, s.holders.threads[t].buffer, d))
  {
  }

  lemma ArmSucceedKeeps(s: Bridge, t: ThreadId, d: ArmReads)
    requires Inv(s) && ArmSucceeds(s, t, d)
    ensures Inv(ArmLocked(s, t, s.holders.threads[t].client, s.holders.threads[t].buffer, d))
  {
    ArmTransfers(s.holders, s.pool, t, s.holders.threads[t].client);
    ArmNumbers(s, t, d);
    ArmEpochs(s, t, d);
    ArmOwns(s, t, d);
  }

  lemma ArmKeeps(s: Bridge, t: ThreadId, d: ArmReads)
    requires Inv(s) && t in s.holders.threads && s.holders.threads[t].Holding?
    ensures Inv(ArmLocked(s, t, s.holders.threads[t].client, s.holders.threads[t].buffer, d))
  {
    if ArmGrants(s, s.holders.threads[t].client, d) {
      ArmSucceedKeeps(s, t, d);
    } else {
      ArmFailKeeps(s, t, s.holders.threads[t].client, s.holders.threads[t].buffer, d);
    }
  }

  lemma AckKeeps(s: Bridge, c: ClientId, w: U64, h: U64, number: U64)
    requires Inv(s) && CommitAdmitted(s, c, w, h, number)
    ensures var shown := Shown(s, c, s.holders.active.value, w, h, number);
            Inv(shown) &&
            Inv(shown.(sequence := number,
                       trace := shown.trace.(acks := s.trace.acks[c := AcksOf(s.trace, c) + [number]])))
  {
  }

  lemma CommitKeeps(s: Bridge, c: ClientId, w: U64, h: U64, number: U64, before: StatusReads, after: StatusReads, retire: RetireReads)
    requires Inv(s)
    ensures Inv(Commit(s, c, w, h, number, before, after, retire).0)
  {
    if CommitAdmitted(s, c, w, h, number) {
      AckKeeps(s, c, w, h, number);
      var shown := Shown(s, c, s.holders.active.value, w, h, number);
      if !StatusGood(s, before, s.sequence) {
        PoisonKeeps(s, retire);
      } else if !StatusGood(shown, after, number) {
        PoisonKeeps(shown, retire);
      }
    }
  }

  lemma PoisonKeeps(s: Bridge, d: RetireReads)
    requires Inv(s)
    ensures Inv(Poison(s, d))
  {
    RetireKeeps(s.(poisoned := true), d);
  }

  lemma StepKeeps(s: Bridge, e: Event)
    requires Inv(s) && Enabled(s, e)
    ensures Inv(Step(s, e))
  {
    match e
    case PoolEvent(p) => PoolKeeps(s.holders, s.pool, p);
    case ArmEnter(t, d) => ArmKeeps(s, t, d);
    case CommitCall(c, w, h, number, before, after, retire) => CommitKeeps(s, c, w, h, number, before, after, retire);
    case CloseCall(c, final, d) => CloseKeeps(s, c, final, d);
    case Deactivate =>
    case StopCall(d) => RetireKeeps(s.(inactive := true), d);
  }

  // ---- Whole runs ----

  ghost predicate IsRun(run: seq<Bridge>, events: seq<Event>) {
    && |run| == |events| + 1
    && (exists restartable, available :: run[0] == Start(restartable, available))
    && forall i :: 0 <= i < |events| ==> Leads(run[i], events[i], run[i + 1])
  }

  predicate Leads(s: Bridge, e: Event, s': Bridge) {
    Enabled(s, e) && s' == Step(s, e)
  }

  /** In every state of every run, whatever the device answers: one owner at most, whose private buffer
      is the active one; no owner once poisoned; a connection becomes owner at most once and is
      acknowledged 1, 2, 3, ...; epochs count up, or there is at most one arm attempt; every buffer's
      count is its holders'; live, freed and reserved buffers make up the slots, at most four. */
  lemma {:induction false} BridgeSafety(run: seq<Bridge>, events: seq<Event>, i: nat)
    requires IsRun(run, events) && i < |run|
    ensures Inv(run[i])
  {
    if i == 0 {
      var restartable, available :| run[0] == Start(restartable, available);
      StartInv(restartable, available);
    } else {
      BridgeSafety(run, events, i - 1);
      var k := i - 1;
      assert Leads(run[k], events[k], run[k + 1]);
      StepKeeps(run[k], events[k]);
    }
  }

  /** What can no longer change: a poisoned bridge does nothing more, and a connection that was barred
      without owning never owns. */
  predicate Frozen(s: Bridge, s': Bridge) {
    && (s.poisoned ==> s'.poisoned && s'.trace == s.trace)
    && s.attempted <= s'.attempted
    && (forall c :: c in s.attempted && s.owner != Some(c) ==>
          s'.owner != Some(c) && AcksOf(s'.trace, c) == AcksOf(s.trace, c))
    && s.trace.epochs <= s'.trace.epochs
  }

  lemma RetireFreezes(s: Bridge, d: RetireReads)
    ensures Frozen(s, Retire(s, d)) || s.owner.Some?
    ensures Retire(s, d).owner == None && Retire(s, d).attempted == s.attempted
    ensures Retire(s, d).trace.acks == s.trace.acks && Retire(s, d).trace.epochs == s.trace.epochs
  {
  }

  lemma StepFreezes(s: Bridge, e: Event)
    requires Inv(s) && Enabled(s, e)
    ensures Frozen(s, Step(s, e))
  {
    match e
    case PoolEvent(_) =>
    case ArmEnter(t, d) => ArmFreezes(s, t, s.holders.threads[t].client, s.holders.threads[t].buffer, d);
    case CommitCall(c, w, h, number, before, after, retire) => CommitFreezes(s, c, w, h, number, before, after, retire);
    case CloseCall(c, final, d) => CloseFreezes(s, c, final, d);
    case Deactivate =>
    case StopCall(d) => RetireFreezes(s.(inactive := true), d);
  }

  lemma ArmFreezes(s: Bridge, t: ThreadId, c: ClientId, b: BufferId, d: ArmReads)
    requires Inv(s)
    ensures Frozen(s, ArmLocked(s, t, c, b, d))
  {
  }

  lemma CloseFreezes(s: Bridge, c: ClientId, final: bool, d: RetireReads)
    requires Inv(s)
    ensures Frozen(s, Close(s, c, final, d))
  {
    RetireFreezes(s.(attempted := s.attempted + {c}), d);
  }

  lemma CommitFreezes(s: Bridge, c: ClientId, w: U64, h: U64, number: U64, before: StatusReads, after: StatusReads, retire: RetireReads)
    requires Inv(s)
    ensures Frozen(s, Commit(s, c, w, h, number, before, after, retire).0)
  {
    if CommitAdmitted(s, c, w, h, number) {
      var shown := Shown(s, c, s.holders.active.value, w, h, number);
      RetireFreezes(s.(poisoned := true), retire);
      RetireFreezes(shown.(poisoned := true), retire);
    }
  }

  lemma {:induction false} RunFreezes(run: seq<Bridge>, events: seq<Event>, i: nat, j: nat)
    requires IsRun(run, events) && i <= j < |run|
    ensures Frozen(run[i], run[j])
    decreases j
  {
    if i < j {
      var k := j - 1;
      RunFreezes(run, events, i, k);
      BridgeSafety(run, events, k);
      assert Leads(run[k], events[k], run[k + 1]);
      StepFreezes(run[k], events[k]);
    }
  }

  /** A poisoned bridge never arms, stores, copies or acknowledges again. */
  lemma PoisonIsFinal(run: seq<Bridge>, events: seq<Event>, i: nat, j: nat)
    requires IsRun(run, events) && i <= j < |run| && run[i].poisoned
    ensures run[j].poisoned && run[j].owner == None && run[j].trace == run[i].trace
  {
    RunFreezes(run, events, i, j);
    BridgeSafety(run, events, j);
  }

  /** A close beats any arm of the same connection that is still allocating: once a connection is
      closed it is not the owner, and never becomes it. */
  lemma ClosedStep(s: Bridge, c: ClientId, final: bool, d: RetireReads)
    requires Inv(s)
    ensures var s' := Close(s, c, final, d);
            c in s'.attempted && s'.owner != Some(c) && AcksOf(s'.trace, c) == AcksOf(s.trace, c)
  {
    RetireFreezes(s.(attempted := s.attempted + {c}), d);
  }

  lemma ClosedNeverOwns(run: seq<Bridge>, events: seq<Event>, i: nat, j: nat)
    requires IsRun(run, events) && i < j < |run| && events[i].CloseCall?
    ensures run[j].owner != Some(events[i].client)
    ensures AcksOf(run[j].trace, events[i].client) == AcksOf(run[i].trace, events[i].client)
  {
    BridgeSafety(run, events, i);
    assert Leads(run[i], events[i], run[i + 1]);
    ClosedStep(run[i], events[i].client, events[i].final, events[i].retire);
    RunFreezes(run, events, i + 1, j);
    hide Inv, Close, AcksOf;
  }

  /** A frame is only ever copied from the owner's own private buffer, and only the owner's call that
      names the next number is acknowledged, with that number. */
  lemma CommitsAreTheOwners(s: Bridge, c: ClientId, w: U64, h: U64, number: U64, before: StatusReads, after: StatusReads, retire: RetireReads)
    requires Inv(s)
    ensures var (s', ack) := Commit(s, c, w, h, number, before, after, retire);
            && (s'.trace.frames != s.trace.frames ==>
                  s.owner == Some(c) && c in s.holders.privates &&
                  s'.trace.frames == s.trace.frames + [(c, s.holders.privates[c])])
            && (ack != 0 ==> s.owner == Some(c) && ack == number == |AcksOf(s.trace, c)| + 1 &&
                             AcksOf(s'.trace, c) == AcksOf(s.trace, c) + [ack] && s'.owner == Some(c))
            && (ack == 0 ==> s'.trace.acks == s.trace.acks)
  {
    if CommitAdmitted(s, c, w, h, number) {
      RetireTrace(s.(poisoned := true), retire);
      RetireTrace(Shown(s, c, s.holders.active.value, w, h, number).(poisoned := true), retire);
    }
  }

  lemma RetireTrace(s: Bridge, d: RetireReads)
    ensures Retire(s, d).trace.frames == s.trace.frames && Retire(s, d).trace.acks == s.trace.acks
  {
  }

  // ---- What the device is told, and what it must have answered ----

  /** The epoch register is written first, on a device that can be restarted. */
  function EpochStore(s: Bridge, epoch: nat): seq<Store>
    requires epoch <= MAX_U32
  {
    if s.restartable then [Store(12, epoch)] else []
  }

  /** Running, without error, at this number, and in this epoch. */
  predicate Answers(s: Bridge, d: StatusReads, number: nat) {
    d == StatusReads(1, 0, number % TWO32, if s.restartable then s.epoch % TWO32 else d.echo)
  }

  /** Retiring an owner tells the device its epoch and the stop, and trusts the bridge on only if both are
      confirmed; without an owner the device is told nothing. */
  lemma RetireTold(s: Bridge, d: RetireReads)
    requires s.epoch <= MAX_U32
    ensures var s' := Retire(s, d);
            && s'.owner == None
            && s'.trace.stores == s.trace.stores + (if s.owner == None then [] else EpochStore(s, s.epoch) + [Store(2, 2)])
            && (s'.poisoned <==> s.poisoned || (s.owner != None && !(d.state == 2 && (s.restartable ==> d.echo == s.epoch))))
  {
  }

  lemma AdmittedIff(s: Bridge, c: ClientId, w: U64, h: U64, number: U64)
    requires Inv(s)
    ensures CommitAdmitted(s, c, w, h, number) <==>
            && 320 <= w <= 3840 && 200 <= h <= 2160 && 4 * (w * h) <= 0x200_0000
            && !s.inactive && !s.poisoned && s.owner == Some(c) && 0 < number == |AcksOf(s.trace, c)| + 1 <= MAX_U32
  {
  }

  lemma StatusIff(s: Bridge, d: StatusReads, number: nat)
    requires number < TWO32 && s.epoch < TWO32
    ensures StatusGood(s, d, number) <==> Answers(s, d, number)
  {
  }

  lemma CommitCases(s: Bridge, c: ClientId, w: U64, h: U64, number: U64, before: StatusReads, after: StatusReads, retire: RetireReads)
    ensures var ack := Commit(s, c, w, h, number, before, after, retire).1;
            && ack in {0, number}
            && (ack == number != 0 <==>
                number != 0 && CommitAdmitted(s, c, w, h, number) && StatusGood(s, before, s.sequence) && StatusGood(s, after, number))
  {
    if CommitAdmitted(s, c, w, h, number) {
      var shown := Shown(s, c, s.holders.active.value, w, h, number);
      assert StatusGood(shown, after, number) <==> StatusGood(s, after, number);
    }
    hide CommitAdmitted, StatusGood, Poison, Shown, AcksOf;
  }

  /** A call is acknowledged exactly when its arguments fit, it comes from the owner of a trusted bridge with
      the next number, and the device answered right before and after. */
  lemma AckIff(s: Bridge, c: ClientId, w: U64, h: U64, number: U64, before: StatusReads, after: StatusReads, retire: RetireReads)
    requires Inv(s)
    ensures Commit(s, c, w, h, number, before, after, retire).1 == number != 0 <==>
            && 320 <= w <= 3840 && 200 <= h <= 2160 && 4 * (w * h) <= 0x200_0000
            && !s.inactive && !s.poisoned && s.owner == Some(c) && 0 < number == |AcksOf(s.trace, c)| + 1 <= MAX_U32
            && Answers(s, before, number - 1) && Answers(s, after, number)
    ensures Commit(s, c, w, h, number, before, after, retire).1 in {0, number}
  {
    CommitCases(s, c, w, h, number, before, after, retire);
    AdmittedIff(s, c, w, h, number);
    if CommitAdmitted(s, c, w, h, number) {
      StatusIff(s, before, s.sequence);
      StatusIff(s, after, number);
    }
    hide Commit, StatusGood, Answers, AcksOf;
  }

  lemma ShownTold(s: Bridge, c: ClientId, b: BufferId, w: U64, h: U64, number: U64)
    requires w < TWO32 && h < TWO32 && number < TWO32 && s.epoch < TWO32
    ensures var shown := Shown(s, c, b, w, h, number);
            && shown.epoch == s.epoch && shown.poisoned == s.poisoned
            && shown.trace.stores == s.trace.stores + EpochStore(s, s.epoch) + [Store(4, w), Store(5, h), Store(6, number)]
  {
    assert s.trace.stores + (EpochStore(s, s.epoch) + [Store(4, w), Store(5, h), Store(6, number)]) ==
           s.trace.stores + EpochStore(s, s.epoch) + [Store(4, w), Store(5, h), Store(6, number)];
  }

  /** An acknowledged frame was announced with its width, its height and last its number, after the epoch. */
  lemma FrameTold(s: Bridge, c: ClientId, w: U64, h: U64, number: U64, before: StatusReads, after: StatusReads, retire: RetireReads)
    requires Inv(s) && Commit(s, c, w, h, number, before, after, retire).1 != 0
    ensures var s' := Commit(s, c, w, h, number, before, after, retire).0;
            && w < TWO32 && h < TWO32 && number < TWO32
            && s'.trace.stores == s.trace.stores + EpochStore(s, s.epoch) + [Store(4, w), Store(5, h), Store(6, number)]
            && s'.epoch == s.epoch && s'.sequence == number && !s'.poisoned
  {
    CommitCases(s, c, w, h, number, before, after, retire);
    AdmittedIff(s, c, w, h, number);
    assert s.holders.active.Some? && s.epoch < TWO32;
    hide Inv, StatusGood, EpochStore, CommitAdmitted;
    ShownTold(s, c, s.holders.active.value, w, h, number);
    hide Shown;
  }

  /** A poisoning commit stops the device last. */
  lemma PoisonTold(s: Bridge, d: RetireReads)
    requires s.epoch <= MAX_U32 && s.owner.Some?
    ensures var s' := Poison(s, d);
            s'.poisoned && s'.owner == None && s'.trace.stores != [] && s'.trace.stores[|s'.trace.stores| - 1] == Store(2, 2)
  {
    hide Retire;
    RetireTold(s.(poisoned := true), d);
  }

  /** A call that is not acknowledged leaves the bridge as it was, or poisons it and stops the device. */
  lemma UnackedIsInert(s: Bridge, c: ClientId, w: U64, h: U64, number: U64, before: StatusReads, after: StatusReads, retire: RetireReads)
    requires Inv(s) && Commit(s, c, w, h, number, before, after, retire).1 == 0
    ensures var s' := Commit(s, c, w, h, number, before, after, retire).0;
            if CommitAdmitted(s, c, w, h, number)
            then s'.poisoned && s'.owner == None && s'.trace.stores != [] &&
                 s'.trace.stores[|s'.trace.stores| - 1] == Store(2, 2)
            else s' == s
  {
    if CommitAdmitted(s, c, w, h, number) {
      assert number != 0;
      var shown := Shown(s, c, s.holders.active.value, w, h, number);
      PoisonTold(s, retire);
      PoisonTold(shown, retire);
    }
    hide Poison, StatusGood, Inv;
  }

  /** A connection is granted exactly when nothing refuses it, the device shows the right magic, is idle and
      in step, and confirms the arm in the new epoch. */
  lemma GrantIff(s: Bridge, t: ThreadId, c: ClientId, b: BufferId, d: ArmReads)
    requires Inv(s) && t in s.holders.threads && s.holders.threads[t] == Holding(c, b)
    ensures (s.owner == None && ArmLocked(s, t, c, b, d).owner == Some(c)) <==>
            && !s.inactive && s.available && s.owner == None && !s.poisoned && c !in s.attempted
            && (if s.restartable
                then d.magic == 0x5253_4732 && d.state in {0, 2} && d.echo == s.epoch < MAX_U32 && d.echoAfter == s.epoch + 1
                else d.magic == 0x5253_4731 && d.state == 0 && s.trace.epochs == [])
            && d.armed == 1 && d.error == 0 && d.ack == 0
  {
  }

  /** A granted arm announced the next epoch and then the start, and nothing else. */
  lemma ArmTold(s: Bridge, t: ThreadId, c: ClientId, b: BufferId, d: ArmReads)
    requires Inv(s) && s.owner == None && ArmLocked(s, t, c, b, d).owner == Some(c)
    ensures var s' := ArmLocked(s, t, c, b, d);
            && s'.epoch == (if s.restartable then s.epoch + 1 else s.epoch) <= MAX_U32
            && s'.trace.stores == s.trace.stores + EpochStore(s, s'.epoch) + [Store(2, 1)]
            && s'.trace.epochs == s.trace.epochs + [s'.epoch] && s'.sequence == 0
            && s'.holders.active == Some(b) && c in s'.attempted
  {
    assert s.trace.stores + (EpochStore(s, ArmAnnounced(s, c).epoch) + [Store(2, 1)]) ==
           s.trace.stores + EpochStore(s, ArmAnnounced(s, c).epoch) + [Store(2, 1)];
  }

  /** An arm that is not granted tells the device nothing, or announces, stops it and poisons the bridge. */
  lemma UngrantedIsInert(s: Bridge, t: ThreadId, c: ClientId, b: BufferId, d: ArmReads)
    requires Inv(s) && !ArmGrants(s, c, d)
    ensures var s' := ArmLocked(s, t, c, b, d);
            && s'.owner == s.owner && s'.holders.threads == s.holders.threads[t := Dropping(b)]
            && (s'.trace == s.trace || (s'.poisoned && |s'.trace.stores| >= 2 &&
                                        s'.trace.stores[|s'.trace.stores| - 2..] == [Store(2, 1), Store(2, 2)]))
            && (s'.poisoned <==> s.poisoned || !ArmRefused(s, c))
  {
  }

  /** A close retires exactly the owner and bars the connection for good. */
  lemma CloseTold(s: Bridge, c: ClientId, final: bool, d: RetireReads)
    requires Inv(s)
    ensures var s' := Close(s, c, final, d);
            && c in s'.attempted
            && (s.owner == Some(c) ==> s'.owner == None && s'.trace.stores == Retire(s, d).trace.stores)
            && (s.owner != Some(c) ==> s'.owner == s.owner && s'.trace == s.trace && s'.poisoned == s.poisoned)
            && (c in s'.holders.privates <==> c in s.holders.privates && !final)
  {
  }

  /** No leak: when nobody holds a buffer and nothing is being built or freed, every slot is back. */
  lemma QuietMeansEmpty(s: Bridge)
    requires Inv(s) && s.holders == NO_HOLDERS && s.pool.dying == 0
    ensures s.pool == EMPTY_POOL
  {
    forall b
      ensures b !in s.pool.refs
    {
      assert HoldersOf(map[], b) == {} && KeysTo(map[], b) == {};
    }
    assert s.pool.refs == map[];
    assert Reserving(map[]) == {};
  }

  // ---- The object the driver updates in place ----

  /** The provider. Each method is one region under the provider lock; what the device answers to its
      reads is a parameter. */
  class RaphaelConsole {
    const restartable: bool
    const available: bool
    var inactive: bool
    var poisoned: bool
    var leased: bool
    var owner: Option<ClientId>
    var epoch: nat
    var sequence: nat
    var attempted: set<ClientId>
    var holders: Holders
    var pool: Pool
    var trace: Trace

    function State(): Bridge
      reads this
    {
      Bridge(restartable, available, inactive, poisoned, leased, owner, epoch, sequence, attempted, holders, pool, trace)
    }

    constructor (restartable: bool, available: bool)
      ensures State() == Start(restartable, available)
    {
      this.restartable := restartable;
      this.available := available;
      inactive, poisoned, leased := false, false, false;
      owner, epoch, sequence, attempted := None, 0, 0, {};
      holders, pool, trace := NO_HOLDERS, EMPTY_POOL, Trace([], [], [], map[], []);
    }

    method WriteRegister(register: nat, value: U32)
      modifies this`trace
      ensures trace == old(trace).(stores := old(trace).stores + [Store(register, value)])
    {
      trace := trace.(stores := trace.stores + [Store(register, value)]);
    }

    method RetireLocked(d: RetireReads)
      modifies this
      ensures State() == Retire(old(State()), d)
    {
      if owner != None {
        if restartable {
          WriteRegister(12, epoch % TWO32);
        }
        WriteRegister(2, 2);
        if d.state != 2 || (restartable && d.echo != epoch) {
          poisoned := true;
        }
      }
      owner := None;
      if holders.active != None {
        pool := Release(pool, holders.active.value);
        holders := holders.(active := None);
      }
    }

    /** The new buffer is not wanted: its creator turns to dropping it. */
    method GiveBack(t: ThreadId, b: BufferId)
      modifies this`holders
      ensures holders == old(holders).(threads := old(holders).threads[t := Dropping(b)])
    {
      holders := holders.(threads := holders.threads[t := Dropping(b)]);
    }

    /** Bars the connection from arming again and tells the device about the attempt. */
    method Announce(c: ClientId)
      modifies this
      ensures State() == ArmAnnounced(old(State()), c)
    {
      attempted := attempted + {c};
      leased := true;
      ghost var stores := trace.stores;
      if restartable {
        epoch := epoch + 1;
        WriteRegister(12, epoch % TWO32);
      }
      WriteRegister(2, 1);
      assert trace.stores == stores + (if restartable then [Store(12, epoch % TWO32)] else []) + [Store(2, 1)];
      trace := trace.(epochs := trace.epochs + [epoch]);
    }

    /** The device confirmed: the buffer becomes the active one and the connection's own. */
    method Grant(t: ThreadId, c: ClientId, b: BufferId)
      modifies this
      ensures State() == ArmGranted(old(State()), t, c, b)
    {
      owner := Some(c);
      sequence := 0;
      pool := Retain(pool, b);
      holders := Holders(holders.threads - {t}, holders.privates[c := b], holders.aliases, Some(b));
      trace := trace.(grants := trace.grants + [c]);
    }

    /** The device did not confirm: never infer a safe new epoch. */
    method Distrust(t: ThreadId, b: BufferId)
      modifies this
      ensures State() == ArmDistrusted(old(State()), t, b)
    {
      poisoned := true;
      WriteRegister(2, 2);
      GiveBack(t, b);
    }

    /** The part of snapshotArm under the lock; returns whether the connection became the owner. */
    method SnapshotArm(t: ThreadId, c: ClientId, b: BufferId, d: ArmReads) returns (ok: bool)
      modifies this
      ensures State() == ArmLocked(old(State()), t, c, b, d)
      ensures ok == ArmGrants(old(State()), c, d)
    {
      if inactive || !available || owner != None || poisoned || c in attempted || (!restartable && leased) {
        GiveBack(t, b);
        return false;
      }
      var magic := if restartable then MAGIC_RESTARTABLE else MAGIC_ONCE;
      if d.magic != magic || (d.state != 0 && !(restartable && d.state == 2)) ||
         (restartable && (epoch == MAX_U32 || d.echo != epoch)) {
        poisoned := true;
        GiveBack(t, b);
        return false;
      }
      Announce(c);
      ok := d.armed == 1 && d.error == 0 && d.ack == 0 && (restartable ==> d.echoAfter == epoch);
      if ok {
        Grant(t, c, b);
      } else {
        Distrust(t, b);
      }
    }

    method SnapshotCommit(c: ClientId, w: U64, h: U64, number: U64, before: StatusReads, after: StatusReads, retire: RetireReads)
      returns (ack: nat)
      modifies this
      ensures (State(), ack) == Commit(old(State()), c, w, h, number, before, after, retire)
    {
      if !CommitArguments(w, h, number) {
        return 0;
      }
      if inactive || owner != Some(c) || holders.active == None || poisoned {
        return 0;
      }
      if sequence == MAX_U32 || number != sequence + 1 {
        return 0;
      }
      if before.state != 1 || before.error != 0 || before.ack != sequence || (restartable && before.echo != epoch) {
        poisoned := true;
        RetireLocked(retire);
        return 0;
      }
      trace := trace.(frames := trace.frames + [(c, holders.active.value)]);
      ghost var stores := trace.stores;
      if restartable {
        WriteRegister(12, epoch % TWO32);
      }
      WriteRegister(4, w % TWO32);
      WriteRegister(5, h % TWO32);
      WriteRegister(6, number % TWO32);
      assert trace.stores == stores + FrameStores(State(), w, h, number);
      if after.state == 1 && after.error == 0 && after.ack == number && (restartable ==> after.echo == epoch) {
        sequence := number;
        trace := trace.(acks := trace.acks[c := AcksOf(trace, c) + [number]]);
        ack := number;
      } else {
        poisoned := true;
        RetireLocked(retire);
        ack := 0;
      }
    }

    method SnapshotClose(c: ClientId, final: bool, d: RetireReads)
      modifies this
      ensures State() == Close(old(State()), c, final, d)
    {
      attempted := attempted + {c};
      if owner == Some(c) {
        RetireLocked(d);
      }
      if final && c in holders.privates {
        var retired := holders.privates[c];
        holders := holders.(privates := holders.privates - {c});
        pool := Release(pool, retired);
      }
    }
  }
}
