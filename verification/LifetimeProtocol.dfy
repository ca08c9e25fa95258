/** The gate, the lifetime record and any number of threads, interleaved at every atomic access and
    every store. A thread that began publication stores VALID and finishes it; a thread that was told
    it owns the abort stores ABORT and finishes it; nobody else touches the record. */
module LifetimeProtocol {
  import opened Bits
  import opened BarStore
  import opened LifetimeRecord
  import opened LifetimeGate

  type ThreadId = nat

  /** Where a call stands. `retries` counts the exchanges it lost so far. */
  datatype Pc =
    | Begin
    | WriteValid(stored: nat)
    | FinishValidLoad(published: bool, retries: nat)
    | FinishValidSwap(published: bool, seen: Control, retries: nat)
    | RequestLoad(reason: U32, retries: nat)
    | RequestSwap(reason: U32, seen: Control, retries: nat)
    | PoisonLoad(retries: nat)
    | PoisonSwap(seen: Control, retries: nat)
    | WriteAbort(stored: nat)
    | FinishAbortLoad(published: bool)
    | FinishAbortSwap(published: bool, seen: Control, retries: nat)
    | Done

  /** The record to publish and the memory before anything is published. */
  datatype Config = Config(valid: LifetimeStatus, initial: seq<Word>)

  ghost predicate ValidConfig(cfg: Config) {
    && ValidEncoding(cfg.valid) && cfg.valid.state == VALID
    && |cfg.initial| == WORDS
  }

  /** `grants` counts the Owner and AbortOwner results; `accepted` records any Owner, Deferred or
      AbortOwner result. */
  datatype Machine = Machine(control: Control, vram: Vram, threads: map<ThreadId, Pc>, grants: nat, accepted: bool)

  ghost function ValidOps(cfg: Config): seq<Op> {
    CommitOps(Words(cfg.valid), 0)
  }

  ghost function AbortOps(cfg: Config, reason: U32): seq<Op> {
    CommitOps(Words(MakeAbort(cfg.valid, reason)), ABORTING)
  }

  ghost predicate Init(cfg: Config, s: Machine) {
    s == Machine(Control(Initial, LIFETIME_REASON_NONE), Settled(cfg.initial), map[], 0, false)
  }

  ghost function Goto(s: Machine, t: ThreadId, pc: Pc): Machine {
    s.(threads := s.threads[t := pc])
  }

  /** A call starts on a thread of its own. */
  ghost predicate Spawn(s: Machine, s': Machine, t: ThreadId) {
    t !in s.threads &&
    (s' == Goto(s, t, Begin) ||
     exists r: U32 :: s' == Goto(s, t, if ValidReason(r) then RequestLoad(r, 0) else PoisonLoad(0)))
  }

  ghost predicate BeginStep(s: Machine, s': Machine, t: ThreadId) {
    if s.control == Control(Initial, LIFETIME_REASON_NONE)
    then s' == Goto(s.(control := Control(PublishingValid, LIFETIME_REASON_NONE)), t, WriteValid(0))
    else s' == Goto(s, t, Done)
  }

  /** One operation of publishValidLifetime, or a readback that fails, or the final readback. */
  ghost predicate WriteValidStep(cfg: Config, s: Machine, s': Machine, t: ThreadId, k: nat) {
    || s' == Goto(s, t, FinishValidLoad(false, 0))
    || (k == 0 && s.vram.current != [] && |s.vram.current| == WORDS && s.vram.current[STATE] == 0 &&
        s' == Goto(s.(vram := Apply(s.vram, ValidOps(cfg)[0])), t, WriteValid(1)))
    || (0 < k < WORDS + 4 && s' == Goto(s.(vram := Apply(s.vram, ValidOps(cfg)[k])), t, WriteValid(k + 1)))
    || (k == WORDS + 4 && s' == Goto(s, t, FinishValidLoad(true, 0)))
  }

  /** The same for publishAbortLifetime; the reason is the one the gate recorded. */
  ghost predicate WriteAbortStep(cfg: Config, s: Machine, s': Machine, t: ThreadId, k: nat) {
    || s' == Goto(s, t, FinishAbortLoad(false))
    || (k == 0 && |s.vram.current| == WORDS && AbortReplaces(Decode(s.vram.current), MakeAbort(cfg.valid, s.control.reason)) &&
        s' == Goto(s.(vram := Apply(s.vram, AbortOps(cfg, s.control.reason)[0])), t, WriteAbort(1)))
    || (0 < k < WORDS + 4 &&
        s' == Goto(s.(vram := Apply(s.vram, AbortOps(cfg, s.control.reason)[k])), t, WriteAbort(k + 1)))
    || (k == WORDS + 4 && s' == Goto(s, t, FinishAbortLoad(true)))
  }

  ghost function AfterFinishValid(s: Machine, t: ThreadId, r: ValidCompletion): Machine {
    if r == AbortOwner then Goto(s.(grants := s.grants + 1, accepted := true), t, WriteAbort(0)) else Goto(s, t, Done)
  }

  ghost function AfterRequest(s: Machine, t: ThreadId, r: AbortRequest): Machine {
    match r
    case Owner => Goto(s.(grants := s.grants + 1, accepted := true), t, WriteAbort(0))
    case Deferred => Goto(s.(accepted := true), t, Done)
    case AlreadyBlocked => Goto(s, t, Done)
  }

  ghost predicate FinishValidLoadStep(s: Machine, s': Machine, t: ThreadId, published: bool, retries: nat) {
    match FinishValidTry(s.control, published)
    case Return(r) => s' == AfterFinishValid(s, t, r)
    case Swap(_, _) => s' == Goto(s, t, FinishValidSwap(published, s.control, retries))
  }

  ghost predicate FinishValidSwapStep(s: Machine, s': Machine, t: ThreadId, published: bool, seen: Control, retries: nat) {
    if s.control == seen
    then var try := FinishValidTry(seen, published);
         try.Swap? && s' == AfterFinishValid(s.(control := try.desired), t, try.result)
    else s' == Goto(s, t, FinishValidLoad(published, retries + 1))
  }

  ghost predicate RequestLoadStep(s: Machine, s': Machine, t: ThreadId, reason: U32, retries: nat) {
    match RequestTry(s.control, reason)
    case Return(r) => s' == AfterRequest(s, t, r)
    case Swap(_, _) => s' == Goto(s, t, RequestSwap(reason, s.control, retries))
  }

  ghost predicate RequestSwapStep(s: Machine, s': Machine, t: ThreadId, reason: U32, seen: Control, retries: nat) {
    if s.control == seen
    then var try := RequestTry(seen, reason);
         try.Swap? && s' == AfterRequest(s.(control := try.desired), t, try.result)
    else s' == Goto(s, t, RequestLoad(reason, retries + 1))
  }

  ghost predicate PoisonLoadStep(s: Machine, s': Machine, t: ThreadId, retries: nat) {
    match PoisonTry(s.control)
    case Return(_) => s' == Goto(s, t, Done)
    case Swap(_, _) => s' == Goto(s, t, PoisonSwap(s.control, retries))
  }

  ghost predicate PoisonSwapStep(s: Machine, s': Machine, t: ThreadId, seen: Control, retries: nat) {
    if s.control == seen
    then PoisonTry(seen).Swap? && s' == Goto(s.(control := PoisonTry(seen).desired), t, Done)
    else s' == Goto(s, t, PoisonLoad(retries + 1))
  }

  ghost predicate FinishAbortLoadStep(s: Machine, s': Machine, t: ThreadId, published: bool, seen: Control, retries: nat) {
    match FinishAbortTry(seen, published)
    case Return(_) => s' == Goto(s, t, Done)
    case Swap(_, _) => s' == Goto(s, t, FinishAbortSwap(published, seen, retries))
  }

  ghost predicate FinishAbortSwapStep(s: Machine, s': Machine, t: ThreadId, published: bool, seen: Control, retries: nat) {
    if s.control == seen
    then FinishAbortTry(seen, published).Swap? &&
         s' == Goto(s.(control := FinishAbortTry(seen, published).desired), t, Done)
    else FinishAbortLoadStep(s, s', t, published, s.control, retries + 1)
  }

  ghost predicate ThreadStep(cfg: Config, s: Machine, s': Machine, t: ThreadId)
    requires t in s.threads
  {
    match s.threads[t]
    case Begin => BeginStep(s, s', t)
    case WriteValid(k) => WriteValidStep(cfg, s, s', t, k)
    case FinishValidLoad(p, n) => FinishValidLoadStep(s, s', t, p, n)
    case FinishValidSwap(p, c, n) => FinishValidSwapStep(s, s', t, p, c, n)
    case RequestLoad(r, n) => RequestLoadStep(s, s', t, r, n)
    case RequestSwap(r, c, n) => RequestSwapStep(s, s', t, r, c, n)
    case PoisonLoad(n) => PoisonLoadStep(s, s', t, n)
    case PoisonSwap(c, n) => PoisonSwapStep(s, s', t, c, n)
    case WriteAbort(k) => WriteAbortStep(cfg, s, s', t, k)
    case FinishAbortLoad(p) => FinishAbortLoadStep(s, s', t, p, s.control, 0)
    case FinishAbortSwap(p, c, n) => FinishAbortSwapStep(s, s', t, p, c, n)
    case Done => false
  }

  /** Thread `t` takes one step; no other call moves. */
  ghost predicate Next(cfg: Config, s: Machine, s': Machine, t: ThreadId) {
    t in s'.threads && s'.threads == s.threads[t := s'.threads[t]] &&
    if t in s.threads then ThreadStep(cfg, s, s', t) else Spawn(s, s', t)
  }

  // ---- The invariant ----

  predicate ValidRole(pc: Pc) {
    pc.WriteValid? || pc.FinishValidLoad? || pc.FinishValidSwap?
  }

  predicate AbortRole(pc: Pc) {
    pc.WriteAbort? || pc.FinishAbortLoad? || pc.FinishAbortSwap?
  }

  predicate Role(pc: Pc) {
    ValidRole(pc) || AbortRole(pc)
  }

  /** The thread is inside one of the two publish routines. */
  predicate StoringNow(s: Machine, t: ThreadId) {
    t in s.threads && (s.threads[t].WriteValid? || s.threads[t].WriteAbort?)
  }

  /** A word somebody loaded is the current one or has been overtaken for good. */
  predicate Overtaken(seen: Control, control: Control) {
    seen == control || Rank(seen.phase) < Rank(control.phase)
  }

  /** What the gate's word says about the memory and about one call in progress. */
  ghost predicate PcInv(cfg: Config, control: Control, vram: Vram, pc: Pc)
    requires ValidConfig(cfg)
  {
    && (ValidRole(pc) ==> control.phase in {PublishingValid, ValidAbortRequested, Poisoned})
    && (AbortRole(pc) ==> control.phase == PublishingAbort)
    && match pc
       case WriteValid(k) => k <= WORDS + 4 && (k > 0 ==> cfg.initial[STATE] == 0) &&
                             vram == Run(Settled(cfg.initial), ValidOps(cfg)[..k])
       case FinishValidLoad(p, n) => (p ==> vram == Settled(Words(cfg.valid))) && n <= Rank(control.phase)
       case FinishValidSwap(p, c, n) => (p ==> vram == Settled(Words(cfg.valid))) &&
                                        Overtaken(c, control) && n <= Rank(c.phase) && FinishValidTry(c, p).Swap?
       case RequestLoad(r, n) => ValidReason(r) && n <= Rank(control.phase)
       case RequestSwap(r, c, n) => ValidReason(r) && Overtaken(c, control) && n <= Rank(c.phase) && RequestTry(c, r).Swap?
       case PoisonLoad(n) => n <= Rank(control.phase)
       case PoisonSwap(c, n) => Overtaken(c, control) && n <= Rank(c.phase) && PoisonTry(c).Swap?
       case WriteAbort(k) => k <= WORDS + 4 && vram == Run(Settled(Words(cfg.valid)), AbortOps(cfg, control.reason)[..k])
       case FinishAbortLoad(p) => p ==> vram == Settled(Words(MakeAbort(cfg.valid, control.reason)))
       case FinishAbortSwap(p, c, n) =>
         (p ==> vram == Settled(Words(MakeAbort(cfg.valid, control.reason)))) && c == control && n == 0
       case _ => true
  }

  /** Every memory is a cut of the VALID program from the start, or of an ABORT program from VALID. */
  ghost predicate Provenance(cfg: Config, vram: Vram)
    requires ValidConfig(cfg)
  {
    || vram == Settled(cfg.initial)
    || (cfg.initial[STATE] == 0 && CommitResidue(cfg.initial, Words(cfg.valid), 0, vram))
    || exists r: U32 :: ValidReason(r) &&
         CommitResidue(Words(cfg.valid), Words(MakeAbort(cfg.valid, r)), ABORTING, vram)
  }

  ghost predicate PhaseInv(cfg: Config, s: Machine)
    requires ValidConfig(cfg)
  {
    && ReasonConsistent(s.control)
    && (s.control.phase == Initial ==> s.vram == Settled(cfg.initial))
    && (s.control.phase == Active ==> s.vram == Settled(Words(cfg.valid)))
    && (s.control.phase == Aborted ==> s.vram == Settled(Words(MakeAbort(cfg.valid, s.control.reason))))
    && s.grants <= 1
    && (s.control.phase in {Initial, PublishingValid, ValidAbortRequested, Active} ==> s.grants == 0)
    && (s.accepted ==> s.control.phase in {ValidAbortRequested, PublishingAbort, Aborted, Poisoned})
    && Provenance(cfg, s.vram)
  }

  ghost predicate Inv(cfg: Config, s: Machine)
    requires ValidConfig(cfg)
  {
    && PhaseInv(cfg, s)
    && (forall t :: t in s.threads ==> PcInv(cfg, s.control, s.vram, s.threads[t]))
    && (forall t, u :: HasRole(s, t) && HasRole(s, u) ==> t == u)
  }

  ghost predicate HasRole(s: Machine, t: ThreadId) {
    t in s.threads && Role(s.threads[t])
  }

  /** One thread moved to `pc`; nobody else was disturbed. */
  ghost predicate Quietly(s: Machine, s': Machine, t: ThreadId, pc: Pc) {
    && s'.threads == s.threads[t := pc]
    && (s'.control == s.control || Moves(s.control, s'.control))
    && (!HasRole(s, t) ==> s'.vram == s.vram)
    && (!HasRole(s, t) && s'.control != s.control ==>
          s.control.phase != PublishingAbort &&
          (s'.control.phase in {ValidAbortRequested, Poisoned} || s.control.phase in {Initial, Active}))
    && (Role(pc) ==> HasRole(s, t) || s.control.phase in {Initial, Active})
  }

  lemma OthersKeep(cfg: Config, s: Machine, s': Machine, t: ThreadId, pc: Pc, u: ThreadId)
    requires ValidConfig(cfg) && Inv(cfg, s) && Quietly(s, s', t, pc)
    requires u in s.threads && u != t
    ensures PcInv(cfg, s'.control, s'.vram, s.threads[u])
    ensures Role(s.threads[u]) ==> !Role(pc)
  {
    assert PcInv(cfg, s.control, s.vram, s.threads[u]);
    assert HasRole(s, u) && HasRole(s, t) ==> t == u;
  }

  lemma QuietStep(cfg: Config, s: Machine, s': Machine, t: ThreadId, pc: Pc)
    requires ValidConfig(cfg) && Inv(cfg, s) && Quietly(s, s', t, pc)
    requires PhaseInv(cfg, s') && PcInv(cfg, s'.control, s'.vram, pc)
    ensures Inv(cfg, s')
  {
    forall u | u in s.threads && u != t
      ensures PcInv(cfg, s'.control, s'.vram, s'.threads[u])
      ensures Role(s'.threads[u]) ==> !Role(pc)
    {
      OthersKeep(cfg, s, s', t, pc, u);
    }
    forall u, w | HasRole(s', u) && HasRole(s', w)
      ensures u == w
    {
      assert u != t ==> HasRole(s, u);
      assert w != t ==> HasRole(s, w);
    }
  }

  /** A step that only moves its own thread on. */
  lemma GotoKeeps(cfg: Config, s: Machine, t: ThreadId, pc: Pc)
    requires ValidConfig(cfg) && Inv(cfg, s) && t in s.threads && PcInv(cfg, s.control, s.vram, pc)
    requires Role(pc) ==> HasRole(s, t)
    ensures Inv(cfg, Goto(s, t, pc))
  {
    hide PcInv, Provenance;
    QuietStep(cfg, s, Goto(s, t, pc), t, pc);
  }

  lemma SpawnKeeps(cfg: Config, s: Machine, s': Machine, t: ThreadId)
    requires ValidConfig(cfg) && Inv(cfg, s) && Spawn(s, s', t)
    ensures Inv(cfg, s')
  {
    QuietStep(cfg, s, s', t, s'.threads[t]);
  }

  lemma BeginKeeps(cfg: Config, s: Machine, s': Machine, t: ThreadId)
    requires ValidConfig(cfg) && Inv(cfg, s) && t in s.threads && s.threads[t] == Begin && BeginStep(s, s', t)
    ensures Inv(cfg, s')
  {
    assert ValidOps(cfg)[..0] == [];
    QuietStep(cfg, s, s', t, s'.threads[t]);
  }

  lemma WriteValidKeeps(cfg: Config, s: Machine, s': Machine, t: ThreadId, k: nat)
    requires ValidConfig(cfg) && Inv(cfg, s) && t in s.threads && s.threads[t] == WriteValid(k)
    requires WriteValidStep(cfg, s, s', t, k)
    ensures Inv(cfg, s')
  {
    var ops, start := ValidOps(cfg), Settled(cfg.initial);
    assert PcInv(cfg, s.control, s.vram, s.threads[t]);
    if s'.threads[t] == WriteValid(k + 1) {
      assert ops[..0] == [];
      RunSnoc(start, ops, k);
      assert s'.vram == Run(start, ops[..k + 1]);
      assert CommitResidue(cfg.initial, Words(cfg.valid), 0, s'.vram);
    } else if k == WORDS + 4 {
      assert ops[..k] == ops;
      CommitCompletes(cfg.initial, Words(cfg.valid), 0);
    }
    hide Words, CommitOps, CommitResidue, Run, ValidOps;
    QuietStep(cfg, s, s', t, s'.threads[t]);
  }

  lemma FinishValidLoadKeeps(cfg: Config, s: Machine, s': Machine, t: ThreadId, published: bool, retries: nat)
    requires ValidConfig(cfg) && Inv(cfg, s) && t in s.threads && s.threads[t] == FinishValidLoad(published, retries)
    requires FinishValidLoadStep(s, s', t, published, retries)
    ensures Inv(cfg, s')
  {
    assert PcInv(cfg, s.control, s.vram, s.threads[t]);
    TriesMove(s.control, published, 1);
    hide Provenance, Run, Words, CommitOps;
    QuietStep(cfg, s, s', t, s'.threads[t]);
  }

  lemma FinishValidSwapKeeps(cfg: Config, s: Machine, s': Machine, t: ThreadId, published: bool, seen: Control, retries: nat)
    requires ValidConfig(cfg) && Inv(cfg, s) && t in s.threads && s.threads[t] == FinishValidSwap(published, seen, retries)
    requires FinishValidSwapStep(s, s', t, published, seen, retries)
    ensures Inv(cfg, s')
  {
    assert PcInv(cfg, s.control, s.vram, s.threads[t]);
    if s.control != seen {
      GotoKeeps(cfg, s, t, FinishValidLoad(published, retries + 1));
      return;
    }
    TriesMove(s.control, published, 1);
    assert AbortOps(cfg, s'.control.reason)[..0] == [];
    hide Provenance, Words, CommitOps;
    QuietStep(cfg, s, s', t, s'.threads[t]);
  }

  lemma RequestLoadKeeps(cfg: Config, s: Machine, s': Machine, t: ThreadId, reason: U32, retries: nat)
    requires ValidConfig(cfg) && Inv(cfg, s) && t in s.threads && s.threads[t] == RequestLoad(reason, retries)
    requires RequestLoadStep(s, s', t, reason, retries)
    ensures Inv(cfg, s')
  {
    assert PcInv(cfg, s.control, s.vram, s.threads[t]);
    TriesMove(s.control, true, reason);
    hide Provenance, Run, Words, CommitOps;
    QuietStep(cfg, s, s', t, s'.threads[t]);
  }

  lemma RequestSwapKeeps(cfg: Config, s: Machine, s': Machine, t: ThreadId, reason: U32, seen: Control, retries: nat)
    requires ValidConfig(cfg) && Inv(cfg, s) && t in s.threads && s.threads[t] == RequestSwap(reason, seen, retries)
    requires RequestSwapStep(s, s', t, reason, seen, retries)
    ensures Inv(cfg, s')
  {
    assert PcInv(cfg, s.control, s.vram, s.threads[t]);
    if s.control != seen {
      GotoKeeps(cfg, s, t, RequestLoad(reason, retries + 1));
      return;
    }
    TriesMove(s.control, true, reason);
    assert AbortOps(cfg, s'.control.reason)[..0] == [];
    hide Provenance, Words, CommitOps;
    QuietStep(cfg, s, s', t, s'.threads[t]);
  }

  lemma PoisonKeeps(cfg: Config, s: Machine, s': Machine, t: ThreadId)
    requires ValidConfig(cfg) && Inv(cfg, s) && t in s.threads
    requires var pc := s.threads[t];
             || (pc.PoisonLoad? && PoisonLoadStep(s, s', t, pc.retries))
             || (pc.PoisonSwap? && PoisonSwapStep(s, s', t, pc.seen, pc.retries))
    ensures Inv(cfg, s')
  {
    assert PcInv(cfg, s.control, s.vram, s.threads[t]);
    TriesMove(s.control, true, 1);
    hide Provenance, Run, Words, CommitOps;
    QuietStep(cfg, s, s', t, s'.threads[t]);
  }

  lemma WriteAbortKeeps(cfg: Config, s: Machine, s': Machine, t: ThreadId, k: nat)
    requires ValidConfig(cfg) && Inv(cfg, s) && t in s.threads && s.threads[t] == WriteAbort(k)
    requires WriteAbortStep(cfg, s, s', t, k)
    ensures Inv(cfg, s')
  {
    var r := s.control.reason;
    var ops, start := AbortOps(cfg, r), Settled(Words(cfg.valid));
    assert PcInv(cfg, s.control, s.vram, s.threads[t]);
    if s'.threads[t] == WriteAbort(k + 1) {
      assert ops[..0] == [];
      RunSnoc(start, ops, k);
      assert s'.vram == Run(start, ops[..k + 1]);
      assert CommitResidue(Words(cfg.valid), Words(MakeAbort(cfg.valid, r)), ABORTING, s'.vram);
    } else if k == WORDS + 4 {
      assert ops[..k] == ops;
      CommitCompletes(Words(cfg.valid), Words(MakeAbort(cfg.valid, r)), ABORTING);
    }
    hide Words, CommitOps, CommitResidue, Run, AbortOps;
    QuietStep(cfg, s, s', t, s'.threads[t]);
  }

  lemma FinishAbortKeeps(cfg: Config, s: Machine, s': Machine, t: ThreadId)
    requires ValidConfig(cfg) && Inv(cfg, s) && t in s.threads
    requires var pc := s.threads[t];
             || (pc.FinishAbortLoad? && FinishAbortLoadStep(s, s', t, pc.published, s.control, 0))
             || (pc.FinishAbortSwap? && FinishAbortSwapStep(s, s', t, pc.published, pc.seen, pc.retries))
    ensures Inv(cfg, s')
  {
    assert PcInv(cfg, s.control, s.vram, s.threads[t]);
    TriesMove(s.control, s.threads[t].published, 1);
    QuietStep(cfg, s, s', t, s'.threads[t]);
  }

  /** Every step of every thread keeps the invariant. */
  lemma NextKeeps(cfg: Config, s: Machine, s': Machine, t: ThreadId)
    requires ValidConfig(cfg) && Inv(cfg, s) && Next(cfg, s, s', t)
    ensures Inv(cfg, s')
  {
    if t !in s.threads {
      SpawnKeeps(cfg, s, s', t);
    } else {
      match s.threads[t]
      case Begin => BeginKeeps(cfg, s, s', t);
      case WriteValid(k) => WriteValidKeeps(cfg, s, s', t, k);
      case WriteAbort(k) => WriteAbortKeeps(cfg, s, s', t, k);
      case FinishValidLoad(p, n) => FinishValidLoadKeeps(cfg, s, s', t, p, n);
      case FinishValidSwap(p, c, n) => FinishValidSwapKeeps(cfg, s, s', t, p, c, n);
      case RequestLoad(r, n) => RequestLoadKeeps(cfg, s, s', t, r, n);
      case RequestSwap(r, c, n) => RequestSwapKeeps(cfg, s, s', t, r, c, n);
      case PoisonLoad(_) => PoisonKeeps(cfg, s, s', t);
      case PoisonSwap(_, _) => PoisonKeeps(cfg, s, s', t);
      case FinishAbortLoad(_) => FinishAbortKeeps(cfg, s, s', t);
      case FinishAbortSwap(_, _, _) => FinishAbortKeeps(cfg, s, s', t);
      case Done =>
    }
  }

  // ---- Whole runs ----

  ghost predicate IsRun(cfg: Config, run: seq<Machine>) {
    && |run| > 0 && Init(cfg, run[0])
    && forall i :: 0 <= i < |run| - 1 ==> SomeoneSteps(cfg, run[i], run[i + 1])
  }

  ghost predicate SomeoneSteps(cfg: Config, s: Machine, s': Machine) {
    exists t :: Next(cfg, s, s', t)
  }

  lemma {:induction false} RunInv(cfg: Config, run: seq<Machine>, i: nat)
    requires ValidConfig(cfg) && IsRun(cfg, run) && i < |run|
    ensures Inv(cfg, run[i])
  {
    if i > 0 {
      RunInv(cfg, run, i - 1);
      assert SomeoneSteps(cfg, run[i - 1], run[i - 1 + 1]);
      var t :| Next(cfg, run[i - 1], run[i], t);
      NextKeeps(cfg, run[i - 1], run[i], t);
    }
  }

  function Retries(pc: Pc): nat {
    match pc
    case FinishValidLoad(_, n) => n
    case FinishValidSwap(_, _, n) => n
    case RequestLoad(_, n) => n
    case RequestSwap(_, _, n) => n
    case PoisonLoad(n) => n
    case PoisonSwap(_, n) => n
    case FinishAbortSwap(_, _, n) => n
    case _ => 0
  }

  /** In every reachable state: clients are admitted only over one complete, settled VALID record; at
      most one thread is between the first and the last store of a publication; at most one call was
      told it owns the abort; no call lost more than four exchanges. */
  lemma GateSafety(cfg: Config, run: seq<Machine>, i: nat)
    requires ValidConfig(cfg) && IsRun(cfg, run) && i < |run|
    ensures run[i].control.phase == Active ==> run[i].vram == Settled(Words(cfg.valid))
    ensures run[i].control.phase == Aborted ==>
              ValidReason(run[i].control.reason) &&
              run[i].vram == Settled(Words(MakeAbort(cfg.valid, run[i].control.reason)))
    ensures forall t, u :: StoringNow(run[i], t) && StoringNow(run[i], u) ==> t == u
    ensures run[i].grants <= 1
    ensures forall t :: t in run[i].threads ==> Retries(run[i].threads[t]) <= 4
  {
    RunInv(cfg, run, i);
    var s := run[i];
    forall t, u | StoringNow(s, t) && StoringNow(s, u)
      ensures t == u
    {
      assert HasRole(s, t) && HasRole(s, u);
    }
    forall t | t in s.threads
      ensures Retries(s.threads[t]) <= 4
    {
      assert PcInv(cfg, s.control, s.vram, s.threads[t]);
    }
  }

  lemma ProvenanceCrash(cfg: Config, v: Vram, image: seq<Word>)
    requires ValidConfig(cfg) && Provenance(cfg, v) && CrashImage(v, image)
    ensures |image| == WORDS
    ensures image == cfg.initial || image[STATE] == 0 || image == Words(cfg.valid) || image[STATE] == ABORTING ||
            exists r: U32 :: ValidReason(r) && image == Words(MakeAbort(cfg.valid, r))
  {
    if v == Settled(cfg.initial) {
      assert image == cfg.initial;
    } else if cfg.initial[STATE] == 0 && CommitResidue(cfg.initial, Words(cfg.valid), 0, v) {
      var k: nat :| k <= WORDS + 4 && v == Run(Settled(cfg.initial), CommitOps(Words(cfg.valid), 0)[..k]);
      CommitCrashSafe(cfg.initial, Words(cfg.valid), 0, k, image);
    } else {
      var r: U32 :| ValidReason(r) && CommitResidue(Words(cfg.valid), Words(MakeAbort(cfg.valid, r)), ABORTING, v);
      var words := Words(MakeAbort(cfg.valid, r));
      var k: nat :| k <= WORDS + 4 && v == Run(Settled(Words(cfg.valid)), CommitOps(words, ABORTING)[..k]);
      CommitCrashSafe(Words(cfg.valid), words, ABORTING, k, image);
    }
  }

  /** Stop the machine in any reachable state, with any subset of the open epoch landing: the image is
      what was there before, or uncommitted, or the whole VALID record, or a whole ABORT of it. */
  lemma StopAnywhereSafe(cfg: Config, run: seq<Machine>, i: nat, image: seq<Word>)
    requires ValidConfig(cfg) && IsRun(cfg, run) && i < |run|
    requires CrashImage(run[i].vram, image) && image != cfg.initial
    ensures |image| == WORDS
    ensures image[STATE] == VALID ==> image == Words(cfg.valid)
    ensures image[STATE] == ABORT ==> exists r: U32 :: ValidReason(r) && image == Words(MakeAbort(cfg.valid, r))
    ensures image[STATE] in {0, VALID, ABORTING, ABORT}
  {
    RunInv(cfg, run, i);
    ProvenanceCrash(cfg, run[i].vram, image);
  }

  predicate StepOn(s: Machine, s': Machine) {
    (s'.control == s.control || Moves(s.control, s'.control)) && (s.accepted ==> s'.accepted)
  }

  /** The steps that may exchange the word. */
  lemma FinishValidMoves(s: Machine, s': Machine, t: ThreadId, published: bool, seen: Control, retries: nat)
    requires ReasonConsistent(s.control)
    requires FinishValidSwapStep(s, s', t, published, seen, retries) || FinishValidLoadStep(s, s', t, published, retries)
    ensures StepOn(s, s')
  {
    TriesMove(s.control, published, 1);
  }

  lemma RequestMoves(s: Machine, s': Machine, t: ThreadId, reason: U32, seen: Control, retries: nat)
    requires ReasonConsistent(s.control) && ValidReason(reason)
    requires RequestSwapStep(s, s', t, reason, seen, retries) || RequestLoadStep(s, s', t, reason, retries)
    ensures StepOn(s, s')
  {
    TriesMove(s.control, true, reason);
  }

  lemma PoisonMoves(s: Machine, s': Machine, t: ThreadId, seen: Control, retries: nat)
    requires ReasonConsistent(s.control)
    requires PoisonSwapStep(s, s', t, seen, retries) || PoisonLoadStep(s, s', t, retries)
    ensures StepOn(s, s')
  {
    TriesMove(s.control, true, 1);
  }

  lemma FinishAbortMoves(s: Machine, s': Machine, t: ThreadId, published: bool, seen: Control, retries: nat)
    requires ReasonConsistent(s.control)
    requires FinishAbortSwapStep(s, s', t, published, seen, retries) || FinishAbortLoadStep(s, s', t, published, s.control, 0)
    ensures StepOn(s, s')
  {
    TriesMove(s.control, published, 1);
  }

  lemma StepMoves(cfg: Config, s: Machine, s': Machine, t: ThreadId)
    requires ValidConfig(cfg) && Inv(cfg, s) && Next(cfg, s, s', t)
    ensures StepOn(s, s')
  {
    if t in s.threads {
      assert PcInv(cfg, s.control, s.vram, s.threads[t]);
      match s.threads[t]
      case Begin =>
      case WriteValid(_) =>
      case WriteAbort(_) =>
      case FinishValidLoad(p, n) => FinishValidMoves(s, s', t, p, s.control, n);
      case FinishValidSwap(p, c, n) => FinishValidMoves(s, s', t, p, c, n);
      case RequestLoad(r, n) => RequestMoves(s, s', t, r, s.control, n);
      case RequestSwap(r, c, n) => RequestMoves(s, s', t, r, c, n);
      case PoisonLoad(n) => PoisonMoves(s, s', t, s.control, n);
      case PoisonSwap(c, n) => PoisonMoves(s, s', t, c, n);
      case FinishAbortLoad(p) => FinishAbortMoves(s, s', t, p, s.control, 0);
      case FinishAbortSwap(p, c, n) => FinishAbortMoves(s, s', t, p, c, n);
      case Done =>
    }
  }

  /** The word only climbs, a recorded reason stays, and an accepted abort stays accepted. */
  predicate Climbs(a: Machine, b: Machine) {
    && (a.control == b.control || Rank(a.control.phase) < Rank(b.control.phase))
    && (a.control.reason != LIFETIME_REASON_NONE ==> b.control.reason == a.control.reason)
    && (a.accepted ==> b.accepted)
  }

  lemma StepClimbs(cfg: Config, run: seq<Machine>, i: nat)
    requires ValidConfig(cfg) && IsRun(cfg, run) && i + 1 < |run|
    ensures Climbs(run[i], run[i + 1])
  {
    RunInv(cfg, run, i);
    assert SomeoneSteps(cfg, run[i], run[i + 1]);
    var t :| Next(cfg, run[i], run[i + 1], t);
    StepMoves(cfg, run[i], run[i + 1], t);
  }

  lemma {:induction false} ClimbsChain(run: seq<Machine>, i: nat, j: nat)
    requires i <= j < |run|
    requires forall k :: i <= k < j ==> Climbs(run[k], run[k + 1])
    ensures Climbs(run[i], run[j])
    decreases j
  {
    if i < j {
      var k := j - 1;
      ClimbsChain(run, i, k);
      assert Climbs(run[k], run[k + 1]);
    }
  }

  lemma RunClimbs(cfg: Config, run: seq<Machine>, i: nat, j: nat)
    requires ValidConfig(cfg) && IsRun(cfg, run) && i <= j < |run|
    ensures Climbs(run[i], run[j])
  {
    forall k | i <= k < j
      ensures Climbs(run[k], run[k + 1])
    {
      StepClimbs(cfg, run, k);
    }
    ClimbsChain(run, i, j);
  }

  /** After any call returned Owner, Deferred or AbortOwner, no later state admits clients, and the
      reason that abort recorded is still the recorded one. */
  lemma AcceptedAbortIsFinal(cfg: Config, run: seq<Machine>, i: nat, j: nat)
    requires ValidConfig(cfg) && IsRun(cfg, run) && i <= j < |run| && run[i].accepted
    ensures run[j].control.phase != Active
    ensures run[i].control.reason != LIFETIME_REASON_NONE ==> run[j].control.reason == run[i].control.reason
  {
    RunClimbs(cfg, run, i, j);
    RunInv(cfg, run, j);
  }

  /** Once left, Active never comes back. */
  lemma ActiveNeverReturns(cfg: Config, run: seq<Machine>, i: nat, j: nat, k: nat)
    requires ValidConfig(cfg) && IsRun(cfg, run) && i <= j <= k < |run|
    requires run[i].control.phase == Active && run[j].control.phase != Active
    ensures run[k].control.phase != Active
  {
    RunClimbs(cfg, run, i, j);
    RunClimbs(cfg, run, j, k);
  }

  // ---- What a request achieves ----

  /** The call is in the loop of an abort request, or of the poisoning that a request without a proper
      reason becomes. */
  predicate Requesting(pc: Pc) {
    pc.RequestLoad? || pc.RequestSwap? || pc.PoisonLoad? || pc.PoisonSwap?
  }

  /** A request leaves its loop only over a blocked gate. */
  lemma RequestStepBlocks(cfg: Config, s: Machine, s': Machine, t: ThreadId)
    requires Next(cfg, s, s', t) && t in s.threads && Requesting(s.threads[t])
    ensures Requesting(s'.threads[t]) || Blocked(s'.control.phase)
  {
  }

  lemma BlockedStays(a: Machine, b: Machine)
    requires Climbs(a, b) && Blocked(a.control.phase)
    ensures Blocked(b.control.phase)
  {
  }

  ghost predicate RequestedOr(s: Machine, t: ThreadId) {
    t in s.threads && (Requesting(s.threads[t]) || Blocked(s.control.phase))
  }

  lemma RequestStays(cfg: Config, s: Machine, s': Machine, t: ThreadId, u: ThreadId)
    requires Next(cfg, s, s', u) && Climbs(s, s') && RequestedOr(s, t)
    ensures RequestedOr(s', t)
  {
    if Blocked(s.control.phase) {
      BlockedStays(s, s');
    } else if u == t {
      RequestStepBlocks(cfg, s, s', t);
    }
  }

  lemma {:induction false} RequestedOrBlocked(cfg: Config, run: seq<Machine>, t: ThreadId, i: nat, j: nat)
    requires ValidConfig(cfg) && IsRun(cfg, run) && i <= j < |run| && RequestedOr(run[i], t)
    ensures RequestedOr(run[j], t)
    decreases j
  {
    hide RequestedOr, Next, Climbs;
    if i < j {
      RequestedOrBlocked(cfg, run, t, i, j - 1);
      StepClimbs(cfg, run, j - 1);
      assert SomeoneSteps(cfg, run[j - 1], run[j - 1 + 1]);
      var u :| Next(cfg, run[j - 1], run[j], u);
      RequestStays(cfg, run[j - 1], run[j], t, u);
    }
  }

  /** Once any request has returned, whatever it was told, no later state admits clients. */
  lemma ReturnedRequestIsFinal(cfg: Config, run: seq<Machine>, t: ThreadId, i: nat, j: nat, k: nat)
    requires ValidConfig(cfg) && IsRun(cfg, run) && i <= j <= k < |run|
    requires t in run[i].threads && Requesting(run[i].threads[t])
    requires t in run[j].threads && !Requesting(run[j].threads[t])
    ensures Blocked(run[k].control.phase) && run[k].control.phase != Active
  {
    RequestedOrBlocked(cfg, run, t, i, j);
    RunClimbs(cfg, run, j, k);
    BlockedStays(run[j], run[k]);
  }

  /** The gate opens: a completed publication that nobody asked to abort meanwhile makes the word Active. */
  lemma CompletionOpens(cfg: Config, s: Machine, s': Machine, t: ThreadId)
    requires Next(cfg, s, s', t) && t in s.threads && s.control.phase == PublishingValid
    requires s.threads[t].FinishValidSwap? && s.threads[t].published && s.threads[t].seen == s.control
    ensures s'.control == Control(Active, s.control.reason) && s'.threads[t] == Done && s'.vram == s.vram
  {
  }

  /** Whoever is waited for is there: a publication in progress has its publisher, and an abort in progress
      the owner that publishes it. */
  ghost predicate Attended(s: Machine) {
    && (s.control.phase in {PublishingValid, ValidAbortRequested} ==> exists t :: t in s.threads && ValidRole(s.threads[t]))
    && (s.control.phase == PublishingAbort ==> exists t :: t in s.threads && AbortRole(s.threads[t]))
  }

  /** The role a phase waits for. */
  predicate Awaited(phase: Phase, pc: Pc) {
    match phase
    case PublishingValid => ValidRole(pc)
    case ValidAbortRequested => ValidRole(pc)
    case PublishingAbort => AbortRole(pc)
    case _ => false
  }

  /** A step of a thread in an awaited role keeps it in the role, or moves the phase on. */
  lemma StepKeepsRole(cfg: Config, s: Machine, s': Machine, t: ThreadId)
    requires Next(cfg, s, s', t) && t in s.threads
    ensures Awaited(s.control.phase, s.threads[t]) && s'.control.phase == s.control.phase ==>
              Awaited(s'.control.phase, s'.threads[t])
  {
    hide ValidOps, AbortOps, Apply, AbortReplaces, MakeAbort, Decode;
  }

  /** A phase that begins to wait is entered by the very thread it waits for. */
  lemma StepEntersRole(cfg: Config, s: Machine, s': Machine, t: ThreadId)
    requires Next(cfg, s, s', t) && s'.control.phase != s.control.phase
    ensures s'.control.phase in {PublishingValid, PublishingAbort} ==> Awaited(s'.control.phase, s'.threads[t])
  {
    hide ValidOps, AbortOps, Apply, AbortReplaces, MakeAbort, Decode;
  }

  /** An abort is deferred to the publisher by another thread. */
  lemma StepDefers(cfg: Config, s: Machine, s': Machine, t: ThreadId)
    requires Next(cfg, s, s', t) && s'.control.phase == ValidAbortRequested && s.control.phase != ValidAbortRequested
    ensures s.control.phase == PublishingValid && !(t in s.threads && ValidRole(s.threads[t]))
  {
    hide ValidOps, AbortOps, Apply, AbortReplaces, MakeAbort, Decode;
  }

  lemma AttendedStays(cfg: Config, s: Machine, s': Machine, t: ThreadId)
    requires Next(cfg, s, s', t) && Attended(s)
    ensures Attended(s')
  {
    hide Next;
    NextMoves(cfg, s, s', t);
    if t in s.threads {
      StepKeepsRole(cfg, s, s', t);
    }
    if s'.control.phase != s.control.phase {
      StepEntersRole(cfg, s, s', t);
      if s'.control.phase == ValidAbortRequested {
        StepDefers(cfg, s, s', t);
      }
    }
    if s.control.phase in {PublishingValid, ValidAbortRequested} {
      var u :| u in s.threads && ValidRole(s.threads[u]);
      assert u in s'.threads;
    } else if s.control.phase == PublishingAbort {
      var u :| u in s.threads && AbortRole(s.threads[u]);
      assert u in s'.threads;
    }
  }

  lemma NextMoves(cfg: Config, s: Machine, s': Machine, t: ThreadId)
    requires Next(cfg, s, s', t)
    ensures t in s'.threads && s'.threads == s.threads[t := s'.threads[t]]
  {
  }

  /** In every state of every run nobody waits for a publication that no thread is about to finish. */
  lemma {:induction false} AlwaysAttended(cfg: Config, run: seq<Machine>, i: nat)
    requires ValidConfig(cfg) && IsRun(cfg, run) && i < |run|
    ensures Attended(run[i])
  {
    if i > 0 {
      AlwaysAttended(cfg, run, i - 1);
      assert SomeoneSteps(cfg, run[i - 1], run[i - 1 + 1]);
      var t :| Next(cfg, run[i - 1], run[i], t);
      AttendedStays(cfg, run[i - 1], run[i], t);
    }
  }

  // ---- Every call ends, whatever the others do ----

  function LoopLeft(seen: Control, control: Control): nat {
    if seen == control then 2 * (4 - Rank(control.phase)) + 1 else 2 * (4 - Rank(control.phase)) + 3
  }

  /** A bound on the steps a call still has to take itself. */
  function OwnStepsLeft(pc: Pc, control: Control): nat {
    match pc
    case Begin => 120
    case WriteValid(k) => if k <= WORDS + 4 then 80 + (WORDS + 5 - k) else 80
    case FinishValidLoad(_, _) => 60 + 2 * (4 - Rank(control.phase)) + 2
    case FinishValidSwap(_, c, _) => 60 + LoopLeft(c, control)
    case RequestLoad(_, _) => 60 + 2 * (4 - Rank(control.phase)) + 2
    case RequestSwap(_, c, _) => 60 + LoopLeft(c, control)
    case PoisonLoad(_) => 60 + 2 * (4 - Rank(control.phase)) + 2
    case PoisonSwap(c, _) => 60 + LoopLeft(c, control)
    case WriteAbort(k) => if k <= WORDS + 4 then 20 + (WORDS + 5 - k) else 20
    case FinishAbortLoad(_) => 2 * (4 - Rank(control.phase)) + 2
    case FinishAbortSwap(_, c, _) => LoopLeft(c, control)
    case Done => 0
  }

  lemma OthersDoNotDelay(pc: Pc, c: Control, c': Control)
    requires c' == c || Rank(c.phase) < Rank(c'.phase)
    ensures OwnStepsLeft(pc, c') <= OwnStepsLeft(pc, c) <= 120
  {
  }

  lemma StoreAdvances(cfg: Config, s: Machine, s': Machine, t: ThreadId)
    requires ValidConfig(cfg) && Inv(cfg, s) && t in s.threads && ThreadStep(cfg, s, s', t)
    requires s.threads[t].Begin? || s.threads[t].WriteValid? || s.threads[t].WriteAbort?
    ensures t in s'.threads && OwnStepsLeft(s'.threads[t], s'.control) < OwnStepsLeft(s.threads[t], s.control)
  {
    assert PcInv(cfg, s.control, s.vram, s.threads[t]);
  }

  lemma LoadAdvances(cfg: Config, s: Machine, s': Machine, t: ThreadId)
    requires ValidConfig(cfg) && Inv(cfg, s) && t in s.threads && ThreadStep(cfg, s, s', t)
    requires var pc := s.threads[t]; pc.FinishValidLoad? || pc.RequestLoad? || pc.PoisonLoad? || pc.FinishAbortLoad?
    ensures t in s'.threads && OwnStepsLeft(s'.threads[t], s'.control) < OwnStepsLeft(s.threads[t], s.control)
  {
  }

  lemma SwapAdvances(cfg: Config, s: Machine, s': Machine, t: ThreadId)
    requires ValidConfig(cfg) && Inv(cfg, s) && t in s.threads && ThreadStep(cfg, s, s', t)
    requires var pc := s.threads[t]; pc.FinishValidSwap? || pc.RequestSwap? || pc.PoisonSwap? || pc.FinishAbortSwap?
    ensures t in s'.threads && OwnStepsLeft(s'.threads[t], s'.control) < OwnStepsLeft(s.threads[t], s.control)
  {
    assert PcInv(cfg, s.control, s.vram, s.threads[t]);
  }

  lemma OwnStepAdvances(cfg: Config, s: Machine, s': Machine, t: ThreadId)
    requires ValidConfig(cfg) && Inv(cfg, s) && t in s.threads && ThreadStep(cfg, s, s', t)
    ensures t in s'.threads && OwnStepsLeft(s'.threads[t], s'.control) < OwnStepsLeft(s.threads[t], s.control)
  {
    match s.threads[t]
    case Begin => StoreAdvances(cfg, s, s', t);
    case WriteValid(_) => StoreAdvances(cfg, s, s', t);
    case WriteAbort(_) => StoreAdvances(cfg, s, s', t);
    case FinishValidLoad(_, _) => LoadAdvances(cfg, s, s', t);
    case RequestLoad(_, _) => LoadAdvances(cfg, s, s', t);
    case PoisonLoad(_) => LoadAdvances(cfg, s, s', t);
    case FinishAbortLoad(_) => LoadAdvances(cfg, s, s', t);
    case FinishValidSwap(_, _, _) => SwapAdvances(cfg, s, s', t);
    case RequestSwap(_, _, _) => SwapAdvances(cfg, s, s', t);
    case PoisonSwap(_, _) => SwapAdvances(cfg, s, s', t);
    case FinishAbortSwap(_, _, _) => SwapAdvances(cfg, s, s', t);
    case Done =>
  }

  /** A step brings its own call closer to its end and no other call further from it: every call
      returns after at most 120 steps of its own, whatever the interleaving. */
  lemma CallsAreBounded(cfg: Config, s: Machine, s': Machine, t: ThreadId, u: ThreadId)
    requires ValidConfig(cfg) && Inv(cfg, s) && Next(cfg, s, s', t) && u in s.threads
    ensures u in s'.threads && OwnStepsLeft(s'.threads[u], s'.control) <= OwnStepsLeft(s.threads[u], s.control) <= 120
    ensures u == t ==> OwnStepsLeft(s'.threads[u], s'.control) < OwnStepsLeft(s.threads[u], s.control)
  {
    StepMoves(cfg, s, s', t);
    OthersDoNotDelay(s.threads[u], s.control, s'.control);
    if u == t {
      OwnStepAdvances(cfg, s, s', t);
    } else {
      OthersUntouched(cfg, s, s', t, u);
    }
  }

  lemma OthersUntouched(cfg: Config, s: Machine, s': Machine, t: ThreadId, u: ThreadId)
    requires Next(cfg, s, s', t) && u in s.threads && u != t
    ensures u in s'.threads && s'.threads[u] == s.threads[u]
  {
  }
}
