/** The bounded pool behind the snapshot bridge: reference counts, the slot counter, and the lock-free
    allocation that other threads may interleave with. */
module BufferPool {
  import opened Options

  type ClientId = nat
  type ThreadId = nat
  type BufferId = nat
  type AliasId = nat

  const MAX_BUFFERS: nat := 4

  /** Where a call of snapshotArm stands outside the provider lock. */
  datatype ArmPc =
    | Loading(client: ClientId)
    | Loaded(client: ClientId, count: nat)
    | Reserved(client: ClientId)
    | Holding(client: ClientId, buffer: BufferId)
    | Dropping(buffer: BufferId)

  /** Everything that can hold a reference: arming threads, connections, userspace mappings and the
      bridge's active buffer. */
  datatype Holders = Holders(
    threads: map<ThreadId, ArmPc>, privates: map<ClientId, BufferId>, aliases: map<AliasId, BufferId>,
    active: Option<BufferId>)

  /** `refs` are the counts of the live buffers, `dying` the buffers freed but not yet uncounted, and
      `slots` the shared counter. */
  datatype Pool = Pool(refs: map<BufferId, nat>, dying: nat, slots: nat)

  const NO_HOLDERS := Holders(map[], map[], map[], None)
  const EMPTY_POOL := Pool(map[], 0, 0)

  function Retain(p: Pool, b: BufferId): Pool {
    if b in p.refs then p.(refs := p.refs[b := p.refs[b] + 1]) else p
  }

  /** The last release frees the buffer; its slot is given back afterwards. */
  function Release(p: Pool, b: BufferId): Pool {
    if b !in p.refs then p
    else if p.refs[b] <= 1 then Pool(p.refs - {b}, p.dying + 1, p.slots)
    else p.(refs := p.refs[b := p.refs[b] - 1])
  }

  // ---- The invariant ----

  predicate Carries(pc: ArmPc) {
    pc.Holding? || pc.Dropping?
  }

  function HoldersOf(threads: map<ThreadId, ArmPc>, b: BufferId): set<ThreadId> {
    set t | t in threads && Carries(threads[t]) && threads[t].buffer == b
  }

  function KeysTo(m: map<nat, BufferId>, b: BufferId): set<nat> {
    set k | k in m && m[k] == b
  }

  function One(yes: bool): nat {
    if yes then 1 else 0
  }

  function Held(h: Holders, b: BufferId): nat {
    |HoldersOf(h.threads, b)| + |KeysTo(h.privates, b)| + |KeysTo(h.aliases, b)| + One(h.active == Some(b))
  }

  /** A buffer is live exactly while somebody holds it, and its count is the number of holders. */
  ghost predicate Counted(h: Holders, p: Pool) {
    && (forall b :: b in p.refs ==> p.refs[b] == Held(h, b) && p.refs[b] > 0)
    && (forall b :: b !in p.refs ==> Held(h, b) == 0)
  }

  function Reserving(threads: map<ThreadId, ArmPc>): set<ThreadId> {
    set t | t in threads && threads[t].Reserved?
  }

  /** Every slot is a live buffer, a freed one, or a reservation still being built. */
  predicate Slotted(h: Holders, p: Pool) {
    && p.slots == |p.refs| + p.dying + |Reserving(h.threads)|
    && p.slots <= MAX_BUFFERS
    && forall t :: t in h.threads && h.threads[t].Loaded? ==> h.threads[t].count < MAX_BUFFERS
  }

  // ---- Steps outside the provider lock ----

  datatype PoolStep =
    | ArmCall(thread: ThreadId, client: ClientId)
    | ArmLoad(thread: ThreadId)
    | ArmReserve(thread: ThreadId)
    | ArmBuild(thread: ThreadId, built: BufferId, created: bool, initialized: bool)
    | ArmDrop(thread: ThreadId)
    | MapPrivate(client: ClientId, alias: AliasId)
    | Unmap(alias: AliasId)
    | GiveBackSlot

  /** Each thread and alias name is used for one call at a time, and a new buffer is none of the live ones. */
  predicate PoolEnabled(h: Holders, p: Pool, e: PoolStep) {
    match e
    case ArmCall(t, _) => t !in h.threads
    case ArmLoad(t) => t in h.threads && h.threads[t].Loading?
    case ArmReserve(t) => t in h.threads && h.threads[t].Loaded?
    case ArmBuild(t, b, _, _) => t in h.threads && h.threads[t].Reserved? && b !in p.refs && p.slots > 0
    case ArmDrop(t) => t in h.threads && h.threads[t].Dropping?
    case MapPrivate(c, a) => c in h.privates && a !in h.aliases
    case Unmap(a) => a in h.aliases
    case GiveBackSlot => p.dying > 0 && p.slots > 0
  }

  /** The slot counter is read, compared and raised; a new object may fail to be created or to be
      initialized; releases and mappings happen at any time. */
  function PoolNext(h: Holders, p: Pool, e: PoolStep): (Holders, Pool)
    requires PoolEnabled(h, p, e)
  {
    match e
    case ArmCall(t, c) => (h.(threads := h.threads[t := Loading(c)]), p)
    case ArmLoad(t) =>
      if p.slots >= MAX_BUFFERS then (h.(threads := h.threads - {t}), p)
      else (h.(threads := h.threads[t := Loaded(h.threads[t].client, p.slots)]), p)
    case ArmReserve(t) =>
      if p.slots == h.threads[t].count
      then (h.(threads := h.threads[t := Reserved(h.threads[t].client)]), p.(slots := p.slots + 1))
      else (h.(threads := h.threads[t := Loading(h.threads[t].client)]), p)
    case ArmBuild(t, b, created, initialized) =>
      if !created then (h.(threads := h.threads - {t}), p.(slots := p.slots - 1))
      else if !initialized then (h.(threads := h.threads - {t}), p.(dying := p.dying + 1))
      else (h.(threads := h.threads[t := Holding(h.threads[t].client, b)]), p.(refs := p.refs[b := 1]))
    case ArmDrop(t) => (h.(threads := h.threads - {t}), Release(p, h.threads[t].buffer))
    case MapPrivate(c, a) => (h.(aliases := h.aliases[a := h.privates[c]]), Retain(p, h.privates[c]))
    case Unmap(a) => (h.(aliases := h.aliases - {a}), Release(p, h.aliases[a]))
    case GiveBackSlot => (h, p.(dying := p.dying - 1, slots := p.slots - 1))
  }

  // ---- Counting ----

  lemma MapWithout<K, V>(m: map<K, V>, k: K)
    requires k in m
    ensures |m - {k}| == |m| - 1
  {
    assert (m - {k}).Keys == m.Keys - {k};
    assert |(m - {k}).Keys| == |m - {k}| && |m.Keys| == |m|;
  }

  lemma MapUpdated<K, V>(m: map<K, V>, k: K, v: V)
    ensures |m[k := v]| == if k in m then |m| else |m| + 1
  {
    assert m[k := v].Keys == m.Keys + {k};
    assert |m[k := v].Keys| == |m[k := v]| && |m.Keys| == |m|;
  }

  lemma KeyAdded(m: map<nat, BufferId>, k: nat, b: BufferId, x: BufferId)
    requires k !in m
    ensures |KeysTo(m[k := b], x)| == |KeysTo(m, x)| + One(x == b)
  {
    assert KeysTo(m[k := b], x) == if x == b then KeysTo(m, x) + {k} else KeysTo(m, x);
  }

  lemma KeyRemoved(m: map<nat, BufferId>, k: nat, x: BufferId)
    requires k in m
    ensures |KeysTo(m - {k}, x)| + One(x == m[k]) == |KeysTo(m, x)|
  {
    assert KeysTo(m - {k}, x) == KeysTo(m, x) - {k};
  }

  lemma HolderRemoved(threads: map<ThreadId, ArmPc>, t: ThreadId, x: BufferId)
    requires t in threads && Carries(threads[t])
    ensures |HoldersOf(threads - {t}, x)| + One(x == threads[t].buffer) == |HoldersOf(threads, x)|
  {
    assert HoldersOf(threads - {t}, x) == HoldersOf(threads, x) - {t};
  }

  lemma HolderAdded(threads: map<ThreadId, ArmPc>, t: ThreadId, pc: ArmPc, x: BufferId)
    requires Carries(pc) && (t in threads ==> !Carries(threads[t]))
    ensures |HoldersOf(threads[t := pc], x)| == |HoldersOf(threads, x)| + One(x == pc.buffer)
  {
    var before, after := HoldersOf(threads, x), HoldersOf(threads[t := pc], x);
    HolderKeptElsewhere(threads, t, pc, x);
    assert before == before - {t};
    assert t in after <==> x == pc.buffer;
    assert after == if x == pc.buffer then (after - {t}) + {t} else after - {t};
  }

  lemma HolderKeptElsewhere(threads: map<ThreadId, ArmPc>, t: ThreadId, pc: ArmPc, x: BufferId)
    ensures HoldersOf(threads[t := pc], x) - {t} == HoldersOf(threads, x) - {t}
  {
    forall k
      ensures k in HoldersOf(threads[t := pc], x) - {t} <==> k in HoldersOf(threads, x) - {t}
    {
      assert k != t ==> (k in threads[t := pc] <==> k in threads);
    }
  }

  /** A thread changes what it does without taking or giving up a buffer. */
  lemma HolderKept(threads: map<ThreadId, ArmPc>, t: ThreadId, pc: ArmPc, x: BufferId)
    requires t in threads && Carries(threads[t]) <==> Carries(pc)
    requires Carries(pc) ==> pc.buffer == threads[t].buffer
    ensures HoldersOf(threads[t := pc], x) == HoldersOf(threads, x)
  {
  }

  lemma IdleGone(threads: map<ThreadId, ArmPc>, t: ThreadId, x: BufferId)
    requires t in threads && !Carries(threads[t])
    ensures HoldersOf(threads - {t}, x) == HoldersOf(threads, x)
  {
  }

  lemma ReservingSet(threads: map<ThreadId, ArmPc>, t: ThreadId, pc: ArmPc)
    ensures |Reserving(threads[t := pc])| + One(t in threads && threads[t].Reserved?) ==
            |Reserving(threads)| + One(pc.Reserved?)
  {
    var others := Reserving(threads) - {t};
    assert Reserving(threads) == if t in threads && threads[t].Reserved? then others + {t} else others;
    assert Reserving(threads[t := pc]) == if pc.Reserved? then others + {t} else others;
  }

  lemma ReservingUnset(threads: map<ThreadId, ArmPc>, t: ThreadId)
    requires t in threads
    ensures |Reserving(threads - {t})| + One(threads[t].Reserved?) == |Reserving(threads)|
  {
    assert Reserving(threads - {t}) == Reserving(threads) - {t};
  }

  /** Nobody took or gave up a buffer. */
  ghost predicate KeptHolders(h: Holders, h': Holders) {
    forall x :: Held(h', x) == Held(h, x)
  }

  lemma IdleMoves(h: Holders, t: ThreadId, pc: ArmPc)
    requires t in h.threads ==> !Carries(h.threads[t])
    requires !Carries(pc)
    ensures KeptHolders(h, h.(threads := h.threads[t := pc]))
  {
    forall x
      ensures HoldersOf(h.threads[t := pc], x) == HoldersOf(h.threads, x)
    {
      HolderKept(h.threads, t, pc, x);
    }
  }

  lemma IdleLeaves(h: Holders, t: ThreadId)
    requires t in h.threads && !Carries(h.threads[t])
    ensures KeptHolders(h, h.(threads := h.threads - {t}))
  {
    forall x
      ensures HoldersOf(h.threads - {t}, x) == HoldersOf(h.threads, x)
    {
      IdleGone(h.threads, t, x);
    }
  }

  lemma ThreadLeaves(h: Holders, t: ThreadId)
    requires t in h.threads && Carries(h.threads[t])
    ensures LostHolder(h, h.(threads := h.threads - {t}), h.threads[t].buffer)
  {
    forall x
      ensures Held(h.(threads := h.threads - {t}), x) + One(x == h.threads[t].buffer) == Held(h, x)
    {
      HolderRemoved(h.threads, t, x);
    }
  }

  /** Whoever holds a buffer keeps it live. */
  lemma HolderIsLive(h: Holders, p: Pool, b: BufferId)
    requires Counted(h, p)
    requires h.active == Some(b) || HoldersOf(h.threads, b) != {} || KeysTo(h.privates, b) != {} || KeysTo(h.aliases, b) != {}
    ensures b in p.refs
  {
    assert HoldersOf(h.threads, b) != {} ==> |HoldersOf(h.threads, b)| > 0;
    assert KeysTo(h.privates, b) != {} ==> |KeysTo(h.privates, b)| > 0;
    assert KeysTo(h.aliases, b) != {} ==> |KeysTo(h.aliases, b)| > 0;
  }

  /** One holder of `b` fewer. */
  ghost predicate LostHolder(h: Holders, h': Holders, b: BufferId) {
    forall x :: Held(h', x) + One(x == b) == Held(h, x)
  }

  /** One holder of `b` more. */
  ghost predicate GainedHolder(h: Holders, h': Holders, b: BufferId) {
    forall x :: Held(h', x) == Held(h, x) + One(x == b)
  }

  /** The holder that was lost was the last one, or others are left. */
  lemma ReleasedCount(h: Holders, h': Holders, p: Pool, b: BufferId, x: BufferId)
    requires Counted(h, p) && LostHolder(h, h', b)
    ensures b in p.refs
    ensures x in Release(p, b).refs ==> Release(p, b).refs[x] == Held(h', x) && Release(p, b).refs[x] > 0
    ensures x !in Release(p, b).refs ==> Held(h', x) == 0
  {
    assert Held(h', b) + One(b == b) == Held(h, b);
    assert b in p.refs;
    assert Held(h', x) + One(x == b) == Held(h, x);
  }

  lemma ReleasedSize(p: Pool, b: BufferId)
    requires b in p.refs
    ensures |Release(p, b).refs| + Release(p, b).dying == |p.refs| + p.dying
    ensures Release(p, b).slots == p.slots
  {
    MapWithout(p.refs, b);
    if p.refs[b] > 1 {
      MapUpdated(p.refs, b, p.refs[b] - 1);
    }
  }

  lemma ReleaseSettles(h: Holders, h': Holders, p: Pool, b: BufferId)
    requires Counted(h, p) && LostHolder(h, h', b)
    ensures b in p.refs && Counted(h', Release(p, b))
    ensures |Release(p, b).refs| + Release(p, b).dying == |p.refs| + p.dying
    ensures Release(p, b).slots == p.slots
  {
    forall x {
      ReleasedCount(h, h', p, b, x);
    }
    ReleasedSize(p, b);
  }

  lemma RetainSettles(h: Holders, h': Holders, p: Pool, b: BufferId)
    requires Counted(h, p) && GainedHolder(h, h', b) && b in p.refs
    ensures Counted(h', Retain(p, b))
    ensures |Retain(p, b).refs| == |p.refs| && Retain(p, b).dying == p.dying && Retain(p, b).slots == p.slots
  {
    MapUpdated(p.refs, b, p.refs[b] + 1);
  }

  // ---- What the locked regions do to the counts ----

  lemma ActiveDropped(h: Holders, p: Pool)
    requires Counted(h, p) && Slotted(h, p) && h.active.Some?
    ensures var h' := h.(active := None);
            var p' := Release(p, h.active.value);
            Counted(h', p') && Slotted(h', p')
  {
    ReleaseSettles(h, h.(active := None), p, h.active.value);
  }

  lemma PrivateDropped(h: Holders, p: Pool, c: ClientId)
    requires Counted(h, p) && Slotted(h, p) && c in h.privates
    ensures var h' := h.(privates := h.privates - {c});
            var p' := Release(p, h.privates[c]);
            Counted(h', p') && Slotted(h', p')
  {
    var h' := h.(privates := h.privates - {c});
    forall x
      ensures Held(h', x) + One(x == h.privates[c]) == Held(h, x)
    {
      KeyRemoved(h.privates, c, x);
    }
    ReleaseSettles(h, h', p, h.privates[c]);
  }

  /** A thread that still holds its buffer turns to dropping it. */
  lemma HoldingDrops(h: Holders, p: Pool, t: ThreadId)
    requires Counted(h, p) && Slotted(h, p) && t in h.threads && h.threads[t].Holding?
    ensures var h' := h.(threads := h.threads[t := Dropping(h.threads[t].buffer)]);
            Counted(h', p) && Slotted(h', p)
  {
    var pc := Dropping(h.threads[t].buffer);
    forall x
      ensures HoldersOf(h.threads[t := pc], x) == HoldersOf(h.threads, x)
    {
      HolderKept(h.threads, t, pc, x);
    }
    assert Reserving(h.threads[t := pc]) == Reserving(h.threads);
  }

  lemma ArmGains(h: Holders, t: ThreadId, c: ClientId)
    requires t in h.threads && h.threads[t].Holding? && h.active == None && c !in h.privates
    ensures var b := h.threads[t].buffer;
            GainedHolder(h, Holders(h.threads - {t}, h.privates[c := b], h.aliases, Some(b)), b)
  {
    var b := h.threads[t].buffer;
    var h' := Holders(h.threads - {t}, h.privates[c := b], h.aliases, Some(b));
    forall x
      ensures Held(h', x) == Held(h, x) + One(x == b)
    {
      HolderRemoved(h.threads, t, x);
      KeyAdded(h.privates, c, b, x);
    }
  }

  /** A successful arm: the thread's reference becomes the bridge's, and the connection takes one more. */
  lemma ArmTransfers(h: Holders, p: Pool, t: ThreadId, c: ClientId)
    requires Counted(h, p) && Slotted(h, p) && t in h.threads && h.threads[t].Holding?
    requires h.active == None && c !in h.privates
    ensures var b := h.threads[t].buffer;
            var h' := Holders(h.threads - {t}, h.privates[c := b], h.aliases, Some(b));
            Counted(h', Retain(p, b)) && Slotted(h', Retain(p, b))
  {
    var b := h.threads[t].buffer;
    ArmGains(h, t, c);
    assert t in HoldersOf(h.threads, b);
    HolderIsLive(h, p, b);
    RetainSettles(h, Holders(h.threads - {t}, h.privates[c := b], h.aliases, Some(b)), p, b);
    ReservingUnset(h.threads, t);
  }

  lemma CallKeeps(h: Holders, p: Pool, t: ThreadId, pc: ArmPc)
    requires Counted(h, p) && Slotted(h, p)
    requires (t in h.threads ==> h.threads[t].Loading? || h.threads[t].Loaded?) && (pc.Loading? || pc.Loaded?)
    requires pc.Loaded? ==> pc.count < MAX_BUFFERS
    ensures var h' := h.(threads := h.threads[t := pc]); Counted(h', p) && Slotted(h', p)
  {
    IdleMoves(h, t, pc);
    ReservingSet(h.threads, t, pc);
  }

  lemma ReserveKeeps(h: Holders, p: Pool, t: ThreadId)
    requires Counted(h, p) && Slotted(h, p) && t in h.threads && h.threads[t].Loaded? && p.slots == h.threads[t].count
    ensures var h' := h.(threads := h.threads[t := Reserved(h.threads[t].client)]);
            Counted(h', p.(slots := p.slots + 1)) && Slotted(h', p.(slots := p.slots + 1))
  {
    IdleMoves(h, t, Reserved(h.threads[t].client));
    ReservingSet(h.threads, t, Reserved(h.threads[t].client));
  }

  lemma LeaveKeeps(h: Holders, p: Pool, t: ThreadId)
    requires Counted(h, p) && t in h.threads && !Carries(h.threads[t])
    ensures Counted(h.(threads := h.threads - {t}), p)
    ensures |Reserving(h.threads - {t})| + One(h.threads[t].Reserved?) == |Reserving(h.threads)|
  {
    IdleLeaves(h, t);
    ReservingUnset(h.threads, t);
  }

  lemma BuildKeeps(h: Holders, p: Pool, t: ThreadId, b: BufferId)
    requires Counted(h, p) && Slotted(h, p) && t in h.threads && h.threads[t].Reserved? && b !in p.refs
    ensures var h' := h.(threads := h.threads[t := Holding(h.threads[t].client, b)]);
            Counted(h', p.(refs := p.refs[b := 1])) && Slotted(h', p.(refs := p.refs[b := 1]))
  {
    var pc := Holding(h.threads[t].client, b);
    var h' := h.(threads := h.threads[t := pc]);
    forall x
      ensures Held(h', x) == Held(h, x) + One(x == b)
    {
      HolderAdded(h.threads, t, pc, x);
    }
    ReservingSet(h.threads, t, pc);
    MapUpdated(p.refs, b, 1);
  }

  lemma DropKeeps(h: Holders, p: Pool, t: ThreadId)
    requires Counted(h, p) && Slotted(h, p) && t in h.threads && h.threads[t].Dropping?
    ensures var h' := h.(threads := h.threads - {t});
            var p' := Release(p, h.threads[t].buffer);
            Counted(h', p') && Slotted(h', p')
  {
    ThreadLeaves(h, t);
    ReleaseSettles(h, h.(threads := h.threads - {t}), p, h.threads[t].buffer);
    ReservingUnset(h.threads, t);
  }

  lemma MapKeeps(h: Holders, p: Pool, c: ClientId, a: AliasId)
    requires Counted(h, p) && Slotted(h, p) && c in h.privates && a !in h.aliases
    ensures var h' := h.(aliases := h.aliases[a := h.privates[c]]);
            var p' := Retain(p, h.privates[c]);
            Counted(h', p') && Slotted(h', p')
  {
    var b := h.privates[c];
    var h' := h.(aliases := h.aliases[a := b]);
    forall x
      ensures Held(h', x) == Held(h, x) + One(x == b)
    {
      KeyAdded(h.aliases, a, b, x);
    }
    assert c in KeysTo(h.privates, b);
    HolderIsLive(h, p, b);
    RetainSettles(h, h', p, b);
  }

  lemma UnmapKeeps(h: Holders, p: Pool, a: AliasId)
    requires Counted(h, p) && Slotted(h, p) && a in h.aliases
    ensures var h' := h.(aliases := h.aliases - {a});
            var p' := Release(p, h.aliases[a]);
            Counted(h', p') && Slotted(h', p')
  {
    var h' := h.(aliases := h.aliases - {a});
    forall x
      ensures Held(h', x) + One(x == h.aliases[a]) == Held(h, x)
    {
      KeyRemoved(h.aliases, a, x);
    }
    ReleaseSettles(h, h', p, h.aliases[a]);
  }

  /** Every step outside the lock keeps the counts exact and the slots within their limit. */
  lemma PoolKeeps(h: Holders, p: Pool, e: PoolStep)
    requires Counted(h, p) && Slotted(h, p) && PoolEnabled(h, p, e)
    ensures var (h', p') := PoolNext(h, p, e);
            Counted(h', p') && Slotted(h', p') && h'.privates == h.privates && h'.active == h.active
  {
    match e
    case ArmCall(t, c) => CallKeeps(h, p, t, Loading(c));
    case ArmLoad(t) =>
      if p.slots >= MAX_BUFFERS {
        LeaveKeeps(h, p, t);
      } else {
        CallKeeps(h, p, t, Loaded(h.threads[t].client, p.slots));
      }
    case ArmReserve(t) =>
      if p.slots == h.threads[t].count {
        ReserveKeeps(h, p, t);
      } else {
        CallKeeps(h, p, t, Loading(h.threads[t].client));
      }
    case ArmBuild(t, b, created, initialized) =>
      if created && initialized {
        BuildKeeps(h, p, t, b);
      } else {
        LeaveKeeps(h, p, t);
      }
    case ArmDrop(t) => DropKeeps(h, p, t);
    case MapPrivate(c, a) => MapKeeps(h, p, c, a);
    case Unmap(a) => UnmapKeeps(h, p, a);
    case GiveBackSlot =>
  }
}
