/** Preparing the kernel queue for the native start: register transactions against a bank that may answer
    every read with anything. */
module QueuePreparation {
  import opened Bits
  import opened QueueBank

  predicate Accessible(s: QueueState) {
    s.active != LOST && s.dequeue != LOST && s.rptr != LOST && s.wptrHi != LOST && s.wptrLo != LOST &&
    s.poll != LOST && s.doorbell != LOST
  }

  function Without30(v: U32): U32 { if Bit30(v) then v - 0x4000_0000 else v }
  function Without31(v: U32): U32 { if Bit31(v) then v - 0x8000_0000 else v }

  /** The two masks clear the bits they are named after and no other. */
  lemma Masks(v: U32, i: nat)
    ensures BitAt(Without30(v), i) <==> BitAt(v, i) && i != 30
    ensures BitAt(Without31(v), i) <==> BitAt(v, i) && i != 31
  {
    ControlBits();
    if Bit30(v) {
      ClearBit(v, 30, i);
    }
    if Bit31(v) {
      ClearBit(v, 31, i);
    }
  }

  lemma AccessibleIff(s: QueueState)
    ensures Accessible(s) <==> forall e :: e in Snapped(s) ==> e.value != LOST
  {
    assert forall i :: 0 <= i < 7 ==> Snapped(s)[i] in Snapped(s);
  }

  /** Neither polling nor the doorbell lets work in. */
  predicate IngressOff(s: QueueState) {
    !Bit31(s.poll) && !Bit30(s.doorbell)
  }

  predicate Quiet(s: QueueState) {
    Accessible(s) && IngressOff(s) && !Bit0(s.active) && s.dequeue == 0
  }

  predicate ZeroPointers(s: QueueState) {
    s.rptr == 0 && s.wptrHi == 0 && s.wptrLo == 0
  }

  // ---- What a log may hold ----

  predicate PointerWrite(e: Event) {
    e.Write? && e.register in {Rptr, WptrHi, WptrLo}
  }

  predicate SnapshotAt(log: seq<Event>, j: nat, s: QueueState) {
    j + 7 <= |log| && log[j..j + 7] == Snapped(s)
  }

  /** A quiet queue was observed at `j`, and nothing but pointer resets happened between then and `i`. */
  predicate QuietSince(log: seq<Event>, j: nat, i: nat, s: QueueState) {
    j + 7 <= i <= |log| && SnapshotAt(log, j, s) && Quiet(s) && forall k :: j + 7 <= k < i ==> PointerWrite(log[k])
  }

  ghost predicate QuietBefore(log: seq<Event>, i: nat) {
    exists j: nat, s :: QuietSince(log, j, i, s)
  }

  /** Ingress was observed off at `j`, and was not written since. */
  predicate OffSince(log: seq<Event>, j: nat, i: nat, s: QueueState) {
    j + 7 <= i <= |log| && SnapshotAt(log, j, s) && Accessible(s) && IngressOff(s) &&
    forall k :: j + 7 <= k < i ==> !(log[k].Write? && log[k].register in {Poll, Doorbell})
  }

  ghost predicate OffBefore(log: seq<Event>, i: nat) {
    exists j: nat, s :: OffSince(log, j, i, s)
  }

  /** Each write from `start` on: ingress is only ever narrowed, the queue is asked to stop or released
      only with ingress off, and pointers are only zeroed, on a queue last seen quiet. */
  ghost predicate SafeWrite(log: seq<Event>, i: nat)
    requires i < |log| && log[i].Write?
  {
    match log[i].register
    case Poll => !Bit31(log[i].value)
    case Doorbell => !Bit30(log[i].value)
    case Dequeue => log[i].value <= 1 && OffBefore(log, i)
    case Rptr => log[i].value == 0 && QuietBefore(log, i)
    case WptrHi => log[i].value == 0 && QuietBefore(log, i)
    case WptrLo => log[i].value == 0 && QuietBefore(log, i)
    case _ => false
  }

  ghost predicate SafeFrom(log: seq<Event>, start: nat) {
    forall i :: start <= i < |log| && log[i].Write? ==> SafeWrite(log, i)
  }

  function Waited(log: seq<Event>): nat {
    if log == [] then 0
    else Waited(log[..|log| - 1]) + (if log[|log| - 1].Delay? then log[|log| - 1].us else 0)
  }

  // ---- How logs grow ----

  lemma QuietSinceGrows(log: seq<Event>, more: seq<Event>, j: nat, i: nat, s: QueueState)
    requires i <= |log|
    ensures QuietSince(log, j, i, s) ==> QuietSince(log + more, j, i, s)
    ensures OffSince(log, j, i, s) ==> OffSince(log + more, j, i, s)
  {
    if j + 7 <= i {
      assert (log + more)[j..j + 7] == log[j..j + 7];
    }
  }

  lemma SafeWriteGrows(log: seq<Event>, more: seq<Event>, i: nat)
    requires i < |log| && log[i].Write? && SafeWrite(log, i)
    ensures (log + more)[i] == log[i] && SafeWrite(log + more, i)
  {
    if OffBefore(log, i) {
      var j: nat, s :| OffSince(log, j, i, s);
      QuietSinceGrows(log, more, j, i, s);
    }
    if QuietBefore(log, i) {
      var j: nat, s :| QuietSince(log, j, i, s);
      QuietSinceGrows(log, more, j, i, s);
    }
  }

  /** Reads and delays keep a log safe. */
  lemma SafeGrows(log: seq<Event>, more: seq<Event>, start: nat)
    requires SafeFrom(log, start) && forall k :: 0 <= k < |more| ==> !more[k].Write?
    ensures SafeFrom(log + more, start)
  {
    forall i | start <= i < |log + more| && (log + more)[i].Write?
      ensures SafeWrite(log + more, i)
    {
      if i < |log| {
        SafeWriteGrows(log, more, i);
      }
    }
  }

  /** A write that is safe in its place keeps a log safe. */
  lemma SafeWrites(log: seq<Event>, e: Event, start: nat)
    requires SafeFrom(log, start) && e.Write? && SafeWrite(log + [e], |log|)
    ensures SafeFrom(log + [e], start)
  {
    forall i | start <= i < |log + [e]| && (log + [e])[i].Write?
      ensures SafeWrite(log + [e], i)
    {
      if i < |log| {
        SafeWriteGrows(log, [e], i);
      }
    }
  }

  lemma {:induction false} WaitedGrows(log: seq<Event>, more: seq<Event>)
    requires forall k :: 0 <= k < |more| ==> !more[k].Delay?
    ensures Waited(log + more) == Waited(log)
    decreases |more|
  {
    if more == [] {
      assert log + more == log;
    } else {
      WaitedGrows(log, more[..|more| - 1]);
      assert (log + more)[..|log + more| - 1] == log + more[..|more| - 1];
    }
  }

  lemma WaitedMore(log: seq<Event>, us: nat)
    ensures Waited(log + [Delay(us)]) == Waited(log) + us
  {
    assert (log + [Delay(us)])[..|log|] == log;
  }

  lemma OffSinceMore(log: seq<Event>, e: Event, j: nat, s: QueueState)
    requires OffSince(log, j, |log|, s) && !(e.Write? && e.register in {Poll, Doorbell})
    ensures OffSince(log + [e], j, |log + [e]|, s)
  {
    assert (log + [e])[j..j + 7] == log[j..j + 7];
  }

  lemma QuietSinceMore(log: seq<Event>, e: Event, j: nat, s: QueueState)
    requires QuietSince(log, j, |log|, s) && PointerWrite(e)
    ensures QuietSince(log + [e], j, |log + [e]|, s)
  {
    assert (log + [e])[j..j + 7] == log[j..j + 7];
  }

  lemma OffSinceNow(log: seq<Event>, s: QueueState)
    requires Accessible(s) && IngressOff(s)
    ensures OffSince(log + Snapped(s), |log|, |log| + 7, s)
  {
  }

  lemma QuietSinceNow(log: seq<Event>, s: QueueState)
    requires Quiet(s)
    ensures QuietSince(log + Snapped(s), |log|, |log| + 7, s)
  {
  }

  // ---- What an obedient device ends up as ----

  function Narrowed(q: QueueState): QueueState {
    q.(poll := Without31(q.poll), doorbell := Without30(q.doorbell))
  }

  function Stopped(q: QueueState): QueueState {
    if Bit0(q.active) then q.(active := q.active - 1) else q
  }

  /** A queue that only needs its request cleared and its pointers zeroed. */
  predicate Closed(q: QueueState) {
    Accessible(q) && IngressOff(q) && !Bit0(q.active)
  }

  function Reset(q: QueueState): QueueState {
    q.(dequeue := 0, rptr := 0, wptrHi := 0, wptrLo := 0)
  }

  /** Whether the queue is inactive, or goes so within the time it is given. */
  predicate InTime(d: Device, timeoutUs: nat, pollIntervalUs: nat) {
    !Bit0(d.queue.active) || (0 < timeoutUs && 0 < pollIntervalUs && d.stopsAfter <= timeoutUs)
  }

  /** How long an obedient device is waited for. */
  predicate Prompt(d: Device, elapsedUs: nat, pollIntervalUs: nat) {
    elapsedUs <= if Bit0(d.queue.active) then d.stopsAfter + pollIntervalUs else 0
  }

  /** What becomes of an obedient device whose queue can be read and is closed. */
  predicate Prepared(d: Device, r: Preparation, d': Device, timeoutUs: nat, pollIntervalUs: nat) {
    && d'.mec == d.mec && Prompt(d, r.elapsedUs, pollIntervalUs)
    && if InTime(d, timeoutUs, pollIntervalUs) then r.status == Ready && r.state == d'.queue == Reset(Stopped(d.queue))
       else r.status == DequeueTimeout && r.state == d.queue && d'.queue == d.queue.(dequeue := 1)
  }

  /** The device after asking it to stop and waiting. */
  function Asked(d: Device, elapsedUs: nat): Device {
    if elapsedUs == 0 then d.(queue := d.queue.(dequeue := 1)) else Passed(d.(queue := d.queue.(dequeue := 1)), elapsedUs)
  }

  lemma AskedLonger(d: Device, elapsedUs: nat, interval: nat)
    requires Bit0(Asked(d, elapsedUs).queue.active) && interval > 0
    ensures Passed(Asked(d, elapsedUs), interval) == Asked(d, elapsedUs + interval)
    ensures elapsedUs == 0 || elapsedUs < d.stopsAfter
  {
  }

  predicate Waiting(d: Device, d0: Device, active: U32, elapsedUs: nat, pollIntervalUs: nat) {
    && active == d.queue.active && d == Asked(d0, elapsedUs)
    && elapsedUs <= d0.stopsAfter + pollIntervalUs && (pollIntervalUs == 0 ==> elapsedUs == 0)
  }

  lemma WaitingOn(d: Device, d0: Device, active: U32, elapsedUs: nat, pollIntervalUs: nat, interval: nat)
    requires Waiting(d, d0, active, elapsedUs, pollIntervalUs) && Bit0(active) && 0 < interval <= pollIntervalUs
    ensures Waiting(Passed(d, interval), d0, Passed(d, interval).queue.active, elapsedUs + interval, pollIntervalUs)
  {
    AskedLonger(d0, elapsedUs, interval);
  }

  lemma AskedOutcome(d: Device, elapsedUs: nat, timeoutUs: nat, pollIntervalUs: nat)
    requires Bit0(d.queue.active) && elapsedUs <= timeoutUs
    requires Bit0(Asked(d, elapsedUs).queue.active) ==> elapsedUs == timeoutUs || pollIntervalUs == 0
    requires pollIntervalUs == 0 ==> elapsedUs == 0
    ensures Asked(d, elapsedUs).mec == d.mec
    ensures Asked(d, elapsedUs).queue ==
            if InTime(d, timeoutUs, pollIntervalUs) then Stopped(d.queue).(dequeue := 1) else d.queue.(dequeue := 1)
    ensures Bit0(Asked(d, elapsedUs).queue.active) <==> !InTime(d, timeoutUs, pollIntervalUs)
  {
  }

  // ---- The steps of the preparation ----

  method Look(bank: Bank, ghost start: nat) returns (s: QueueState)
    requires SafeFrom(bank.log, start)
    modifies bank
    ensures bank.log == old(bank.log) + Snapped(s)
    ensures SafeFrom(bank.log, start) && Waited(bank.log) == Waited(old(bank.log))
    ensures bank.device == old(bank.device) && (bank.obeys <==> old(bank.obeys) && s == bank.device.queue)
  {
    s := bank.Snapshot();
    SafeGrows(old(bank.log), Snapped(s), start);
    WaitedGrows(old(bank.log), Snapped(s));
  }

  method Put(bank: Bank, r: Register, v: U32, ghost start: nat)
    requires SafeFrom(bank.log, start) && SafeWrite(bank.log + [Write(r, v)], |bank.log|)
    modifies bank
    ensures bank.log == old(bank.log) + [Write(r, v)]
    ensures SafeFrom(bank.log, start) && Waited(bank.log) == Waited(old(bank.log))
    ensures bank.device == Stored(old(bank.device), r, v) && bank.obeys == old(bank.obeys)
  {
    bank.WriteRegister(r, v);
    SafeWrites(old(bank.log), Write(r, v), start);
    WaitedGrows(old(bank.log), [Write(r, v)]);
  }

  /** One interval of waiting for the queue to go inactive. */
  method PollActive(bank: Bank, interval: nat, ghost start: nat, ghost j: nat, ghost off: QueueState) returns (active: U32)
    requires SafeFrom(bank.log, start) && OffSince(bank.log, j, |bank.log|, off)
    modifies bank
    ensures old(bank.log) <= bank.log && SafeFrom(bank.log, start) && OffSince(bank.log, j, |bank.log|, off)
    ensures Waited(bank.log) == Waited(old(bank.log)) + interval
    ensures bank.device == Passed(old(bank.device), interval)
    ensures bank.obeys <==> old(bank.obeys) && active == bank.device.queue.active
  {
    ghost var before := bank.log;
    bank.Wait(interval);
    SafeGrows(before, [Delay(interval)], start);
    WaitedMore(before, interval);
    OffSinceMore(before, Delay(interval), j, off);
    before := bank.log;
    active := bank.ReadRegister(Active);
    SafeGrows(before, [Read(Active, active)], start);
    WaitedGrows(before, [Read(Active, active)]);
    OffSinceMore(before, Read(Active, active), j, off);
  }

  datatype Status = Ready | Inaccessible | IngressNotDisabled | DequeueTimeout | QueueNotIdle | PointerResetFailed

  datatype Preparation = Preparation(status: Status, elapsedUs: nat, state: QueueState)

  /** Asks an active queue to stop and waits, in bounded time; `ok` when it went inactive. */
  method StopQueue(bank: Bank, state: QueueState, timeoutUs: nat, pollIntervalUs: nat, ghost start: nat, ghost j: nat)
    returns (elapsedUs: nat, active: U32, ok: bool)
    requires SafeFrom(bank.log, start) && OffSince(bank.log, j, |bank.log|, state) && Bit0(state.active)
    modifies bank
    ensures old(bank.log) <= bank.log && SafeFrom(bank.log, start) && OffSince(bank.log, j, |bank.log|, state)
    ensures Waited(bank.log) == Waited(old(bank.log)) + elapsedUs && elapsedUs <= timeoutUs
    ensures ok <==> !Bit0(active)
    ensures !ok ==> active == LOST || elapsedUs == timeoutUs || pollIntervalUs == 0
    ensures bank.obeys ==> old(bank.obeys)
    ensures bank.obeys && state == old(bank.device.queue) ==>
              && Prompt(old(bank.device), elapsedUs, pollIntervalUs) && active == bank.device.queue.active
              && bank.device == Asked(old(bank.device), elapsedUs) && (pollIntervalUs == 0 ==> elapsedUs == 0)
  {
    ghost var before, device := bank.log, bank.device;
    OffSinceMore(before, Write(Dequeue, 1), j, state);
    OffHere(before, Write(Dequeue, 1), j, state);
    Put(bank, Dequeue, 1, start);
    elapsedUs, active := 0, state.active;
    while Bit0(active) && elapsedUs < timeoutUs
      invariant old(bank.log) <= bank.log && SafeFrom(bank.log, start) && OffSince(bank.log, j, |bank.log|, state)
      invariant Waited(bank.log) == Waited(old(bank.log)) + elapsedUs && elapsedUs <= timeoutUs
      invariant bank.obeys ==> old(bank.obeys)
      invariant bank.obeys && state == device.queue ==> Waiting(bank.device, device, active, elapsedUs, pollIntervalUs)
      decreases timeoutUs - elapsedUs
    {
      var remaining := timeoutUs - elapsedUs;
      var interval := if pollIntervalUs < remaining then pollIntervalUs else remaining;
      if interval == 0 {
        break;
      }
      ghost var asked, was := bank.device, active;
      active := PollActive(bank, interval, start, j, state);
      if bank.obeys && state == device.queue {
        WaitingOn(asked, device, was, elapsedUs, pollIntervalUs, interval);
      }
      elapsedUs := elapsedUs + interval;
      if active == LOST {
        return elapsedUs, active, false;
      }
    }
    ok := !Bit0(active);
  }

  /** A write is made where ingress has just been known to be off. */
  lemma OffHere(log: seq<Event>, e: Event, j: nat, s: QueueState)
    requires OffSince(log, j, |log|, s)
    ensures OffBefore(log + [e], |log|)
  {
    QuietSinceGrows(log, [e], j, |log|, s);
    assert OffSince(log + [e], j, |log|, s);
  }

  lemma QuietHere(log: seq<Event>, e: Event, j: nat, s: QueueState)
    requires QuietSince(log, j, |log|, s)
    ensures QuietBefore(log + [e], |log|)
  {
    QuietSinceGrows(log, [e], j, |log|, s);
    assert QuietSince(log + [e], j, |log|, s);
  }

  /** Zeroes one pointer of a queue last seen quiet. */
  method ZeroPointer(bank: Bank, r: Register, ghost start: nat, ghost j: nat, ghost s: QueueState)
    requires r in {Rptr, WptrHi, WptrLo}
    requires SafeFrom(bank.log, start) && QuietSince(bank.log, j, |bank.log|, s)
    modifies bank
    ensures bank.log == old(bank.log) + [Write(r, 0)]
    ensures SafeFrom(bank.log, start) && QuietSince(bank.log, j, |bank.log|, s) && Waited(bank.log) == Waited(old(bank.log))
    ensures bank.device == Stored(old(bank.device), r, 0) && bank.obeys == old(bank.obeys)
  {
    QuietHere(bank.log, Write(r, 0), j, s);
    QuietSinceMore(bank.log, Write(r, 0), j, s);
    Put(bank, r, 0, start);
  }

  /** What each outcome says about the last snapshot. */
  predicate Explains(r: Preparation) {
    match r.status
    case Ready => Quiet(r.state) && ZeroPointers(r.state)
    case Inaccessible => !Accessible(r.state)
    case IngressNotDisabled => Accessible(r.state) && !IngressOff(r.state)
    case DequeueTimeout => Bit0(r.state.active) && r.state.active != LOST
    case QueueNotIdle => Accessible(r.state) && !Quiet(r.state)
    case PointerResetFailed => Quiet(r.state) && !ZeroPointers(r.state)
  }

  /** The last thing done was to take this snapshot. */
  predicate EndsWith(log: seq<Event>, s: QueueState) {
    |log| >= 7 && SnapshotAt(log, |log| - 7, s)
  }

  lemma SeenLast(log: seq<Event>, s: QueueState)
    ensures EndsWith(log + Snapped(s), s)
  {
  }

  /** Zeroes the three pointers, in the order of the native branch, and looks again. */
  method ZeroAndLook(bank: Bank, ghost start: nat, ghost j: nat, ghost quiet: QueueState) returns (s: QueueState)
    requires SafeFrom(bank.log, start) && QuietSince(bank.log, j, |bank.log|, quiet)
    modifies bank
    ensures bank.log == old(bank.log) + [Write(Rptr, 0), Write(WptrHi, 0), Write(WptrLo, 0)] + Snapped(s)
    ensures SafeFrom(bank.log, start) && EndsWith(bank.log, s) && Waited(bank.log) == Waited(old(bank.log))
    ensures bank.device == old(bank.device).(queue := old(bank.device.queue).(rptr := 0, wptrHi := 0, wptrLo := 0))
    ensures bank.obeys <==> old(bank.obeys) && s == bank.device.queue
  {
    hide SafeFrom, SafeWrite, Waited, OffSince, QuietSince, SnapshotAt, EndsWith;
    ZeroPointer(bank, Rptr, start, j, quiet);
    ZeroPointer(bank, WptrHi, start, j, quiet);
    ZeroPointer(bank, WptrLo, start, j, quiet);
    ghost var before := bank.log;
    s := Look(bank, start);
    SeenLast(before, s);
  }

  /** Clears an inactive queue's request and, if need be, its pointers. */
  method ResetPointers(bank: Bank, elapsedUs: nat, ghost start: nat, ghost j: nat, ghost off: QueueState) returns (r: Preparation)
    requires SafeFrom(bank.log, start) && OffSince(bank.log, j, |bank.log|, off)
    modifies bank
    ensures old(bank.log) <= bank.log && SafeFrom(bank.log, start) && Waited(bank.log) == Waited(old(bank.log))
    ensures r.elapsedUs == elapsedUs && Explains(r) && EndsWith(bank.log, r.state)
    ensures r.status in {Ready, Inaccessible, QueueNotIdle, PointerResetFailed}
    ensures bank.obeys ==> old(bank.obeys) && bank.device.mec == old(bank.device).mec && r.state == bank.device.queue
    ensures bank.obeys && Closed(old(bank.device.queue)) ==> r.status == Ready && bank.device.queue == Reset(old(bank.device.queue))
  {
    OffHere(bank.log, Write(Dequeue, 0), j, off);
    Put(bank, Dequeue, 0, start);
    hide SafeFrom, SafeWrite, Waited, OffSince, SnapshotAt, EndsWith, Bit0, Bit30, Bit31;
    ghost var at := |bank.log|;
    ghost var before := bank.log;
    var s := Look(bank, start);
    SeenLast(before, s);
    if !Accessible(s) {
      return Preparation(Inaccessible, elapsedUs, s);
    }
    if Bit0(s.active) || s.dequeue != 0 || Bit31(s.poll) || Bit30(s.doorbell) {
      return Preparation(QueueNotIdle, elapsedUs, s);
    }
    if s.rptr != 0 || s.wptrHi != 0 || s.wptrLo != 0 {
      QuietSinceNow(before, s);
      hide QuietSince;
      s := ZeroAndLook(bank, start, at, s);
      if !Accessible(s) {
        return Preparation(Inaccessible, elapsedUs, s);
      }
      if Bit0(s.active) || s.dequeue != 0 || Bit31(s.poll) || Bit30(s.doorbell) {
        return Preparation(QueueNotIdle, elapsedUs, s);
      }
      if s.rptr != 0 || s.wptrHi != 0 || s.wptrLo != 0 {
        return Preparation(PointerResetFailed, elapsedUs, s);
      }
    }
    return Preparation(Ready, elapsedUs, s);
  }

  /** The rest of the preparation, once ingress was last seen to be off: stop an active queue, then reset. */
  method PrepareClosed(bank: Bank, s: QueueState, timeoutUs: nat, pollIntervalUs: nat, ghost start: nat, ghost at: nat)
    returns (r: Preparation)
    requires SafeFrom(bank.log, start) && OffSince(bank.log, at, |bank.log|, s)
    modifies bank
    ensures old(bank.log) <= bank.log && SafeFrom(bank.log, start)
    ensures Waited(bank.log) == Waited(old(bank.log)) + r.elapsedUs && r.elapsedUs <= timeoutUs
    ensures Explains(r)
    ensures r.status.Ready? ==> EndsWith(bank.log, r.state)
    ensures r.status.DequeueTimeout? ==> r.elapsedUs == timeoutUs || pollIntervalUs == 0
    ensures bank.obeys ==> old(bank.obeys)
    ensures bank.obeys && s == old(bank.device.queue) && Accessible(s) && IngressOff(s) ==>
              Prepared(old(bank.device), r, bank.device, timeoutUs, pollIntervalUs)
  {
    hide SafeFrom, SafeWrite, Waited, OffSince, EndsWith, Bit30, Bit31;
    ghost var device := bank.device;
    var elapsedUs: nat := 0;
    if Bit0(s.active) {
      var active: U32, ok: bool;
      elapsedUs, active, ok := StopQueue(bank, s, timeoutUs, pollIntervalUs, start, at);
      if bank.obeys && s == device.queue && Accessible(s) {
        assert active <= s.active;
        AskedOutcome(device, elapsedUs, timeoutUs, pollIntervalUs);
      }
      if active == LOST {
        return Preparation(Inaccessible, elapsedUs, s.(active := active));
      }
      if !ok {
        return Preparation(DequeueTimeout, elapsedUs, s.(active := active));
      }
    }
    r := ResetPointers(bank, elapsedUs, start, at, s);
  }

  /** The whole preparation, against any answers: it waits at most the timeout, writes nothing that is not
      safe in its place, and reports Ready only on a final snapshot of a reachable, closed, idle queue with
      zero pointers. An obedient device whose queue can be read is left with ingress masked off; it ends Ready,
      stopped and reset, exactly when it stops in time, and is only asked to stop otherwise. */
  method PrepareQueueForNativeStart(bank: Bank, timeoutUs: nat, pollIntervalUs: nat) returns (r: Preparation)
    modifies bank
    ensures old(bank.log) <= bank.log && SafeFrom(bank.log, |old(bank.log)|)
    ensures Waited(bank.log) == Waited(old(bank.log)) + r.elapsedUs && r.elapsedUs <= timeoutUs
    ensures Explains(r)
    ensures r.status.Ready? ==> EndsWith(bank.log, r.state)
    ensures r.status.DequeueTimeout? ==> r.elapsedUs == timeoutUs || pollIntervalUs == 0
    ensures bank.obeys && Accessible(old(bank.device.queue)) ==>
              var device := old(bank.device);
              Prepared(device.(queue := Narrowed(device.queue)), r, bank.device, timeoutUs, pollIntervalUs)
  {
    ghost var start := |bank.log|;
    var s := Look(bank, start);
    if !Accessible(s) {
      return Preparation(Inaccessible, 0, s);
    }
    Put(bank, Poll, Without31(s.poll), start);
    Put(bank, Doorbell, Without30(s.doorbell), start);
    ghost var at := |bank.log|;
    ghost var before := bank.log;
    s := Look(bank, start);
    if !Accessible(s) {
      return Preparation(Inaccessible, 0, s);
    }
    if Bit31(s.poll) || Bit30(s.doorbell) {
      return Preparation(IngressNotDisabled, 0, s);
    }
    OffSinceNow(before, s);
    r := PrepareClosed(bank, s, timeoutUs, pollIntervalUs, start, at);
  }
}
