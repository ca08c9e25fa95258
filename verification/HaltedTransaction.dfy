/** The transaction that halts the microengine around a native queue start, and gives it back. */
module HaltedTransaction {
  import opened Bits
  import opened QueueBank
  import opened QueuePreparation

  function WithBit28(v: U32): U32 { if Bit28(v) then v else v + 0x1000_0000 }
  function WithBit30(v: U32): U32 { if Bit30(v) then v else v + 0x4000_0000 }

  predicate Halted(v: U32) {
    Bit28(v) && Bit30(v)
  }

  /** The control word with both halt bits set. */
  function WithHalt(v: U32): (r: U32)
    ensures Halted(r) && (Halted(v) ==> r == v)
  {
    WithBit30(WithBit28(v))
  }

  /** Both halt bits are set, and no other bit is touched. */
  lemma HaltBits(v: U32, i: nat)
    ensures BitAt(WithHalt(v), i) <==> BitAt(v, i) || i == 28 || i == 30
  {
    var w := WithBit28(v);
    BitTests(v);
    BitTests(w);
    ControlBits();
    if !Bit28(v) {
      SetBit(v, 28, i);
    }
    if !Bit30(w) {
      SetBit(w, 30, i);
    }
  }

  // ---- What an obedient device ends up as ----

  /** The queue after its registers were zeroed, but for the low write pointer when that is retained. */
  function Zeroed(q: QueueState, retained: bool): QueueState {
    q.(active := 0, dequeue := 0, rptr := 0, wptrHi := 0, wptrLo := if retained then q.wptrLo else 0)
  }

  /** Whether an obedient microengine can be held: its words read back and the reset queue is closed. */
  predicate CanHold(d: Device, retained: bool) {
    && d.mec != LOST && WithHalt(d.mec) != LOST
    && Accessible(Zeroed(d.queue, retained)) && IngressOff(d.queue)
  }

  predicate OnControl(e: Event) {
    !e.Delay? && e.register == MecControl
  }

  predicate LastControl(log: seq<Event>, i: nat, e: Event) {
    i < |log| && log[i] == e && OnControl(e) && forall k :: i < k < |log| ==> !OnControl(log[k])
  }

  /** The last thing done to the control word, since `start`, was this. */
  ghost predicate ControlIs(log: seq<Event>, start: nat, e: Event) {
    exists i :: start <= i < |log| && LastControl(log, i, e)
  }

  predicate Untouched(log: seq<Event>, start: nat) {
    forall i :: start <= i < |log| ==> !log[i].Write?
  }

  lemma ControlLast(log: seq<Event>, start: nat, e: Event)
    requires start <= |log| && OnControl(e)
    ensures ControlIs(log + [e], start, e)
  {
    assert LastControl(log + [e], |log|, e);
  }

  lemma ControlStays(log: seq<Event>, start: nat, e: Event, more: seq<Event>)
    requires ControlIs(log, start, e) && forall k :: 0 <= k < |more| ==> !OnControl(more[k])
    ensures ControlIs(log + more, start, e)
  {
    var i :| start <= i < |log| && LastControl(log, i, e);
    assert LastControl(log + more, i, e);
  }

  /** What was read from the queue registers shows an idle, closed, reset queue. */
  predicate ResetSeen(s: QueueState, retained: bool, initialWptrLo: U32) {
    Accessible(s) && !Bit0(s.active) && s.dequeue == 0 && s.rptr == 0 && s.wptrHi == 0 && !Bit31(s.poll) &&
    !Bit30(s.doorbell) && s.wptrLo == (if retained then initialWptrLo else 0)
  }

  class Transaction {
    var savedMecControl: U32
    var initialWptrLo: U32
    var held: bool

    constructor ()
      ensures !held
    {
      savedMecControl, initialWptrLo, held := 0, 0, false;
    }

    /** Not held means that the microengine's control word is as it was found: the transaction never
        wrote, or the word last read back from it is the saved one. */
    ghost predicate Accounted(log: seq<Event>, start: nat)
      reads this
    {
      !held ==> Untouched(log, start) || ControlIs(log, start, Read(MecControl, savedMecControl))
    }

    /** Puts the saved control word back; held unless the readback confirms it. */
    method Abandon(bank: Bank, ghost start: nat)
      requires start <= |bank.log| && held
      modifies this`held, bank
      ensures old(bank.log) <= bank.log && Accounted(bank.log, start)
      ensures held ==> exists v :: v != savedMecControl && ControlIs(bank.log, start, Read(MecControl, v))
      ensures bank.obeys ==> old(bank.obeys) && !held && bank.device.mec == savedMecControl
    {
      bank.WriteRegister(MecControl, savedMecControl);
      bank.Wait(50);
      var back := bank.ReadRegister(MecControl);
      ControlLast(bank.log[..|bank.log| - 1], start, Read(MecControl, back));
      assert bank.log == bank.log[..|bank.log| - 1] + [Read(MecControl, back)];
      if back == savedMecControl {
        held := false;
      }
    }

    /** Zeroes the queue registers under halt and reads them back. */
    method ResetQueue(bank: Bank, retained: bool, ghost start: nat, ghost control: Event) returns (s: QueueState)
      requires ControlIs(bank.log, start, control)
      modifies bank
      ensures old(bank.log) <= bank.log && ControlIs(bank.log, start, control) && EndsWith(bank.log, s)
      ensures bank.device == old(bank.device).(queue := Zeroed(old(bank.device.queue), retained))
      ensures bank.obeys <==> old(bank.obeys) && s == bank.device.queue
    {
      ghost var before := bank.log;
      bank.WriteRegister(Active, 0);
      bank.WriteRegister(Dequeue, 0);
      bank.WriteRegister(Rptr, 0);
      bank.WriteRegister(WptrHi, 0);
      ghost var writes := [Write(Active, 0), Write(Dequeue, 0), Write(Rptr, 0), Write(WptrHi, 0)];
      assert bank.log == before + writes;
      if !retained {
        bank.WriteRegister(WptrLo, 0);
        writes := writes + [Write(WptrLo, 0)];
        assert bank.log == before + writes;
      }
      ControlStays(before, start, control, writes);
      before := bank.log;
      s := bank.Snapshot();
      ControlStays(before, start, control, Snapped(s));
    }

    /** A failure never leaves the microengine halted unnoticed; a success leaves it verifiably halted,
        with the queue verifiably reset. */
    method BeginHaltedNative(bank: Bank, retained: bool) returns (ok: bool)
      modifies this, bank
      ensures old(bank.log) <= bank.log && Accounted(bank.log, |old(bank.log)|)
      ensures ok ==> held && exists v :: Halted(v) && v != LOST && ControlIs(bank.log, |old(bank.log)|, Read(MecControl, v))
      ensures ok ==> exists s :: EndsWith(bank.log, s) && ResetSeen(s, retained, initialWptrLo)
      ensures !ok && held ==> exists v :: v != savedMecControl && ControlIs(bank.log, |old(bank.log)|, Read(MecControl, v))
      ensures bank.obeys ==> old(bank.obeys) && savedMecControl == old(bank.device.mec)
      ensures bank.obeys ==> (ok <==> CanHold(old(bank.device), retained)) && (held <==> ok)
      ensures bank.obeys ==> bank.device.mec == if ok then WithHalt(savedMecControl) else savedMecControl
      ensures bank.obeys && ok ==> bank.device.queue == Zeroed(old(bank.device.queue), retained)
    {
      hide ControlIs, EndsWith, Bit28, Bit30, Bit31, WithHalt;
      ghost var start := |bank.log|;
      initialWptrLo, held := 0, false;
      savedMecControl := bank.ReadRegister(MecControl);
      if savedMecControl == LOST {
        return false;
      }
      bank.WriteRegister(MecControl, WithHalt(savedMecControl));
      bank.Wait(50);
      var halted := bank.ReadRegister(MecControl);
      ghost var control := Read(MecControl, halted);
      ControlLast(bank.log[..|bank.log| - 1], start, control);
      assert bank.log == bank.log[..|bank.log| - 1] + [control];
      held := true;
      if halted == LOST || !Halted(halted) {
        if halted == savedMecControl {
          held := false;
          return false;
        }
        Abandon(bank, start);
        return false;
      }
      if retained {
        ghost var before := bank.log;
        initialWptrLo := bank.ReadRegister(WptrLo);
        ControlStays(before, start, control, [Read(WptrLo, initialWptrLo)]);
        if initialWptrLo == LOST {
          Abandon(bank, start);
          return false;
        }
      }
      var s := ResetQueue(bank, retained, start, control);
      if !Accessible(s) || Bit0(s.active) || s.dequeue != 0 || s.rptr != 0 || s.wptrHi != 0 || Bit31(s.poll) ||
         Bit30(s.doorbell) || (!retained && s.wptrLo != 0) || (retained && s.wptrLo != initialWptrLo) {
        Abandon(bank, start);
        return false;
      }
      return true;
    }

    /** The microengine is released only after a verified native start; otherwise it is left halted and
        still held. */
    method ReleaseHaltedNative(bank: Bank, nativeSuccess: bool, hqdVerified: bool) returns (ok: bool)
      modifies this`held, bank
      ensures old(bank.log) <= bank.log
      ensures !old(held) ==> !ok && !held && bank.log == old(bank.log)
      ensures ok ==> nativeSuccess && hqdVerified && !held &&
                     ControlIs(bank.log, |old(bank.log)|, Read(MecControl, savedMecControl))
      ensures old(held) && !ok ==> held && ControlIs(bank.log, |old(bank.log)|, Write(MecControl, WithHalt(savedMecControl)))
      ensures bank.obeys ==> old(bank.obeys) && (ok <==> old(held) && nativeSuccess && hqdVerified)
      ensures bank.obeys && old(held) ==> bank.device.mec == if ok then savedMecControl else WithHalt(savedMecControl)
    {
      if !held {
        return false;
      }
      ghost var start := |bank.log|;
      if nativeSuccess && hqdVerified {
        bank.WriteRegister(MecControl, savedMecControl);
        bank.Wait(50);
        var restored := bank.ReadRegister(MecControl);
        ControlLast(bank.log[..|bank.log| - 1], start, Read(MecControl, restored));
        assert bank.log == bank.log[..|bank.log| - 1] + [Read(MecControl, restored)];
        if restored == savedMecControl {
          held := false;
          return true;
        }
      }
      ghost var before := bank.log;
      var halt := WithHalt(savedMecControl);
      bank.WriteRegister(MecControl, halt);
      ControlLast(before, start, Write(MecControl, halt));
      before := bank.log;
      bank.Wait(50);
      ControlStays(before, start, Write(MecControl, halt), [Delay(50)]);
      return false;
    }
  }
}
