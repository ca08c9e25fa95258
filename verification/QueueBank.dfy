/** The kernel queue's registers: a bank that may answer every read with anything, and beside it the
    device that an obedient bank would be. */
module QueueBank {
  import opened Bits

  datatype Register = MecControl | Active | Dequeue | Rptr | WptrHi | WptrLo | Poll | Doorbell

  datatype Event = Read(register: Register, value: U32) | Write(register: Register, value: U32) | Delay(us: nat)

  const LOST: U32 := 0xffff_ffff

  datatype QueueState = QueueState(active: U32, dequeue: U32, rptr: U32, wptrHi: U32, wptrLo: U32, poll: U32, doorbell: U32)

  function Snapped(s: QueueState): (events: seq<Event>)
    ensures |events| == 7
  {
    [Read(Active, s.active), Read(Dequeue, s.dequeue), Read(Rptr, s.rptr), Read(WptrHi, s.wptrHi),
     Read(WptrLo, s.wptrLo), Read(Poll, s.poll), Read(Doorbell, s.doorbell)]
  }

  predicate Bit0(v: U32) { v % 2 == 1 }
  predicate Bit28(v: U32) { v / 0x1000_0000 % 2 == 1 }
  predicate Bit30(v: U32) { v / 0x4000_0000 % 2 == 1 }
  predicate Bit31(v: U32) { v / 0x8000_0000 % 2 == 1 }

  // ---- An obedient device ----

  /** Registers keep what is written to them, and an active queue that is asked to stop goes inactive once
      `stopsAfter` more microseconds have been waited. */
  datatype Device = Device(mec: U32, queue: QueueState, stopsAfter: nat)

  function Holds(d: Device, r: Register): U32 {
    match r
    case MecControl => d.mec
    case Active => d.queue.active
    case Dequeue => d.queue.dequeue
    case Rptr => d.queue.rptr
    case WptrHi => d.queue.wptrHi
    case WptrLo => d.queue.wptrLo
    case Poll => d.queue.poll
    case Doorbell => d.queue.doorbell
  }

  function Stored(d: Device, r: Register, v: U32): Device {
    match r
    case MecControl => d.(mec := v)
    case Active => d.(queue := d.queue.(active := v))
    case Dequeue => d.(queue := d.queue.(dequeue := v))
    case Rptr => d.(queue := d.queue.(rptr := v))
    case WptrHi => d.(queue := d.queue.(wptrHi := v))
    case WptrLo => d.(queue := d.queue.(wptrLo := v))
    case Poll => d.(queue := d.queue.(poll := v))
    case Doorbell => d.(queue := d.queue.(doorbell := v))
  }

  predicate Stopping(d: Device) {
    Bit0(d.queue.active) && d.queue.dequeue == 1
  }

  function Passed(d: Device, us: nat): Device {
    if !Stopping(d) then d
    else if us < d.stopsAfter then d.(stopsAfter := d.stopsAfter - us)
    else d.(queue := d.queue.(active := d.queue.active - 1), stopsAfter := 0)
  }

  /** `answers` scripts what each read returns, and `log` is everything done so far. `device` is what an
      obedient bank would hold by now, and `obeys` says that every answer so far was that device's. */
  class Bank {
    const answers: nat -> U32
    var taken: nat
    var log: seq<Event>
    ghost var device: Device
    ghost var obeys: bool

    constructor (answers: nat -> U32, ghost device: Device)
      ensures log == [] && this.answers == answers && this.device == device && obeys
    {
      this.answers := answers;
      taken, log := 0, [];
      this.device := device;
      obeys := true;
    }

    method ReadRegister(r: Register) returns (v: U32)
      modifies this
      ensures log == old(log) + [Read(r, v)]
      ensures device == old(device) && (obeys <==> old(obeys) && v == Holds(device, r))
    {
      v := answers(taken);
      taken := taken + 1;
      log := log + [Read(r, v)];
      obeys := obeys && v == Holds(device, r);
    }

    method WriteRegister(r: Register, v: U32)
      modifies this
      ensures log == old(log) + [Write(r, v)]
      ensures device == Stored(old(device), r, v) && obeys == old(obeys)
    {
      log := log + [Write(r, v)];
      device := Stored(device, r, v);
    }

    method Wait(us: nat)
      modifies this
      ensures log == old(log) + [Delay(us)]
      ensures device == Passed(old(device), us) && obeys == old(obeys)
    {
      log := log + [Delay(us)];
      device := Passed(device, us);
    }

    method Snapshot() returns (s: QueueState)
      modifies this
      ensures log == old(log) + Snapped(s)
      ensures device == old(device) && (obeys <==> old(obeys) && s == device.queue)
    {
      var active := ReadRegister(Active);
      var dequeue := ReadRegister(Dequeue);
      var rptr := ReadRegister(Rptr);
      var wptrHi := ReadRegister(WptrHi);
      var wptrLo := ReadRegister(WptrLo);
      var poll := ReadRegister(Poll);
      var doorbell := ReadRegister(Doorbell);
      s := QueueState(active, dequeue, rptr, wptrHi, wptrLo, poll, doorbell);
    }
  }

  // ---- Single bits ----

  lemma HalvedSum(v: nat, p: nat)
    ensures (v + 2 * p) / 2 == v / 2 + p && (v + 2 * p) % 2 == v % 2
  {
  }

  lemma SetLow(v: nat, i: nat)
    requires v % 2 == 0
    ensures BitAt(v + 1, i) <==> BitAt(v, i) || i == 0
  {
    assert (v + 1) / 2 == v / 2;
    hide BitAt;
    BitAtNext(v, if i == 0 then 0 else i - 1);
    BitAtNext(v + 1, if i == 0 then 0 else i - 1);
  }

  lemma {:induction false} SetBit(v: nat, k: nat, i: nat)
    requires !BitAt(v, k)
    ensures BitAt(v + Pow2(k), i) <==> BitAt(v, i) || i == k
    decreases k
  {
    hide BitAt;
    if k == 0 {
      BitAtNext(v, 0);
      SetLow(v, i);
    } else {
      BitAtNext(v, k - 1);
      HalvedSum(v, Pow2(k - 1));
      BitAtNext(v, if i == 0 then 0 else i - 1);
      BitAtNext(v + Pow2(k), if i == 0 then 0 else i - 1);
      if i > 0 {
        SetBit(v / 2, k - 1, i - 1);
      }
    }
  }

  lemma ClearBit(v: nat, k: nat, i: nat)
    requires BitAt(v, k)
    ensures v >= Pow2(k) && (BitAt(v - Pow2(k), i) <==> BitAt(v, i) && i != k)
  {
    BitWeight(v, k);
    SetBit(v - Pow2(k), k, i);
  }

  lemma {:induction false} BitWeight(v: nat, k: nat)
    requires BitAt(v, k)
    ensures v >= Pow2(k) && !BitAt(v - Pow2(k), k)
    decreases k
  {
    if k == 0 {
      BitAtNext(v, 0);
      BitAtNext(v - 1, 0);
    } else {
      BitAtNext(v, k - 1);
      BitWeight(v / 2, k - 1);
      HalvedSum(v - 2 * Pow2(k - 1), Pow2(k - 1));
      BitAtNext(v - Pow2(k), k - 1);
    }
  }

  lemma ControlBits()
    ensures Pow2(0) == 1 && Pow2(28) == 0x1000_0000 && Pow2(30) == 0x4000_0000 && Pow2(31) == 0x8000_0000
  {
    assert Pow2(7) == 128;
    Pow2Sum(7, 7);
    Pow2Sum(14, 14);
    assert Pow2(31) == 2 * Pow2(30) == 4 * Pow2(29) == 8 * Pow2(28);
  }

  /** The four bit tests ask for the bits they are named after. */
  lemma BitTests(v: U32)
    ensures (Bit0(v) <==> BitAt(v, 0)) && (Bit28(v) <==> BitAt(v, 28))
    ensures (Bit30(v) <==> BitAt(v, 30)) && (Bit31(v) <==> BitAt(v, 31))
  {
    ControlBits();
  }
}
