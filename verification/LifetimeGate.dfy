/** The one-word lifetime gate: phase and first abort reason share a single atomic word. */
module LifetimeGate {
  import opened Bits
  import opened LifetimeRecord

  datatype Phase = Initial | PublishingValid | ValidAbortRequested | Active | PublishingAbort | Aborted | Poisoned
  datatype ValidCompletion = CompletedActive | AbortOwner | CompletedPoisoned
  datatype AbortRequest = Owner | Deferred | AlreadyBlocked

  datatype Control = Control(phase: Phase, reason: U32)

  function Code(p: Phase): U32 {
    match p
    case Initial => 0
    case PublishingValid => 1
    case ValidAbortRequested => 2
    case Active => 3
    case PublishingAbort => 4
    case Aborted => 5
    case Poisoned => 6
  }

  function Pack(c: Control): U64 {
    Join(Code(c.phase), c.reason)
  }

  /** The phase's number is the low half of the word, the reason the high half, and a zeroed word is the
      untouched gate. */
  lemma PackLayout(c: Control)
    ensures Pack(c) % TWO32 == Code(c.phase) && Pack(c) / TWO32 == c.reason
    ensures Pack(c) == 0 <==> c == Control(Initial, LIFETIME_REASON_NONE)
  {
    SplitJoin(Code(c.phase), c.reason);
  }

  /** Comparing packed words is comparing phase and reason: no other state shares a word. */
  lemma PackInjective(a: Control, b: Control)
    requires Pack(a) == Pack(b)
    ensures a == b
  {
    SplitJoin(Code(a.phase), a.reason);
    SplitJoin(Code(b.phase), b.reason);
  }

  // ---- One pass of each retry loop: what it decides from the word it loaded ----

  datatype Try<+R> = Return(result: R) | Swap(desired: Control, result: R)

  function FinishValidTry(c: Control, published: bool): Try<ValidCompletion> {
    match c.phase
    case PublishingValid =>
      if published then Swap(c.(phase := Active), CompletedActive)
      else Swap(c.(phase := Poisoned), CompletedPoisoned)
    case ValidAbortRequested =>
      if published then Swap(c.(phase := PublishingAbort), AbortOwner)
      else Swap(c.(phase := Poisoned), CompletedPoisoned)
    case _ => Return(CompletedPoisoned)
  }

  function RequestTry(c: Control, reason: U32): Try<AbortRequest> {
    match c.phase
    case PublishingValid => Swap(Control(ValidAbortRequested, reason), Deferred)
    case Active => Swap(Control(PublishingAbort, reason), Owner)
    case Initial => Swap(Control(Poisoned, reason), AlreadyBlocked)
    case _ => Return(AlreadyBlocked)
  }

  function PoisonTry(c: Control): Try<()> {
    match c.phase
    case Aborted => Return(())
    case Poisoned => Return(())
    case PublishingAbort => Return(())
    case ValidAbortRequested => Return(())
    case _ => Swap(c.(phase := Poisoned), ())
  }

  function FinishAbortTry(c: Control, published: bool): Try<()> {
    if c.phase == PublishingAbort then Swap(c.(phase := if published then Aborted else Poisoned), ())
    else Return(())
  }

  // ---- The shape of every change ----

  /** Every successful swap moves to a strictly higher rank, so no phase is ever revisited. */
  function Rank(p: Phase): (r: nat)
    ensures r <= 4
  {
    match p
    case Initial => 0
    case PublishingValid => 1
    case ValidAbortRequested => 2
    case Active => 2
    case PublishingAbort => 3
    case Aborted => 4
    case Poisoned => 4
  }

  /** No reason is recorded before an abort, and an accepted abort always has a valid one. */
  predicate ReasonConsistent(c: Control) {
    && (c.phase in {Initial, PublishingValid, Active} ==> c.reason == LIFETIME_REASON_NONE)
    && (c.phase in {ValidAbortRequested, PublishingAbort, Aborted} ==> ValidReason(c.reason))
  }

  /** One atomic change of the word by anybody. */
  predicate Moves(a: Control, b: Control) {
    && Rank(a.phase) < Rank(b.phase)
    && (a.reason != LIFETIME_REASON_NONE ==> b.reason == a.reason)
    && (b.phase == Active ==> a.phase == PublishingValid)
    && (b.phase == PublishingAbort ==> a.phase in {Active, ValidAbortRequested})
    && ReasonConsistent(b)
  }

  lemma TriesMove(c: Control, published: bool, reason: U32)
    requires ReasonConsistent(c) && ValidReason(reason)
    ensures var t := FinishValidTry(c, published); t.Swap? ==> Moves(c, t.desired)
    ensures var t := RequestTry(c, reason); t.Swap? ==> Moves(c, t.desired)
    ensures var t := PoisonTry(c); t.Swap? ==> Moves(c, t.desired)
    ensures var t := FinishAbortTry(c, published); t.Swap? ==> Moves(c, t.desired)
    ensures c.phase == Initial ==> Moves(c, Control(PublishingValid, LIFETIME_REASON_NONE))
  {
  }

  /** Any number of changes by anybody, including none. */
  predicate Reaches(a: Control, b: Control) {
    && (a == b || Rank(a.phase) < Rank(b.phase))
    && (a.reason != LIFETIME_REASON_NONE ==> b.reason == a.reason)
    && (a.phase !in {Initial, PublishingValid} && a != b ==> b.phase != Active)
    && (ReasonConsistent(a) ==> ReasonConsistent(b))
  }

  lemma ReachesExtends(a: Control, b: Control, c: Control)
    requires Reaches(a, b) && (b == c || Moves(b, c))
    ensures Reaches(a, c)
  {
  }

  /** No client is admitted, and none ever will be. */
  predicate Blocked(p: Phase) {
    p in {ValidAbortRequested, PublishingAbort, Aborted, Poisoned}
  }

  /** The gate as one thread sees it. `others` scripts the changes other threads land between its
      accesses: before each access every change at the head of the script that is possible happens. */
  class Gate {
    var control: Control
    var others: seq<Control>

    constructor (others: seq<Control>)
      ensures control == Control(Initial, LIFETIME_REASON_NONE) && this.others == others
    {
      control := Control(Initial, LIFETIME_REASON_NONE);
      this.others := others;
    }

    method Interfere()
      modifies this
      ensures Reaches(old(control), control)
      ensures old(others) == [] ==> control == old(control) && others == []
    {
      while |others| > 0 && Moves(control, others[0])
        invariant Reaches(old(control), control)
        invariant old(others) == [] ==> control == old(control) && others == []
        decreases |others|
      {
        ReachesExtends(old(control), control, others[0]);
        control := others[0];
        others := others[1..];
      }
    }

    method Load() returns (c: Control)
      modifies this
      ensures Reaches(old(control), control) && c == control
      ensures old(others) == [] ==> control == old(control) && others == []
    {
      Interfere();
      c := control;
    }

    /** Compare and exchange: `before` is the word it compared with. */
    method Exchange(expected: Control, desired: Control) returns (swapped: bool, ghost before: Control)
      modifies this
      ensures Reaches(old(control), before)
      ensures swapped == (before == expected)
      ensures control == if swapped then desired else before
      ensures old(others) == [] ==> before == old(control) && others == []
    {
      Interfere();
      before := control;
      swapped := control == expected;
      if swapped {
        control := desired;
      }
    }

    method BeginValidPublication() returns (began: bool)
      modifies this
      ensures exists c :: Reaches(old(control), c) && began == (c == Control(Initial, LIFETIME_REASON_NONE)) &&
                          control == if began then Control(PublishingValid, LIFETIME_REASON_NONE) else c
      ensures old(others) == [] ==> (began <==> old(control) == Control(Initial, LIFETIME_REASON_NONE)) &&
                                    (!began ==> control == old(control))
    {
      ghost var before;
      began, before := Exchange(Control(Initial, LIFETIME_REASON_NONE), Control(PublishingValid, LIFETIME_REASON_NONE));
    }

    /** Takes effect at one instant, on some word the other threads left; ends however they interfere.
        It opens the gate only after a publication that succeeded, and hands over an abort that came in
        between; alone it does so exactly then. */
    method FinishValidPublication(published: bool) returns (result: ValidCompletion)
      requires ReasonConsistent(control)
      modifies this
      ensures exists c :: Reaches(old(control), c) && FinishValidTry(c, published).result == result &&
                          (if FinishValidTry(c, published).Swap? then control == FinishValidTry(c, published).desired
                           else control == c)
      ensures control.phase !in {PublishingValid, ValidAbortRequested}
      ensures result == CompletedActive ==> published && control == Control(Active, LIFETIME_REASON_NONE)
      ensures result == AbortOwner ==> published && control.phase == PublishingAbort && ValidReason(control.reason)
      ensures old(others) == [] && old(control).phase == PublishingValid ==>
                if published then result == CompletedActive && control == Control(Active, LIFETIME_REASON_NONE)
                else result == CompletedPoisoned && control == Control(Poisoned, LIFETIME_REASON_NONE)
      ensures old(others) == [] && old(control).phase == ValidAbortRequested ==>
                if published then result == AbortOwner && control == Control(PublishingAbort, old(control).reason)
                else result == CompletedPoisoned && control == Control(Poisoned, old(control).reason)
      ensures old(others) == [] && old(control).phase !in {PublishingValid, ValidAbortRequested} ==>
                result == CompletedPoisoned && control == old(control)
    {
      while true
        invariant Reaches(old(control), control)
        invariant old(others) == [] ==> control == old(control) && others == []
        decreases 4 - Rank(control.phase), 1
      {
        ghost var rank := Rank(control.phase);
        var current := Load();
        match FinishValidTry(current, published) {
          case Return(r) =>
            return r;
          case Swap(desired, r) =>
            ghost var before;
            var swapped;
            swapped, before := Exchange(current, desired);
            if swapped {
              return r;
            }
            assert Rank(before.phase) > Rank(current.phase) >= rank;
        }
      }
    }

    /** However the others interfere, no client is admitted when a request has returned, and an owner or a
        deferred request has its own reason recorded. Alone, an open gate is closed by its owner, one that
        is opening is told, and one that never began is poisoned. */
    method RequestAbort(reason: U32) returns (result: AbortRequest)
      requires ReasonConsistent(control)
      modifies this
      ensures ValidReason(reason) ==>
                exists c :: Reaches(old(control), c) && RequestTry(c, reason).result == result &&
                            (if RequestTry(c, reason).Swap? then control == RequestTry(c, reason).desired
                             else control == c)
      ensures !ValidReason(reason) ==> result == AlreadyBlocked
      ensures !ValidReason(reason) ==>
                exists c :: Reaches(old(control), c) &&
                            (if PoisonTry(c).Swap? then control == PoisonTry(c).desired else control == c)
      ensures Blocked(control.phase)
      ensures result == Owner ==> control == Control(PublishingAbort, reason)
      ensures result == Deferred ==> control == Control(ValidAbortRequested, reason)
      ensures old(others) == [] && ValidReason(reason) && old(control).phase == Active ==> result == Owner
      ensures old(others) == [] && ValidReason(reason) && old(control).phase == PublishingValid ==> result == Deferred
      ensures old(others) == [] && ValidReason(reason) && old(control).phase == Initial ==>
                result == AlreadyBlocked && control == Control(Poisoned, reason)
      ensures old(others) == [] && !ValidReason(reason) && !Blocked(old(control).phase) ==>
                control == Control(Poisoned, old(control).reason)
      ensures old(others) == [] && Blocked(old(control).phase) ==> result == AlreadyBlocked && control == old(control)
    {
      if !ValidReason(reason) {
        Poison();
        return AlreadyBlocked;
      }
      while true
        invariant Reaches(old(control), control)
        invariant old(others) == [] ==> control == old(control) && others == []
        decreases 4 - Rank(control.phase), 1
      {
        ghost var rank := Rank(control.phase);
        var current := Load();
        match RequestTry(current, reason) {
          case Return(r) =>
            return r;
          case Swap(desired, r) =>
            ghost var before;
            var swapped;
            swapped, before := Exchange(current, desired);
            if swapped {
              return r;
            }
            assert Rank(before.phase) > Rank(current.phase) >= rank;
        }
      }
    }

    method Poison()
      modifies this
      ensures exists c :: Reaches(old(control), c) &&
                          (if PoisonTry(c).Swap? then control == PoisonTry(c).desired else control == c)
      ensures Blocked(control.phase)
      ensures old(others) == [] ==>
                control == if Blocked(old(control).phase) then old(control) else Control(Poisoned, old(control).reason)
    {
      while true
        invariant Reaches(old(control), control)
        invariant old(others) == [] ==> control == old(control) && others == []
        decreases 4 - Rank(control.phase), 1
      {
        ghost var rank := Rank(control.phase);
        var current := Load();
        match PoisonTry(current) {
          case Return(_) =>
            return;
          case Swap(desired, _) =>
            ghost var before;
            var swapped;
            swapped, before := Exchange(current, desired);
            if swapped {
              return;
            }
            assert Rank(before.phase) > Rank(current.phase) >= rank;
        }
      }
    }

    /** Unlike the other loops this one keeps the word the failed exchange reported. No abort is left in
        publication, and alone it records how the publication ended, with the reason kept. */
    method FinishAbortPublication(published: bool)
      modifies this
      ensures exists c :: Reaches(old(control), c) &&
                          (if FinishAbortTry(c, published).Swap? then control == FinishAbortTry(c, published).desired
                           else control == c)
      ensures control.phase != PublishingAbort
      ensures old(others) == [] ==>
                control == if old(control).phase == PublishingAbort
                           then Control(if published then Aborted else Poisoned, old(control).reason) else old(control)
    {
      var current := Load();
      while current.phase == PublishingAbort
        invariant Reaches(old(control), control) && current == control
        invariant old(others) == [] ==> control == old(control) && others == []
        decreases 4 - Rank(current.phase)
      {
        var desired := current.(phase := if published then Aborted else Poisoned);
        var swapped;
        ghost var before;
        swapped, before := Exchange(current, desired);
        if swapped {
          return;
        }
        current := control;
      }
    }
  }
}
