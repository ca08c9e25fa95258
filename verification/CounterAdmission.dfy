/** Which keys the access counter admits, told from the calls alone. */
module CounterAdmission {
  import opened Bits
  import opened AccessCounter

  /** The taggable keys noted so far. */
  function Distinct(calls: seq<U32>): set<U32> {
    set key | key in calls && key != UNTAGGABLE
  }

  lemma OneMoreCall(calls: seq<U32>)
    requires calls != []
    ensures var key := calls[|calls| - 1];
            Distinct(calls) == Distinct(calls[..|calls| - 1]) + if key == UNTAGGABLE then {} else {key}
  {
    var front := calls[..|calls| - 1];
    assert calls == front + [calls[|calls| - 1]];
  }

  lemma SubsetSize(a: set<U32>, b: set<U32>)
    requires a <= b
    ensures |a| <= |b|
  {
    assert b == a + (b - a);
  }

  /** Everything noted is admitted until the table is three quarters full. */
  lemma {:induction false} AllOrFull(slots: nat, calls: seq<U32>)
    ensures Admitted(slots, calls).Keys <= Distinct(calls)
    ensures Admitted(slots, calls).Keys == Distinct(calls) || 4 * |Admitted(slots, calls)| >= 3 * slots
    decreases |calls|
  {
    if calls != [] {
      var front, key := calls[..|calls| - 1], calls[|calls| - 1];
      AllOrFull(slots, front);
      OneMoreCall(calls);
      SizeGrows(Admitted(slots, front), slots, key);
    }
  }

  lemma FullWhenSeen(slots: nat, calls: seq<U32>)
    ensures Full(Admitted(slots, calls), slots) <==> 4 * |Distinct(calls)| >= 3 * slots
  {
    AllOrFull(slots, calls);
    var m := Admitted(slots, calls);
    assert |m.Keys| == |m|;
    SubsetSize(m.Keys, Distinct(calls));
  }

  /** A taggable key is admitted, for good, exactly when fewer than three quarters as many others as the
      table has slots were noted before its first call. */
  lemma AdmittedExactly(slots: nat, calls: seq<U32>, first: nat)
    requires slots > 0 && first < |calls| && calls[first] != UNTAGGABLE && calls[first] !in calls[..first]
    ensures calls[first] in Admitted(slots, calls) <==> 4 * |Distinct(calls[..first])| < 3 * slots
  {
    var key, before, upTo := calls[first], calls[..first], calls[..first + 1];
    var later := calls[first + 1..];
    assert calls == upTo + later && upTo[..|upTo| - 1] == before;
    AllOrFull(slots, before);
    FullWhenSeen(slots, before);
    SizeGrows(Admitted(slots, before), slots, key);
    if key in Admitted(slots, upTo) {
      RememberedForever(slots, upTo, later, key);
    } else {
      RefusedForever(slots, upTo, later, key);
    }
  }

  /** So the answer of any call with a taggable key follows from the calls alone: how often the key was
      noted, or zero when the table was three quarters full before the key came. */
  lemma AnswerFromCalls(h: Hash, slots: nat, calls: seq<U32>, first: nat)
    requires slots > 0 && first < |calls| < 0x1_0000_0000 && calls[|calls| - 1] != UNTAGGABLE
    requires calls[first] == calls[|calls| - 1] && calls[first] !in calls[..first]
    ensures Answer(h, slots, calls) ==
            if 4 * |Distinct(calls[..first])| < 3 * slots then Times(calls, calls[first]) else 0
  {
    AnswersAreCounts(h, slots, calls);
    AdmittedExactly(slots, calls, first);
  }
}
