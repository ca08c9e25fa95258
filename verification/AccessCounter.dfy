/** The bounded occurrence counter of the display translation: an open-addressed table with linear
    probing that must answer like a map. */
module AccessCounter {
  import opened Bits
  import opened Options

  /** The key whose tag wraps to the empty marker. */
  const UNTAGGABLE: U32 := 0xffff_ffff

  datatype Table = Table(keys: seq<U32>, counts: seq<U32>, used: nat)

  predicate Sized(t: Table) {
    |t.keys| == |t.counts| > 0
  }

  /** Zero marks an empty slot. */
  function Tag(key: U32): U32 {
    (key + 1) % 0x1_0000_0000
  }

  /** What is proved here holds for any way of mixing the key; the driver uses `Mix`. */
  type Hash = U32 -> nat

  function Mix(key: U32): nat {
    (key * 2654435761) % 0x1_0000_0000
  }

  function Home(h: Hash, key: U32, slots: nat): (home: nat)
    requires slots > 0
    ensures home < slots
  {
    h(key) % slots
  }

  function Next(slot: nat, slots: nat): (r: nat)
    requires slot < slots
    ensures r < slots && r == (slot + 1) % slots
  {
    if slot + 1 < slots then slot + 1 else 0
  }

  /** The first slot in probing order that holds the tag or is empty. */
  function Stop(keys: seq<U32>, tag: U32, slot: nat, left: nat): (r: Option<nat>)
    requires slot < |keys|
    ensures r.Some? ==> r.value < |keys| && (keys[r.value] == tag || keys[r.value] == 0)
    decreases left
  {
    if left == 0 then None
    else if keys[slot] == tag || keys[slot] == 0 then Some(slot)
    else Stop(keys, tag, Next(slot, |keys|), left - 1)
  }

  function StopOf(h: Hash, t: Table, key: U32): Option<nat>
    requires Sized(t)
  {
    Stop(t.keys, Tag(key), Home(h, key, |t.keys|), |t.keys|)
  }

  function Bumped(count: U32): U32 {
    (count + 1) % 0x1_0000_0000
  }

  function NotedAt(t: Table, key: U32, slot: nat): (Table, U32)
    requires Sized(t) && slot < |t.keys|
  {
    if t.keys[slot] == Tag(key) then (t.(counts := t.counts[slot := Bumped(t.counts[slot])]), Bumped(t.counts[slot]))
    else if t.used * 4 >= |t.keys| * 3 then (t, 0)
    else (Table(t.keys[slot := Tag(key)], t.counts[slot := 1], t.used + 1), 1)
  }

  function Noted(h: Hash, t: Table, key: U32): (r: (Table, U32))
    requires Sized(t)
    ensures Sized(r.0) && |r.0.keys| == |t.keys|
  {
    match StopOf(h, t, key)
    case None => (t, 0)
    case Some(slot) => NotedAt(t, key, slot)
  }

  class Counter {
    const keys: array<U32>
    const counts: array<U32>
    var used: nat

    ghost predicate Valid()
      reads this
    {
      keys != counts && keys.Length == counts.Length > 0
    }

    ghost function Contents(): (t: Table)
      requires Valid()
      reads this, keys, counts
      ensures Sized(t) && |t.keys| == keys.Length
    {
      Table(keys[..], counts[..], used)
    }

    constructor (slots: nat)
      requires slots > 0
      ensures Valid() && fresh(keys) && fresh(counts)
      ensures Contents() == Empty(slots)
    {
      var k := new U32[slots](_ => 0);
      var c := new U32[slots](_ => 0);
      keys, counts, used := k, c, 0;
    }

    method Note(key: U32) returns (occurrence: U32)
      requires Valid()
      modifies this`used, keys, counts
      ensures Valid() && (Contents(), occurrence) == Noted(Mix, old(Contents()), key)
    {
      ghost var before := Contents();
      var stored := (key + 1) % 0x1_0000_0000;
      var slot: nat := Home(Mix, key, keys.Length);
      var probe: nat := 0;
      while probe < keys.Length
        invariant probe <= keys.Length && slot < keys.Length
        invariant Valid() && Contents() == before
        invariant StopOf(Mix, before, key) == Stop(before.keys, stored, slot, keys.Length - probe)
      {
        if keys[slot] == stored {
          counts[slot] := Bumped(counts[slot]);
          return counts[slot];
        }
        if keys[slot] == 0 {
          if used * 4 >= keys.Length * 3 {
            return 0;
          }
          keys[slot] := stored;
          used := used + 1;
          counts[slot] := 1;
          return 1;
        }
        probe, slot := probe + 1, (slot + 1) % keys.Length;
      }
      return 0;
    }
  }

  // ---- The map it stands for ----

  function Empty(slots: nat): Table {
    Table(seq(slots, _ => 0), seq(slots, _ => 0), 0)
  }

  predicate Full(m: map<U32, nat>, slots: nat) {
    |m| * 4 >= slots * 3
  }

  /** What the counter means: a map that admits new keys until three quarters of the slots are taken. */
  function Admit(m: map<U32, nat>, slots: nat, key: U32): map<U32, nat> {
    if key == UNTAGGABLE then m
    else if key in m then m[key := m[key] + 1]
    else if Full(m, slots) then m
    else m[key := 1]
  }

  function CountOf(m: map<U32, nat>, key: U32): nat {
    if key in m then m[key] else 0
  }

  function Taken(keys: seq<U32>): (n: nat)
    ensures n <= |keys|
  {
    if keys == [] then 0 else Taken(keys[..|keys| - 1]) + (if keys[|keys| - 1] == 0 then 0 else 1)
  }

  /** Probing for a remembered key arrives at the slot that holds its count. */
  predicate Remembers(h: Hash, t: Table, key: U32, count: nat)
    requires Sized(t)
  {
    var s := StopOf(h, t, key);
    s.Some? && t.keys[s.value] == Tag(key) && t.counts[s.value] == count % 0x1_0000_0000
  }

  ghost predicate RemembersAll(h: Hash, t: Table, m: map<U32, nat>)
    requires Sized(t)
  {
    forall k :: k in m ==> k != UNTAGGABLE && Remembers(h, t, k, m[k])
  }

  ghost predicate NoStray(keys: seq<U32>, m: map<U32, nat>) {
    forall k: U32 :: k !in m && k != UNTAGGABLE ==> Tag(k) !in keys
  }

  ghost predicate Agrees(h: Hash, t: Table, m: map<U32, nat>) {
    Sized(t) && t.used == |m| == Taken(t.keys) && RemembersAll(h, t, m) && NoStray(t.keys, m)
  }

  // ---- Probing ----

  lemma {:induction false} ClaimKeepsStop(keys: seq<U32>, tag: U32, slot: nat, left: nat, claimed: nat, other: U32)
    requires slot < |keys| && claimed < |keys| && keys[claimed] == 0 && tag != 0 && other != tag && other != 0
    requires Stop(keys, tag, slot, left).Some? && keys[Stop(keys, tag, slot, left).value] == tag
    ensures Stop(keys[claimed := other], tag, slot, left) == Stop(keys, tag, slot, left)
    decreases left
  {
    if left > 0 && keys[slot] != tag {
      ClaimKeepsStop(keys, tag, Next(slot, |keys|), left - 1, claimed, other);
    }
  }

  lemma {:induction false} ClaimIsFound(keys: seq<U32>, tag: U32, slot: nat, left: nat)
    requires slot < |keys| && tag != 0
    requires Stop(keys, tag, slot, left).Some?
    ensures var s := Stop(keys, tag, slot, left).value;
            Stop(keys[s := tag], tag, slot, left) == Some(s)
    decreases left
  {
    if left > 0 && keys[slot] != tag && keys[slot] != 0 {
      ClaimIsFound(keys, tag, Next(slot, |keys|), left - 1);
    }
  }

  /** A probe that never stops has seen every slot taken. */
  lemma {:induction false} NoStopSawAll(keys: seq<U32>, tag: U32, slot: nat, left: nat, i: nat)
    requires slot < |keys| && i < left <= |keys| && Stop(keys, tag, slot, left) == None
    ensures keys[if slot + i < |keys| then slot + i else slot + i - |keys|] != 0
    decreases left
  {
    if i > 0 {
      NoStopSawAll(keys, tag, Next(slot, |keys|), left - 1, i - 1);
    }
  }

  lemma NoStopMeansTaken(keys: seq<U32>, tag: U32, slot: nat)
    requires slot < |keys| && Stop(keys, tag, slot, |keys|) == None
    ensures 0 !in keys
  {
    forall j | 0 <= j < |keys|
      ensures keys[j] != 0
    {
      NoStopSawAll(keys, tag, slot, |keys|, if j >= slot then j - slot else j + |keys| - slot);
    }
  }

  lemma {:induction false} AllTaken(keys: seq<U32>)
    requires 0 !in keys
    ensures Taken(keys) == |keys|
  {
    if keys != [] {
      var front := keys[..|keys| - 1];
      assert forall x :: x in front ==> x in keys;
      AllTaken(front);
      assert keys[|keys| - 1] in keys;
    }
  }

  lemma {:induction false} TakenOne(keys: seq<U32>, slot: nat, tag: U32)
    requires slot < |keys| && keys[slot] == 0 && tag != 0
    ensures Taken(keys[slot := tag]) == Taken(keys) + 1
  {
    var last := |keys| - 1;
    var after := keys[slot := tag];
    if slot < last {
      assert after[..last] == keys[..last][slot := tag];
      TakenOne(keys[..last], slot, tag);
    } else {
      assert after[..last] == keys[..last];
    }
  }

  lemma {:induction false} NoneTaken(keys: seq<U32>)
    requires forall i :: 0 <= i < |keys| ==> keys[i] == 0
    ensures Taken(keys) == 0
  {
    if keys != [] {
      NoneTaken(keys[..|keys| - 1]);
    }
  }

  lemma EmptyAgrees(h: Hash, slots: nat)
    requires slots > 0
    ensures Agrees(h, Empty(slots), map[])
  {
    NoneTaken(Empty(slots).keys);
  }

  // ---- One call ----

  lemma SizeOf(m: map<U32, nat>, key: U32, count: nat)
    ensures |m[key := count]| == if key in m then |m| else |m| + 1
  {
    assert m[key := count].Keys == m.Keys + {key};
    assert |m[key := count]| == |m[key := count].Keys| && |m| == |m.Keys|;
  }

  lemma StrayStays(keys: seq<U32>, m: map<U32, nat>, key: U32, count: nat)
    requires NoStray(keys, m) && key in m
    ensures NoStray(keys, m[key := count])
  {
  }

  /** A remembered key's call bumps its count and nothing else. */
  lemma SeenBumps(h: Hash, t: Table, m: map<U32, nat>, key: U32, slot: nat)
    requires Agrees(h, t, m) && key in m && StopOf(h, t, key) == Some(slot)
    ensures Noted(h, t, key) == (t.(counts := t.counts[slot := Bumped(t.counts[slot])]), (m[key] + 1) % 0x1_0000_0000)
  {
    assert Remembers(h, t, key, m[key]);
    hide Stop, Bumped;
    BumpedMod(m[key]);
  }

  lemma BumpAgrees(h: Hash, t: Table, m: map<U32, nat>, key: U32, slot: nat)
    requires Agrees(h, t, m) && key in m && StopOf(h, t, key) == Some(slot) && slot < |t.keys|
    ensures Agrees(h, t.(counts := t.counts[slot := Bumped(t.counts[slot])]), m[key := m[key] + 1])
  {
    hide Stop, NoStray, Bumped, RemembersAll, Taken, StopOf;
    SizeOf(m, key, m[key] + 1);
    BumpRemembers(h, t, t.(counts := t.counts[slot := Bumped(t.counts[slot])]), m, key, slot);
    StrayStays(t.keys, m, key, m[key] + 1);
  }

  lemma SeenAgain(h: Hash, t: Table, m: map<U32, nat>, key: U32)
    requires Agrees(h, t, m) && key in m
    ensures var (t', r) := Noted(h, t, key);
            Agrees(h, t', m[key := m[key] + 1]) && r == (m[key] + 1) % 0x1_0000_0000
  {
    assert Remembers(h, t, key, m[key]);
    var slot := StopOf(h, t, key).value;
    SeenBumps(h, t, m, key, slot);
    BumpAgrees(h, t, m, key, slot);
    hide Noted, Agrees;
  }

  lemma BumpedMod(n: nat)
    ensures Bumped(n % 0x1_0000_0000) == (n + 1) % 0x1_0000_0000
  {
  }

  lemma BumpRemembersOne(h: Hash, t: Table, t': Table, key: U32, slot: nat, k: U32, count: nat)
    requires Sized(t) && StopOf(h, t, key) == Some(slot) && t.keys[slot] == Tag(key) && k != UNTAGGABLE
    requires t' == t.(counts := t.counts[slot := Bumped(t.counts[slot])])
    requires Remembers(h, t, k, count)
    ensures Remembers(h, t', k, if k == key then count + 1 else count)
  {
    assert StopOf(h, t', k) == StopOf(h, t, k);
    if k == key {
      BumpedMod(count);
    } else {
      assert Tag(k) != Tag(key);
    }
  }

  lemma BumpRemembers(h: Hash, t: Table, t': Table, m: map<U32, nat>, key: U32, slot: nat)
    requires Sized(t) && RemembersAll(h, t, m) && key in m && StopOf(h, t, key) == Some(slot)
    requires t' == t.(counts := t.counts[slot := Bumped(t.counts[slot])])
    ensures RemembersAll(h, t', m[key := m[key] + 1])
  {
    assert Remembers(h, t, key, m[key]);
    forall k | k in m
      ensures k != UNTAGGABLE && Remembers(h, t', k, if k == key then m[k] + 1 else m[k])
    {
      BumpRemembersOne(h, t, t', key, slot, k, m[k]);
    }
  }

  lemma NewKeyStops(h: Hash, t: Table, m: map<U32, nat>, key: U32)
    requires Agrees(h, t, m) && key !in m && key != UNTAGGABLE && !Full(m, |t.keys|)
    ensures StopOf(h, t, key).Some? && t.keys[StopOf(h, t, key).value] == 0
  {
    if StopOf(h, t, key) == None {
      NoStopMeansTaken(t.keys, Tag(key), Home(h, key, |t.keys|));
      AllTaken(t.keys);
    } else {
      assert t.keys[StopOf(h, t, key).value] in t.keys;
    }
  }

  lemma ClaimRemembersOne(h: Hash, t: Table, key: U32, slot: nat, k: U32, count: nat)
    requires Sized(t) && slot < |t.keys| && t.keys[slot] == 0 && key != UNTAGGABLE
    requires k != key && k != UNTAGGABLE && Remembers(h, t, k, count)
    ensures Remembers(h, Table(t.keys[slot := Tag(key)], t.counts[slot := 1], t.used + 1), k, count)
  {
    ClaimKeepsStop(t.keys, Tag(k), Home(h, k, |t.keys|), |t.keys|, slot, Tag(key));
  }

  lemma ClaimRemembers(h: Hash, t: Table, m: map<U32, nat>, key: U32, slot: nat)
    requires Sized(t) && RemembersAll(h, t, m) && key !in m && key != UNTAGGABLE
    requires StopOf(h, t, key) == Some(slot) && t.keys[slot] == 0
    ensures RemembersAll(h, Table(t.keys[slot := Tag(key)], t.counts[slot := 1], t.used + 1), m[key := 1])
  {
    var t' := Table(t.keys[slot := Tag(key)], t.counts[slot := 1], t.used + 1);
    ClaimIsFound(t.keys, Tag(key), Home(h, key, |t.keys|), |t.keys|);
    assert Remembers(h, t', key, 1);
    forall k | k in m
      ensures k != UNTAGGABLE && Remembers(h, t', k, m[k])
    {
      ClaimRemembersOne(h, t, key, slot, k, m[k]);
    }
  }

  lemma NewKeyClaims(h: Hash, t: Table, m: map<U32, nat>, key: U32)
    requires Agrees(h, t, m) && key !in m && key != UNTAGGABLE && !Full(m, |t.keys|)
    ensures var (t', r) := Noted(h, t, key);
            Agrees(h, t', m[key := 1]) && r == 1
  {
    NewKeyStops(h, t, m, key);
    var slot := StopOf(h, t, key).value;
    assert Noted(h, t, key) == (Table(t.keys[slot := Tag(key)], t.counts[slot := 1], t.used + 1), 1);
    SizeOf(m, key, 1);
    TakenOne(t.keys, slot, Tag(key));
    ClaimRemembers(h, t, m, key, slot);
    NewTagOnly(t.keys, m, key, slot);
  }

  lemma NewTagOnly(keys: seq<U32>, m: map<U32, nat>, key: U32, slot: nat)
    requires slot < |keys| && NoStray(keys, m)
    ensures NoStray(keys[slot := Tag(key)], m[key := 1])
  {
    forall k: U32 | k !in m[key := 1] && k != UNTAGGABLE
      ensures Tag(k) !in keys[slot := Tag(key)]
    {
      assert Tag(k) !in keys && Tag(k) != Tag(key);
    }
  }

  lemma NewKeyRefused(h: Hash, t: Table, m: map<U32, nat>, key: U32)
    requires Agrees(h, t, m) && key !in m && key != UNTAGGABLE && Full(m, |t.keys|)
    ensures Noted(h, t, key) == (t, 0)
  {
    if StopOf(h, t, key).Some? {
      assert t.keys[StopOf(h, t, key).value] in t.keys;
    }
  }

  /** The untaggable key takes no slot: it only bumps the count of the empty slot it stops at. */
  lemma UntaggableKeeps(h: Hash, t: Table, m: map<U32, nat>)
    requires Agrees(h, t, m)
    ensures Agrees(h, Noted(h, t, UNTAGGABLE).0, m)
  {
    var t' := Noted(h, t, UNTAGGABLE).0;
    assert t'.keys == t.keys && t'.used == t.used;
    forall k | k in m
      ensures Remembers(h, t', k, m[k])
    {
      assert Remembers(h, t, k, m[k]);
      assert StopOf(h, t', k) == StopOf(h, t, k);
    }
  }

  /** The table after the call agrees with the map after it, and so does the answer. */
  ghost predicate Answers(h: Hash, t: Table, m: map<U32, nat>, key: U32)
    requires Sized(t)
  {
    && Agrees(h, Noted(h, t, key).0, Admit(m, |t.keys|, key))
    && (key != UNTAGGABLE ==> Noted(h, t, key).1 == CountOf(Admit(m, |t.keys|, key), key) % 0x1_0000_0000)
  }

  lemma SeenAnswers(h: Hash, t: Table, m: map<U32, nat>, key: U32)
    requires Agrees(h, t, m) && key in m
    ensures Answers(h, t, m, key)
  {
    SeenAgain(h, t, m, key);
    assert Admit(m, |t.keys|, key) == m[key := m[key] + 1];
  }

  lemma NewAnswers(h: Hash, t: Table, m: map<U32, nat>, key: U32)
    requires Agrees(h, t, m) && key !in m && key != UNTAGGABLE && !Full(m, |t.keys|)
    ensures Answers(h, t, m, key)
  {
    NewKeyClaims(h, t, m, key);
    assert Admit(m, |t.keys|, key) == m[key := 1];
  }

  lemma OtherAnswers(h: Hash, t: Table, m: map<U32, nat>, key: U32)
    requires Agrees(h, t, m) && key !in m && (key == UNTAGGABLE || Full(m, |t.keys|))
    ensures Answers(h, t, m, key)
  {
    assert Admit(m, |t.keys|, key) == m;
    if key == UNTAGGABLE {
      UntaggableKeeps(h, t, m);
    } else {
      NewKeyRefused(h, t, m, key);
    }
  }

  /** One call answers what the map answers. */
  lemma NoteAgrees(h: Hash, t: Table, m: map<U32, nat>, key: U32)
    requires Agrees(h, t, m)
    ensures Answers(h, t, m, key)
  {
    if key in m {
      SeenAnswers(h, t, m, key);
    } else if key == UNTAGGABLE || Full(m, |t.keys|) {
      OtherAnswers(h, t, m, key);
    } else {
      NewAnswers(h, t, m, key);
    }
  }

  // ---- Whole call sequences ----

  function Run(h: Hash, slots: nat, calls: seq<U32>): (t: Table)
    requires slots > 0
    ensures Sized(t) && |t.keys| == slots
  {
    if calls == [] then Empty(slots) else Noted(h, Run(h, slots, calls[..|calls| - 1]), calls[|calls| - 1]).0
  }

  /** What the last of the calls returned. */
  function Answer(h: Hash, slots: nat, calls: seq<U32>): U32
    requires slots > 0 && calls != []
  {
    Noted(h, Run(h, slots, calls[..|calls| - 1]), calls[|calls| - 1]).1
  }

  function Admitted(slots: nat, calls: seq<U32>): map<U32, nat> {
    if calls == [] then map[] else Admit(Admitted(slots, calls[..|calls| - 1]), slots, calls[|calls| - 1])
  }

  function Times(calls: seq<U32>, key: U32): (n: nat)
    ensures n <= |calls|
  {
    if calls == [] then 0 else Times(calls[..|calls| - 1], key) + (if calls[|calls| - 1] == key then 1 else 0)
  }

  lemma {:induction false} RunAgrees(h: Hash, slots: nat, calls: seq<U32>)
    requires slots > 0
    ensures Agrees(h, Run(h, slots, calls), Admitted(slots, calls))
  {
    if calls == [] {
      EmptyAgrees(h, slots);
    } else {
      RunAgrees(h, slots, calls[..|calls| - 1]);
      NoteAgrees(h, Run(h, slots, calls[..|calls| - 1]), Admitted(slots, calls[..|calls| - 1]), calls[|calls| - 1]);
    }
  }

  /** An admitted key has been counted from its first call on. */
  lemma {:induction false} AdmittedCounts(slots: nat, calls: seq<U32>, key: U32)
    requires key != UNTAGGABLE
    ensures key in Admitted(slots, calls) ==> Admitted(slots, calls)[key] == Times(calls, key)
    ensures key !in Admitted(slots, calls) && Times(calls, key) > 0 ==> Full(Admitted(slots, calls), slots)
    ensures Times(calls, key) == 0 ==> key !in Admitted(slots, calls)
  {
    if calls != [] {
      var earlier := calls[..|calls| - 1];
      AdmittedCounts(slots, earlier, key);
      SizeGrows(Admitted(slots, earlier), slots, calls[|calls| - 1]);
    }
  }

  lemma SizeGrows(m: map<U32, nat>, slots: nat, key: U32)
    ensures |m| <= |Admit(m, slots, key)|
    ensures m.Keys <= Admit(m, slots, key).Keys
  {
    if key in m { SizeOf(m, key, m[key] + 1); } else { SizeOf(m, key, 1); }
  }

  /** Every call with a taggable key, in every sequence of fewer than 2^32 calls on a table of any size,
      answers exactly how often that key has been noted so far, or zero when the key was refused; calls
      with the untaggable key in between change nothing for the others. */
  lemma AnswersAreCounts(h: Hash, slots: nat, calls: seq<U32>)
    requires slots > 0 && 0 < |calls| < 0x1_0000_0000 && calls[|calls| - 1] != UNTAGGABLE
    ensures var key := calls[|calls| - 1];
            Answer(h, slots, calls) == if key in Admitted(slots, calls) then Times(calls, key) else 0
  {
    LastAnswer(h, slots, calls);
    AdmittedCounts(slots, calls, calls[|calls| - 1]);
    Unwrapped(CountOf(Admitted(slots, calls), calls[|calls| - 1]));
  }

  lemma Unwrapped(n: nat)
    ensures n < 0x1_0000_0000 ==> n % 0x1_0000_0000 == n
  {
  }

  lemma LastAnswer(h: Hash, slots: nat, calls: seq<U32>)
    requires slots > 0 && calls != [] && calls[|calls| - 1] != UNTAGGABLE
    ensures Answer(h, slots, calls) == CountOf(Admitted(slots, calls), calls[|calls| - 1]) % 0x1_0000_0000
  {
    var earlier, key := calls[..|calls| - 1], calls[|calls| - 1];
    RunAgrees(h, slots, earlier);
    NoteAgrees(h, Run(h, slots, earlier), Admitted(slots, earlier), key);
  }

  /** A key is refused exactly when it is first seen with three quarters of the slots taken, and it is
      refused in every later call. */
  lemma {:induction false} RefusedForever(slots: nat, calls: seq<U32>, later: seq<U32>, key: U32)
    requires slots > 0 && key != UNTAGGABLE && key !in Admitted(slots, calls) && Full(Admitted(slots, calls), slots)
    ensures key !in Admitted(slots, calls + later)
    ensures Full(Admitted(slots, calls + later), slots)
    decreases |later|
  {
    if later == [] {
      assert calls + later == calls;
    } else {
      var front := later[..|later| - 1];
      RefusedForever(slots, calls, front, key);
      assert (calls + later)[..|calls + later| - 1] == calls + front;
      SizeGrows(Admitted(slots, calls + front), slots, (calls + later)[|calls + later| - 1]);
    }
  }

  /** A key seen while there is room is remembered, in every later call too. */
  lemma {:induction false} RememberedForever(slots: nat, calls: seq<U32>, later: seq<U32>, key: U32)
    requires key in Admitted(slots, calls)
    ensures key in Admitted(slots, calls + later)
    decreases |later|
  {
    if later == [] {
      assert calls + later == calls;
    } else {
      var front := later[..|later| - 1];
      RememberedForever(slots, calls, front, key);
      assert (calls + later)[..|calls + later| - 1] == calls + front;
      SizeGrows(Admitted(slots, calls + front), slots, (calls + later)[|calls + later| - 1]);
    }
  }

  /** No more keys are admitted than the three-quarters rule allows. */
  lemma {:induction false} AdmittedBound(slots: nat, calls: seq<U32>)
    ensures |Admitted(slots, calls)| * 4 < slots * 3 + 4
  {
    if calls != [] {
      var m, key := Admitted(slots, calls[..|calls| - 1]), calls[|calls| - 1];
      AdmittedBound(slots, calls[..|calls| - 1]);
      if key in m { SizeOf(m, key, m[key] + 1); } else { SizeOf(m, key, 1); }
    }
  }

  // ---- The untaggable key ----

  /** The empty slot where probing for the untaggable key stops; its count is the only memory of that key. */
  function EmptyStop(h: Hash, t: Table): (r: Option<nat>)
    requires Sized(t)
    ensures r.Some? ==> r.value < |t.keys| && t.keys[r.value] == 0
  {
    StopOf(h, t, UNTAGGABLE)
  }

  /** The call takes that slot for a new key: the key stops there too, and there is room. */
  predicate Claims(h: Hash, t: Table, key: U32)
    requires Sized(t)
  {
    key != UNTAGGABLE && StopOf(h, t, key).Some? && StopOf(h, t, key) == EmptyStop(h, t) && t.used * 4 < |t.keys| * 3
  }

  function SinceNext(h: Hash, t: Table, key: U32, n: nat): nat
    requires Sized(t)
  {
    if Claims(h, t, key) then 0 else if key == UNTAGGABLE && EmptyStop(h, t).Some? then n + 1 else n
  }

  /** The calls with the untaggable key since its slot was last taken away. */
  function Since(h: Hash, slots: nat, calls: seq<U32>): (n: nat)
    requires slots > 0
    ensures n <= Times(calls, UNTAGGABLE)
  {
    if calls == [] then 0
    else
      var earlier, key := calls[..|calls| - 1], calls[|calls| - 1];
      SinceNext(h, Run(h, slots, earlier), key, Since(h, slots, earlier))
  }

  /** Every empty slot counts nothing, except the one where the untaggable key stops. */
  ghost predicate CountsOnly(h: Hash, t: Table, n: nat)
    requires Sized(t)
  {
    && (EmptyStop(h, t) == None ==> n == 0)
    && forall i :: 0 <= i < |t.keys| && t.keys[i] == 0 ==>
         t.counts[i] == if EmptyStop(h, t) == Some(i) then n % 0x1_0000_0000 else 0
  }

  lemma {:induction false} ClaimKeepsEmptyStop(keys: seq<U32>, slot: nat, left: nat, claimed: nat, other: U32)
    requires slot < |keys| && claimed < |keys| && other != 0
    requires Stop(keys, 0, slot, left).Some? && Stop(keys, 0, slot, left).value != claimed
    ensures Stop(keys[claimed := other], 0, slot, left) == Stop(keys, 0, slot, left)
    decreases left
  {
    if left > 0 && keys[slot] != 0 {
      ClaimKeepsEmptyStop(keys, Next(slot, |keys|), left - 1, claimed, other);
    }
  }

  /** A call that does not take the slot leaves it where the untaggable key stops. */
  lemma StopStays(h: Hash, t: Table, key: U32)
    requires Sized(t) && !Claims(h, t, key)
    ensures EmptyStop(h, Noted(h, t, key).0) == EmptyStop(h, t)
  {
    var t' := Noted(h, t, key).0;
    if t'.keys != t.keys {
      var slot := StopOf(h, t, key).value;
      assert t.keys[slot] == 0 && t'.keys == t.keys[slot := Tag(key)];
      if EmptyStop(h, t) == None {
        NoStopMeansTaken(t.keys, 0, Home(h, UNTAGGABLE, |t.keys|));
      } else {
        ClaimKeepsEmptyStop(t.keys, Home(h, UNTAGGABLE, |t.keys|), |t.keys|, slot, Tag(key));
      }
    }
  }

  lemma UntaggableCounts(h: Hash, t: Table, n: nat)
    requires Sized(t) && CountsOnly(h, t, n)
    ensures var (t', r) := Noted(h, t, UNTAGGABLE);
            var n' := SinceNext(h, t, UNTAGGABLE, n);
            CountsOnly(h, t', n') && r == n' % 0x1_0000_0000
  {
    StopStays(h, t, UNTAGGABLE);
    BumpedMod(n);
  }

  lemma NoteCountsOnly(h: Hash, t: Table, n: nat, key: U32)
    requires Sized(t) && CountsOnly(h, t, n)
    ensures CountsOnly(h, Noted(h, t, key).0, SinceNext(h, t, key, n))
  {
    if key == UNTAGGABLE {
      UntaggableCounts(h, t, n);
    } else if !Claims(h, t, key) {
      StopStays(h, t, key);
    }
  }

  lemma EmptyCountsOnly(h: Hash, slots: nat)
    requires slots > 0
    ensures CountsOnly(h, Empty(slots), 0)
  {
    assert EmptyStop(h, Empty(slots)) == Some(Home(h, UNTAGGABLE, slots));
  }

  lemma {:induction false} RunCountsOnly(h: Hash, slots: nat, calls: seq<U32>)
    requires slots > 0
    ensures CountsOnly(h, Run(h, slots, calls), Since(h, slots, calls))
  {
    hide CountsOnly, Noted, SinceNext;
    if calls == [] {
      EmptyCountsOnly(h, slots);
    } else {
      var earlier, key := calls[..|calls| - 1], calls[|calls| - 1];
      RunCountsOnly(h, slots, earlier);
      NoteCountsOnly(h, Run(h, slots, earlier), Since(h, slots, earlier), key);
    }
  }

  /** In every sequence of fewer than 2^32 calls on a table of any size, a call with the untaggable key
      answers how often it has been noted since another key last took its slot. */
  lemma UntaggableAnswers(h: Hash, slots: nat, calls: seq<U32>)
    requires slots > 0 && 0 < |calls| < 0x1_0000_0000 && calls[|calls| - 1] == UNTAGGABLE
    ensures Answer(h, slots, calls) == Since(h, slots, calls)
  {
    var earlier := calls[..|calls| - 1];
    RunCountsOnly(h, slots, earlier);
    UntaggableCounts(h, Run(h, slots, earlier), Since(h, slots, earlier));
    Unwrapped(Since(h, slots, calls));
  }

  /** Since its first call no key took the slot of the untaggable key. */
  ghost predicate Undisturbed(h: Hash, slots: nat, calls: seq<U32>)
    requires slots > 0
  {
    forall i :: 0 <= i < |calls| && UNTAGGABLE in calls[..i] ==> !Claims(h, Run(h, slots, calls[..i]), calls[i])
  }

  lemma {:induction false} TimesZero(calls: seq<U32>, key: U32)
    ensures Times(calls, key) == 0 <==> key !in calls
  {
    if calls != [] {
      var earlier := calls[..|calls| - 1];
      TimesZero(earlier, key);
      assert calls == earlier + [calls[|calls| - 1]];
    }
  }

  lemma UndisturbedMore(h: Hash, slots: nat, calls: seq<U32>)
    requires slots > 0 && calls != []
    ensures var earlier, key := calls[..|calls| - 1], calls[|calls| - 1];
            Undisturbed(h, slots, calls) <==>
            Undisturbed(h, slots, earlier) && (UNTAGGABLE in earlier ==> !Claims(h, Run(h, slots, earlier), key))
  {
    var earlier := calls[..|calls| - 1];
    assert forall i :: 0 <= i < |earlier| ==> earlier[..i] == calls[..i] && earlier[i] == calls[i];
  }

  /** While the slot exists, all calls were counted exactly when nothing disturbed them. */
  lemma {:induction false} SinceIsTimes(h: Hash, slots: nat, calls: seq<U32>)
    requires slots > 0 && EmptyStop(h, Run(h, slots, calls)).Some?
    ensures Since(h, slots, calls) == Times(calls, UNTAGGABLE) <==> Undisturbed(h, slots, calls)
  {
    if calls != [] {
      var earlier, key := calls[..|calls| - 1], calls[|calls| - 1];
      UndisturbedMore(h, slots, calls);
      TimesZero(earlier, UNTAGGABLE);
      if Claims(h, Run(h, slots, earlier), key) {
        if UNTAGGABLE !in earlier {
          assert forall i :: 0 <= i < |earlier| ==> UNTAGGABLE !in earlier[..i];
        }
      } else {
        StopStays(h, Run(h, slots, earlier), key);
        SinceIsTimes(h, slots, earlier);
      }
    }
  }

  /** A call with the untaggable key answers its true number exactly when an empty slot is left for it and
      no key noted since its first call took that slot. */
  lemma UntaggableExact(h: Hash, slots: nat, calls: seq<U32>)
    requires slots > 0 && 0 < |calls| < 0x1_0000_0000 && calls[|calls| - 1] == UNTAGGABLE
    ensures var earlier := calls[..|calls| - 1];
            Answer(h, slots, calls) == Times(calls, UNTAGGABLE) <==>
            EmptyStop(h, Run(h, slots, earlier)).Some? && Undisturbed(h, slots, earlier)
  {
    var earlier := calls[..|calls| - 1];
    UntaggableAnswers(h, slots, calls);
    RunCountsOnly(h, slots, earlier);
    if EmptyStop(h, Run(h, slots, earlier)).Some? {
      SinceIsTimes(h, slots, earlier);
    }
  }

  /** With one slot: noted once, another key takes the slot, and the second call answers nothing. */
  lemma UntaggableForgotten(h: Hash)
    ensures Answer(h, 1, [UNTAGGABLE]) == 1
    ensures Answer(h, 1, [UNTAGGABLE, 5]) == 1
    ensures Answer(h, 1, [UNTAGGABLE, 5, UNTAGGABLE]) == 0
  {
    var none: seq<U32> := [];
    var one: seq<U32> := [UNTAGGABLE];
    var two: seq<U32> := [UNTAGGABLE, 5];
    var three: seq<U32> := [UNTAGGABLE, 5, UNTAGGABLE];
    assert one[..0] == none && two[..1] == one && three[..2] == two;
    assert Home(h, UNTAGGABLE, 1) == 0 && Home(h, 5, 1) == 0;
    var t0, t1, t2 := Table([0], [0], 0), Table([0], [1], 0), Table([6], [1], 1);
    assert Run(h, 1, none) == t0;
    assert Stop(t0.keys, 0, 0, 1) == Some(0);
    assert t0.counts[0 := 1] == t1.counts;
    assert NotedAt(t0, UNTAGGABLE, 0) == (t1, 1);
    assert Noted(h, t0, UNTAGGABLE) == (t1, 1);
    assert Stop(t1.keys, 6, 0, 1) == Some(0);
    assert t1.keys[0 := 6] == t2.keys && t1.counts[0 := 1] == t2.counts;
    assert NotedAt(t1, 5, 0) == (t2, 1);
    assert Noted(h, t1, 5) == (t2, 1);
    assert Stop(t2.keys, 0, 0, 1) == None;
  }
}
