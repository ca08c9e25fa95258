/** Aligned 32-bit stores into the video-memory BAR, with fences and forced stops.
    A store is visible to later loads at once, but it is durable only after the next fence:
    a stop may keep any subset of the stores issued since the last fence. */
module BarStore {
  import opened Options
  import opened Bits

  type Word = U32

  /** Dword index of the state field in every wire record: magic, magic, version, state. */
  const STATE: nat := 3

  datatype Op = Store(index: nat, value: Word) | Fence

  /** `current` is what loads return, `durable` what the last fence made permanent and
      `pending` every store since then. */
  datatype Vram = Vram(current: seq<Word>, durable: seq<Word>, pending: set<(nat, Word)>)

  function Settled(words: seq<Word>): Vram {
    Vram(words, words, {})
  }

  function Apply(v: Vram, op: Op): (r: Vram)
    ensures |r.current| == |v.current| && (|v.durable| == |v.current| ==> |r.durable| == |r.current|)
  {
    match op
    case Store(i, w) =>
      if i < |v.current| then Vram(v.current[i := w], v.durable, v.pending + {(i, w)}) else v
    case Fence => Settled(v.current)
  }

  function Run(v: Vram, ops: seq<Op>): (r: Vram)
    ensures |r.current| == |v.current| && (|v.durable| == |v.current| ==> |r.durable| == |r.current|)
  {
    if ops == [] then v else Apply(Run(v, ops[..|ops| - 1]), ops[|ops| - 1])
  }

  /** An image a stop may leave: each dword keeps its durable value or takes one pending store.
      This is every subset of the open epoch, landing in any order. */
  ghost predicate CrashImage(v: Vram, image: seq<Word>) {
    && |image| == |v.durable|
    && forall i :: 0 <= i < |image| ==> image[i] == v.durable[i] || (i, image[i]) in v.pending
  }

  lemma {:induction false} RunConcat(v: Vram, a: seq<Op>, b: seq<Op>)
    ensures Run(v, a + b) == Run(Run(v, a), b)
  {
    if b == [] {
      assert a + b == a;
    } else {
      var last := |b| - 1;
      assert (a + b)[..|a + b| - 1] == a + b[..last];
      RunConcat(v, a, b[..last]);
    }
  }

  lemma RunSnoc(v: Vram, ops: seq<Op>, k: nat)
    requires k < |ops|
    ensures Run(v, ops[..k + 1]) == Apply(Run(v, ops[..k]), ops[k])
  {
    assert ops[..k + 1][..k] == ops[..k];
  }

  // ---- Commit programs ----

  /** The body stores in ascending dword order, skipping the state word. */
  function BodyOps(words: seq<Word>, n: nat): (ops: seq<Op>)
    requires n <= |words|
    ensures |ops| == if n > STATE then n - 1 else n
  {
    if n == 0 then []
    else BodyOps(words, n - 1) + (if n - 1 == STATE then [] else [Store(n - 1, words[n - 1])])
  }

  /** Every record publication: a marker in the state word, the body, then the final state word,
      each closed by a fence. */
  function CommitOps(words: seq<Word>, marker: Word): (ops: seq<Op>)
    requires |words| > STATE
    ensures |ops| == |words| + 4
  {
    [Store(STATE, marker), Fence] + BodyOps(words, |words|) + [Fence, Store(STATE, words[STATE]), Fence]
  }

  /** The words with the state word already replaced by the marker, as they stand while the body is open. */
  function Marked(words: seq<Word>, marker: Word): (r: seq<Word>)
    requires |words| > STATE
    ensures |r| == |words| && r[STATE] == marker
  {
    words[STATE := marker]
  }

  function Overlay(m: seq<Word>, words: seq<Word>, n: nat): (r: seq<Word>)
    requires n <= |words| == |m|
    ensures |r| == |m|
  {
    seq(|m|, i requires 0 <= i < |m| => if i < n && i != STATE then words[i] else m[i])
  }

  /** No store to the state word is waiting for a fence. */
  ghost predicate StateQuiet(v: Vram) {
    forall p :: p in v.pending ==> p.0 != STATE
  }

  lemma BodyStep(v: Vram, m: seq<Word>, words: seq<Word>, n: nat)
    requires |words| == |m| && n < |words| && n != STATE
    requires v.current == Overlay(m, words, n) && StateQuiet(v)
    ensures var r := Apply(v, Store(n, words[n]));
            r.current == Overlay(m, words, n + 1) && r.durable == v.durable && StateQuiet(r)
  {
    assert Overlay(m, words, n + 1) == Overlay(m, words, n)[n := words[n]];
  }

  lemma RunOne(v: Vram, ops: seq<Op>, op: Op)
    ensures Run(v, ops + [op]) == Apply(Run(v, ops), op)
  {
    assert (ops + [op])[..|ops|] == ops;
  }

  /** The body of `n` words has been stored, and nothing of it is known to be durable. */
  ghost predicate BodyDone(v: Vram, m: seq<Word>, words: seq<Word>, n: nat)
    requires |words| == |m| && n <= |words|
  {
    v.current == Overlay(m, words, n) && v.durable == m && StateQuiet(v)
  }

  lemma BodyMore(v: Vram, m: seq<Word>, words: seq<Word>, n: nat, ops: seq<Op>)
    requires |words| == |m| > STATE && n < |words| && n != STATE
    requires v == Run(Settled(m), ops) && BodyDone(v, m, words, n)
    ensures BodyDone(Run(Settled(m), ops + [Store(n, words[n])]), m, words, n + 1)
  {
    RunOne(Settled(m), ops, Store(n, words[n]));
    BodyStep(v, m, words, n);
  }

  lemma BodySkips(v: Vram, m: seq<Word>, words: seq<Word>)
    requires |words| == |m| > STATE && BodyDone(v, m, words, STATE)
    ensures BodyDone(v, m, words, STATE + 1)
  {
    assert Overlay(m, words, STATE + 1) == Overlay(m, words, STATE);
  }

  lemma BodyStarts(m: seq<Word>, words: seq<Word>)
    requires |words| == |m|
    ensures BodyOps(words, 0) == [] && BodyDone(Run(Settled(m), []), m, words, 0)
  {
    assert Overlay(m, words, 0) == m;
  }

  lemma {:induction false} BodyRun(m: seq<Word>, words: seq<Word>, n: nat)
    requires |words| == |m| > STATE && n <= |words|
    ensures BodyDone(Run(Settled(m), BodyOps(words, n)), m, words, n)
  {
    if n == 0 {
      BodyStarts(m, words);
    } else {
      var ops := BodyOps(words, n - 1);
      BodyRun(m, words, n - 1);
      if n - 1 == STATE {
        assert BodyOps(words, n) == ops;
        BodySkips(Run(Settled(m), ops), m, words);
      } else {
        BodyMore(Run(Settled(m), ops), m, words, n - 1, ops);
        assert BodyOps(words, n) == ops + [Store(n - 1, words[n - 1])];
      }
    }
  }

  /** The word that is next after `k` body stores. */
  function NextWord(k: nat): nat {
    if k <= STATE then k else k + 1
  }

  /** A body cut short is the body of fewer words. */
  lemma {:induction false} BodyPrefix(words: seq<Word>, n: nat, k: nat)
    requires n <= |words| && k <= |BodyOps(words, n)|
    ensures NextWord(k) <= n && BodyOps(words, n)[..k] == BodyOps(words, NextWord(k))
  {
    var ops := BodyOps(words, n);
    if k == |ops| {
      assert ops[..k] == ops;
      if n == STATE + 1 {
        assert BodyOps(words, n) == BodyOps(words, STATE);
      }
    } else {
      BodyPrefix(words, n - 1, k);
      assert ops[..k] == BodyOps(words, n - 1)[..k];
    }
  }

  /** The marker is durable once the opening store is fenced. */
  lemma CommitHead(m: seq<Word>, marker: Word)
    requires |m| > STATE
    ensures Run(Settled(m), [Store(STATE, marker)]) == Vram(Marked(m, marker), m, {(STATE, marker)})
    ensures Run(Settled(m), [Store(STATE, marker), Fence]) == Settled(Marked(m, marker))
  {
    RunOne(Settled(m), [], Store(STATE, marker));
    RunOne(Settled(m), [Store(STATE, marker)], Fence);
    assert [] + [Store(STATE, marker)] == [Store(STATE, marker)];
    assert [Store(STATE, marker)] + [Fence] == [Store(STATE, marker), Fence];
  }

  /** The body leaves everything but the state word new, and the closing store the state word too. */
  lemma CommitTail(m: seq<Word>, words: seq<Word>)
    requires |words| == |m| > STATE
    ensures var body, marked := BodyOps(words, |words|), words[STATE := m[STATE]];
            && Run(Settled(m), body + [Fence]) == Settled(marked)
            && Run(Settled(m), body + [Fence] + [Store(STATE, words[STATE])]) ==
                 Vram(words, marked, {(STATE, words[STATE])})
            && Run(Settled(m), body + [Fence] + [Store(STATE, words[STATE])] + [Fence]) == Settled(words)
  {
    var body := BodyOps(words, |words|);
    var marked := words[STATE := m[STATE]];
    BodyRun(m, words, |words|);
    assert Overlay(m, words, |words|) == marked;
    assert marked[STATE := words[STATE]] == words;
    RunOne(Settled(m), body, Fence);
    RunOne(Settled(m), body + [Fence], Store(STATE, words[STATE]));
    RunOne(Settled(m), body + [Fence] + [Store(STATE, words[STATE])], Fence);
  }

  /** While the body is open, the marker is durable and no store to the state word is pending. */
  lemma CommitOpen(m: seq<Word>, words: seq<Word>, marker: Word, k: nat)
    requires |words| == |m| > STATE && 2 <= k < |words| + 2
    ensures var v := Run(Settled(m), CommitOps(words, marker)[..k]);
            v.durable == Marked(m, marker) && v.current[STATE] == marker && StateQuiet(v)
  {
    var body := BodyOps(words, |words|);
    var head := [Store(STATE, marker), Fence];
    assert CommitOps(words, marker)[..k] == head + body[..k - 2];
    RunConcat(Settled(m), head, body[..k - 2]);
    CommitHead(m, marker);
    BodyPrefix(words, |words|, k - 2);
    BodyRun(Marked(m, marker), words, NextWord(k - 2));
  }

  /** The last three operations. */
  lemma CommitClose(m: seq<Word>, words: seq<Word>, marker: Word, k: nat)
    requires |words| == |m| > STATE && |words| + 2 <= k <= |words| + 4
    ensures var v := Run(Settled(m), CommitOps(words, marker)[..k]);
            && (k == |words| + 2 ==> v == Settled(Marked(words, marker)))
            && (k == |words| + 3 ==> v == Vram(words, Marked(words, marker), {(STATE, words[STATE])}))
            && (k == |words| + 4 ==> v == Settled(words))
  {
    var body := BodyOps(words, |words|);
    var head := [Store(STATE, marker), Fence];
    var tail := if k == |words| + 2 then body + [Fence]
                else if k == |words| + 3 then body + [Fence] + [Store(STATE, words[STATE])]
                else body + [Fence] + [Store(STATE, words[STATE])] + [Fence];
    assert CommitOps(words, marker)[..k] == head + tail;
    RunConcat(Settled(m), head, tail);
    CommitHead(m, marker);
    CommitTail(Marked(m, marker), words);
  }

  /** The stages of a commit program, as the memory it leaves after its first `k` operations. */
  lemma CommitStages(m: seq<Word>, words: seq<Word>, marker: Word, k: nat)
    requires |words| == |m| > STATE && k <= |CommitOps(words, marker)|
    ensures var v := Run(Settled(m), CommitOps(words, marker)[..k]);
            var n := |words| + 4;
            && |v.durable| == |m|
            && (k == 0 ==> v == Settled(m))
            && (k == 1 ==> v == Vram(Marked(m, marker), m, {(STATE, marker)}))
            && (2 <= k < n - 2 ==> v.durable == Marked(m, marker) && v.current[STATE] == marker && StateQuiet(v))
            && (k == n - 2 ==> v == Settled(Marked(words, marker)))
            && (k == n - 1 ==> v == Vram(words, Marked(words, marker), {(STATE, words[STATE])}))
            && (k == n ==> v == Settled(words))
  {
    var ops := CommitOps(words, marker);
    if k == 1 {
      assert ops[..1] == [Store(STATE, marker)];
      CommitHead(m, marker);
    } else if 2 <= k < |words| + 2 {
      CommitOpen(m, words, marker, k);
    } else if k >= |words| + 2 {
      CommitClose(m, words, marker, k);
    }
  }

  /** A commit program is its opening and then its body and its closing. */
  lemma CommitParts(v: Vram, words: seq<Word>, marker: Word)
    requires |words| > STATE
    ensures var head := [Store(STATE, marker), Fence];
            var tail := BodyOps(words, |words|) + [Fence] + [Store(STATE, words[STATE])] + [Fence];
            && head + tail == CommitOps(words, marker) && CommitOps(words, marker)[..2] == head
            && Run(v, CommitOps(words, marker)) == Run(Run(v, head), tail)
  {
    var head := [Store(STATE, marker), Fence];
    var tail := BodyOps(words, |words|) + [Fence] + [Store(STATE, words[STATE])] + [Fence];
    assert head + tail == CommitOps(words, marker);
    RunConcat(v, head, tail);
  }

  /** Cut a commit program anywhere: the image is the untouched old record, or it still carries
      the marker, or it is the complete new record. */
  lemma CommitCrashSafe(m: seq<Word>, words: seq<Word>, marker: Word, k: nat, image: seq<Word>)
    requires |words| == |m| > STATE && k <= |CommitOps(words, marker)|
    requires CrashImage(Run(Settled(m), CommitOps(words, marker)[..k]), image)
    ensures |image| == |m|
    ensures image == m || image[STATE] == marker || image == words
    ensures k == 0 ==> image == m
    ensures 2 <= k < |CommitOps(words, marker)| - 1 ==> image[STATE] == marker
    ensures k == |CommitOps(words, marker)| ==> image == words
  {
    CommitStages(m, words, marker, k);
  }

  /** The commit program really commits: uncut, the new record is durable and is what loads return. */
  lemma CommitCompletes(m: seq<Word>, words: seq<Word>, marker: Word)
    requires |words| == |m| > STATE
    ensures Run(Settled(m), CommitOps(words, marker)) == Settled(words)
  {
    var ops := CommitOps(words, marker);
    CommitStages(m, words, marker, |ops|);
    assert ops[..|ops|] == ops;
  }

  /** What a publication from settled memory can leave behind, given only that it stopped somewhere. */
  ghost predicate CommitResidue(m: seq<Word>, words: seq<Word>, marker: Word, v: Vram)
    requires |words| == |m| > STATE
  {
    exists k: nat {:trigger CommitOps(words, marker)[..k]} ::
      k <= |CommitOps(words, marker)| && v == Run(Settled(m), CommitOps(words, marker)[..k])
  }

  /** clearRecord is not a commit program: the zeroes share one epoch, so a stop can leave the
      old state word over a cleared body. */
  function ClearOps(n: nat): (ops: seq<Op>)
    ensures |ops| == n
  {
    if n == 0 then [] else ClearOps(n - 1) + [Store(n - 1, 0)]
  }

  lemma {:induction false} ClearRun(m: seq<Word>, n: nat)
    requires n <= |m|
    ensures var v := Run(Settled(m), ClearOps(n));
            && v.durable == m
            && |v.current| == |m|
            && (forall i :: 0 <= i < |m| ==> v.current[i] == if i < n then 0 else m[i])
            && (forall i: nat, w: Word :: (i, w) in v.pending <==> i < n && w == 0)
  {
    if n > 0 {
      ClearRun(m, n - 1);
      RunOne(Settled(m), ClearOps(n - 1), Store(n - 1, 0));
    }
  }

  function ClearProgram(n: nat): (ops: seq<Op>)
    ensures |ops| == n + 1
  {
    ClearOps(n) + [Fence]
  }

  lemma {:induction false} ClearPrefix(n: nat, k: nat)
    requires k <= n
    ensures ClearProgram(n)[..k] == ClearOps(k)
  {
    if k < n {
      ClearPrefix(n - 1, k);
      assert ClearProgram(n)[..k] == ClearProgram(n - 1)[..k];
    } else {
      assert ClearProgram(n)[..n] == ClearOps(n);
    }
  }

  /** Every dword is the old one or zero. */
  predicate PartlyCleared(m: seq<Word>, image: seq<Word>) {
    |image| == |m| && forall i :: 0 <= i < |m| ==> image[i] == m[i] || image[i] == 0
  }

  /** A clear of settled memory `m`, cut off after any of its operations, leaves `image`. */
  ghost predicate ClearedImage(m: seq<Word>, image: seq<Word>) {
    exists k: nat {:trigger ClearProgram(|m|)[..k]} ::
      k <= |m| + 1 && CrashImage(Run(Settled(m), ClearProgram(|m|)[..k]), image)
  }

  lemma ClearStage(m: seq<Word>, k: nat, image: seq<Word>)
    requires k <= |m| + 1 && CrashImage(Run(Settled(m), ClearProgram(|m|)[..k]), image)
    ensures PartlyCleared(m, image)
  {
    if k <= |m| {
      ClearPrefix(|m|, k);
      ClearRun(m, k);
    } else {
      assert ClearProgram(|m|)[..k] == ClearOps(|m|) + [Fence];
      ClearRun(m, |m|);
      RunOne(Settled(m), ClearOps(|m|), Fence);
    }
  }

  /** An interrupted clear can leave exactly the images whose every dword is the old one or zero. */
  lemma ClearCrashImages(m: seq<Word>, image: seq<Word>)
    ensures ClearedImage(m, image) <==> PartlyCleared(m, image)
  {
    if ClearedImage(m, image) {
      var k: nat :| k <= |m| + 1 && CrashImage(Run(Settled(m), ClearProgram(|m|)[..k]), image);
      ClearStage(m, k, image);
    }
    if PartlyCleared(m, image) {
      ClearPrefix(|m|, |m|);
      ClearRun(m, |m|);
      assert CrashImage(Run(Settled(m), ClearProgram(|m|)[..|m|]), image);
    }
  }

  /** A clear is crash safe exactly for a record that is not committed, or has nothing but its state word. */
  lemma ClearSafeIff(m: seq<Word>)
    requires |m| > STATE
    ensures (forall image :: ClearedImage(m, image) ==> image == m || image[STATE] == 0) <==>
            m[STATE] == 0 || forall i :: 0 <= i < |m| && i != STATE ==> m[i] == 0
  {
    forall image: seq<Word>
      ensures ClearedImage(m, image) <==> PartlyCleared(m, image)
    {
      ClearCrashImages(m, image);
    }
    if i :| 0 <= i < |m| && i != STATE && m[i] != 0 {
      assert PartlyCleared(m, m[i := 0]) && m[i := 0][i] != m[i];
    } else {
      assert forall image :: PartlyCleared(m, image) && image[STATE] != 0 ==> image == m || m[STATE] == 0;
    }
  }

  // ---- The BAR itself ----

  /** The next loads, one for each of the words, return those words or what the memory holds. */
  predicate Truthful(faults: seq<Option<Word>>, words: seq<Word>) {
    forall i :: 0 <= i < |words| && i < |faults| && faults[i].Some? ==> faults[i].value == words[i]
  }

  lemma TruthfulMore(faults: seq<Option<Word>>, w: Word, words: seq<Word>)
    ensures Truthful(faults, [w] + words) <==>
            (faults != [] && faults[0].Some? ==> faults[0].value == w) && Truthful(Unheard(faults, 1), words)
  {
    var later := Unheard(faults, 1);
    assert forall i :: 1 <= i < |faults| ==> faults[i] == later[i - 1];
    assert forall i :: 0 <= i < |words| ==> ([w] + words)[i + 1] == words[i];
    assert forall i :: 0 <= i < |later| ==> later[i] == faults[i + 1];
  }

  /** The script after `n` loads. */
  function Unheard(faults: seq<Option<Word>>, n: nat): seq<Option<Word>> {
    if n <= |faults| then faults[n..] else []
  }

  /** The mapped BAR. `log` is every store and fence issued; `faults` scripts loads that return
      something other than what was stored (a rejected or dropped access). */
  class Bar {
    var vram: Vram
    var log: seq<Op>
    var faults: seq<Option<Word>>

    ghost predicate Valid()
      reads this
    {
      |vram.durable| == |vram.current|
    }

    constructor (words: seq<Word>, faults: seq<Option<Word>>)
      ensures Valid() && vram == Settled(words) && log == [] && this.faults == faults
    {
      this.vram := Settled(words);
      this.log := [];
      this.faults := faults;
    }

    method Write(i: nat, w: Word)
      requires Valid()
      modifies this`vram, this`log
      ensures Valid() && log == old(log) + [Store(i, w)] && vram == Apply(old(vram), Store(i, w))
    {
      vram := Apply(vram, Store(i, w));
      log := log + [Store(i, w)];
    }

    method Drain()
      requires Valid()
      modifies this`vram, this`log
      ensures Valid() && log == old(log) + [Fence] && vram == Apply(old(vram), Fence)
    {
      vram := Apply(vram, Fence);
      log := log + [Fence];
    }

    method Read(i: nat) returns (w: Word)
      requires Valid() && i < |vram.current|
      modifies this`faults
      ensures w == if old(faults) != [] && old(faults)[0].Some? then old(faults)[0].value else vram.current[i]
      ensures faults == if old(faults) == [] then [] else old(faults)[1..]
    {
      w := vram.current[i];
      if |faults| > 0 {
        if faults[0].Some? {
          w := faults[0].value;
        }
        faults := faults[1..];
      }
    }

    /** The operations issued since `before`, from the memory `start`. */
    twostate predicate Issued(ops: seq<Op>)
      reads this
    {
      log == old(log) + ops && vram == Run(old(vram), ops)
    }

    /** The body stores of a publication, in ascending order and skipping the state word. */
    method WriteBody(words: seq<Word>)
      requires Valid() && |words| == |vram.current|
      modifies this`vram, this`log
      ensures Valid() && Issued(BodyOps(words, |words|))
    {
      var i := 0;
      while i < |words|
        invariant i <= |words|
        invariant Valid() && |vram.current| == |words|
        invariant Issued(BodyOps(words, i))
      {
        if i != STATE {
          Write(i, words[i]);
          RunOne(old(vram), BodyOps(words, i), Store(i, words[i]));
        } else {
          assert BodyOps(words, i + 1) == BodyOps(words, i);
        }
        i := i + 1;
      }
    }

    /** The body stores, the commit store and the readback that every publication shares. */
    method FinishCommit(words: seq<Word>) returns (ok: bool)
      requires Valid() && |words| == |vram.current| > STATE
      requires vram == Settled(vram.current)
      modifies this
      ensures Valid() && vram == Settled(words)
      ensures Issued(BodyOps(words, |words|) + [Fence] + [Store(STATE, words[STATE])] + [Fence])
      ensures ok <==> Truthful(old(faults), words)
      ensures ok ==> faults == Unheard(old(faults), |words|)
    {
      ghost var v0 := vram;
      ghost var body := BodyOps(words, |words|);
      WriteBody(words);
      Drain();
      Write(STATE, words[STATE]);
      Drain();
      RunOne(v0, body, Fence);
      RunOne(v0, body + [Fence], Store(STATE, words[STATE]));
      RunOne(v0, body + [Fence] + [Store(STATE, words[STATE])], Fence);
      CommitTail(v0.current, words);
      ok := Matches(words);
    }

    /** The readback loop at the end of every publication. */
    method Matches(words: seq<Word>) returns (ok: bool)
      requires Valid() && vram.current == words
      modifies this`faults
      ensures ok <==> Truthful(old(faults), words)
      ensures ok ==> faults == Unheard(old(faults), |words|)
    {
      ok := true;
      var i := 0;
      while i < |words| && ok
        invariant i <= |words|
        invariant ok ==> faults == Unheard(old(faults), i) && Truthful(old(faults), words[..i])
        invariant !ok ==> !Truthful(old(faults), words)
      {
        var w := Read(i);
        ok := w == words[i];
        i := i + 1;
      }
      assert words[..|words|] == words;
    }

    /** The opening store and its fence. */
    method OpenCommit(words: seq<Word>, marker: Word)
      requires Valid() && |words| == |vram.current| > STATE
      modifies this`vram, this`log
      ensures Valid() && vram == Settled(Marked(old(vram.current), marker))
      ensures Issued([Store(STATE, marker), Fence])
    {
      Write(STATE, marker);
      Drain();
      RunOne(old(vram), [], Store(STATE, marker));
      RunOne(old(vram), [Store(STATE, marker)], Fence);
      assert [] + [Store(STATE, marker)] == [Store(STATE, marker)];
      assert [Store(STATE, marker)] + [Fence] == [Store(STATE, marker), Fence];
    }

    /** publishRecord: the state word is zeroed first and written last. */
    method PublishRecord(words: seq<Word>) returns (ok: bool)
      requires Valid() && |words| == |vram.current| > STATE
      modifies this
      ensures Valid() && Issued(CommitOps(words, 0))
      ensures vram == Settled(words)
      ensures ok <==> Truthful(old(faults), words)
    {
      CommitParts(vram, words, 0);
      OpenCommit(words, 0);
      ok := FinishCommit(words);
    }

    /** A lifetime publication past its guard: the marker is read back before the body is touched. */
    method CommitChecked(words: seq<Word>, marker: Word) returns (ok: bool)
      requires Valid() && |words| == |vram.current| > STATE
      modifies this
      ensures Valid() && |vram.current| == |words|
      ensures Issued(CommitOps(words, marker)[..2]) || Issued(CommitOps(words, marker))
      ensures ok ==> Issued(CommitOps(words, marker)) && vram == Settled(words)
      ensures ok <==> Truthful(old(faults), [marker] + words)
    {
      CommitParts(vram, words, marker);
      TruthfulMore(faults, marker, words);
      hide CommitOps, BodyOps, Run, Truthful;
      OpenCommit(words, marker);
      var state := Read(STATE);
      if state != marker {
        return false;
      }
      ok := FinishCommit(words);
    }

    method ZeroAll()
      requires Valid()
      modifies this
      ensures Valid() && Issued(ClearOps(|old(vram.current)|)) && faults == old(faults)
      ensures |vram.current| == |old(vram.current)| && forall j :: 0 <= j < |vram.current| ==> vram.current[j] == 0
    {
      ghost var v0 := vram;
      var n := |vram.current|;
      var i := 0;
      while i < n
        invariant i <= n == |vram.current| == |v0.current|
        invariant Valid() && log == old(log) + ClearOps(i) && vram == Run(v0, ClearOps(i))
        invariant forall j :: 0 <= j < i ==> vram.current[j] == 0
        invariant faults == old(faults)
      {
        Write(i, 0);
        RunOne(v0, ClearOps(i), Store(i, 0));
        i := i + 1;
      }
    }

    /** clearRecord: every dword zeroed, then one fence. */
    method ClearRecord() returns (ok: bool)
      requires Valid()
      modifies this
      ensures Valid() && Issued(ClearProgram(|old(vram.current)|))
      ensures ok <==> Truthful(old(faults), seq(|old(vram.current)|, _ => 0))
      ensures ok ==> faults == Unheard(old(faults), |old(vram.current)|)
    {
      ghost var v0 := vram;
      var n := |vram.current|;
      ZeroAll();
      Drain();
      RunOne(v0, ClearOps(n), Fence);
      ok := Matches(seq(n, _ => 0));
    }
  }
}
