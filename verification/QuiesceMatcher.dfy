/** The streaming matcher that recognises the host's request to stop, one received byte at a time. */
module QuiesceMatcher {
  import opened Options
  import opened Bits

  const TOKEN := "RGPUQ2\n"

  /** The last `k` characters of the stream are the first `k` of the token. */
  predicate EndsWith(stream: string, token: string, k: nat) {
    k <= |stream| && k <= |token| && stream[|stream| - k..] == token[..k]
  }

  ghost predicate Occurs(stream: string, token: string) {
    exists n: nat :: n <= |stream| && EndsWith(stream[..n], token, |token|)
  }

  /** `k` is how much of the token the stream has most recently spelled. */
  predicate Spelled(stream: string, token: string, k: nat) {
    EndsWith(stream, token, k) && forall j :: k < j <= |token| ==> !EndsWith(stream, token, j)
  }

  /** What one more byte does to the match. */
  function Advance(token: string, k: nat, c: char): nat
    requires k < |token|
  {
    if c == token[k] then k + 1 else if c == token[0] then 1 else 0
  }

  lemma EndsWithOneMore(stream: string, token: string, c: char, j: nat)
    requires 0 < j <= |token|
    ensures EndsWith(stream + [c], token, j) <==> EndsWith(stream, token, j - 1) && c == token[j - 1]
  {
    if j <= |stream| + 1 {
      var tail := (stream + [c])[|stream| + 1 - j..];
      assert tail == stream[|stream| - (j - 1)..] + [c];
      assert token[..j] == token[..j - 1] + [token[j - 1]];
      if tail == token[..j] {
        assert tail[..j - 1] == token[..j - 1] && tail[j - 1] == token[j - 1];
      }
    }
  }

  /** When the first character occurs nowhere else, no stream ends with two different spellings. */
  lemma SpellingsExclude(stream: string, token: string, j: nat, k: nat)
    requires 0 < j < k <= |token| && token[0] !in token[1..] && EndsWith(stream, token, k)
    ensures !EndsWith(stream, token, j)
  {
    var tail := stream[|stream| - k..];
    assert token[k - j] == token[1..][k - j - 1];
    assert tail[k - j] == token[k - j] && tail[k - j..] == stream[|stream| - j..];
  }

  /** Falling back to one character, or none, never loses an occurrence, because the token's first
      character occurs nowhere else in it. */
  lemma AdvanceExact(stream: string, token: string, k: nat, c: char)
    requires k < |token| && token[0] !in token[1..] && Spelled(stream, token, k)
    ensures Spelled(stream + [c], token, Advance(token, k, c))
  {
    forall j | 0 < j <= |token|
      ensures EndsWith(stream + [c], token, j) ==>
                if c == token[k] then j <= k + 1 else j == 1 && c == token[0]
      ensures EndsWith(stream + [c], token, j) <==> EndsWith(stream, token, j - 1) && c == token[j - 1]
    {
      EndsWithOneMore(stream, token, c, j);
      if EndsWith(stream, token, j - 1) && c == token[j - 1] && 1 < j <= k {
        SpellingsExclude(stream, token, j - 1, k);
      }
    }
    assert EndsWith(stream, token, 0) && EndsWith(stream + [c], token, 0);
  }

  /** An occurrence of the token in the longer stream is an old one or ends with the new character. */
  lemma OccursOneMore(stream: string, token: string, c: char)
    ensures Occurs(stream + [c], token) <==> Occurs(stream, token) || EndsWith(stream + [c], token, |token|)
  {
    var longer := stream + [c];
    assert longer[..|longer|] == longer;
    forall n: nat | n <= |stream|
      ensures longer[..n] == stream[..n]
    {
    }
    if n: nat :| n <= |longer| && EndsWith(longer[..n], token, |token|) && n <= |stream| {
      assert EndsWith(stream[..n], token, |token|);
    }
    if n: nat :| n <= |stream| && EndsWith(stream[..n], token, |token|) {
      assert EndsWith(longer[..n], token, |token|);
    }
  }

  /** The first `n` bytes the device hands out. */
  function Handed(device: nat -> Option<char>, n: nat): string
    requires forall i: nat :: i < n ==> device(i).Some?
  {
    seq(n, (i: nat) requires i < n => device(i).value)
  }

  predicate Received(before: string, after: string, device: nat -> Option<char>, n: nat) {
    (forall i: nat :: i < n ==> device(i).Some?) && after == before + Handed(device, n)
  }

  /** A poll takes the next `n` bytes, and stops early only for want of bytes or on a complete token. */
  predicate Took(before: string, after: string, device: nat -> Option<char>, budget: nat, n: nat, requested: bool) {
    n <= budget && Received(before, after, device, n) && (n == budget || device(n) == None || requested)
  }

  class CriticalUart {
    var initialized: bool
    var failed: bool
    var quiesceMatch: nat
    var quiesceRequested: bool
    /** What was received since the receiver was last cleared without a latched request. */
    ghost var heard: string

    /** Latched exactly when the token occurs in what was received, and otherwise the match is exact. */
    ghost predicate Valid()
      reads this
    {
      && quiesceMatch < |TOKEN|
      && (quiesceRequested <==> Occurs(heard, TOKEN))
      && (initialized && !quiesceRequested ==> Spelled(heard, TOKEN, quiesceMatch))
    }

    constructor ()
      ensures Valid() && !initialized && !quiesceRequested && heard == ""
    {
      initialized, failed, quiesceMatch, quiesceRequested := false, false, 0, false;
      heard := "";
    }

    /** The register answers are the line status before, and the line control and line status after the setup. */
    method Initialize(statusBefore: U8, controlBack: U8, statusAfter: U8) returns (ok: bool)
      requires Valid()
      modifies this
      ensures Valid() && quiesceRequested == old(quiesceRequested)
      ensures ok == initialized == !failed
      ensures ok <==> statusBefore != 0xff && controlBack == 3 && statusAfter != 0xff
      ensures heard == if statusBefore != 0xff && !old(quiesceRequested) then "" else old(heard)
    {
      initialized := false;
      failed := false;
      if statusBefore == 0xff {
        failed := true;
        return false;
      }
      if !quiesceRequested {
        quiesceMatch := 0;
        heard := "";
      }
      initialized := controlBack == 0x03 && statusAfter != 0xff;
      failed := !initialized;
      return initialized;
    }

    /** One received byte. */
    method Receive(value: char)
      requires Valid() && initialized && !quiesceRequested
      modifies this`quiesceMatch, this`quiesceRequested, this`heard
      ensures Valid() && heard == old(heard) + [value]
      ensures quiesceRequested ==> EndsWith(heard, TOKEN, |TOKEN|)
    {
      AdvanceExact(heard, TOKEN, quiesceMatch, value);
      OccursOneMore(heard, TOKEN, value);
      heard := heard + [value];
      if value == TOKEN[quiesceMatch] {
        quiesceMatch := quiesceMatch + 1;
        if quiesceMatch == |TOKEN| {
          quiesceRequested := true;
          quiesceMatch := 0;
        }
      } else {
        quiesceMatch := if value == TOKEN[0] then 1 else 0;
      }
    }

    /** Takes bytes until the budget is used, the device has none ready, or the token is complete. */
    method PollQuiesceRequest(byteBudget: nat, device: nat -> Option<char>) returns (requested: bool)
      requires Valid()
      modifies this`quiesceMatch, this`quiesceRequested, this`heard
      ensures Valid() && requested == quiesceRequested
      ensures !initialized || old(quiesceRequested) ==> heard == old(heard)
      ensures initialized && !old(quiesceRequested) ==> exists n: nat :: Took(old(heard), heard, device, byteBudget, n, requested)
      ensures !old(quiesceRequested) && requested ==> EndsWith(heard, TOKEN, |TOKEN|)
    {
      if !initialized || quiesceRequested {
        return quiesceRequested;
      }
      var consumed: nat := 0;
      while consumed < byteBudget
        invariant consumed <= byteBudget && Valid() && !quiesceRequested
        invariant Received(old(heard), heard, device, consumed)
      {
        if device(consumed) == None {
          break;
        }
        Receive(device(consumed).value);
        consumed := consumed + 1;
        assert Handed(device, consumed) == Handed(device, consumed - 1) + [device(consumed - 1).value];
        if quiesceRequested {
          break;
        }
      }
      assert Took(old(heard), heard, device, byteBudget, consumed, quiesceRequested);
      return quiesceRequested;
    }
  }
}
