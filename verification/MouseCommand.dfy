/** Sending a command to the mouse: a retrying protocol against a device that may do anything. */
module MouseCommand {
  import opened Bits
  import opened Options
  import opened Sequences

  const STATUS: nat := 0x64
  const DATA: nat := 0x60
  const WRITE_TO_MOUSE: nat := 0xD4
  const ACK: U8 := 0xFA

  /** A port operation and its outcome; a failed read has no result. */
  datatype Io = Read(port: nat, result: Option<U8>) | Write(port: nat, value: nat, ok: bool)

  /** Any device: each outcome may depend on everything that happened before. */
  datatype Device = Device(onRead: (seq<Io>, nat) -> Option<U8>, onWrite: (seq<Io>, nat, nat) -> bool)

  // ---- the traces the protocol allows ------------------------------------------------------

  /** A status byte without error bits that says the input buffer is empty. */
  predicate Clear(st: U8) { !Bit(st, 7) && !Bit(st, 6) && !Bit(st, 1) }

  predicate IsStatusRead(e: Io) { e.Read? && e.port == STATUS }

  predicate SaysClear(e: Io) { IsStatusRead(e) && e.result.Some? && Clear(e.result.value) }

  /** Status reads none of which found the input buffer empty. */
  ghost predicate Waiting(t: seq<Io>) {
    t == [] || (Waiting(t[..|t| - 1]) && IsStatusRead(t[|t| - 1]) && !SaysClear(t[|t| - 1]))
  }

  /** One wait for the input buffer: ten status reads, or fewer that end with a clear one. */
  ghost predicate Poll(t: seq<Io>, clear: bool) {
    if clear then 1 <= |t| <= 10 && Waiting(t[..|t| - 1]) && SaysClear(t[|t| - 1])
    else |t| == 10 && Waiting(t)
  }

  lemma {:induction false} WaitingMeans(t: seq<Io>)
    requires Waiting(t)
    ensures forall i :: 0 <= i < |t| ==> IsStatusRead(t[i]) && !SaysClear(t[i])
  {
    if t != [] {
      WaitingMeans(t[..|t| - 1]);
    }
  }

  /** A poll stops at the first clear status, or after ten reads without one. */
  lemma PollMeans(t: seq<Io>, clear: bool)
    requires Poll(t, clear)
    ensures 1 <= |t| <= 10 && (!clear ==> |t| == 10)
    ensures forall i :: 0 <= i < |t| ==> IsStatusRead(t[i]) && (SaysClear(t[i]) <==> clear && i == |t| - 1)
  {
    WaitingMeans(if clear then t[..|t| - 1] else t);
  }

  /** One more status read of a wait. */
  lemma WaitStep(poll: seq<Io>, e: Io)
    requires Waiting(poll) && |poll| < 10 && IsStatusRead(e)
    ensures if SaysClear(e) then Poll(poll + [e], true) else Waiting(poll + [e])
  {
    assert (poll + [e])[..|poll|] == poll;
  }

  /** A clear status in numbers: bits 7, 6 and 1 of what port 0x64 answers are zero. */
  lemma ClearInNumbers(e: Io)
    ensures SaysClear(e) <==> e.Read? && e.port == 0x64 && e.result.Some? && e.result.value < 64 && e.result.value / 2 % 2 == 0
  {
    if e.Read? && e.result.Some? {
      var st := e.result.value;
      assert Pow2(1) == 2 && Pow2(6) == 64 && Pow2(7) == 128;
      BitIsDiv(st, 1);
      BitIsDiv(st, 6);
      BitIsDiv(st, 7);
    }
  }

  /** How far one attempt got. */
  datatype Attempt =
    | Busy1(poll1: seq<Io>)
    | NoPrefix(poll1: seq<Io>)
    | Busy2(poll1: seq<Io>, poll2: seq<Io>)
    | NoCommand(poll1: seq<Io>, poll2: seq<Io>)
    | Answered(poll1: seq<Io>, poll2: seq<Io>, response: Option<U8>)
  {
    /** The port operations of the attempt, in order. */
    function Trace(cmd: nat): seq<Io> {
      match this
      case Busy1(p) => p
      case NoPrefix(p) => p + [Write(STATUS, WRITE_TO_MOUSE, false)]
      case Busy2(p, q) => p + [Write(STATUS, WRITE_TO_MOUSE, true)] + q
      case NoCommand(p, q) => p + [Write(STATUS, WRITE_TO_MOUSE, true)] + q + [Write(DATA, cmd, false)]
      case Answered(p, q, r) => p + [Write(STATUS, WRITE_TO_MOUSE, true)] + q + [Write(DATA, cmd, true)] + [Read(DATA, r)]
    }

    ghost predicate Good() {
      match this
      case Busy1(p) => Poll(p, false)
      case NoPrefix(p) => Poll(p, true)
      case Busy2(p, q) => Poll(p, true) && Poll(q, false)
      case NoCommand(p, q) => Poll(p, true) && Poll(q, true)
      case Answered(p, q, _) => Poll(p, true) && Poll(q, true)
    }

    predicate Acknowledged() { Answered? && response == Some(ACK) }
  }

  function Traces(attempts: seq<Attempt>, cmd: nat): seq<Io> {
    if attempts == [] then [] else Traces(attempts[..|attempts| - 1], cmd) + attempts[|attempts| - 1].Trace(cmd)
  }

  ghost predicate AllGood(attempts: seq<Attempt>) {
    attempts == [] || (AllGood(attempts[..|attempts| - 1]) && attempts[|attempts| - 1].Good())
  }

  predicate Unacknowledged(attempts: seq<Attempt>) {
    forall i :: 0 <= i < |attempts| ==> !attempts[i].Acknowledged()
  }

  /** The attempts of one call: up to and with the first acknowledged one, or ten without. */
  ghost predicate Outcome(attempts: seq<Attempt>, ok: bool) {
    && (if ok then 1 <= |attempts| <= 10 else |attempts| == 10)
    && AllGood(attempts)
    && attempts[|attempts| - 1].Acknowledged() == ok && Unacknowledged(attempts[..|attempts| - 1])
  }

  /** The attempts made so far, none of them acknowledged. */
  ghost predicate Retrying(attempts: seq<Attempt>, tries: int) {
    0 <= tries <= 10 && |attempts| == 10 - tries && AllGood(attempts) && Unacknowledged(attempts)
  }

  lemma TracesAppend(before: seq<Io>, attempts: seq<Attempt>, a: Attempt, cmd: nat)
    ensures before + Traces(attempts, cmd) + a.Trace(cmd) == before + Traces(attempts + [a], cmd)
  {
    assert (attempts + [a])[..|attempts|] == attempts;
    Reassociate(before, Traces(attempts, cmd), a.Trace(cmd));
  }

  lemma AllGoodAppend(attempts: seq<Attempt>, a: Attempt)
    requires AllGood(attempts) && a.Good()
    ensures AllGood(attempts + [a])
  {
    assert (attempts + [a])[..|attempts|] == attempts;
  }

  /** One more attempt. */
  lemma AttemptStep(attempts: seq<Attempt>, a: Attempt, tries: int)
    requires Retrying(attempts, tries) && tries > 0 && a.Good()
    ensures if a.Acknowledged() then Outcome(attempts + [a], true) else Retrying(attempts + [a], tries - 1)
  {
    AllGoodAppend(attempts, a);
    assert (attempts + [a])[..|attempts|] == attempts;
  }

  lemma OutOfTries(attempts: seq<Attempt>)
    requires Retrying(attempts, 0)
    ensures Outcome(attempts, false)
  {
    var n := |attempts| - 1;
    assert !attempts[n].Acknowledged() && Unacknowledged(attempts[..n]);
  }

  // ---- what every such trace satisfies ----------------------------------------------------------

  /** Every write directly follows a status read that found the input buffer empty. */
  ghost predicate WritesGuarded(t: seq<Io>) {
    forall i :: 0 <= i < |t| && t[i].Write? ==> i > 0 && SaysClear(t[i - 1])
  }

  /** A command byte at `i` follows the accepted prefix at `k` with only status reads in between. */
  ghost predicate Prefixed(t: seq<Io>, i: nat, k: nat) {
    k < i < |t| && t[k] == Write(STATUS, WRITE_TO_MOUSE, true) && forall j :: k < j < i ==> IsStatusRead(t[j])
  }

  ghost predicate CommandsPrefixed(t: seq<Io>) {
    forall i :: 0 <= i < |t| && t[i].Write? && t[i].port == DATA ==> exists k :: Prefixed(t, i, k)
  }

  ghost predicate HasAcknowledged(t: seq<Io>, cmd: nat) {
    exists i: nat :: AcknowledgedAt(t, i, cmd)
  }

  /** The device answers `ACK` right after accepting the command. */
  ghost predicate AcknowledgedAt(t: seq<Io>, i: nat, cmd: nat) {
    i + 1 < |t| && t[i] == Write(DATA, cmd, true) && t[i + 1] == Read(DATA, Some(ACK))
  }

  function Writes(t: seq<Io>): nat {
    if t == [] then 0 else Writes(t[..|t| - 1]) + if t[|t| - 1].Write? then 1 else 0
  }

  function Reads(t: seq<Io>): nat { if t == [] then 0 else Reads(t[..|t| - 1]) + if t[|t| - 1].Read? then 1 else 0 }

  ghost predicate Disciplined(t: seq<Io>) { WritesGuarded(t) && CommandsPrefixed(t) }

  lemma DisciplinedConcat(a: seq<Io>, b: seq<Io>)
    requires Disciplined(a) && Disciplined(b)
    ensures Disciplined(a + b)
  {
    var t := a + b;
    forall i | 0 <= i < |t| && t[i].Write? && t[i].port == DATA
      ensures exists k :: Prefixed(t, i, k)
    {
      if i < |a| {
        var k: nat :| Prefixed(a, i, k);
        assert Prefixed(t, i, k);
      } else {
        var k: nat :| Prefixed(b, i - |a|, k);
        assert forall j :: k + |a| < j < i ==> t[j] == b[j - |a|];
        assert Prefixed(t, i, k + |a|);
      }
    }
  }

  lemma DisciplinedReads(t: seq<Io>)
    requires forall i :: 0 <= i < |t| ==> t[i].Read?
    ensures Disciplined(t)
  {
  }

  /** A poll that ends clear, the prefix write, and what may follow. */
  lemma AttemptDisciplined(a: Attempt, cmd: nat)
    requires a.Good()
    ensures Disciplined(a.Trace(cmd))
  {
    PollMeans(a.poll1, !a.Busy1?);
    DisciplinedReads(a.poll1);
    match a
    case Busy1(p) =>
    case NoPrefix(p) => GuardedPrefix(p, false);
    case Busy2(p, q) =>
      GuardedPrefix(p, true);
      PollMeans(q, false);
      DisciplinedReads(q);
      DisciplinedConcat(p + [Write(STATUS, WRITE_TO_MOUSE, true)], q);
    case NoCommand(p, q) => GuardedCommand(p, q, cmd, false);
    case Answered(p, q, r) =>
      GuardedCommand(p, q, cmd, true);
      DisciplinedReads([Read(DATA, r)]);
      DisciplinedConcat(p + [Write(STATUS, WRITE_TO_MOUSE, true)] + q + [Write(DATA, cmd, true)], [Read(DATA, r)]);
      assert a.Trace(cmd) == p + [Write(STATUS, WRITE_TO_MOUSE, true)] + q + [Write(DATA, cmd, true)] + [Read(DATA, r)];
  }

  lemma GuardedPrefix(p: seq<Io>, ok: bool)
    requires Poll(p, true)
    ensures Disciplined(p + [Write(STATUS, WRITE_TO_MOUSE, ok)])
  {
    PollMeans(p, true);
  }

  lemma GuardedCommand(p: seq<Io>, q: seq<Io>, cmd: nat, ok: bool)
    requires Poll(p, true) && Poll(q, true)
    ensures Disciplined(p + [Write(STATUS, WRITE_TO_MOUSE, true)] + q + [Write(DATA, cmd, ok)])
  {
    PollMeans(p, true);
    PollMeans(q, true);
    var t := p + [Write(STATUS, WRITE_TO_MOUSE, true)] + q + [Write(DATA, cmd, ok)];
    var i := |t| - 1;
    forall j | |p| < j < i ensures t[j] == q[j - |p| - 1] { }
    assert t[i - 1] == q[|q| - 1];
    assert Prefixed(t, i, |p|);
    forall j | 0 <= j < i && t[j].Write? ensures j == |p| && t[j - 1] == p[|p| - 1] { }
  }

  lemma {:induction false} CountConcat(a: seq<Io>, b: seq<Io>)
    ensures Writes(a + b) == Writes(a) + Writes(b) && Reads(a + b) == Reads(a) + Reads(b)
  {
    if b == [] {
      assert a + b == a;
    } else {
      CountConcat(a, b[..|b| - 1]);
      assert (a + b)[..|a + b| - 1] == a + b[..|b| - 1];
    }
  }

  lemma {:induction false} CountReads(t: seq<Io>)
    requires forall i :: 0 <= i < |t| ==> t[i].Read?
    ensures Writes(t) == 0 && Reads(t) == |t|
  {
    if t != [] {
      CountReads(t[..|t| - 1]);
    }
  }

  lemma CountOne(e: Io)
    ensures Writes([e]) == (if e.Write? then 1 else 0) && Reads([e]) == (if e.Read? then 1 else 0)
  {
    assert [e][..0] == [];
  }

  /** Each attempt costs at most two writes and twenty-one reads. */
  lemma AttemptCost(a: Attempt, cmd: nat)
    requires a.Good()
    ensures Writes(a.Trace(cmd)) <= 2 && Reads(a.Trace(cmd)) <= 21
  {
    var w := [Write(STATUS, WRITE_TO_MOUSE, !a.NoPrefix?)];
    PollMeans(a.poll1, !a.Busy1?);
    CountReads(a.poll1);
    CountOne(w[0]);
    CountConcat(a.poll1, w);
    if a.Busy2? || a.NoCommand? || a.Answered? {
      PollMeans(a.poll2, !a.Busy2?);
      CountReads(a.poll2);
      CountConcat(a.poll1 + w, a.poll2);
      var c := Write(DATA, cmd, a.Answered?);
      CountOne(c);
      CountConcat(a.poll1 + w + a.poll2, [c]);
      if a.Answered? {
        CountOne(Read(DATA, a.response));
        CountConcat(a.poll1 + w + a.poll2 + [c], [Read(DATA, a.response)]);
        assert a.Trace(cmd) == a.poll1 + w + a.poll2 + [c] + [Read(DATA, a.response)];
      }
    }
  }

  /** An accepted command is never the last operation of an attempt. */
  lemma AttemptAcknowledged(a: Attempt, cmd: nat)
    requires a.Good()
    ensures a.Acknowledged() <==> HasAcknowledged(a.Trace(cmd), cmd)
    ensures var t := a.Trace(cmd); t != [] && t[|t| - 1] != Write(DATA, cmd, true)
  {
    var t := a.Trace(cmd);
    PollMeans(a.poll1, !a.Busy1?);
    if a.Busy2? || a.NoCommand? || a.Answered? {
      PollMeans(a.poll2, !a.Busy2?);
    }
    if a.Answered? {
      assert t[|t| - 2] == Write(DATA, cmd, true) && t[|t| - 1] == Read(DATA, a.response);
      if a.Acknowledged() {
        assert AcknowledgedAt(t, |t| - 2, cmd);
      }
    }
    if i: nat :| AcknowledgedAt(t, i, cmd) {
      assert a.Answered? && i == |t| - 2;
    }
  }

  lemma AcknowledgedConcat(a: seq<Io>, b: seq<Io>, cmd: nat)
    requires a == [] || a[|a| - 1] != Write(DATA, cmd, true)
    ensures HasAcknowledged(a + b, cmd)
       <==> HasAcknowledged(a, cmd) || HasAcknowledged(b, cmd)
  {
    var t := a + b;
    if i: nat :| AcknowledgedAt(a, i, cmd) {
      assert AcknowledgedAt(t, i, cmd);
    }
    if i: nat :| AcknowledgedAt(b, i, cmd) {
      assert AcknowledgedAt(t, i + |a|, cmd);
    }
    if i: nat :| AcknowledgedAt(t, i, cmd) {
      assert if i + 1 < |a| then AcknowledgedAt(a, i, cmd) else AcknowledgedAt(b, i - |a|, cmd);
    }
  }

  lemma {:induction false} AllDisciplined(attempts: seq<Attempt>, cmd: nat)
    requires AllGood(attempts)
    ensures Disciplined(Traces(attempts, cmd))
  {
    if attempts != [] {
      var n := |attempts| - 1;
      AllDisciplined(attempts[..n], cmd);
      AttemptDisciplined(attempts[n], cmd);
      DisciplinedConcat(Traces(attempts[..n], cmd), attempts[n].Trace(cmd));
    }
  }

  lemma CostConcat(a: seq<Io>, b: seq<Io>, k: nat)
    requires Writes(a) <= 2 * k && Reads(a) <= 21 * k && Writes(b) <= 2 && Reads(b) <= 21
    ensures Writes(a + b) <= 2 * (k + 1) && Reads(a + b) <= 21 * (k + 1)
  {
    CountConcat(a, b);
  }

  lemma {:induction false} AllCosts(attempts: seq<Attempt>, cmd: nat)
    requires AllGood(attempts)
    ensures Writes(Traces(attempts, cmd)) <= 2 * |attempts| && Reads(Traces(attempts, cmd)) <= 21 * |attempts|
  {
    if attempts != [] {
      var n := |attempts| - 1;
      AllCosts(attempts[..n], cmd);
      AttemptCost(attempts[n], cmd);
      CostConcat(Traces(attempts[..n], cmd), attempts[n].Trace(cmd), n);
    }
  }

  predicate SomeAcknowledged(attempts: seq<Attempt>) {
    exists i :: 0 <= i < |attempts| && attempts[i].Acknowledged()
  }

  lemma {:induction false} AllAcknowledgements(attempts: seq<Attempt>, cmd: nat)
    requires AllGood(attempts)
    ensures HasAcknowledged(Traces(attempts, cmd), cmd) <==> SomeAcknowledged(attempts)
    ensures var t := Traces(attempts, cmd); t == [] || t[|t| - 1] != Write(DATA, cmd, true)
  {
    if attempts != [] {
      var n := |attempts| - 1;
      var a, b := Traces(attempts[..n], cmd), attempts[n].Trace(cmd);
      AllAcknowledgements(attempts[..n], cmd);
      AttemptAcknowledged(attempts[n], cmd);
      AcknowledgedConcat(a, b, cmd);
      LastOrEarlier(attempts);
    }
  }

  lemma LastOrEarlier(attempts: seq<Attempt>)
    requires attempts != []
    ensures SomeAcknowledged(attempts) <==> SomeAcknowledged(attempts[..|attempts| - 1]) || attempts[|attempts| - 1].Acknowledged()
  {
    var rest := attempts[..|attempts| - 1];
    if i :| 0 <= i < |rest| && rest[i].Acknowledged() {
      assert attempts[i].Acknowledged();
    }
    if i :| 0 <= i < |attempts| - 1 && attempts[i].Acknowledged() {
      assert rest[i].Acknowledged();
    }
  }

  /**
   * What the port operations of any sequence of attempts satisfy, whatever the device does:
   * every write is guarded, every command is prefixed, the cost is bounded, and the device
   * has acknowledged the command if and only if some attempt says so.
   */
  lemma ProtocolObeyed(attempts: seq<Attempt>, cmd: nat)
    requires AllGood(attempts)
    ensures var t := Traces(attempts, cmd);
            && WritesGuarded(t) && CommandsPrefixed(t)
            && Writes(t) <= 2 * |attempts| && Reads(t) <= 21 * |attempts|
            && (HasAcknowledged(t, cmd) <==> SomeAcknowledged(attempts))
  {
    AllDisciplined(attempts, cmd);
    AllCosts(attempts, cmd);
    AllAcknowledgements(attempts, cmd);
  }

  lemma SendObeys(attempts: seq<Attempt>, cmd: nat, ok: bool)
    requires Outcome(attempts, ok)
    ensures var t := Traces(attempts, cmd);
            WritesGuarded(t) && CommandsPrefixed(t) && Writes(t) <= 20 && Reads(t) <= 210 && (ok <==> HasAcknowledged(t, cmd))
  {
    ProtocolObeyed(attempts, cmd);
    LastOrEarlier(attempts);
  }

  // ---- counting failed attempts in the trace -----------------------------------------------------

  /** Status reads of the wait under way, and attempts given up so far. */
  datatype Tally = Tally(waits: nat, failures: nat)

  /**
   * Reads a trace from left to right. An attempt is given up by ten status reads in a row
   * without a clear one, by a write that fails, or by an answer other than 0xFA.
   */
  function Count(t: seq<Io>): Tally {
    if t == [] then Tally(0, 0)
    else
      var c := Count(t[..|t| - 1]);
      match t[|t| - 1]
      case Write(_, _, ok) => Tally(0, c.failures + if ok then 0 else 1)
      case Read(port, result) =>
        if port != 0x64 then Tally(0, c.failures + if result == Some(0xFA) then 0 else 1)
        else if result.Some? && result.value < 64 && result.value / 2 % 2 == 0 then Tally(0, c.failures)
        else if c.waits == 9 then Tally(0, c.failures + 1)
        else Tally(c.waits + 1, c.failures)
  }

  lemma CountAppend(t: seq<Io>, e: Io)
    ensures Count(t + [e]) == match e
      case Write(_, _, ok) => Tally(0, Count(t).failures + if ok then 0 else 1)
      case Read(port, result) =>
        if port != STATUS then Tally(0, Count(t).failures + if result == Some(ACK) then 0 else 1)
        else if SaysClear(e) then Tally(0, Count(t).failures)
        else if Count(t).waits == 9 then Tally(0, Count(t).failures + 1)
        else Tally(Count(t).waits + 1, Count(t).failures)
  {
    assert (t + [e])[..|t|] == t;
    ClearInNumbers(e);
  }

  lemma {:induction false} CountWaiting(before: seq<Io>, t: seq<Io>)
    requires Waiting(t) && |t| <= 10 && Count(before).waits == 0
    ensures Count(before + t) == if |t| == 10 then Tally(0, Count(before).failures + 1) else Tally(|t|, Count(before).failures)
  {
    if t == [] {
      assert before + t == before;
    } else {
      var rest, e := t[..|t| - 1], t[|t| - 1];
      CountWaiting(before, rest);
      CountAppend(before + rest, e);
      assert t == rest + [e];
      Reassociate(before, rest, [e]);
    }
  }

  lemma CountPoll(before: seq<Io>, t: seq<Io>, clear: bool)
    requires Poll(t, clear) && Count(before).waits == 0
    ensures Count(before + t) == Tally(0, Count(before).failures + if clear then 0 else 1)
  {
    if clear {
      CountClearPoll(before, t[..|t| - 1], t[|t| - 1]);
      assert t == t[..|t| - 1] + [t[|t| - 1]];
    } else {
      CountWaiting(before, t);
    }
  }

  lemma CountClearPoll(before: seq<Io>, t: seq<Io>, e: Io)
    requires Waiting(t) && |t| <= 9 && SaysClear(e) && Count(before).waits == 0
    ensures Count(before + (t + [e])) == Tally(0, Count(before).failures)
  {
    CountWaiting(before, t);
    CountClear(before + t, e);
    Reassociate(before, t, [e]);
  }

  lemma CountClear(t: seq<Io>, e: Io)
    requires SaysClear(e)
    ensures Count(t + [e]) == Tally(0, Count(t).failures)
  {
    CountAppend(t, e);
  }

  /** An attempt is tallied as given up exactly when it was not acknowledged. */
  lemma CountAttempt(before: seq<Io>, a: Attempt, cmd: nat)
    requires a.Good() && Count(before).waits == 0
    ensures Count(before + a.Trace(cmd)) == Tally(0, Count(before).failures + if a.Acknowledged() then 0 else 1)
  {
    CountPoll(before, a.poll1, !a.Busy1?);
    if !a.Busy1? {
      var t1, w1 := before + a.poll1, Write(STATUS, WRITE_TO_MOUSE, !a.NoPrefix?);
      CountAppend(t1, w1);
      Reassociate(before, a.poll1, [w1]);
      if !a.NoPrefix? {
        CountPoll(t1 + [w1], a.poll2, !a.Busy2?);
        Reassociate(before, a.poll1 + [w1], a.poll2);
        if !a.Busy2? {
          CountCommand(before, a.poll1 + [w1] + a.poll2, a, cmd);
        }
      }
    }
  }

  lemma CountCommand(before: seq<Io>, sofar: seq<Io>, a: Attempt, cmd: nat)
    requires a.NoCommand? || a.Answered?
    requires sofar == a.poll1 + [Write(STATUS, WRITE_TO_MOUSE, true)] + a.poll2
    ensures Count(before + a.Trace(cmd)) == Tally(0, Count(before + sofar).failures + if a.Acknowledged() then 0 else 1)
  {
    var w2 := Write(DATA, cmd, a.Answered?);
    CountAppend(before + sofar, w2);
    Reassociate(before, sofar, [w2]);
    if a.Answered? {
      CountAppend(before + sofar + [w2], Read(DATA, a.response));
      Reassociate(before, sofar + [w2], [Read(DATA, a.response)]);
    }
  }

  lemma {:induction false} CountUnacknowledged(attempts: seq<Attempt>, cmd: nat)
    requires AllGood(attempts) && Unacknowledged(attempts)
    ensures Count(Traces(attempts, cmd)) == Tally(0, |attempts|)
  {
    if attempts != [] {
      var n := |attempts| - 1;
      CountUnacknowledged(attempts[..n], cmd);
      CountAttempt(Traces(attempts[..n], cmd), attempts[n], cmd);
    }
  }

  /** Ten attempts given up is failure, and fewer, with an acknowledged one at the end, is success. */
  lemma CountOutcome(attempts: seq<Attempt>, cmd: nat, ok: bool)
    requires Outcome(attempts, ok)
    ensures Count(Traces(attempts, cmd)) == Tally(0, if ok then |attempts| - 1 else 10)
  {
    var n := |attempts| - 1;
    CountUnacknowledged(attempts[..n], cmd);
    CountAttempt(Traces(attempts[..n], cmd), attempts[n], cmd);
  }

  /** The only port operations there are: reads of the two ports, the prefix, and the command. */
  predicate Known(e: Io, cmd: nat) {
    match e
    case Read(port, _) => port == 0x64 || port == 0x60
    case Write(port, value, _) => (port == 0x64 && value == 0xD4) || (port == 0x60 && value == cmd)
  }

  lemma AttemptKnown(a: Attempt, cmd: nat)
    requires a.Good()
    ensures forall i :: 0 <= i < |a.Trace(cmd)| ==> Known(a.Trace(cmd)[i], cmd)
  {
    PollMeans(a.poll1, !a.Busy1?);
    if a.Busy2? || a.NoCommand? || a.Answered? {
      PollMeans(a.poll2, !a.Busy2?);
    }
  }

  lemma {:induction false} AllKnown(attempts: seq<Attempt>, cmd: nat)
    requires AllGood(attempts)
    ensures forall i :: 0 <= i < |Traces(attempts, cmd)| ==> Known(Traces(attempts, cmd)[i], cmd)
  {
    if attempts != [] {
      var n := |attempts| - 1;
      AllKnown(attempts[..n], cmd);
      AttemptKnown(attempts[n], cmd);
    }
  }

  /** The protocol's predicates in numbers. */
  lemma ProtocolInNumbers(t: seq<Io>, cmd: nat)
    ensures CommandsPrefixed(t) ==> forall i :: 0 <= i < |t| && t[i].Write? && t[i].port == 0x60 ==>
              exists k :: 0 <= k < i && t[k] == Write(0x64, 0xD4, true) && forall j :: k < j < i ==> t[j].Read? && t[j].port == 0x64
    ensures HasAcknowledged(t, cmd) <==> exists i :: 0 <= i < |t| - 1 && t[i] == Write(0x60, cmd, true) && t[i + 1] == Read(0x60, Some(0xFA))
  {
    if CommandsPrefixed(t) {
      forall i | 0 <= i < |t| && t[i].Write? && t[i].port == 0x60
        ensures exists k :: 0 <= k < i && t[k] == Write(0x64, 0xD4, true) && forall j :: k < j < i ==> t[j].Read? && t[j].port == 0x64
      {
        var k: nat :| Prefixed(t, i, k);
      }
    }
    if i :| 0 <= i < |t| - 1 && t[i] == Write(0x60, cmd, true) && t[i + 1] == Read(0x60, Some(0xFA)) {
      assert AcknowledgedAt(t, i, cmd);
    }
  }

  // ---- the protocol ---------------------------------------------------------------------------

  class Controller {
    const device: Device
    var trace: seq<Io>

    constructor (d: Device)
      ensures device == d && trace == []
    {
      device, trace := d, [];
    }

    method InB(port: nat) returns (result: Option<U8>)
      modifies this
      ensures trace == old(trace) + [Read(port, result)]
    {
      result := device.onRead(trace, port);
      trace := trace + [Read(port, result)];
    }

    method OutB(port: nat, value: nat) returns (ok: bool)
      modifies this
      ensures trace == old(trace) + [Write(port, value, ok)]
    {
      ok := device.onWrite(trace, port, value);
      trace := trace + [Write(port, value, ok)];
    }

    /** Waits for the input buffer to empty, at most ten tries. */
    method IbfEmpty() returns (clear: bool, ghost poll: seq<Io>)
      modifies this
      ensures trace == old(trace) + poll && Poll(poll, clear)
    {
      var tries := 10;
      poll := [];
      while tries > 0
        invariant 0 <= tries <= 10 && |poll| == 10 - tries
        invariant trace == old(trace) + poll
        invariant Waiting(poll)
      {
        tries := tries - 1;
        var st := InB(STATUS);
        WaitStep(poll, Read(STATUS, st));
        Reassociate(old(trace), poll, [Read(STATUS, st)]);
        poll := poll + [Read(STATUS, st)];
        if st.None? {
          continue;
        }
        if Bit(st.value, 7) {
          continue;
        }
        if Bit(st.value, 6) {
          continue;
        }
        if !Bit(st.value, 1) {
          return true, poll;
        }
      }
      return false, poll;
    }

    /** One pass through the body of the retry loop. */
    method TryCommand(cmd: U32) returns (acknowledged: bool, ghost attempt: Attempt)
      modifies this
      ensures trace == old(trace) + attempt.Trace(cmd) && attempt.Good()
      ensures acknowledged == attempt.Acknowledged()
    {
      var clear, ok;
      ghost var poll1, poll2;
      clear, poll1 := IbfEmpty();
      ghost var t := poll1;
      if !clear {
        return false, Busy1(poll1);
      }
      ok := OutB(STATUS, WRITE_TO_MOUSE);
      t := t + [Write(STATUS, WRITE_TO_MOUSE, ok)];
      assert trace == old(trace) + t;
      if !ok {
        return false, NoPrefix(poll1);
      }
      clear, poll2 := IbfEmpty();
      t := t + poll2;
      assert trace == old(trace) + t;
      if !clear {
        return false, Busy2(poll1, poll2);
      }
      ok := OutB(DATA, cmd);
      t := t + [Write(DATA, cmd, ok)];
      assert trace == old(trace) + t;
      if !ok {
        return false, NoCommand(poll1, poll2);
      }
      var response := InB(DATA);
      t := t + [Read(DATA, response)];
      assert trace == old(trace) + t;
      return response == Some(ACK), Answered(poll1, poll2, response);
    }

    /**
     * Sends `cmd`, retrying up to ten times. It succeeds at the first acknowledged attempt,
     * and fails only after ten attempts none of which was acknowledged.
     */
    method SendAttempts(cmd: U32) returns (ok: bool, ghost attempts: seq<Attempt>)
      modifies this
      ensures trace == old(trace) + Traces(attempts, cmd)
      ensures Outcome(attempts, ok)
    {
      var tries := 10;
      attempts := [];
      while tries > 0
        invariant Retrying(attempts, tries)
        invariant trace == old(trace) + Traces(attempts, cmd)
      {
        ghost var attempt;
        ok, attempt := TryCommand(cmd);
        TracesAppend(old(trace), attempts, attempt, cmd);
        AttemptStep(attempts, attempt, tries);
        tries := tries - 1;
        attempts := attempts + [attempt];
        if ok {
          return;
        }
      }
      OutOfTries(attempts);
      ok := false;
    }

    /**
     * The same, told by the port operations alone: every write directly follows a status
     * read with the input buffer empty, every command follows an accepted prefix with only
     * status reads in between, there are at most 20 writes and 210 reads, and the result is
     * success exactly when the device acknowledged the command. Failure means ten attempts, each
     * given up for a reason that shows in the trace; success comes before the tenth is given up.
     */
    method Send(cmd: U32) returns (ok: bool, ghost t: seq<Io>)
      modifies this
      ensures trace == old(trace) + t
      ensures forall i :: 0 <= i < |t| && t[i].Write? ==> i > 0 && SaysClear(t[i - 1])
      ensures CommandsPrefixed(t)
      ensures Writes(t) <= 20 && Reads(t) <= 210
      ensures ok <==> HasAcknowledged(t, cmd)
      ensures forall i :: 0 <= i < |t| ==> Known(t[i], cmd)
      ensures Count(t).waits == 0 && if ok then Count(t).failures < 10 else Count(t).failures == 10
      ensures exists attempts :: Outcome(attempts, ok) && t == Traces(attempts, cmd)
    {
      ghost var attempts;
      ok, attempts := SendAttempts(cmd);
      t := Traces(attempts, cmd);
      AllKnown(attempts, cmd);
      CountOutcome(attempts, cmd, ok);
      SendObeys(attempts, cmd, ok);
    }
  }
}
