/** The keyboard loop with an idle timeout. */
module TimedScan {
  import opened Bits
  import opened IdleCounter
  import opened Options
  import opened Scancodes
  import opened Sequences

  /** One turn of the loop; `read` is what the keyboard handler got, if its checks let it read. */
  datatype Event = Other | Interrupts(keyboard: bool, read: Option<U8>, timer: bool)

  predicate IsKey(e: Event) { e.Interrupts? && e.keyboard }

  /** The last byte read, after `n` events; a failed read leaves the previous one in place. */
  function DataAt(data: U8, events: seq<Event>, n: nat): U8
    requires n <= |events|
  {
    if n == 0 then data
    else
      var e := events[n - 1];
      if IsKey(e) && e.read.Some? then e.read.value else DataAt(data, events, n - 1)
  }

  /** The bytes the assembler was given during the first `n` events, stale ones included. */
  function Seen(data: U8, events: seq<Event>, n: nat): seq<U8>
    requires n <= |events|
  {
    if n == 0 then []
    else Seen(data, events, n - 1) + if IsKey(events[n - 1]) then [DataAt(data, events, n)] else []
  }

  /**
   * Every keyboard interrupt hands the assembler one byte: the one it read, or again the byte
   * of the interrupt before it, or the byte from before the run. The loop head sees the last one.
   */
  lemma SeenBytes(data: U8, events: seq<Event>, n: nat)
    requires n < |events|
    ensures var seen, e := Seen(data, events, n), events[n];
            Seen(data, events, n + 1) == match e
              case Interrupts(true, Some(b), _) => seen + [b]
              case Interrupts(true, None, _) => seen + [if seen == [] then data else seen[|seen| - 1]]
              case _ => seen
    ensures Seen(data, events, 0) == []
  {
    LastSeen(data, events, n);
  }

  lemma {:induction false} LastSeen(data: U8, events: seq<Event>, n: nat)
    requires n <= |events|
    ensures var seen := Seen(data, events, n); DataAt(data, events, n) == if seen == [] then data else seen[|seen| - 1]
  {
    if n > 0 {
      LastSeen(data, events, n - 1);
    }
  }

  predicate IsPrefix(data: U8, events: seq<Event>, k: nat)
    requires k < |events|
  {
    IsKey(events[k]) && DataAt(data, events, k + 1) == TWO_BYTE
  }

  /** For each event, whether it completes a scancode. */
  function Completions(data: U8, events: seq<Event>): (done: seq<bool>)
    ensures |done| == |events|
  {
    seq(|events|, k requires 0 <= k < |events| => IsKey(events[k]) && !IsPrefix(data, events, k))
  }

  /** For each event, whether its tick is counted: a prefix byte hides the tick of its notification. */
  function Ticks(data: U8, events: seq<Event>): (ticks: seq<bool>)
    ensures |ticks| == |events|
  {
    seq(|events|, k requires 0 <= k < |events| => events[k].Interrupts? && events[k].timer && !IsPrefix(data, events, k))
  }

  /** For each event, whether a timer tick happened at all. */
  function AllTicks(events: seq<Event>): (ticks: seq<bool>)
    ensures |ticks| == |events|
  {
    seq(|events|, k requires 0 <= k < |events| => events[k].Interrupts? && events[k].timer)
  }

  /** Every tick that came together with a prefix byte was followed by a complete scancode. */
  ghost predicate PrefixesCompleted(data: U8, events: seq<Event>, n: nat)
    requires n <= |events|
  {
    forall k :: 0 <= k < n && AllTicks(events)[k] && IsPrefix(data, events, k) ==>
      exists j :: k < j < n && Completions(data, events)[j]
  }

  /**
   * The idle counter is never ahead of the ticks since the last scancode, so the loop never
   * gives up early. It is exact if and only if every tick that shared a notification with a
   * prefix byte has been followed by a complete scancode; otherwise the loop gives up late.
   */
  lemma {:induction false} CounterExact(data: U8, events: seq<Event>, n: nat)
    requires n <= |events|
    ensures var done := Completions(data, events);
            && IdleTicks(done, Ticks(data, events), n) <= IdleTicks(done, AllTicks(events), n)
            && (IdleTicks(done, Ticks(data, events), n) == IdleTicks(done, AllTicks(events), n) <==> PrefixesCompleted(data, events, n))
  {
    var done, counted, all := Completions(data, events), Ticks(data, events), AllTicks(events);
    MissedTicks(done, counted, all, n);
    assert forall k :: 0 <= k < n ==> (all[k] && !counted[k] <==> all[k] && IsPrefix(data, events, k));
  }

  /** The counter at the `n`-th loop head. */
  function Counter(data: U8, events: seq<Event>, n: nat): nat
    requires n <= |events|
  {
    IdleTicks(Completions(data, events), Ticks(data, events), n)
  }

  /** The tick of event `k` is counted: there is one, and no prefix byte came with it. */
  predicate Counted(data: U8, events: seq<Event>, k: nat)
    requires k < |events|
  {
    events[k].Interrupts? && events[k].timer && !(events[k].keyboard && DataAt(data, events, k + 1) == 0xE0)
  }

  predicate CompletesCode(data: U8, events: seq<Event>, k: nat)
    requires k < |events|
  {
    events[k].Interrupts? && events[k].keyboard && DataAt(data, events, k + 1) != 0xE0
  }

  /** The counter is the number of ticks counted since the last complete scancode, its own included, or since the start. */
  lemma IdleMeaning(data: U8, events: seq<Event>, n: nat) returns (since: nat)
    requires n <= |events|
    ensures since <= n && Counter(data, events, n) == |set k: nat | since <= k < n && Counted(data, events, k)|
    ensures since == 0 || (since < n && CompletesCode(data, events, since))
    ensures forall k :: since < k < n ==> !CompletesCode(data, events, k)
  {
    var done, ticks := Completions(data, events), Ticks(data, events);
    since := IdleTicksMeaning(done, ticks, n);
    TicksCounted(ticks, since, n);
    assert (set k: nat | since <= k < n && ticks[k]) == set k: nat | since <= k < n && Counted(data, events, k);
    forall k | since < k < n
      ensures !CompletesCode(data, events, k)
    {
      assert !done[k];
    }
  }

  /** One event's effect on the counter. */
  lemma CounterStep(data: U8, events: seq<Event>, n: nat)
    requires n < |events|
    ensures Counter(data, events, n + 1)
         == (if IsKey(events[n]) && !IsPrefix(data, events, n) then 0 else Counter(data, events, n))
            + (if events[n].Interrupts? && events[n].timer && !IsPrefix(data, events, n) then 1 else 0)
  {
  }

  /** One notification of a key that repeats its prefix together with a tick. */
  const REPEATED := Interrupts(true, Some(TWO_BYTE), true)

  /** However long such notifications go on without a scancode, the counter stays at zero. */
  lemma {:induction false} NeverGivesUp(data: U8, events: seq<Event>, n: nat)
    requires n <= |events| && forall k :: 0 <= k < |events| ==> events[k] == REPEATED
    ensures IdleTicks(Completions(data, events), Ticks(data, events), n) == 0
    ensures IdleTicks(Completions(data, events), AllTicks(events), n) == n
  {
    if n > 0 {
      NeverGivesUp(data, events, n - 1);
      assert events[n - 1] == REPEATED && IsPrefix(data, events, n - 1);
    }
  }

  /** The last byte of the stream decides whether the next one is prefixed. */
  predicate EndsPrefixed(bytes: seq<U8>) { bytes != [] && bytes[|bytes| - 1] == TWO_BYTE }

  lemma {:induction false} AssembleAppend(bytes: seq<U8>, prefixed: bool, b: U8)
    ensures Assemble(bytes + [b], prefixed)
         == Assemble(bytes, prefixed) + Print(b, if bytes == [] then prefixed else EndsPrefixed(bytes))
  {
    if bytes == [] {
      assert [b][1..] == [] && bytes + [b] == [b];
    } else {
      assert (bytes + [b])[1..] == bytes[1..] + [b];
      AssembleAppend(bytes[1..], bytes[0] == TWO_BYTE, b);
      Reassociate(Print(bytes[0], prefixed), Assemble(bytes[1..], bytes[0] == TWO_BYTE),
                  Print(b, if bytes[1..] == [] then bytes[0] == TWO_BYTE else EndsPrefixed(bytes[1..])));
    }
  }

  /** The loop's local variables after `n` events, of which `bytes` were seen. */
  ghost predicate InStep(data0: U8, events: seq<Event>, n: nat, bytes: seq<U8>, data: U8, counter: nat,
      printed: seq<Code>, isTwoBytes: bool, temp: U8)
  {
    && n <= |events| && data == DataAt(data0, events, n)
    && bytes == Seen(data0, events, n) && printed == Assemble(bytes, false)
    && isTwoBytes == EndsPrefixed(bytes) && (isTwoBytes ==> temp == TWO_BYTE)
    && counter == Counter(data0, events, n)
  }

  /** One turn of the loop. */
  method OnEvent(ghost data0: U8, events: seq<Event>, n: nat, ghost bytes: seq<U8>, data1: U8, counter1: nat,
      printed1: seq<Code>, isTwoBytes1: bool, temp1: U8)
    returns (ghost bytes': seq<U8>, data: U8, counter: nat, printed: seq<Code>, isTwoBytes: bool, temp: U8)
    requires n < |events| && InStep(data0, events, n, bytes, data1, counter1, printed1, isTwoBytes1, temp1)
    ensures InStep(data0, events, n + 1, bytes', data, counter, printed, isTwoBytes, temp)
  {
    CounterStep(data0, events, n);
    bytes', data, counter, printed, isTwoBytes, temp := bytes, data1, counter1, printed1, isTwoBytes1, temp1;
    var e := events[n];
    if IsKey(e) {
      if e.read.Some? {
        data := e.read.value;
      }
      AssembleAppend(bytes, false, data);
      printed, isTwoBytes, temp := OnByte(data, isTwoBytes, temp, printed);
      bytes' := bytes + [data];
      if data == TWO_BYTE {
        return;
      }
      counter := 0;
    }
    if e.Interrupts? && e.timer {
      counter := counter + 1;
    }
  }

  /**
   * Prints scancodes until ESC is released or `idle` seconds of counted ticks pass without a
   * complete scancode. It ends at the first loop head where one of the two has happened. When
   * it gives up, at least that many ticks have really passed.
   */
  method TestTimedScan(idle: U8, data0: U8, events: seq<Event>) returns (printed: seq<Code>, counter: nat, data: U8, consumed: nat)
    ensures consumed <= |events| && data == DataAt(data0, events, consumed)
    ensures printed == Assemble(Seen(data0, events, consumed), false)
    ensures counter == Counter(data0, events, consumed)
    ensures counter >= idle * 60 || data == 0x81 || consumed == |events|
    ensures forall k :: 0 <= k < consumed ==> Counter(data0, events, k) < idle * 60 && DataAt(data0, events, k) != 0x81
    ensures counter <= IdleTicks(Completions(data0, events), AllTicks(events), consumed)
    ensures counter == IdleTicks(Completions(data0, events), AllTicks(events), consumed) <==> PrefixesCompleted(data0, events, consumed)
  {
    printed, counter, data, consumed := [], 0, data0, 0;
    var isTwoBytes, temp := false, 0;
    ghost var bytes: seq<U8> := [];
    while counter < idle * 60 && data != ESC && consumed < |events|
      invariant InStep(data0, events, consumed, bytes, data, counter, printed, isTwoBytes, temp)
      invariant forall k :: 0 <= k < consumed ==> Counter(data0, events, k) < idle * 60 && DataAt(data0, events, k) != 0x81
      decreases |events| - consumed
    {
      bytes, data, counter, printed, isTwoBytes, temp :=
        OnEvent(data0, events, consumed, bytes, data, counter, printed, isTwoBytes, temp);
      consumed := consumed + 1;
    }
    CounterExact(data0, events, consumed);
  }
}
