/** The mouse driver's globals and the two packet loops that use them. */
module Mouse {
  import opened Bits
  import opened IdleCounter
  import opened Options
  import opened Packets

  /**
   * One turn of a driver loop. `Other` is anything that is not a hardware notification;
   * `read` is what the interrupt handler got from the device, if its checks let it read.
   */
  datatype Event = Other | Interrupts(mouse: bool, read: Option<U8>, timer: bool)

  /** The last byte read, after `n` events; a failed read leaves the previous one in place. */
  function LastByte(byte: U8, events: seq<Event>, n: nat): U8
    requires n <= |events|
  {
    if n == 0 then byte
    else
      var e := events[n - 1];
      if e.Interrupts? && e.mouse && e.read.Some? then e.read.value else LastByte(byte, events, n - 1)
  }

  /** The bytes the framer was given during the first `n` events, stale ones included. */
  function Seen(byte: U8, events: seq<Event>, n: nat): seq<U8>
    requires n <= |events|
  {
    if n == 0 then []
    else
      var e := events[n - 1];
      Seen(byte, events, n - 1) + if e.Interrupts? && e.mouse then [LastByte(byte, events, n)] else []
  }

  /**
   * Every mouse interrupt hands the framer one byte: the one it read, or again the byte of the
   * interrupt before it, or the byte from before the run.
   */
  lemma SeenBytes(byte: U8, events: seq<Event>, n: nat)
    requires n < |events|
    ensures var seen, e := Seen(byte, events, n), events[n];
            Seen(byte, events, n + 1) == match e
              case Interrupts(true, Some(b), _) => seen + [b]
              case Interrupts(true, None, _) => seen + [if seen == [] then byte else seen[|seen| - 1]]
              case _ => seen
    ensures Seen(byte, events, 0) == []
  {
    LastSeen(byte, events, n);
  }

  lemma {:induction false} LastSeen(byte: U8, events: seq<Event>, n: nat)
    requires n <= |events|
    ensures var seen := Seen(byte, events, n); LastByte(byte, events, n) == if seen == [] then byte else seen[|seen| - 1]
  {
    if n > 0 {
      LastSeen(byte, events, n - 1);
    }
  }

  /** The packets received by the `n`-th loop head, when `start` was pending at the first. */
  function Received(start: seq<U8>, byte: U8, events: seq<Event>, n: nat): seq<Report>
    requires n <= |events|
  {
    Reports(Split(start + Seen(byte, events, n)).segments)
  }

  predicate IsTick(e: Event) { e.Interrupts? && e.timer }

  /** Does event `n` complete a packet? */
  predicate Completes(start: seq<U8>, byte: U8, events: seq<Event>, n: nat)
    requires n < |events|
  {
    Received(start, byte, events, n + 1) != Received(start, byte, events, n)
  }

  /** For each of the first `n` events, whether it completes a packet. */
  function Completions(start: seq<U8>, byte: U8, events: seq<Event>, n: nat): (done: seq<bool>)
    requires n <= |events|
    ensures |done| == n
  {
    seq(n, k requires 0 <= k < n => Completes(start, byte, events, k))
  }

  /** For each event, whether it carries a timer tick. */
  function Ticks(events: seq<Event>): (ticks: seq<bool>)
    ensures |ticks| == |events|
  {
    seq(|events|, k requires 0 <= k < |events| => IsTick(events[k]))
  }

  /** The idle counter at the `n`-th loop head. */
  function Counter(start: seq<U8>, byte: U8, events: seq<Event>, n: nat): nat
    requires n <= |events|
  {
    IdleTicks(Completions(start, byte, events, |events|), Ticks(events), n)
  }

  /**
   * The counter is the number of timer interrupts since the last event that completed a packet,
   * that event included, or since the start.
   */
  lemma IdleMeaning(start: seq<U8>, byte: U8, events: seq<Event>, n: nat) returns (since: nat)
    requires n <= |events|
    ensures since <= n && Counter(start, byte, events, n) == |set k: nat | since <= k < n && events[k].Interrupts? && events[k].timer|
    ensures since == 0 || (since < n && Received(start, byte, events, since + 1) != Received(start, byte, events, since))
    ensures forall k :: since < k < n ==> Received(start, byte, events, k + 1) == Received(start, byte, events, k)
  {
    var done, ticks := Completions(start, byte, events, |events|), Ticks(events);
    since := IdleTicksMeaning(done, ticks, n);
    TicksCounted(ticks, since, n);
    assert (set k: nat | since <= k < n && ticks[k]) == set k: nat | since <= k < n && events[k].Interrupts? && events[k].timer;
    forall k | since < k < n
      ensures Received(start, byte, events, k + 1) == Received(start, byte, events, k)
    {
      assert !done[k];
    }
  }

  lemma NotIdleBefore(start: seq<U8>, byte: U8, events: seq<Event>, limit: nat, n: nat)
    requires n <= |events| && NeverReached(Completions(start, byte, events, |events|), Ticks(events), limit, n)
    ensures forall k :: 0 <= k < n ==> Counter(start, byte, events, k) < limit
  {
    forall k | 0 <= k < n
      ensures Counter(start, byte, events, k) < limit
    {
      assert Below(Completions(start, byte, events, |events|), Ticks(events), limit, k);
    }
  }

  /** One event's effect on the counter. */
  lemma CounterStep(start: seq<U8>, byte: U8, events: seq<Event>, n: nat)
    requires n < |events|
    ensures Counter(start, byte, events, n + 1)
         == (if Completes(start, byte, events, n) then 0 else Counter(start, byte, events, n)) + if IsTick(events[n]) then 1 else 0
  {
  }

  class Driver {
    var byteReceived: U8
    var bytesRead: nat
    const ppBytes: array<U8>
    var pp: Report

    ghost predicate Valid()
      reads this, ppBytes
    {
      ppBytes.Length == 3 && bytesRead < 3 && (bytesRead > 0 ==> CanStart(ppBytes[0]))
    }

    /** The bytes of the packet being received. */
    ghost function Pending(): seq<U8>
      reads this, ppBytes
      requires Valid()
    {
      ppBytes[..bytesRead]
    }

    constructor ()
      ensures Valid() && fresh(ppBytes) && byteReceived == 0 && Pending() == []
    {
      byteReceived, bytesRead := 0, 0;
      pp := Report(false, false, false, 0, 0, false, false);
      ppBytes := new U8[3](_ => 0);
    }

    /** The framer's step: store the byte received, or drop it while out of step. */
    method Sync()
      requires Valid()
      modifies `bytesRead, ppBytes
      ensures bytesRead <= 3
      ensures ppBytes[..bytesRead] == if old(bytesRead) == 0 && !CanStart(byteReceived) then [] else old(Pending()) + [byteReceived]
    {
      if bytesRead == 0 {
        if Bit(byteReceived, 3) {
          bytesRead := bytesRead + 1;
          ppBytes[0] := byteReceived;
        }
      } else if bytesRead == 1 {
        ppBytes[1] := byteReceived;
        bytesRead := bytesRead + 1;
      } else if bytesRead == 2 {
        ppBytes[2] := byteReceived;
        bytesRead := bytesRead + 1;
      }
    }

    /** Decodes the packet buffer field by field. */
    method Parse()
      requires ppBytes.Length == 3
      modifies `pp
      ensures pp == DecodeBytes(ppBytes[..])
    {
      var deltaX: I16 := ppBytes[1];
      if Bit(ppBytes[0], 4) {
        deltaX := ToI16(Or(ppBytes[1], 0xFF00));
      }
      var deltaY: I16 := ppBytes[2];
      if Bit(ppBytes[0], 5) {
        deltaY := ToI16(Or(ppBytes[2], 0xFF00));
      }
      pp := Report(Bit(ppBytes[0], 0), Bit(ppBytes[0], 1), Bit(ppBytes[0], 2), deltaX, deltaY,
                   Bit(ppBytes[0], 6), Bit(ppBytes[0], 7));
    }

    /**
     * A mouse interrupt: read, feed the framer, and decode when a packet is complete. `bytes`
     * is everything fed so far.
     */
    method OnMouse(read: Option<U8>, ghost bytes: seq<U8>) returns (complete: bool)
      requires Valid() && Split(bytes).pending == Pending()
      modifies `byteReceived, `bytesRead, `pp, ppBytes
      ensures Valid()
      ensures byteReceived == if read.Some? then read.value else old(byteReceived)
      ensures Split(bytes + [byteReceived]).pending == Pending()
      ensures Reports(Split(bytes + [byteReceived]).segments) == Reports(Split(bytes).segments) + if complete then [pp] else []
    {
      if read.Some? {
        byteReceived := read.value;
      }
      ghost var f := Split(bytes);
      FeedIsSplit(bytes, byteReceived);
      FeedReports(f, byteReceived);
      Sync();
      complete := bytesRead == 3;
      if complete {
        assert ppBytes[..] == f.pending + [byteReceived];
        Parse();
        bytesRead := 0;
      }
    }

    /** The driver's globals at the `n`-th loop head of a run. */
    ghost predicate InStep(start: seq<U8>, byte: U8, events: seq<Event>, n: nat)
      reads this, ppBytes
    {
      && Valid() && n <= |events|
      && byteReceived == LastByte(byte, events, n)
      && Pending() == Split(start + Seen(byte, events, n)).pending
    }

    /** What is pending is itself in step: framing it leaves it pending. */
    lemma StartsInStep(events: seq<Event>)
      requires Valid()
      ensures InStep(Pending(), byteReceived, events, 0) && Received(Pending(), byteReceived, events, 0) == []
    {
      FramingIsSplit(Framing([], Pending()), Pending());
      assert Pending() + [] == Pending();
    }

    /** The mouse part of one turn of a loop. */
    method OnEvent(ghost start: seq<U8>, ghost byte: U8, events: seq<Event>, n: nat) returns (complete: bool)
      requires n < |events| && InStep(start, byte, events, n)
      modifies `byteReceived, `bytesRead, `pp, ppBytes
      ensures InStep(start, byte, events, n + 1)
      ensures Received(start, byte, events, n + 1) == Received(start, byte, events, n) + if complete then [pp] else []
      ensures complete == Completes(start, byte, events, n)
    {
      var e := events[n];
      ghost var bytes := start + Seen(byte, events, n);
      complete := false;
      if e.Interrupts? && e.mouse {
        complete := OnMouse(e.read, bytes);
        assert bytes + [byteReceived] == start + Seen(byte, events, n + 1);
      } else {
        assert bytes == start + Seen(byte, events, n + 1);
      }
    }

    /**
     * Prints `cnt` packets. Whatever was pending, and whatever reads failed, the packets
     * printed are those of the unique framing of the bytes seen, and the loop reads no event
     * after the one that completes the last packet.
     */
    method TestPacket(cnt: U32, events: seq<Event>) returns (printed: seq<Report>, consumed: nat)
      requires Valid()
      modifies `byteReceived, `bytesRead, `pp, ppBytes
      ensures consumed <= |events| && InStep(old(Pending()), old(byteReceived), events, consumed)
      ensures printed == Received(old(Pending()), old(byteReceived), events, consumed)
      ensures |printed| == cnt || (|printed| < cnt && consumed == |events|)
      ensures consumed > 0 ==> |Received(old(Pending()), old(byteReceived), events, consumed - 1)| < cnt
    {
      printed, consumed := [], 0;
      StartsInStep(events);
      ghost var start, byte := Pending(), byteReceived;
      while |printed| < cnt && consumed < |events|
        invariant consumed <= |events| && InStep(start, byte, events, consumed)
        invariant printed == Received(start, byte, events, consumed) && |printed| <= cnt
        invariant consumed > 0 ==> |Received(start, byte, events, consumed - 1)| < cnt
        decreases |events| - consumed
      {
        var complete := OnEvent(start, byte, events, consumed);
        if complete {
          printed := printed + [pp];
        }
        consumed := consumed + 1;
      }
    }

    /** One turn of the loop with an idle timeout. */
    method OnAsyncEvent(ghost start: seq<U8>, ghost byte: U8, events: seq<Event>, n: nat, counter0: nat)
      returns (complete: bool, counter: nat)
      requires n < |events| && InStep(start, byte, events, n) && counter0 == Counter(start, byte, events, n)
      modifies `byteReceived, `bytesRead, `pp, ppBytes
      ensures InStep(start, byte, events, n + 1)
      ensures Received(start, byte, events, n + 1) == Received(start, byte, events, n) + if complete then [pp] else []
      ensures counter == Counter(start, byte, events, n + 1)
    {
      CounterStep(start, byte, events, n);
      counter := counter0;
      complete := OnEvent(start, byte, events, n);
      if complete {
        counter := 0;
      }
      if events[n].Interrupts? && events[n].timer {
        counter := counter + 1;
      }
    }

    /**
     * Prints packets until `idle` seconds of ticks pass without one. The counter is always
     * the number of ticks since the last complete packet, and the loop ends at the first
     * loop head where that reaches `60 * idle`.
     */
    method TestAsync(idle: U8, events: seq<Event>) returns (printed: seq<Report>, counter: nat, consumed: nat)
      requires Valid()
      modifies `byteReceived, `bytesRead, `pp, ppBytes
      ensures consumed <= |events| && InStep(old(Pending()), old(byteReceived), events, consumed)
      ensures printed == Received(old(Pending()), old(byteReceived), events, consumed)
      ensures counter == Counter(old(Pending()), old(byteReceived), events, consumed)
      ensures counter >= idle * 60 || consumed == |events|
      ensures forall k :: 0 <= k < consumed ==> Counter(old(Pending()), old(byteReceived), events, k) < idle * 60
    {
      printed, counter, consumed := [], 0, 0;
      StartsInStep(events);
      ghost var start, byte := Pending(), byteReceived;
      while counter < idle * 60 && consumed < |events|
        invariant consumed <= |events| && InStep(start, byte, events, consumed)
        invariant printed == Received(start, byte, events, consumed)
        invariant counter == Counter(start, byte, events, consumed)
        invariant NeverReached(Completions(start, byte, events, |events|), Ticks(events), idle * 60, consumed)
        decreases |events| - consumed
      {
        NeverReachedStep(Completions(start, byte, events, |events|), Ticks(events), idle * 60, consumed);
        var complete;
        complete, counter := OnAsyncEvent(start, byte, events, consumed, counter);
        if complete {
          printed := printed + [pp];
        }
        consumed := consumed + 1;
      }
      NotIdleBefore(start, byte, events, idle * 60, consumed);
    }
  }
}
