/** The sprite animation: a tick prescaler, a clamped mover, and a redraw after every move. */
module Animation {
  import opened Bits
  import opened Options
  import Scancodes

  const ESC := Scancodes.ESC
  const TWO_BYTE := Scancodes.TWO_BYTE

  /** The arguments of a run: start, end, signed speed and frame rate. */
  datatype Move = Move(xi: U16, yi: U16, xf: U16, yf: U16, speed: I16, frameRate: U8) {
    predicate Horizontal() { yi == yf }
    predicate Positive() { xf > xi || yf > yi }
    predicate AxisAligned() { xi == xf || yi == yf }
    predicate Still() { xi == xf && yi == yf }

    /** Bit 15 of the speed is its sign. */
    predicate Slow() { Bit(speed, 15) }

    /** `abs(speed)` of a slow move: frames per pixel. */
    function Wait(): int {
      var s: int := speed;
      -s
    }

    function Interval(): U8
      requires frameRate >= 1
    {
      60 / frameRate
    }
  }

  /** Where the sprite is, how many frames it has waited, and whether it has arrived. */
  datatype Motion = Motion(x: U16, y: U16, frames: nat, complete: bool)

  /**
   * One turn of the event loop. `Other` is anything that is not a hardware notification;
   * `scancode` is what the keyboard handler read, if it read anything.
   */
  datatype Event = Other | Hardware(keyboard: bool, scancode: Option<U8>, timer: bool)

  /** The program's variables at a loop head. */
  datatype World = World(data: U8, counter: nat, motion: Motion)

  // ---- one frame ----------------------------------------------------------------------

  function Towards(from: U16, to: U16, step: nat, positive: bool): U16 {
    if positive then (if from + step >= to then to else from + step)
    else (if from - step <= to then to else from - step)
  }

  function OneStep(from: U16, positive: bool): U16 {
    ToU16(if positive then from + 1 else from - 1)
  }

  /** Does this frame move (and so redraw) the sprite? */
  predicate Redraws(c: Move, p: Motion) {
    !c.Slow() || p.frames + 1 == c.Wait()
  }

  /** The effect of one frame on a sprite that has not arrived. */
  function Frame(c: Move, p: Motion): Motion {
    if !Redraws(c, p) then p.(frames := p.frames + 1)
    else
      var x := if !c.Horizontal() then p.x
               else if c.Slow() then OneStep(p.x, c.Positive()) else FastStep(p.x, c.xf, c);
      var y := if c.Horizontal() then p.y
               else if c.Slow() then OneStep(p.y, c.Positive()) else FastStep(p.y, c.yf, c);
      Motion(x, y, if c.Slow() then 0 else p.frames, x == c.xf && y == c.yf)
  }

  function FastStep(from: U16, to: U16, c: Move): U16
    requires !c.Slow()
  {
    SignOfI16(c.speed);
    Towards(from, to, c.speed, c.Positive())
  }

  /** The sprite after `k` frames; arrival is final. */
  function Frames(c: Move, k: nat): Motion {
    if k == 0 then Motion(c.xi, c.yi, 0, false)
    else
      var p := Frames(c, k - 1);
      if p.complete then p else Frame(c, p)
  }

  // ---- the event loop as a function -----------------------------------------------------

  function Tick(c: Move, w: World): World
    requires c.frameRate >= 1
  {
    var counter := w.counter + 1;
    if w.motion.complete then w.(counter := counter)
    else if counter >= c.Interval() then w.(counter := 0, motion := Frame(c, w.motion))
    else w.(counter := counter)
  }

  function DataAfter(data: U8, e: Event): U8 {
    if e.Hardware? && e.keyboard && e.scancode.Some? then e.scancode.value else data
  }

  /** A keyboard byte that ends the run or starts a two-byte code skips the rest of its notification. */
  predicate Ticks(data: U8, e: Event) {
    e.Hardware? && e.timer && !(e.keyboard && DataAfter(data, e) in {ESC, TWO_BYTE})
  }

  function Turn(c: Move, w: World, e: Event): World
    requires c.frameRate >= 1
  {
    var w' := w.(data := DataAfter(w.data, e));
    if Ticks(w.data, e) then Tick(c, w') else w'
  }

  /** The world after the loop has been offered the first `n` events. */
  function After(c: Move, data: U8, events: seq<Event>, n: nat): World
    requires c.frameRate >= 1 && n <= |events|
  {
    if n == 0 then World(data, 0, Motion(c.xi, c.yi, 0, false))
    else
      var w := After(c, data, events, n - 1);
      if w.data == ESC then w else Turn(c, w, events[n - 1])
  }

  /** How many timer ticks the loop has handled. */
  function TickCount(data: U8, events: seq<Event>, n: nat): nat
    requires n <= |events|
  {
    if n == 0 then 0
    else
      var before := DataAt(data, events, n - 1);
      TickCount(data, events, n - 1) + if before != ESC && Ticks(before, events[n - 1]) then 1 else 0
  }

  /** The keyboard byte the loop head sees. */
  function DataAt(data: U8, events: seq<Event>, n: nat): U8
    requires n <= |events|
  {
    if n == 0 then data
    else
      var before := DataAt(data, events, n - 1);
      if before == ESC then before else DataAfter(before, events[n - 1])
  }

  /** The run ends when an ESC break code has been read, if it was not there from the start. */
  lemma {:induction false} EndsAtEscape(data: U8, events: seq<Event>, n: nat)
    requires n <= |events|
    ensures DataAt(data, events, n) == 0x81 <==> data == 0x81 || exists k :: 0 <= k < n && Reads(events[k], 0x81)
  {
    if n > 0 {
      EndsAtEscape(data, events, n - 1);
    }
  }

  /** The keyboard handler reads this byte in the event. */
  predicate Reads(e: Event, b: U8) { e == Hardware(true, Some(b), e.Hardware? && e.timer) }

  /** While the run goes on, the loop head sees the last byte read, `since` events ago or at the start. */
  lemma {:induction false} LastRead(data: U8, events: seq<Event>, n: nat) returns (since: nat)
    requires n <= |events| && DataAt(data, events, n) != 0x81
    ensures since <= n && if since == 0 then DataAt(data, events, n) == data else Reads(events[since - 1], DataAt(data, events, n))
    ensures forall k, b :: since <= k < n ==> !Reads(events[k], b)
  {
    if n == 0 {
      since := 0;
    } else {
      var e := events[n - 1];
      if e.Hardware? && e.keyboard && e.scancode.Some? {
        since := n;
        assert Reads(e, DataAt(data, events, n));
      } else {
        since := LastRead(data, events, n - 1);
      }
    }
  }

  /** The loop handles the tick of event `k`. */
  predicate Handled(data: U8, events: seq<Event>, k: nat)
    requires k < |events|
  {
    && events[k].Hardware? && events[k].timer && DataAt(data, events, k) != 0x81
    && !(events[k].keyboard && (DataAt(data, events, k + 1) == 0x81 || DataAt(data, events, k + 1) == 0xE0))
  }

  /** The tick count is the number of events whose tick is handled. */
  lemma {:induction false} TicksCounted(data: U8, events: seq<Event>, n: nat)
    requires n <= |events|
    ensures TickCount(data, events, n) == |set k: nat | k < n && Handled(data, events, k)|
  {
    var ticks := set k: nat | k < n && Handled(data, events, k);
    if n == 0 {
      assert ticks == {};
    } else {
      TicksCounted(data, events, n - 1);
      OneMoreHandled(data, events, n - 1);
    }
  }

  lemma OneMoreHandled(data: U8, events: seq<Event>, n: nat)
    requires n < |events|
    ensures |set k: nat | k < n + 1 && Handled(data, events, k)|
         == |set k: nat | k < n && Handled(data, events, k)| + if Handled(data, events, n) then 1 else 0
  {
    var before, after := set k: nat | k < n && Handled(data, events, k), set k: nat | k < n + 1 && Handled(data, events, k);
    assert after == before + if Handled(data, events, n) then {n} else {};
  }

  /** How many timer ticks arrived while the loop was running. */
  function ArrivedTicks(data: U8, events: seq<Event>, n: nat): nat
    requires n <= |events|
  {
    if n == 0 then 0
    else
      var e := events[n - 1];
      ArrivedTicks(data, events, n - 1) + if DataAt(data, events, n - 1) != ESC && e.Hardware? && e.timer then 1 else 0
  }

  /** A tick the loop skips because of the keyboard byte in its notification. */
  predicate Skipped(data: U8, e: Event) {
    data != ESC && e.Hardware? && e.timer && e.keyboard && DataAfter(data, e) in {ESC, TWO_BYTE}
  }

  predicate SkippedAt(data: U8, events: seq<Event>, k: nat)
    requires k < |events|
  {
    Skipped(DataAt(data, events, k), events[k])
  }

  /** None of the ticks of the first `n` events is skipped. */
  predicate NoneSkipped(data: U8, events: seq<Event>, n: nat)
    requires n <= |events|
  {
    forall k :: 0 <= k < n ==> !SkippedAt(data, events, k)
  }

  lemma TickStep(data: U8, events: seq<Event>, n: nat)
    requires n < |events|
    ensures ArrivedTicks(data, events, n + 1) - TickCount(data, events, n + 1)
         == ArrivedTicks(data, events, n) - TickCount(data, events, n) + if SkippedAt(data, events, n) then 1 else 0
  {
  }

  /** The loop handles every tick exactly when none shares its notification with such a byte. */
  lemma {:induction false} SkippedTicks(data: U8, events: seq<Event>, n: nat)
    requires n <= |events|
    ensures TickCount(data, events, n) <= ArrivedTicks(data, events, n)
    ensures TickCount(data, events, n) == ArrivedTicks(data, events, n) <==> NoneSkipped(data, events, n)
  {
    if n > 0 {
      SkippedTicks(data, events, n - 1);
      TickStep(data, events, n - 1);
    }
  }

  /** A tick that arrives with a prefix byte is lost. */
  lemma PrefixLosesTick(data: U8)
    requires data != ESC
    ensures var events := [Hardware(true, Some(TWO_BYTE), true)];
            TickCount(data, events, 1) == 0 && ArrivedTicks(data, events, 1) == 1
  {
    var events := [Hardware(true, Some(TWO_BYTE), true)];
    assert DataAt(data, events, 0) == data;
    assert TickCount(data, events, 0) == 0 && ArrivedTicks(data, events, 0) == 0;
  }

  /** Ticks per frame. */
  function Period(c: Move): nat
    requires c.frameRate >= 1
  {
    if c.Interval() == 0 then 1 else c.Interval()
  }

  /** There are `60 / frameRate` ticks to a frame, rounded down, and one at rates above 60. */
  lemma PeriodExact(c: Move)
    requires c.frameRate >= 1
    ensures Period(c) >= 1
    ensures c.frameRate <= 60 ==> Period(c) * c.frameRate <= 60 < (Period(c) + 1) * c.frameRate
    ensures c.frameRate > 60 ==> Period(c) == 1
  {
    var q := 60 / c.frameRate;
    assert 60 == q * c.frameRate + 60 % c.frameRate;
    assert (q + 1) * c.frameRate == q * c.frameRate + c.frameRate;
    if c.frameRate <= 60 && q < 1 {
      MulMonotone(q, 0, c.frameRate);
    }
    if c.frameRate > 60 {
      DivModUnique(60, c.frameRate, 0, 60);
    }
  }

  lemma DivStep(k: nat, n: nat)
    requires n > 0
    ensures if k % n + 1 == n then (k + 1) / n == k / n + 1 && (k + 1) % n == 0
            else (k + 1) / n == k / n && (k + 1) % n == k % n + 1
  {
    assert k + 1 == k / n * n + k % n + 1;
    if k % n + 1 == n {
      DivModUnique(k + 1, n, k / n + 1, 0);
    } else {
      DivModUnique(k + 1, n, k / n, k % n + 1);
    }
  }

  /**
   * The prescaler: after T handled ticks exactly T / period frames have elapsed, and while
   * the sprite is under way the counter holds the rest.
   */
  lemma {:induction false} Prescaler(c: Move, data: U8, events: seq<Event>, n: nat)
    requires c.frameRate >= 1 && n <= |events|
    ensures var w, t := After(c, data, events, n), TickCount(data, events, n);
            && w.data == DataAt(data, events, n)
            && 0 <= t / Period(c)
            && w.motion == Frames(c, t / Period(c))
            && (w.motion.complete || w.counter == t % Period(c))
  {
    if n > 0 {
      Prescaler(c, data, events, n - 1);
      var t := TickCount(data, events, n - 1);
      DivStep(t, Period(c));
    }
  }

  // ---- the trajectory ---------------------------------------------------------------------

  function Min(a: int, b: int): int { if a <= b then a else b }

  /** Pixels covered after `k` frames if nothing stood in the way. */
  function Travel(c: Move, k: nat): int {
    if c.speed >= 0 then k * c.speed else k / c.Wait()
  }

  /** The point `d` pixels from `from` in the direction of `to`. */
  function Along(from: int, to: int, d: int): int {
    if from <= to then from + d else from - d
  }

  /** A move that follows one axis and, if slow, goes somewhere. */
  predicate WellPosed(c: Move) {
    c.AxisAligned() && (c.speed >= 0 || !c.Still())
  }

  function Distance(c: Move): nat { Abs(c.xf - c.xi) + Abs(c.yf - c.yi) }

  /** `p` has covered `travel` pixels of the path, or all of it. */
  ghost predicate On(c: Move, p: Motion, travel: int) {
    && travel >= 0
    && p.x == Along(c.xi, c.xf, Min(Abs(c.xf - c.xi), travel))
    && p.y == Along(c.yi, c.yf, Min(Abs(c.yf - c.yi), travel))
  }

  lemma FastFrame(c: Move, p: Motion, travel: int)
    requires c.AxisAligned() && c.speed >= 0 && On(c, p, travel)
    ensures On(c, Frame(c, p), travel + c.speed)
    ensures Frame(c, p).complete <==> travel + c.speed >= Distance(c)
  {
    SignOfI16(c.speed);
  }

  /** One step along an axis that still has room does not wrap. */
  lemma StepAlong(from: U16, to: U16, d: nat)
    requires d < Abs(to - from)
    ensures var here := Along(from, to, d);
            0 <= here < 0x1_0000 && OneStep(here, to > from) == Along(from, to, d + 1)
  {
    var next := Along(from, to, d + 1);
    assert ToU16(next) == next;
  }

  lemma SlowFrame(c: Move, p: Motion, travel: int)
    requires c.AxisAligned() && c.speed < 0 && On(c, p, travel) && travel < Distance(c)
    ensures if p.frames + 1 == c.Wait() then
              On(c, Frame(c, p), travel + 1) && Frame(c, p).frames == 0 && (Frame(c, p).complete <==> travel + 1 >= Distance(c))
            else Frame(c, p) == p.(frames := p.frames + 1)
  {
    SignOfI16(c.speed);
    if c.Horizontal() {
      StepAlong(c.xi, c.xf, travel);
    } else {
      StepAlong(c.yi, c.yf, travel);
    }
  }

  lemma {:induction false} FastTrajectory(c: Move, k: nat)
    requires c.AxisAligned() && c.speed >= 0
    ensures On(c, Frames(c, k), Travel(c, k))
    ensures Frames(c, k).complete <==> Travel(c, k) >= Distance(c) && k >= 1
  {
    if k > 0 {
      FastTrajectory(c, k - 1);
      NextMultiple(k, c.speed);
      FastFrame(c, Frames(c, k - 1), Travel(c, k - 1));
    }
  }

  lemma NextMultiple(k: nat, s: nat)
    requires k > 0
    ensures 0 <= (k - 1) * s && k * s == (k - 1) * s + s
  {
    MulMonotone(0, k - 1, s);
  }

  lemma {:induction false} SlowTrajectory(c: Move, k: nat)
    requires c.AxisAligned() && c.speed < 0 && !c.Still()
    ensures On(c, Frames(c, k), Travel(c, k))
    ensures Frames(c, k).complete <==> Travel(c, k) >= Distance(c)
    ensures !Frames(c, k).complete ==> Frames(c, k).frames == k % c.Wait()
  {
    if k == 0 {
      DivModUnique(0, c.Wait(), 0, 0);
    } else {
      SlowTrajectory(c, k - 1);
      DivStep(k - 1, c.Wait());
      if !Frames(c, k - 1).complete {
        SlowFrame(c, Frames(c, k - 1), Travel(c, k - 1));
      }
    }
  }

  /**
   * The whole trajectory in closed form: after `k` frames the sprite has covered
   * min(distance, travel) pixels of the straight path, a slow sprite under way has waited
   * k mod |speed| frames, and the sprite has arrived exactly when the path is covered.
   */
  lemma Trajectory(c: Move, k: nat)
    requires WellPosed(c)
    ensures 0 <= Travel(c, k)
    ensures var p := Frames(c, k);
            && p.x == Along(c.xi, c.xf, Min(Abs(c.xf - c.xi), Travel(c, k)))
            && p.y == Along(c.yi, c.yf, Min(Abs(c.yf - c.yi), Travel(c, k)))
            && (p.complete <==> Travel(c, k) >= Distance(c) && k >= 1)
            && (c.speed < 0 && !p.complete ==> p.frames == k % c.Wait())
  {
    if c.speed >= 0 {
      FastTrajectory(c, k);
    } else {
      SlowTrajectory(c, k);
      DivModUnique(0, c.Wait(), 0, 0);
    }
  }

  /** The position as a function of the number of handled timer ticks, over any run. */
  lemma WholeRun(c: Move, data: U8, events: seq<Event>, n: nat)
    requires c.frameRate >= 1 && n <= |events| && WellPosed(c)
    ensures var w, k := After(c, data, events, n).motion, TickCount(data, events, n) / Period(c);
            && 0 <= k
            && w.x == Along(c.xi, c.xf, Min(Abs(c.xf - c.xi), Travel(c, k)))
            && w.y == Along(c.yi, c.yf, Min(Abs(c.yf - c.yi), Travel(c, k)))
            && (w.complete <==> Travel(c, k) >= Distance(c) && k >= 1)
  {
    Prescaler(c, data, events, n);
    Trajectory(c, TickCount(data, events, n) / Period(c));
  }

  /** A fast move covers `speed` pixels a frame, a slow one a pixel every `-speed` frames. */
  lemma TravelExact(c: Move, k: nat)
    ensures c.speed >= 0 ==> Travel(c, k) == k * c.speed
    ensures c.speed < 0 ==> var w := -(c.speed as int); 0 <= Travel(c, k) && Travel(c, k) * w <= k < (Travel(c, k) + 1) * w
  {
    if c.speed < 0 {
      var w := c.Wait();
      DivNonNegative(k, w);
      assert k == k / w * w + k % w;
      assert (k / w + 1) * w == k / w * w + w;
    }
  }

  /** Going `d` pixels from `from` towards `to`, and no further. */
  predicate Reaches(from: U16, to: U16, d: int, p: int) {
    if from <= to then p == (if from + d <= to then from + d else to as int)
    else p == (if from - d >= to then from - d else to as int)
  }

  lemma AlongReaches(from: U16, to: U16, d: int)
    requires d >= 0
    ensures Reaches(from, to, d, Along(from, to, Min(Abs(to - from), d)))
  {
  }

  /**
   * The sprite in real time, with nothing but the arguments and the ticks handled: a whole
   * number of ticks makes a frame, and a whole number of frames or pixels makes the way gone.
   */
  lemma InRealTime(c: Move, data: U8, events: seq<Event>, n: nat) returns (period: nat, frames: nat, gone: nat)
    requires c.frameRate >= 1 && n <= |events|
    requires (c.xi == c.xf || c.yi == c.yf) && (c.speed >= 0 || c.xi != c.xf || c.yi != c.yf)
    ensures if c.frameRate > 60 then period == 1 else period >= 1 && period * c.frameRate <= 60 < (period + 1) * c.frameRate
    ensures frames * period <= TickCount(data, events, n) < (frames + 1) * period
    ensures if c.speed >= 0 then gone == frames * c.speed
            else var w := -(c.speed as int); gone * w <= frames < (gone + 1) * w
    ensures var p := After(c, data, events, n).motion;
            && Reaches(c.xi, c.xf, gone, p.x) && Reaches(c.yi, c.yf, gone, p.y)
            && (p.complete <==> frames >= 1 && p.x == c.xf && p.y == c.yf)
  {
    period := Period(c);
    PeriodExact(c);
    Prescaler(c, data, events, n);
    frames := WholeFrames(TickCount(data, events, n), period);
    gone := WayGone(c, frames);
  }

  lemma WholeFrames(ticks: nat, period: nat) returns (frames: nat)
    requires period >= 1
    ensures frames == ticks / period && frames * period <= ticks < (frames + 1) * period
  {
    QuotientBounds(ticks, period);
    frames := ticks / period;
  }

  lemma WayGone(c: Move, frames: nat) returns (gone: nat)
    requires (c.xi == c.xf || c.yi == c.yf) && (c.speed >= 0 || c.xi != c.xf || c.yi != c.yf)
    ensures if c.speed >= 0 then gone == frames * c.speed
            else var w := -(c.speed as int); gone * w <= frames < (gone + 1) * w
    ensures var p := Frames(c, frames);
            && Reaches(c.xi, c.xf, gone, p.x) && Reaches(c.yi, c.yf, gone, p.y)
            && (p.complete <==> frames >= 1 && p.x == c.xf && p.y == c.yf)
  {
    Trajectory(c, frames);
    TravelExact(c, frames);
    gone := Travel(c, frames);
    AlongReaches(c.xi, c.xf, gone);
    AlongReaches(c.yi, c.yf, gone);
    if frames == 0 {
      TravelStart(c);
    }
  }

  lemma TravelStart(c: Move)
    ensures Travel(c, 0) == 0
  {
    if c.speed < 0 {
      DivModUnique(0, c.Wait(), 0, 0);
    }
  }

  /**
   * A fast move off the axes goes vertically only. It stops level with its end, and is there
   * with the first frame when it should go up and to the right.
   */
  lemma {:induction false} FastOffAxis(c: Move, k: nat)
    requires c.xi != c.xf && c.yi != c.yf && c.speed >= 0
    ensures var p := Frames(c, k);
            && p.x == c.xi && !p.complete
            && (if k > 0 && c.xf > c.xi && c.yf < c.yi then p.y == c.yf else Reaches(c.yi, c.yf, k * c.speed, p.y))
  {
    SignOfI16(c.speed);
    if k > 0 {
      FastOffAxis(c, k - 1);
      NextMultiple(k, c.speed);
    }
  }

  // ---- which moves arrive, and which never leave the path -----------------------------------

  predicate Between(k: int, a: int, b: int) { Min(a, b) <= k <= a + b - Min(a, b) }

  /** The position lies in the box spanned by the start and the end. */
  predicate InBox(c: Move, p: Motion) {
    Between(p.x, c.xi, c.xf) && Between(p.y, c.yi, c.yf)
  }

  /** The start and the end of the vertical axis are the two ends of the 16-bit range. */
  predicate SpansAxis(c: Move) {
    (c.yi, c.yf) == (0, 0xFFFF) || (c.yi, c.yf) == (0xFFFF, 0)
  }

  /** `m` single steps along an axis, wrapping at 16 bits. */
  function Walk(from: U16, positive: bool, m: nat): U16 {
    ToU16(if positive then from + m else from - m)
  }

  lemma WalkStep(from: U16, positive: bool, m: nat)
    ensures OneStep(Walk(from, positive, m), positive) == Walk(from, positive, m + 1)
  {
    if positive {
      ModAdd(from + m, 1, 0x1_0000);
    } else {
      ModAdd(from - m, -1, 0x1_0000);
    }
  }

  /** A walk comes back after exactly 65536 steps, and meets every coordinate before. */
  lemma WalkCycle(from: U16, positive: bool, m: nat, to: U16)
    requires m < 0x1_0000
    ensures Walk(from, positive, m) == from <==> m == 0
    ensures Walk(from, positive, 0x1_0000) == from
    ensures Walk(from, positive, ToU16(if positive then to - from else from - to)) == to
  {
  }

  /**
   * A slow move that does not follow one axis, or that starts where it should end, just walks
   * along its axis (in the second case until the walk has come round once).
   */
  lemma {:induction false} SlowWalk(c: Move, k: nat)
    requires c.speed < 0
    requires c.AxisAligned() ==> c.Still() && k < 0x1_0000 * c.Wait()
    ensures 0 <= k / c.Wait()
    ensures var p, m := Frames(c, k), k / c.Wait();
            && !p.complete
            && p.frames == k % c.Wait()
            && p.x == (if c.Horizontal() then Walk(c.xi, c.Positive(), m) else c.xi)
            && p.y == (if c.Horizontal() then c.yi else Walk(c.yi, c.Positive(), m))
  {
    var n := c.Wait();
    DivNonNegative(k, n);
    if k == 0 {
      DivModUnique(0, n, 0, 0);
    } else {
      SlowWalk(c, k - 1);
      DivStep(k - 1, n);
      SlowWalkFrame(c, Frames(c, k - 1), (k - 1) / n);
      if c.Still() {
        QuotientBelow(k, n, 0x1_0000);
        WalkCycle(c.xi, false, k / n, c.xi);
      }
    }
  }

  lemma SlowWalkFrame(c: Move, p: Motion, m: nat)
    requires c.speed < 0
    requires p.x == (if c.Horizontal() then Walk(c.xi, c.Positive(), m) else c.xi)
    requires p.y == (if c.Horizontal() then c.yi else Walk(c.yi, c.Positive(), m))
    ensures var q := Frame(c, p);
            if p.frames + 1 == c.Wait() then
              && q.frames == 0
              && q.x == (if c.Horizontal() then Walk(c.xi, c.Positive(), m + 1) else c.xi)
              && q.y == (if c.Horizontal() then c.yi else Walk(c.yi, c.Positive(), m + 1))
              && (q.complete <==> q.x == c.xf && q.y == c.yf)
            else q == p.(frames := p.frames + 1)
  {
    SignOfI16(c.speed);
    WalkStep(c.xi, c.Positive(), m);
    WalkStep(c.yi, c.Positive(), m);
  }

  /**
   * The same in numbers: after `m * -speed` frames or more, but fewer than one wait more, the
   * sprite is `m` steps on, modulo 65536, and has not arrived.
   */
  lemma SlowWalkExact(c: Move, k: nat, m: nat)
    requires c.speed < 0 && m * -(c.speed as int) <= k < (m + 1) * -(c.speed as int)
    requires (c.xi != c.xf && c.yi != c.yf) || (c.xi == c.xf && c.yi == c.yf && m < 0x1_0000)
    ensures !Frames(c, k).complete
    ensures Frames(c, k).x == if c.yi == c.yf then (c.xi - m) % 0x1_0000 else c.xi
    ensures Frames(c, k).y == if c.yi == c.yf then c.yi
                              else if c.xf > c.xi || c.yf > c.yi then (c.yi + m) % 0x1_0000 else (c.yi - m) % 0x1_0000
  {
    var w := c.Wait();
    assert (m + 1) * w == m * w + w;
    DivModUnique(k, w, m, k - m * w);
    if m < 0x1_0000 {
      MulMonotone(m + 1, 0x1_0000, w);
    }
    SlowWalk(c, k);
  }

  /** A slow move that starts at its end arrives when it has walked round once, and not before. */
  lemma {:induction false} StillArrives(c: Move, k: nat)
    requires c.speed < 0 && c.xi == c.xf && c.yi == c.yf
    ensures Frames(c, k).complete <==> k >= 0x1_0000 * -(c.speed as int)
    ensures Frames(c, k).complete ==> Frames(c, k).x == c.xf && Frames(c, k).y == c.yf
  {
    var n := c.Wait();
    if k < 0x1_0000 * n {
      SlowWalk(c, k);
    } else if k == 0x1_0000 * n {
      DivModUnique(k - 1, n, 0xFFFF, n - 1);
      SlowWalk(c, k - 1);
      SlowWalkFrame(c, Frames(c, k - 1), 0xFFFF);
      WalkCycle(c.xi, false, 0, c.xi);
    } else {
      StillArrives(c, k - 1);
    }
  }

  lemma {:induction false} OffAxis(c: Move, k: nat)
    requires !c.AxisAligned()
    ensures Frames(c, k).x == c.xi && !Frames(c, k).complete
  {
    if k > 0 {
      OffAxis(c, k - 1);
    }
  }

  /**
   * A move arrives if and only if it follows one axis and either moves at all or starts at
   * its end. (A slow move that starts at its end arrives only after walking all the way
   * round the 16-bit range.)
   */
  lemma Arrives(c: Move)
    ensures (exists k :: Frames(c, k).complete) <==> c.AxisAligned() && (c.speed != 0 || c.Still())
  {
    if !c.AxisAligned() {
      forall k: nat ensures !Frames(c, k).complete {
        OffAxis(c, k);
      }
    } else if c.speed >= 0 {
      ArrivesFast(c);
    } else if c.Still() {
      StillArrives(c, 0x1_0000 * c.Wait());
    } else {
      var k := Distance(c) * c.Wait();
      MulMonotone(0, Distance(c), c.Wait());
      DivModUnique(k, c.Wait(), Distance(c), 0);
      SlowTrajectory(c, k);
      assert Frames(c, k).complete;
    }
  }

  lemma ArrivesFast(c: Move)
    requires c.AxisAligned() && c.speed >= 0
    ensures (exists k :: Frames(c, k).complete) <==> c.speed != 0 || c.Still()
  {
    if c.speed != 0 || c.Still() {
      var k := Distance(c) + 1;
      if c.speed > 0 {
        MulMonotone(1, c.speed, k);
      }
      FastTrajectory(c, k);
      assert Frames(c, k).complete;
    } else {
      forall k: nat ensures !Frames(c, k).complete {
        FastTrajectory(c, k);
      }
    }
  }

  lemma {:induction false} FastInBox(c: Move, k: nat)
    requires c.speed >= 0
    ensures InBox(c, Frames(c, k))
  {
    SignOfI16(c.speed);
    if k > 0 {
      FastInBox(c, k - 1);
    }
  }

  lemma LeavesBox(c: Move) returns (k: nat)
    requires c.speed < 0 && (!c.AxisAligned() || c.Still()) && !SpansAxis(c)
    ensures !InBox(c, Frames(c, k))
  {
    var n := c.Wait();
    if c.Still() {
      k := n;
      DivModUnique(k, n, 1, 0);
      SlowWalk(c, k);
      WalkCycle(c.xi, false, 1, c.xi);
    } else {
      var low := Min(c.yi, c.yf);
      var outside: U16 := if low > 0 then low - 1 else c.yi + c.yf + 1;
      var m := ToU16(if c.Positive() then outside - c.yi else c.yi - outside);
      MulMonotone(0, m, n);
      k := m * n;
      DivModUnique(k, n, m, 0);
      SlowWalk(c, k);
      WalkCycle(c.yi, c.Positive(), 0, outside);
    }
  }

  /**
   * The sprite never leaves the box between its start and its end if and only if the move is
   * fast, or follows one axis to a different point, or its box is as high as the axis is long.
   */
  lemma NeverLeavesBox(c: Move)
    ensures (forall k :: InBox(c, Frames(c, k))) <==> c.speed >= 0 || (c.AxisAligned() && !c.Still()) || SpansAxis(c)
  {
    if c.speed >= 0 {
      forall k: nat ensures InBox(c, Frames(c, k)) {
        FastInBox(c, k);
      }
    } else if c.AxisAligned() && !c.Still() {
      forall k: nat ensures InBox(c, Frames(c, k)) {
        SlowTrajectory(c, k);
      }
    } else if SpansAxis(c) {
      forall k: nat ensures InBox(c, Frames(c, k)) {
        OffAxis(c, k);
      }
    } else {
      var k := LeavesBox(c);
    }
  }
}
