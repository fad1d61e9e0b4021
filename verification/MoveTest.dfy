/** The animation run against the framebuffer: what is on the screen at every loop head. */
module MoveTest {
  import opened Bits
  import opened Layout
  import opened Framebuffer
  import opened Animation
  import Options

  /** A loaded image, row-major. */
  datatype Sprite = Sprite(width: U16, height: U16, pixels: seq<U8>) {
    ghost predicate Valid() { |pixels| == width * height }
  }

  ghost predicate Black(m: Mode, g: Grid)
    requires Shaped(m, g)
  {
    forall u, v :: m.OnScreen(u, v) ==> g[v][u] == 0
  }

  /** The screen shows the sprite at `(x, y)` and nothing else. */
  ghost predicate OnlySprite(m: Mode, g: Grid, s: Sprite, x: U16, y: U16)
    requires Shaped(m, g) && s.Valid()
  {
    forall u, v :: m.OnScreen(u, v) ==>
      g[v][u] == if x <= u < x + s.width && y <= v < y + s.height
                 then m.Ink(Texel(s.pixels, s.width, s.height, u - x, v - y)) else 0
  }

  /** The picture in numbers: pixel `p` of the image, row by row, cut to the depth of the mode, and black around it. */
  lemma OnlySpriteInNumbers(m: Mode, g: Grid, s: Sprite, x: U16, y: U16, p: nat, u: nat, v: nat)
    requires Shaped(m, g) && s.Valid() && OnlySprite(m, g, s, x, y)
    requires x + s.width <= m.hRes && y + s.height <= m.vRes && p < |s.pixels| && m.OnScreen(u, v)
    ensures s.width > 0 && m.OnScreen(x + p % s.width, y + p / s.width)
    ensures g[y + p / s.width][x + p % s.width] == s.pixels[p] % Pow2(m.bits)
    ensures u < x || u >= x + s.width || v < y || v >= y + s.height ==> g[v][u] == 0
  {
    TexelOrder(s.pixels, s.width, s.height, p);
    RowOfPixel(p, s.width, s.height);
    CutsAreRemainders(m, s.pixels[p]);
  }

  /** The sprite fits on the screen at every position the loop has held so far. */
  ghost predicate FitsThrough(m: Mode, s: Sprite, c: Move, data: U8, events: seq<Event>, n: nat)
    requires c.frameRate >= 1 && n <= |events|
  {
    forall k :: 0 <= k <= n ==>
      Fits(m, After(c, data, events, k).motion.x, After(c, data, events, k).motion.y, s.width, s.height)
  }

  ghost predicate FitsAtEnds(m: Mode, s: Sprite, c: Move) {
    Fits(m, c.xi, c.yi, s.width, s.height) && Fits(m, c.xf, c.yf, s.width, s.height)
  }

  /** Drawing on a black screen leaves exactly the sprite. */
  method ShowSprite(video: Video, s: Sprite, x: U16, y: U16) returns (ok: bool)
    requires video.Valid() && s.Valid() && Black(video.mode, video.grid)
    modifies video.mem, video`grid
    ensures video.Valid()
    ensures ok == Fits(video.mode, x, y, s.width, s.height)
    ensures ok ==> OnlySprite(video.mode, video.grid, s, x, y)
  {
    ok := video.DrawImg(x, y, s.width, s.height, s.pixels);
  }

  /** After the end-of-run byte the world stays as it is. */
  lemma {:induction false} Stopped(c: Move, data: U8, events: seq<Event>, i: nat, n: nat)
    requires c.frameRate >= 1 && i <= n <= |events| && After(c, data, events, i).data == ESC
    ensures After(c, data, events, n) == After(c, data, events, i)
    decreases n
  {
    if i < n {
      Stopped(c, data, events, i, n - 1);
    }
  }

  lemma FitsAfterStop(m: Mode, s: Sprite, c: Move, data: U8, events: seq<Event>, i: nat)
    requires c.frameRate >= 1 && i <= |events| && (i == |events| || After(c, data, events, i).data == ESC)
    requires FitsThrough(m, s, c, data, events, i)
    ensures FitsThrough(m, s, c, data, events, |events|)
    ensures After(c, data, events, |events|) == After(c, data, events, i)
  {
    forall k | i <= k <= |events|
      ensures After(c, data, events, k) == After(c, data, events, i)
    {
      if i < |events| {
        Stopped(c, data, events, i, k);
      }
    }
  }

  /** A sprite that fits at both ends of a move that never leaves its box fits all the way. */
  lemma AlwaysFits(m: Mode, s: Sprite, c: Move, data: U8, events: seq<Event>)
    requires c.frameRate >= 1 && FitsAtEnds(m, s, c)
    requires c.speed >= 0 || (c.AxisAligned() && !c.Still())
    ensures FitsThrough(m, s, c, data, events, |events|)
  {
    NeverLeavesBox(c);
    forall k | 0 <= k <= |events|
      ensures Fits(m, After(c, data, events, k).motion.x, After(c, data, events, k).motion.y, s.width, s.height)
    {
      Prescaler(c, data, events, k);
      var frames := TickCount(data, events, k) / Period(c);
      assert InBox(c, Frames(c, frames));
    }
  }

  /** A run in which nothing happens but timer ticks. */
  function OnlyTicks(n: nat): (events: seq<Event>)
    ensures |events| == n
  {
    seq(n, _ => Hardware(false, Options.None, true))
  }

  lemma {:induction false} OnlyTicksCount(n: nat, k: nat)
    requires k <= n
    ensures TickCount(0, OnlyTicks(n), k) == k && DataAt(0, OnlyTicks(n), k) == 0
  {
    if k > 0 {
      OnlyTicksCount(n, k - 1);
    }
  }

  /** Every frame of a move is shown at some loop head of some run. */
  lemma FrameIsReached(c: Move, k: nat) returns (n: nat)
    requires c.frameRate >= 1
    ensures After(c, 0, OnlyTicks(n), n).motion == Frames(c, k)
  {
    n := k * Period(c);
    OnlyTicksCount(n, n);
    Prescaler(c, 0, OnlyTicks(n), n);
    DivModUnique(n, Period(c), k, 0);
  }

  /** A walk of fewer than 65536 steps meets every coordinate. */
  lemma WalkMeets(from: U16, positive: bool, to: U16) returns (m: U16)
    ensures Walk(from, positive, m) == to
  {
    m := ToU16(if positive then to - from else from - to);
    WalkCycle(from, positive, 0, to);
  }

  lemma FramesForSteps(m: U16, n: nat) returns (k: nat)
    requires n > 0
    ensures k < 0x1_0000 * n && k / n == m
  {
    MulMonotone(0, m, n);
    MulMonotone(m + 1, 0x1_0000, n);
    k := m * n;
    DivModUnique(k, n, m, 0);
  }

  /** A slow move without a reachable target comes to the last coordinate of its axis, which is off every screen. */
  lemma ReachesLastCoordinate(c: Move) returns (k: nat)
    requires c.speed < 0 && (!c.AxisAligned() || c.Still())
    ensures var p := Frames(c, k); p.x == 0xFFFF || p.y == 0xFFFF
  {
    var m := WalkMeets(if c.Horizontal() then c.xi else c.yi, c.Positive(), 0xFFFF);
    k := FramesForSteps(m, c.Wait());
    SlowWalk(c, k);
  }

  /** No run of the move ever fails to draw. */
  ghost predicate NeverFails(m: Mode, s: Sprite, c: Move)
    requires c.frameRate >= 1
  {
    forall data: U8, events: seq<Event> :: FitsThrough(m, s, c, data, events, |events|)
  }

  /**
   * A move whose sprite fits at both ends never fails, in any run, if and only if it is fast,
   * or follows one axis to a different point, or the sprite is empty.
   */
  lemma NeverFailsExactly(m: Mode, s: Sprite, c: Move)
    requires c.frameRate >= 1 && FitsAtEnds(m, s, c)
    ensures NeverFails(m, s, c)
       <==> c.speed >= 0 || (c.AxisAligned() && !c.Still()) || s.width == 0 || s.height == 0
  {
    if c.speed >= 0 || (c.AxisAligned() && !c.Still()) {
      forall data: U8, events: seq<Event> ensures FitsThrough(m, s, c, data, events, |events|) {
        AlwaysFits(m, s, c, data, events);
      }
    } else if s.width > 0 && s.height > 0 {
      var k := ReachesLastCoordinate(c);
      var n := FrameIsReached(c, k);
      assert !FitsThrough(m, s, c, 0, OnlyTicks(n), n);
    }
  }

  /** The position update of one frame, in the branches of the program. */
  method NextPosition(c: Move, x0: U16, y0: U16, frames0: nat) returns (x: U16, y: U16, frames: nat, moved: bool)
    ensures moved == Redraws(c, Motion(x0, y0, frames0, false))
    ensures Frame(c, Motion(x0, y0, frames0, false)) == Motion(x, y, frames, moved && x == c.xf && y == c.yf)
    ensures !moved ==> (x, y) == (x0, y0)
  {
    SignOfI16(c.speed);
    x, y, frames := x0, y0, frames0;
    if !Bit(c.speed, 15) {
      if c.Horizontal() {
        x := Towards(x, c.xf, c.speed, c.Positive());
      } else {
        y := Towards(y, c.yf, c.speed, c.Positive());
      }
    } else {
      frames := frames + 1;
      if frames != c.Wait() {
        return x, y, frames, false;
      }
      frames := 0;
      if c.Horizontal() {
        x := OneStep(x, c.Positive());
      } else {
        y := OneStep(y, c.Positive());
      }
    }
    moved := true;
  }

  /** Erases the old picture and shows the sprite at its new place. */
  method Redraw(video: Video, s: Sprite, x: U16, y: U16) returns (ok: bool)
    requires video.Valid() && s.Valid()
    modifies video.mem, video`grid
    ensures video.Valid()
    ensures ok == Fits(video.mode, x, y, s.width, s.height)
    ensures ok ==> OnlySprite(video.mode, video.grid, s, x, y)
  {
    var cleared := video.Clear();
    if !cleared {
      return false;
    }
    ok := ShowSprite(video, s, x, y);
  }

  /** One timer tick: count, and every `interval` ticks move and redraw. */
  method OnTick(video: Video, s: Sprite, c: Move, ghost data: U8, counter0: nat, x0: U16, y0: U16, frames0: nat, complete0: bool)
    returns (ok: bool, counter: nat, x: U16, y: U16, frames: nat, complete: bool)
    requires video.Valid() && s.Valid() && c.frameRate >= 1
    requires OnlySprite(video.mode, video.grid, s, x0, y0) && Fits(video.mode, x0, y0, s.width, s.height)
    modifies video.mem, video`grid
    ensures video.Valid()
    ensures Tick(c, World(data, counter0, Motion(x0, y0, frames0, complete0))) == World(data, counter, Motion(x, y, frames, complete))
    ensures ok == Fits(video.mode, x, y, s.width, s.height)
    ensures ok ==> OnlySprite(video.mode, video.grid, s, x, y)
  {
    ok, counter, x, y, frames, complete := true, counter0 + 1, x0, y0, frames0, complete0;
    if complete || counter < c.Interval() {
      return;
    }
    counter := 0;
    var moved;
    x, y, frames, moved := NextPosition(c, x, y, frames);
    if moved {
      ok := Redraw(video, s, x, y);
      complete := x == c.xf && y == c.yf;
    }
  }

  /**
   * The animation over any sequence of events. It fails exactly when the sprite does not
   * fit at some position reached; otherwise the screen shows the sprite at its current
   * position and nothing else. As every prefix of a run is a run, this holds at every loop
   * head. It cannot fail when the sprite fits at both ends and the move stays between them.
   */
  method VideoTestMove(video: Video, s: Sprite, c: Move, data0: U8, events: seq<Event>)
    returns (ok: bool, data: U8, x: U16, y: U16, complete: bool)
    requires video.Valid() && s.Valid() && c.frameRate >= 1
    requires Black(video.mode, video.grid)
    modifies video.mem, video`grid
    ensures video.Valid()
    ensures ok <==> FitsThrough(video.mode, s, c, data0, events, |events|)
    ensures ok ==> OnlySprite(video.mode, video.grid, s, x, y)
    ensures ok ==> var w := After(c, data0, events, |events|);
                   w.data == data && (w.motion.x, w.motion.y, w.motion.complete) == (x, y, complete)
    ensures FitsAtEnds(video.mode, s, c) && (c.speed >= 0 || (c.AxisAligned() && !c.Still())) ==> ok
  {
    if FitsAtEnds(video.mode, s, c) && (c.speed >= 0 || (c.AxisAligned() && !c.Still())) {
      AlwaysFits(video.mode, s, c, data0, events);
    }
    x, y, data, complete := c.xi, c.yi, data0, false;
    var frames: nat, counter: nat := 0, 0;
    ok := ShowSprite(video, s, x, y);
    if !ok {
      assert After(c, data0, events, 0).motion.x == x;
      return;
    }
    var i := 0;
    while data != ESC && i < |events|
      invariant 0 <= i <= |events|
      invariant ok && video.Valid() && OnlySprite(video.mode, video.grid, s, x, y)
      invariant After(c, data0, events, i) == World(data, counter, Motion(x, y, frames, complete))
      invariant FitsThrough(video.mode, s, c, data0, events, i)
      decreases |events| - i
    {
      var e := events[i];
      i := i + 1;
      if e.Hardware? {
        if e.keyboard {
          if e.scancode.Some? {
            data := e.scancode.value;
          }
          if data == ESC || data == TWO_BYTE {
            continue;
          }
        }
        if e.timer {
          ok, counter, x, y, frames, complete := OnTick(video, s, c, data, counter, x, y, frames, complete);
          if !ok {
            assert After(c, data0, events, i).motion == Motion(x, y, frames, complete);
            return;
          }
        }
      }
    }
    FitsAfterStop(video.mode, s, c, data0, events, i);
  }
}
