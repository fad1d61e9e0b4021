/** Direct and indexed colours of the test pattern, as two files of the program compute them. */
module Colour {
  import opened Bits
  import opened Layout

  const INDEXED: U8 := 0x04
  const DIRECT: U8 := 0x06

  // ---- the colour functions -------------------------------------------------------

  /** One channel of a packed colour. */
  function Channel(f: Field, color: nat): nat {
    And(Pow2(f.size) - 1, Shr(color, f.pos))
  }

  /** Packs three components into one colour. */
  function DirectMode(m: Mode, r: U32, g: U32, b: U32): U32 {
    OrFits(Shl(r, m.red.pos), Shl(g, m.green.pos));
    OrFits(Or(Shl(r, m.red.pos), Shl(g, m.green.pos)), Shl(b, m.blue.pos));
    Or(Or(Shl(r, m.red.pos), Shl(g, m.green.pos)), Shl(b, m.blue.pos))
  }

  /** A channel of `first`, advanced by `count` steps, in 32-bit arithmetic. */
  function Advance(f: Field, first: U32, count: U32, step: U8): (c: U32) {
    Narrow(Channel(f, first) + ToU32(count * step), f.size);
    ToU32(Channel(f, first) + ToU32(count * step)) % Pow2(f.size)
  }

  /** The palette index of tile (row, col) when every row has `n` tiles. */
  function IndexedMode(m: Mode, col: U16, row: U16, step: U8, first: U32, n: U8): U32 {
    Narrow(first + ToU32((row * n + col) * step), m.bits);
    ToU32(first + ToU32((row * n + col) * step)) % Pow2(m.bits)
  }

  /** The direct colour of tile (row i, column j), assembled from the channel functions. */
  function DirectTile(m: Mode, first: U32, step: U8, i: U16, j: U16): U32 {
    DirectMode(m, Advance(m.red, first, j, step), Advance(m.green, first, i, step), Advance(m.blue, first, i + j, step))
  }

  /** The pattern routine's own channel computation shifts an already extracted channel down again. */
  function AdvanceShifted(f: Field, first: U32, count: U32, step: U8): (c: U32) {
    var channel := And(Shr(first, f.pos), Pow2(f.size) - 1);
    Narrow(Shr(channel, f.pos) + count * step, f.size);
    ToU32(Shr(channel, f.pos) + count * step) % Pow2(f.size)
  }

  /** The colour the pattern routine computes for tile (row i, column j) of an `n` by `n` pattern. */
  function PatternColour(m: Mode, first: U32, step: U8, n: U8, i: U8, j: U8): U32 {
    if m.memModel == INDEXED then
      IndexedMode(m, j, i, step, first, n)
    else if m.memModel == DIRECT then
      DirectMode(m, AdvanceShifted(m.red, first, j, step), AdvanceShifted(m.green, first, i, step),
                 AdvanceShifted(m.blue, first, i + j, step))
    else
      first
  }

  lemma OrFits(a: U32, b: U32)
    ensures Or(a, b) < 0x1_0000_0000
  {
    Pow2At32();
    OrBound(a, b, 32);
  }

  lemma Narrow(x: nat, n: nat)
    ensures 0 <= ToU32(x) % Pow2(n) <= ToU32(x)
  {
    ModBelow(ToU32(x), Pow2(n));
  }

  // ---- packing and unpacking ------------------------------------------------------

  predicate Apart(f: Field, g: Field) {
    f.pos + f.size <= g.pos || g.pos + g.size <= f.pos
  }

  /** Three channels that fit in 32 bits and share none. */
  predicate WellPlaced(m: Mode) {
    && m.red.pos + m.red.size <= 32 && m.green.pos + m.green.size <= 32 && m.blue.pos + m.blue.size <= 32
    && Apart(m.red, m.green) && Apart(m.red, m.blue) && Apart(m.green, m.blue)
  }

  lemma ChannelIsMod(f: Field, color: nat)
    ensures Channel(f, color) == Shr(color, f.pos) % Pow2(f.size)
  {
    AndCommutes(Pow2(f.size) - 1, Shr(color, f.pos));
    AndMask(Shr(color, f.pos), f.size);
  }

  /** A channel is `size` bits of the colour, from bit `pos` on. */
  lemma ChannelExact(f: Field, color: nat)
    ensures Channel(f, color) == color / Pow2(f.pos) % Pow2(f.size)
  {
    ChannelIsMod(f, color);
    ShrIsDiv(color, f.pos);
  }

  lemma ChannelOr(f: Field, a: nat, b: nat)
    ensures Channel(f, Or(a, b)) == Or(Channel(f, a), Channel(f, b))
  {
    ChannelIsMod(f, a);
    ChannelIsMod(f, b);
    ChannelIsMod(f, Or(a, b));
    ShrOr(a, b, f.pos);
    ModOr(Shr(a, f.pos), Shr(b, f.pos), f.size);
  }

  /** A component that fits its channel is not cut by the 32-bit shift. */
  lemma ShlExact(f: Field, r: nat)
    requires f.pos + f.size <= 32 && r < Pow2(f.size)
    ensures Shl(r, f.pos) == r * Pow2(f.pos) < Pow2(f.pos + f.size)
  {
    ShlIsTimes(r, f.pos);
    PowAdd(f.size, f.pos);
    PowMonotone(f.pos + f.size, 32);
    Pow2At32();
    ProductFits(r, Pow2(f.size), Pow2(f.pos), Pow2(f.pos + f.size));
  }

  lemma ProductFits(r: nat, s: nat, p: nat, limit: nat)
    requires r < s && p > 0 && s * p == limit <= 0x1_0000_0000
    ensures ToU32(r * p) == r * p < limit
  {
    var x := r * p;
    assert 0 <= x < limit by {
      MulMonotone(0, r, p);
      MulMonotone(r + 1, s, p);
    }
    ToU32Exact(x);
  }

  lemma ChannelOfOwn(f: Field, r: nat)
    requires f.pos + f.size <= 32 && r < Pow2(f.size)
    ensures Channel(f, Shl(r, f.pos)) == r
  {
    ShlExact(f, r);
    ChannelIsMod(f, Shl(r, f.pos));
    ShrIsDiv(Shl(r, f.pos), f.pos);
    DivModUnique(r * Pow2(f.pos), Pow2(f.pos), r, 0);
    DivModUnique(r, Pow2(f.size), 0, r);
  }

  lemma ChannelOfOther(f: Field, g: Field, r: nat)
    requires g.pos + g.size <= 32 && r < Pow2(g.size) && Apart(f, g)
    ensures Channel(f, Shl(r, g.pos)) == 0
  {
    ShlExact(g, r);
    var c := r * Pow2(g.pos);
    ChannelIsMod(f, c);
    ShrIsDiv(c, f.pos);
    if g.pos + g.size <= f.pos {
      PowMonotone(g.pos + g.size, f.pos);
      DivModUnique(c, Pow2(f.pos), 0, c);
    } else {
      var k := g.pos - f.pos - f.size;
      PowAdd(f.pos, f.size);
      PowAdd(f.pos + f.size, k);
      HighField(r, Pow2(f.pos), Pow2(f.size), Pow2(k));
    }
  }

  lemma HighField(r: nat, p: nat, s: nat, k: nat)
    requires p > 0 && s > 0
    ensures (r * (p * s * k)) / p % s == 0
  {
    var high := r * k;
    assert r * (p * s * k) == (high * s) * p;
    DivModUnique((high * s) * p, p, high * s, 0);
    DivModUnique(high * s, s, high, 0);
  }

  /** Unpacking a packed colour gives back all three components. */
  lemma UnpackPack(m: Mode, r: U32, g: U32, b: U32)
    requires WellPlaced(m)
    requires r < Pow2(m.red.size) && g < Pow2(m.green.size) && b < Pow2(m.blue.size)
    ensures Channel(m.red, DirectMode(m, r, g, b)) == r
    ensures Channel(m.green, DirectMode(m, r, g, b)) == g
    ensures Channel(m.blue, DirectMode(m, r, g, b)) == b
  {
    assert Channel(m.red, DirectMode(m, r, g, b)) == r by {
      UnpackOne(m, m.red, r, g, b);
      ChannelOfOwn(m.red, r);
      ChannelOfOther(m.red, m.green, g);
      ChannelOfOther(m.red, m.blue, b);
    }
    assert Channel(m.green, DirectMode(m, r, g, b)) == g by {
      UnpackOne(m, m.green, r, g, b);
      ChannelOfOther(m.green, m.red, r);
      ChannelOfOwn(m.green, g);
      ChannelOfOther(m.green, m.blue, b);
    }
    assert Channel(m.blue, DirectMode(m, r, g, b)) == b by {
      UnpackOne(m, m.blue, r, g, b);
      ChannelOfOther(m.blue, m.red, r);
      ChannelOfOther(m.blue, m.green, g);
      ChannelOfOwn(m.blue, b);
    }
  }

  /** A packed colour is the sum of its components, each in its place. */
  lemma PackIsSum(m: Mode, r: U32, g: U32, b: U32)
    requires WellPlaced(m)
    requires r < Pow2(m.red.size) && g < Pow2(m.green.size) && b < Pow2(m.blue.size)
    ensures DirectMode(m, r, g, b) == r * Pow2(m.red.pos) + g * Pow2(m.green.pos) + b * Pow2(m.blue.pos)
  {
    var red, green, blue := Shl(r, m.red.pos), Shl(g, m.green.pos), Shl(b, m.blue.pos);
    FieldsApart(m.red, m.green, r, g);
    FieldsApart(m.red, m.blue, r, b);
    FieldsApart(m.green, m.blue, g, b);
    OrIsSum(red, green);
    OrApart(red, green, blue);
    OrIsSum(Or(red, green), blue);
    ShlExact(m.red, r);
    ShlExact(m.green, g);
    ShlExact(m.blue, b);
  }

  lemma OrApart(a: nat, b: nat, c: nat)
    requires And(a, c) == 0 && And(b, c) == 0
    ensures And(Or(a, b), c) == 0
  {
    AndCommutes(Or(a, b), c);
    AndOr(c, a, b);
    AndCommutes(c, a);
    AndCommutes(c, b);
  }

  /** Components in disjoint places share no bit. */
  lemma FieldsApart(f: Field, g: Field, a: nat, b: nat)
    requires f.pos + f.size <= 32 && g.pos + g.size <= 32 && a < Pow2(f.size) && b < Pow2(g.size) && Apart(f, g)
    ensures And(Shl(a, f.pos), Shl(b, g.pos)) == 0
  {
    if f.pos + f.size <= g.pos {
      LowApart(f, g, a, b);
    } else {
      AndCommutes(Shl(a, f.pos), Shl(b, g.pos));
      LowApart(g, f, b, a);
    }
  }

  lemma LowApart(low: Field, high: Field, a: nat, b: nat)
    requires low.pos + low.size <= high.pos && high.pos + high.size <= 32
    requires a < Pow2(low.size) && b < Pow2(high.size)
    ensures And(Shl(a, low.pos), Shl(b, high.pos)) == 0
  {
    ShlExact(low, a);
    ShlExact(high, b);
    var x := Shl(a, low.pos);
    PowMonotone(low.pos + low.size, high.pos);
    ShrIsDiv(x, high.pos);
    DivModUnique(x, Pow2(high.pos), 0, x);
    AndShifted(x, b, high.pos);
  }

  lemma UnpackOne(m: Mode, f: Field, r: U32, g: U32, b: U32)
    ensures Channel(f, DirectMode(m, r, g, b))
         == Or(Or(Channel(f, Shl(r, m.red.pos)), Channel(f, Shl(g, m.green.pos))), Channel(f, Shl(b, m.blue.pos)))
  {
    ChannelOr(f, Or(Shl(r, m.red.pos), Shl(g, m.green.pos)), Shl(b, m.blue.pos));
    ChannelOr(f, Shl(r, m.red.pos), Shl(g, m.green.pos));
  }

  // ---- what the pattern colours are -------------------------------------------------

  /** 32-bit wrap-around never shows in a channel, which is also always in range. */
  lemma AdvanceExact(f: Field, first: U32, count: U32, step: U8)
    requires f.pos + f.size <= 32
    ensures Advance(f, first, count, step) == (Channel(f, first) + count * step) % Pow2(f.size) < Pow2(f.size)
  {
    TwiceWrapped(Channel(f, first), count * step, f.size);
  }

  lemma AddWrapped(base: nat, x: nat, n: nat)
    requires n <= 32
    ensures (base + ToU32(x)) % Pow2(n) == (base + x) % Pow2(n)
  {
    WrapInvisible(x, n);
    ModAdd(x, base, Pow2(n));
    ModAdd(ToU32(x), base, Pow2(n));
  }

  /** The next step of a channel adds `step`, modulo the channel's range. */
  lemma AdvanceStep(f: Field, first: U32, count: U16, step: U8)
    requires f.pos + f.size <= 32
    ensures Advance(f, first, count + 1, step) == (Advance(f, first, count, step) + step) % Pow2(f.size)
  {
    AdvanceExact(f, first, count, step);
    AdvanceExact(f, first, count + 1, step);
    assert (count + 1) * step == count * step + step;
    AddReduced(Advance(f, first, count, step), Channel(f, first) + count * step, step,
               Channel(f, first) + (count + 1) * step, Pow2(f.size));
  }

  /**
   * One column to the right adds `step` to red and blue and keeps green; one row down
   * adds it to green and blue and keeps red.
   */
  lemma NeighbourTiles(m: Mode, first: U32, step: U8, i: U8, j: U8)
    requires WellPlaced(m)
    ensures var here, right := DirectTile(m, first, step, i, j), DirectTile(m, first, step, i, j + 1);
            && Channel(m.red, right) == (Channel(m.red, here) + step) % Pow2(m.red.size)
            && Channel(m.green, right) == Channel(m.green, here)
            && Channel(m.blue, right) == (Channel(m.blue, here) + step) % Pow2(m.blue.size)
    ensures var here, below := DirectTile(m, first, step, i, j), DirectTile(m, first, step, i + 1, j);
            && Channel(m.red, below) == Channel(m.red, here)
            && Channel(m.green, below) == (Channel(m.green, here) + step) % Pow2(m.green.size)
            && Channel(m.blue, below) == (Channel(m.blue, here) + step) % Pow2(m.blue.size)
  {
    RightTile(m, first, step, i, j);
    TileBelow(m, first, step, i, j);
  }

  lemma RightTile(m: Mode, first: U32, step: U8, i: U8, j: U8)
    requires WellPlaced(m)
    ensures var here, right := DirectTile(m, first, step, i, j), DirectTile(m, first, step, i, j + 1);
            && Channel(m.red, right) == (Channel(m.red, here) + step) % Pow2(m.red.size)
            && Channel(m.green, right) == Channel(m.green, here)
            && Channel(m.blue, right) == (Channel(m.blue, here) + step) % Pow2(m.blue.size)
  {
    TileChannels(m, first, step, i, j);
    TileChannels(m, first, step, i, j + 1);
    ChannelNext(m.red, DirectTile(m, first, step, i, j), DirectTile(m, first, step, i, j + 1), first, j, step);
    ChannelNext(m.blue, DirectTile(m, first, step, i, j), DirectTile(m, first, step, i, j + 1), first, i + j, step);
  }

  /** Two colours whose channel is `count` and `count + 1` steps on. */
  lemma ChannelNext(f: Field, here: nat, next: nat, first: U32, count: U16, step: U8)
    requires f.pos + f.size <= 32 && count < 0xFFFF
    requires Channel(f, here) == Advance(f, first, count, step) && Channel(f, next) == Advance(f, first, count + 1, step)
    ensures Channel(f, next) == (Channel(f, here) + step) % Pow2(f.size)
  {
    AdvanceStep(f, first, count, step);
  }

  lemma TileBelow(m: Mode, first: U32, step: U8, i: U8, j: U8)
    requires WellPlaced(m)
    ensures var here, below := DirectTile(m, first, step, i, j), DirectTile(m, first, step, i + 1, j);
            && Channel(m.red, below) == Channel(m.red, here)
            && Channel(m.green, below) == (Channel(m.green, here) + step) % Pow2(m.green.size)
            && Channel(m.blue, below) == (Channel(m.blue, here) + step) % Pow2(m.blue.size)
  {
    TileChannels(m, first, step, i, j);
    TileChannels(m, first, step, i + 1, j);
    ChannelNext(m.green, DirectTile(m, first, step, i, j), DirectTile(m, first, step, i + 1, j), first, i, step);
    ChannelNext(m.blue, DirectTile(m, first, step, i, j), DirectTile(m, first, step, i + 1, j), first, i + j, step);
  }

  lemma TileChannels(m: Mode, first: U32, step: U8, i: U16, j: U16)
    requires WellPlaced(m)
    ensures Channel(m.red, DirectTile(m, first, step, i, j)) == Advance(m.red, first, j, step)
    ensures Channel(m.green, DirectTile(m, first, step, i, j)) == Advance(m.green, first, i, step)
    ensures Channel(m.blue, DirectTile(m, first, step, i, j)) == Advance(m.blue, first, i + j, step)
  {
    AdvanceExact(m.red, first, j, step);
    AdvanceExact(m.green, first, i, step);
    AdvanceExact(m.blue, first, i + j, step);
    UnpackPack(m, Advance(m.red, first, j, step), Advance(m.green, first, i, step), Advance(m.blue, first, i + j, step));
  }

  lemma FullChannel(f: Field)
    requires f.pos + f.size <= 32
    ensures Pow2(f.size) - 1 < 0x1_0000_0000
  {
    Pow2At32();
    PowMonotone(f.size, 32);
  }

  /** All channel bits of the mode. */
  function ChannelMask(m: Mode): U32
    requires WellPlaced(m)
  {
    FullChannel(m.red);
    FullChannel(m.green);
    FullChannel(m.blue);
    DirectMode(m, Pow2(m.red.size) - 1, Pow2(m.green.size) - 1, Pow2(m.blue.size) - 1)
  }

  /** The first tile is the first colour with everything outside the channels removed. */
  lemma FirstTile(m: Mode, first: U32, step: U8)
    requires WellPlaced(m)
    ensures DirectTile(m, first, step, 0, 0) == And(first, ChannelMask(m))
  {
    MaskedChannel(m.red, first, step);
    MaskedChannel(m.green, first, step);
    MaskedChannel(m.blue, first, step);
    MaskedMode(m, first, Advance(m.red, first, 0, step), Advance(m.green, first, 0, step), Advance(m.blue, first, 0, step));
  }

  /** Masking `x` with the bits of one channel leaves component `c` in its place. */
  predicate Masks(f: Field, x: U32, c: U32) {
    And(x, Shl(Pow2(f.size) - 1, f.pos)) == Shl(c, f.pos)
  }

  /** Masking a colour with all channel bits keeps its channels. */
  lemma MaskedMode(m: Mode, x: U32, r: U32, g: U32, b: U32)
    requires WellPlaced(m)
    ensures Masks(m.red, x, r) && Masks(m.green, x, g) && Masks(m.blue, x, b) ==> And(x, ChannelMask(m)) == DirectMode(m, r, g, b)
  {
    AndOrThree(x, Shl(Pow2(m.red.size) - 1, m.red.pos), Shl(Pow2(m.green.size) - 1, m.green.pos), Shl(Pow2(m.blue.size) - 1, m.blue.pos));
  }

  lemma AndOrThree(x: nat, r: nat, g: nat, b: nat)
    ensures And(x, Or(Or(r, g), b)) == Or(Or(And(x, r), And(x, g)), And(x, b))
  {
    AndOr(x, Or(r, g), b);
    AndOr(x, r, g);
  }

  lemma MaskedChannel(f: Field, first: U32, step: U8)
    requires f.pos + f.size <= 32
    ensures Masks(f, first, Advance(f, first, 0, step))
  {
    var full := Pow2(f.size) - 1;
    ShlExact(f, full);
    AndShifted(first, full, f.pos);
    AndCommutes(Shr(first, f.pos), full);
    AdvanceExact(f, first, 0, step);
    ChannelIsMod(f, first);
    var c := Channel(f, first);
    assert c + 0 * step == c;
    DivModUnique(c, Pow2(f.size), 0, c);
    ShlExact(f, c);
  }

  // ---- the pattern routine's second shift ---------------------------------------------

  /** The second shift is harmless for one channel. */
  predicate ShiftHarmless(f: Field, first: U32) {
    f.pos == 0 || Channel(f, first) == 0
  }

  lemma ShiftedChannel(f: Field, first: U32, count: U32, step: U8)
    requires f.pos + f.size <= 32
    ensures AdvanceShifted(f, first, count, step) < Pow2(f.size)
    ensures AdvanceShifted(f, first, count, step) == Advance(f, first, count, step) <==> ShiftHarmless(f, first)
  {
    AdvanceExact(f, first, count, step);
    ShiftedExact(f, first, count, step);
    ChannelIsMod(f, first);
    ShrStrict(Channel(f, first), f.pos);
    ModShiftInjective(Shr(Channel(f, first), f.pos), Channel(f, first), count * step, Pow2(f.size));
  }

  lemma ShiftedExact(f: Field, first: U32, count: U32, step: U8)
    requires f.pos + f.size <= 32
    ensures AdvanceShifted(f, first, count, step) == (Shr(Channel(f, first), f.pos) + count * step) % Pow2(f.size) < Pow2(f.size)
  {
    AndCommutes(Shr(first, f.pos), Pow2(f.size) - 1);
    WrapInvisible(Shr(Channel(f, first), f.pos) + count * step, f.size);
  }

  lemma ShrStrict(c: nat, n: nat)
    ensures Shr(c, n) <= c
    ensures Shr(c, n) == c <==> n == 0 || c == 0
  {
    if n > 0 {
      ShrStrict(c / 2, n - 1);
    }
  }

  /**
   * The direct-colour pattern shows the documented colours if and only if every channel
   * starts at bit 0 or is zero in the first colour, whatever the tile and the step.
   */
  lemma PatternColourCorrect(m: Mode, first: U32, step: U8, n: U8, i: U8, j: U8)
    requires m.memModel == DIRECT && WellPlaced(m)
    ensures PatternColour(m, first, step, n, i, j) == DirectTile(m, first, step, i, j)
       <==> ShiftHarmless(m.red, first) && ShiftHarmless(m.green, first) && ShiftHarmless(m.blue, first)
  {
    var r, g, b := AdvanceShifted(m.red, first, j, step), AdvanceShifted(m.green, first, i, step), AdvanceShifted(m.blue, first, i + j, step);
    ShiftedChannel(m.red, first, j, step);
    ShiftedChannel(m.green, first, i, step);
    ShiftedChannel(m.blue, first, i + j, step);
    UnpackPack(m, r, g, b);
    TileChannels(m, first, step, i, j);
  }

  /** In an 8:8:8 mode a pure red first colour gives a wrong colour in every tile. */
  lemma PatternLosesRed(m: Mode, first: U32, step: U8, n: U8, i: U8, j: U8)
    requires m.memModel == DIRECT && first == 0xFF0000
    requires m.red == Field(8, 16) && m.green == Field(8, 8) && m.blue == Field(8, 0)
    ensures PatternColour(m, first, step, n, i, j) != DirectTile(m, first, step, i, j)
  {
    PureRed(m.red, first);
    PatternColourCorrect(m, first, step, n, i, j);
  }

  lemma PureRed(f: Field, first: U32)
    requires f == Field(8, 16) && first == 0xFF0000
    ensures Channel(f, first) == 0xFF
  {
    Pow2At32();
    ChannelIsMod(f, first);
    ShrIsDiv(first, 16);
  }

  // ---- indexed colours -----------------------------------------------------------------

  lemma AddReduced(r: int, x: int, y: int, sum: int, d: int)
    requires d > 0 && r == x % d && sum == x + y
    ensures (r + y) % d == sum % d
  {
    ModAdd(x, y, d);
  }

  /** The index of the `k`-th tile, counted row by row. */
  lemma IndexedExact(m: Mode, first: U32, step: U8, n: U8, row: U16, col: U16, k: nat)
    requires m.bits <= 32 && k == row * n + col
    ensures IndexedMode(m, col, row, step, first, n) == (first + Product(k, step)) % Pow2(m.bits)
  {
    IndexExact(first, k, step, m.bits);
  }

  lemma IndexExact(first: nat, k: nat, step: nat, bits: nat)
    requires bits <= 32
    ensures ToU32(first + ToU32(k * step)) % Pow2(bits) == (first + Product(k, step)) % Pow2(bits)
  {
    TwiceWrapped(first, k * step, bits);
    ProductIsTimes(k, step);
  }

  lemma TwiceWrapped(first: nat, x: nat, bits: nat)
    requires bits <= 32
    ensures ToU32(first + ToU32(x)) % Pow2(bits) == (first + x) % Pow2(bits)
  {
    WrapInvisible(first + ToU32(x), bits);
    AddWrapped(first, x, bits);
  }

  /** In an indexed mode (memory model 4) the tiles are numbered row by row. */
  lemma PatternIndexed(m: Mode, first: U32, step: U8, n: U8, i: U8, j: U8)
    requires m.memModel == 4 && m.bits <= 32
    ensures PatternColour(m, first, step, n, i, j) == (first + (i * n + j) * step) % Pow2(m.bits)
  {
    MulMonotone(0, i, n);
    var k := i * n + j;
    IndexedExact(m, first, step, n, i, j, k);
    ProductIsTimes(k, step);
  }

  /** In any other mode than 4 and 6 the pattern is the first colour throughout. */
  lemma PatternPlain(m: Mode, first: U32, step: U8, n: U8, i: U8, j: U8)
    requires m.memModel != 4 && m.memModel != 6
    ensures PatternColour(m, first, step, n, i, j) == first
  {
  }

  /** A channel of the first colour as the pattern uses it: extracted, then shifted down once more. */
  function TwiceDown(f: Field, first: U32): (c: int)
    ensures c == first / Pow2(f.pos) % Pow2(f.size) / Pow2(f.pos)
  {
    ChannelExact(f, first);
    ShrIsDiv(Channel(f, first), f.pos);
    Shr(Channel(f, first), f.pos)
  }

  /** In a direct-colour mode (memory model 6) red counts columns, green counts rows, and blue counts both. */
  lemma PatternDirect(m: Mode, first: U32, step: U8, n: U8, i: U8, j: U8)
    requires m.memModel == 6 && WellPlaced(m)
    ensures PatternColour(m, first, step, n, i, j)
         == (TwiceDown(m.red, first) + j * step) % Pow2(m.red.size) * Pow2(m.red.pos)
            + (TwiceDown(m.green, first) + i * step) % Pow2(m.green.size) * Pow2(m.green.pos)
            + (TwiceDown(m.blue, first) + (i + j) * step) % Pow2(m.blue.size) * Pow2(m.blue.pos)
  {
    ShiftedExact(m.red, first, j, step);
    ShiftedExact(m.green, first, i, step);
    ShiftedExact(m.blue, first, i + j, step);
    PackIsSum(m, AdvanceShifted(m.red, first, j, step), AdvanceShifted(m.green, first, i, step), AdvanceShifted(m.blue, first, i + j, step));
  }

  /** Palette indices run through the tiles row by row, `step` apart, modulo the palette size. */
  lemma IndexedRun(m: Mode, first: U32, step: U8, n: U8, row: U8, col: U8)
    requires m.bits <= 32 && col < n
    ensures IndexedMode(m, 0, 0, step, first, n) == first % Pow2(m.bits)
    ensures var (row', col') := if col + 1 < n then (row, col + 1) else (row + 1, 0);
            IndexedMode(m, col', row', step, first, n) == (IndexedMode(m, col, row, step, first, n) + step) % Pow2(m.bits)
  {
    IndexedExact(m, first, step, n, 0, 0, 0);
    NextNumber(row, n, col);
    if col + 1 < n {
      NextIndexed(m, first, step, n, row, col, row, col + 1, row * n + col);
    } else {
      NextIndexed(m, first, step, n, row, col, row + 1, 0, row * n + col);
    }
  }

  lemma NextNumber(row: nat, n: nat, col: nat)
    ensures 0 <= row * n && (row + 1) * n == row * n + n
  {
    MulMonotone(0, row, n);
  }

  lemma NextIndexed(m: Mode, first: U32, step: U8, n: U8, row: U8, col: U8, row': U16, col': U16, k: nat)
    requires m.bits <= 32 && k == row * n + col && k + 1 == row' * n + col'
    ensures IndexedMode(m, col', row', step, first, n) == (IndexedMode(m, col, row, step, first, n) + step) % Pow2(m.bits)
  {
    IndexedExact(m, first, step, n, row, col, k);
    IndexedExact(m, first, step, n, row', col', k + 1);
    Follows(IndexedMode(m, col, row, step, first, n), IndexedMode(m, col', row', step, first, n), first, k, step, Pow2(m.bits));
  }

  lemma Follows(here: int, next: int, first: nat, k: nat, step: nat, range: nat)
    requires range > 0 && here == (first + Product(k, step)) % range && next == (first + Product(k + 1, step)) % range
    ensures next == (here + step) % range
  {
    AddReduced(here, first + Product(k, step), step, first + Product(k + 1, step), range);
  }
}
