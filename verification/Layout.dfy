/** How a graphics mode lays pixels out in linear video memory, and what a pixel's bytes mean. */
module Layout {
  import opened Bits

  /** One colour channel of a direct-colour mode: `size` bits starting at bit `pos`. */
  datatype Field = Field(size: nat, pos: nat)

  /** The part of the VBE mode information that the drawing routines use. */
  datatype Mode = Mode(hRes: U16, vRes: U16, bits: U8, memModel: U8, red: Field, green: Field, blue: Field) {
    function Bytes(): nat { (bits + 7) / 8 }

    /** The true size of the picture in bytes. */
    function Size(): nat { Product(Product(hRes, vRes), Bytes()) }

    /** The byte count handed to the memory mapper, computed in 32 bits. */
    function VramSize(): U32 { ToU32(ToU32(hRes * vRes) * Bytes()) }

    /** The depth mask is defined, and the picture fits in the 32-bit address arithmetic. */
    ghost predicate Valid() {
      && 1 <= bits <= 32
      && Size() < 0x1_0000_0000
    }

    predicate OnScreen(x: int, y: int) { 0 <= x < hRes && 0 <= y < vRes }

    /** What survives of a colour once it is cut to the mode's pixel depth. */
    function Ink(color: nat): nat { LowBits(color, bits) }

    /** What the bytes of one pixel can hold of a colour. */
    function Stored(color: nat): nat { LowBits(color, 8 * Bytes()) }
  }

  lemma SizeIsArea(m: Mode)
    ensures m.Size() == m.hRes * m.vRes * m.Bytes()
  {
    ProductIsTimes(m.hRes, m.vRes);
    ProductIsTimes(m.hRes * m.vRes, m.Bytes());
  }

  /** A pixel takes the fewest whole bytes that hold its bits. */
  lemma BytesExact(m: Mode)
    ensures 8 * m.Bytes() - 8 < m.bits <= 8 * m.Bytes()
  {
  }

  /** The two cuts of a colour are remainders. */
  lemma CutsAreRemainders(m: Mode, color: nat)
    ensures m.Ink(color) == color % Pow2(m.bits)
    ensures m.Stored(color) == color % Pow2(8 * m.Bytes())
  {
    LowBitsIsMod(color, m.bits);
    LowBitsIsMod(color, 8 * m.Bytes());
  }

  /** The modes covered: a depth of 1 to 32 bits, and a picture of less than 2^32 bytes. */
  lemma ValidMeans(m: Mode)
    ensures m.Valid() <==> 1 <= m.bits <= 32 && m.hRes * m.vRes * m.Bytes() < 0x1_0000_0000
  {
    SizeIsArea(m);
  }

  function Offset(m: Mode, x: nat, y: nat, lane: nat): nat {
    (y * m.hRes + x) * m.Bytes() + lane
  }

  /** Memory starts with the top left pixel and runs through each row, lane by lane, before the next. */
  lemma RowMajor(m: Mode, x: nat, y: nat, lane: nat)
    ensures Offset(m, 0, 0, 0) == 0
    ensures Offset(m, x, y, lane + 1) == Offset(m, x, y, lane) + 1
    ensures Offset(m, x + 1, y, lane) == Offset(m, x, y, lane) + m.Bytes()
    ensures Offset(m, x, y + 1, lane) == Offset(m, x, y, lane) + m.hRes * m.Bytes()
  {
    var p, b := y * m.hRes + x, m.Bytes();
    assert (y + 1) * m.hRes == y * m.hRes + m.hRes;
    assert (p + 1) * b == p * b + b && (p + m.hRes) * b == p * b + m.hRes * b;
  }

  /** The inverse of `Offset`: which pixel and lane a byte of video memory belongs to. */
  function Locate(m: Mode, o: nat): (r: (nat, nat, nat))
    requires m.hRes > 0 && m.Bytes() > 0
  {
    DivNonNegative(o, m.Bytes());
    var p := o / m.Bytes();
    DivNonNegative(p, m.hRes);
    (p % m.hRes, p / m.hRes, o % m.Bytes())
  }

  // ---- the address map is a bijection -------------------------------------------

  /** Row-major indices of a `w` by `h` grid stay below `w * h`. */
  lemma RowMajorBound(x: nat, y: nat, w: nat, h: nat)
    requires x < w && y < h
    ensures y * w + x < h * w
  {
    MulMonotone(y + 1, h, w);
  }

  lemma OffsetInRange(m: Mode, x: nat, y: nat, lane: nat)
    requires m.OnScreen(x, y) && lane < m.Bytes()
    ensures Offset(m, x, y, lane) < m.Size()
  {
    SizeIsArea(m);
    RowMajorBound(x, y, m.hRes, m.vRes);
    RowMajorBound(lane, y * m.hRes + x, m.Bytes(), m.hRes * m.vRes);
  }

  /** Distinct pixel lanes have distinct addresses: the address determines the lane. */
  lemma LocateOffset(m: Mode, x: nat, y: nat, lane: nat)
    requires m.OnScreen(x, y) && lane < m.Bytes()
    ensures Locate(m, Offset(m, x, y, lane)) == (x, y, lane)
  {
    DivModUnique(Offset(m, x, y, lane), m.Bytes(), y * m.hRes + x, lane);
    DivModUnique(y * m.hRes + x, m.hRes, y, x);
  }

  /** Every byte of video memory belongs to a lane of some pixel on the screen. */
  lemma OffsetLocate(m: Mode, o: nat)
    requires o < m.Size()
    ensures m.hRes > 0 && m.Bytes() > 0
    ensures var (x, y, lane) := Locate(m, o);
            m.OnScreen(x, y) && lane < m.Bytes() && Offset(m, x, y, lane) == o
  {
    SizeIsArea(m);
    SplitOffset(o, m.hRes, m.vRes, m.Bytes());
  }

  lemma SplitOffset(o: nat, w: nat, h: nat, b: nat)
    requires o < w * h * b
    ensures w > 0 && b > 0
    ensures var p := o / b; 0 <= p / w < h && 0 <= p % w < w && 0 <= o % b < b && (p / w * w + p % w) * b + o % b == o
  {
    QuotientBelow(o, b, w * h);
    RowOfPixel(o / b, w, h);
  }

  lemma RowOfPixel(p: nat, w: nat, h: nat)
    requires p < w * h
    ensures w > 0 && 0 <= p / w < h && 0 <= p % w < w && p / w * w + p % w == p
  {
    assert w * h == h * w;
    QuotientBelow(p, w, h);
  }

  /** The 32-bit address computation of the pixel routine, step by step. */
  function Address32(m: Mode, x: U16, y: U16): U32 {
    ToU32(ToU32(ToU32(y * m.hRes) + x) * m.Bytes())
  }

  /**
   * When the picture fits in 32 bits no intermediate result wraps, so the machine
   * address is the mathematical one and the mapped size is the true size.
   */
  lemma NoWrap(m: Mode, x: U16, y: U16)
    requires m.Valid() && m.OnScreen(x, y)
    ensures Address32(m, x, y) == Offset(m, x, y, 0)
  {
    SizeIsArea(m);
    OffsetInRange(m, x, y, 0);
    var row, b := y * m.hRes, m.Bytes();
    StepsFit(row, x, b);
  }

  lemma SizeExact(m: Mode)
    requires m.Valid()
    ensures m.VramSize() == m.Size()
  {
    SizeIsArea(m);
    var area, b := m.hRes * m.vRes, m.Bytes();
    StepsFit(area, 0, b);
  }

  lemma StepsFit(row: nat, x: nat, b: nat)
    requires b >= 1 && (row + x) * b < 0x1_0000_0000
    ensures ToU32(ToU32(ToU32(row) + x) * b) == (row + x) * b
    ensures ToU32(ToU32(row) * b) == row * b
  {
    MulMonotone(1, b, row + x);
    MulMonotone(row, row + x, b);
    ToU32Exact(row);
    ToU32Exact(row + x);
    ToU32Exact(row * b);
    ToU32Exact((row + x) * b);
  }

  // ---- little-endian pixels -----------------------------------------------------

  /** Byte `i` of a colour, as the drawing loop extracts it. */
  function Lane(color: nat, i: nat): (b: U8)
    ensures b == color / Pow2(8 * i) % 0x100
  {
    AndMask(Shr(color, 8 * i), 8);
    ShrIsDiv(color, 8 * i);
    Pow2At32();
    And(Shr(color, 8 * i), 0xFF)
  }

  function Decode(s: seq<U8>): nat {
    if s == [] then 0 else s[0] + 0x100 * Decode(s[1..])
  }

  ghost predicate HoldsLanes(s: seq<U8>, color: nat) {
    forall i :: 0 <= i < |s| ==> s[i] == Lane(color, i)
  }

  lemma LaneShift(color: nat, i: nat)
    ensures Lane(color, i + 1) == Lane(color / 0x100, i)
  {
    Pow2At32();
    PowAdd(8, 8 * i);
    DivDiv(color, 0x100, Pow2(8 * i));
  }

  lemma DivDiv(x: nat, a: nat, b: nat)
    requires a > 0 && b > 0
    ensures a * b > 0 && x / (a * b) == x / a / b
  {
    var q, r := x / a / b, (x / a) % b;
    assert x / a == q * b + r;
    RowMajorBound(x % a, r, a, b);
    assert x == q * (a * b) + (r * a + x % a) by {
      assert x == (x / a) * a + x % a;
      assert (q * b + r) * a == q * (a * b) + r * a;
    }
    DivModUnique(x, a * b, q, r * a + x % a);
  }

  lemma HighLanes(s: seq<U8>, color: nat)
    requires s != [] && HoldsLanes(s, color)
    ensures HoldsLanes(s[1..], color / 0x100) && s[0] == color % 0x100
  {
    assert s[0] == Lane(color, 0);
    forall i | 0 <= i < |s| - 1
      ensures s[1..][i] == Lane(color / 0x100, i)
    {
      LaneShift(color, i);
    }
  }

  /** Writing a colour's lanes and decoding them keeps exactly the low `8 * |s|` bits. */
  lemma {:induction false} DecodeLanes(s: seq<U8>, color: nat)
    requires HoldsLanes(s, color)
    ensures Decode(s) == color % Pow2(8 * |s|)
  {
    if s != [] {
      HighLanes(s, color);
      DecodeLanes(s[1..], color / 0x100);
      Pow2At32();
      PowAdd(8, 8 * (|s| - 1));
      ModByte(color, Pow2(8 * (|s| - 1)));
    }
  }

  /** `color % (256 * d)` peels off the lowest byte. */
  lemma ModByte(color: nat, d: nat)
    requires d > 0
    ensures color % (0x100 * d) == color % 0x100 + 0x100 * (color / 0x100 % d)
  {
    var q, r := color / 0x100 / d, color / 0x100 % d;
    assert color / 0x100 == q * d + r;
    assert color == q * (0x100 * d) + (0x100 * r + color % 0x100);
    DivModUnique(color, 0x100 * d, q, 0x100 * r + color % 0x100);
  }

  lemma DecodeZeros(s: seq<U8>)
    requires forall i :: 0 <= i < |s| ==> s[i] == 0
    ensures Decode(s) == 0
  {
  }

  /** The value of a pixel determines its bytes. */
  lemma {:induction false} DecodeInjective(s: seq<U8>, t: seq<U8>)
    requires |s| == |t| && Decode(s) == Decode(t)
    ensures s == t
  {
    if s != [] {
      DecodeInjective(s[1..], t[1..]);
      assert s == [s[0]] + s[1..] && t == [t[0]] + t[1..];
    }
  }

  /** A colour cut to the mode's depth loses nothing more when it is stored. */
  lemma InkFits(m: Mode, color: nat)
    requires m.Valid()
    ensures m.Stored(m.Ink(color)) == m.Ink(color)
    ensures m.Ink(color) < Pow2(m.bits) <= Pow2(8 * m.Bytes())
  {
    LowBitsIsMod(color, m.bits);
    LowBitsIsMod(m.Ink(color), 8 * m.Bytes());
    PowMonotone(m.bits, 8 * m.Bytes());
    DivModUnique(m.Ink(color), Pow2(8 * m.Bytes()), 0, m.Ink(color));
  }

  lemma MaskIsInk(m: Mode, color: U32)
    requires m.Valid()
    ensures 0 <= m.Ink(color) <= color
    ensures m.bits != 32 ==> And(color, Pow2(m.bits) - 1) == m.Ink(color)
    ensures m.bits == 32 ==> color == m.Ink(color)
  {
    MaskIsLowBits(color, m.bits);
    Pow2At32();
    if m.bits == 32 {
      AllLowBits(color, 32);
    }
  }

  /** The optional mask applied before drawing; it is exactly the cut to the mode's depth. */
  function Mask(m: Mode, color: U32): (c: U32)
    requires m.Valid()
    ensures c == m.Ink(color) == m.Stored(c)
  {
    MaskIsInk(m, color);
    InkFits(m, color);
    if m.bits != 32 then And(color, Pow2(m.bits) - 1) else color
  }

  // ---- reading and writing one pixel --------------------------------------------

  ghost function ReadPixel(mem: seq<U8>, m: Mode, x: nat, y: nat): nat
    requires m.OnScreen(x, y) && |mem| == m.Size()
  {
    PixelEnd(m, x, y);
    Decode(mem[Offset(m, x, y, 0)..Offset(m, x, y, m.Bytes())])
  }

  lemma PixelEnd(m: Mode, x: nat, y: nat)
    requires m.OnScreen(x, y)
    ensures Offset(m, x, y, m.Bytes()) == Offset(m, x, y, 0) + m.Bytes() <= m.Size()
  {
    if m.Bytes() > 0 {
      OffsetInRange(m, x, y, m.Bytes() - 1);
    }
  }

  /** The byte ranges of two different pixels do not overlap. */
  lemma PixelsDisjoint(m: Mode, x: nat, y: nat, u: nat, v: nat)
    requires m.OnScreen(x, y) && m.OnScreen(u, v) && (u, v) != (x, y)
    ensures Offset(m, u, v, m.Bytes()) <= Offset(m, x, y, 0) || Offset(m, x, y, m.Bytes()) <= Offset(m, u, v, 0)
  {
    var p, q := y * m.hRes + x, v * m.hRes + u;
    DivModUnique(p, m.hRes, y, x);
    DivModUnique(q, m.hRes, v, u);
    BlocksDisjoint(p, q, m.Bytes());
  }

  lemma BlocksDisjoint(p: int, q: int, b: nat)
    requires p != q
    ensures p * b + b <= q * b || q * b + b <= p * b
  {
    if p < q {
      MulMonotone(p + 1, q, b);
    } else {
      MulMonotone(q + 1, p, b);
    }
  }

  /** `after` is `before` with the bytes of pixel `(x, y)` replaced by the lanes of `color`. */
  ghost predicate PixelWritten(before: seq<U8>, after: seq<U8>, m: Mode, x: nat, y: nat, color: nat) {
    var start, end := Offset(m, x, y, 0), Offset(m, x, y, m.Bytes());
    && end <= |before| == |after|
    && after[..start] == before[..start]
    && after[end..] == before[end..]
    && HoldsLanes(after[start..end], color)
  }

  /** Overwriting one pixel's bytes changes that pixel and no other. */
  lemma ReadAfterWrite(before: seq<U8>, after: seq<U8>, m: Mode, x: nat, y: nat, color: nat, u: nat, v: nat)
    requires m.OnScreen(x, y) && m.OnScreen(u, v)
    requires |before| == m.Size()
    requires PixelWritten(before, after, m, x, y, color)
    ensures ReadPixel(after, m, u, v)
         == if (u, v) == (x, y) then m.Stored(color) else ReadPixel(before, m, u, v)
  {
    var start, end := Offset(m, x, y, 0), Offset(m, x, y, m.Bytes());
    if (u, v) == (x, y) {
      DecodeLanes(after[start..end], color);
      LowBitsIsMod(color, 8 * m.Bytes());
    } else {
      PixelsDisjoint(m, x, y, u, v);
      PixelEnd(m, u, v);
      SliceUntouched(before, after, start, end, Offset(m, u, v, 0), Offset(m, u, v, m.Bytes()));
    }
  }

  lemma SliceUntouched(before: seq<U8>, after: seq<U8>, start: nat, end: nat, lo: nat, hi: nat)
    requires start <= end <= |before| == |after| && lo <= hi <= |before|
    requires after[..start] == before[..start] && after[end..] == before[end..]
    requires hi <= start || end <= lo
    ensures after[lo..hi] == before[lo..hi]
  {
    forall i | lo <= i < hi
      ensures after[i] == before[i]
    {
      if hi <= start {
        assert after[..start][i] == before[..start][i];
      } else {
        assert after[end..][i - end] == before[end..][i - end];
      }
    }
  }
}
