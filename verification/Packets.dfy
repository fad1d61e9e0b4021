/** The mouse byte stream: framing with resynchronisation, and the packet codec. */
module Packets {
  import opened Bits
  import opened Sequences

  // ---- framing ------------------------------------------------------------------------

  /** A stretch of the stream: a byte dropped while out of step, or a packet. */
  datatype Segment = Noise(b: U8) | Triple(b0: U8, b1: U8, b2: U8)

  datatype Framing = Framing(segments: seq<Segment>, pending: seq<U8>)

  /** Every first byte of a packet has bit 3 set. */
  predicate CanStart(b: U8) { Bit(b, 3) }

  /** The reference: skip until bit 3 is set, take three bytes, repeat. */
  function Split(bytes: seq<U8>): Framing {
    if bytes == [] then Framing([], [])
    else if !CanStart(bytes[0]) then
      var rest := Split(bytes[1..]);
      Framing([Noise(bytes[0])] + rest.segments, rest.pending)
    else if |bytes| < 3 then Framing([], bytes)
    else
      var rest := Split(bytes[3..]);
      Framing([Triple(bytes[0], bytes[1], bytes[2])] + rest.segments, rest.pending)
  }

  function SegmentBytes(s: Segment): seq<U8> {
    match s
    case Noise(b) => [b]
    case Triple(b0, b1, b2) => [b0, b1, b2]
  }

  function Flatten(segments: seq<Segment>): seq<U8> {
    if segments == [] then [] else SegmentBytes(segments[0]) + Flatten(segments[1..])
  }

  predicate GoodSegment(s: Segment) {
    match s
    case Noise(b) => !CanStart(b)
    case Triple(b0, _, _) => CanStart(b0)
  }

  predicate GoodPending(pending: seq<U8>) {
    |pending| < 3 && (pending != [] ==> CanStart(pending[0]))
  }

  /**
   * A framing of a byte stream: it gives back every byte in order, drops only bytes that
   * cannot start a packet, and starts packets only at bytes that can.
   */
  ghost predicate Frames(f: Framing, bytes: seq<U8>) {
    && Flatten(f.segments) + f.pending == bytes
    && (forall i :: 0 <= i < |f.segments| ==> GoodSegment(f.segments[i]))
    && GoodPending(f.pending)
  }

  /** A byte stream has exactly one framing, the one the reference computes. */
  lemma {:induction false} UniqueFraming(f: Framing, bytes: seq<U8>)
    ensures Frames(f, bytes) <==> f == Split(bytes)
    decreases |bytes|
  {
    SplitFrames(bytes);
    if Frames(f, bytes) {
      FramingIsSplit(f, bytes);
    }
  }

  lemma {:induction false} SplitFrames(bytes: seq<U8>)
    ensures Frames(Split(bytes), bytes)
    decreases |bytes|
  {
    if bytes != [] && (!CanStart(bytes[0]) || |bytes| >= 3) {
      var s, rest := FirstSegment(bytes);
      SplitFrames(rest);
      PrependSegment(s, Split(rest), rest);
    }
  }

  lemma FirstSegment(bytes: seq<U8>) returns (s: Segment, rest: seq<U8>)
    requires bytes != [] && (!CanStart(bytes[0]) || |bytes| >= 3)
    ensures GoodSegment(s) && SegmentBytes(s) + rest == bytes && |rest| < |bytes|
    ensures Split(bytes) == Framing([s] + Split(rest).segments, Split(rest).pending)
  {
    if CanStart(bytes[0]) {
      s, rest := Triple(bytes[0], bytes[1], bytes[2]), bytes[3..];
    } else {
      s, rest := Noise(bytes[0]), bytes[1..];
    }
  }

  lemma PrependSegment(s: Segment, f: Framing, bytes: seq<U8>)
    requires GoodSegment(s) && Frames(f, bytes)
    ensures Frames(Framing([s] + f.segments, f.pending), SegmentBytes(s) + bytes)
  {
    assert ([s] + f.segments)[1..] == f.segments;
    assert SegmentBytes(s) + Flatten(f.segments) + f.pending == SegmentBytes(s) + (Flatten(f.segments) + f.pending);
  }

  lemma {:induction false} FramingIsSplit(f: Framing, bytes: seq<U8>)
    requires Frames(f, bytes)
    ensures f == Split(bytes)
    decreases |bytes|
  {
    if f.segments != [] {
      var s, rest := f.segments[0], f.segments[1..];
      var n, tail := |SegmentBytes(s)|, Flatten(rest) + f.pending;
      assert f.segments == [s] + rest;
      assert bytes == SegmentBytes(s) + tail;
      assert bytes[n..] == tail;
      FramingIsSplit(Framing(rest, f.pending), tail);
      assert GoodSegment(s);
      match s
      case Noise(b) => assert bytes[0] == b;
      case Triple(b0, b1, b2) => assert bytes[0] == b0 && bytes[1] == b1 && bytes[2] == b2;
    }
  }

  // ---- one byte at a time -----------------------------------------------------------------

  /** What the framer does with one more byte. */
  function Feed(f: Framing, b: U8): Framing {
    if f.pending == [] && !CanStart(b) then Framing(f.segments + [Noise(b)], [])
    else if |f.pending| == 2 then Framing(f.segments + [Triple(f.pending[0], f.pending[1], b)], [])
    else Framing(f.segments, f.pending + [b])
  }

  lemma {:induction false} FlattenAppend(segments: seq<Segment>, s: Segment)
    ensures Flatten(segments + [s]) == Flatten(segments) + SegmentBytes(s)
  {
    if segments == [] {
      assert [s][1..] == [];
    } else {
      FlattenAppend(segments[1..], s);
      assert (segments + [s])[1..] == segments[1..] + [s];
    }
  }

  /** One more byte completes a segment. */
  lemma CompletesSegment(f: Framing, bytes: seq<U8>, b: U8, s: Segment)
    requires Frames(f, bytes) && GoodSegment(s) && SegmentBytes(s) == f.pending + [b]
    ensures Frames(Framing(f.segments + [s], []), bytes + [b])
  {
    FlattenAppend(f.segments, s);
    Reassociate(Flatten(f.segments), f.pending, [b]);
  }

  lemma FeedFrames(f: Framing, bytes: seq<U8>, b: U8)
    requires Frames(f, bytes)
    ensures Frames(Feed(f, b), bytes + [b])
  {
    if f.pending == [] && !CanStart(b) {
      CompletesSegment(f, bytes, b, Noise(b));
    } else if |f.pending| == 2 {
      CompletesSegment(f, bytes, b, Triple(f.pending[0], f.pending[1], b));
    } else {
      Reassociate(Flatten(f.segments), f.pending, [b]);
    }
  }

  /** Feeding byte by byte computes the reference framing. */
  lemma FeedIsSplit(bytes: seq<U8>, b: U8)
    ensures Split(bytes + [b]) == Feed(Split(bytes), b)
  {
    SplitFrames(bytes);
    FeedFrames(Split(bytes), bytes, b);
    FramingIsSplit(Feed(Split(bytes), b), bytes + [b]);
  }

  function Triples(segments: seq<Segment>): nat {
    if segments == [] then 0 else Triples(segments[1..]) + if segments[0].Triple? then 1 else 0
  }

  function Dropped(segments: seq<Segment>): nat {
    if segments == [] then 0 else Dropped(segments[1..]) + if segments[0].Noise? then 1 else 0
  }

  /** Every byte is accounted for: three per packet, the dropped ones, and at most two pending. */
  lemma {:induction false} Conservation(bytes: seq<U8>)
    ensures var f := Split(bytes);
            |bytes| == 3 * Triples(f.segments) + Dropped(f.segments) + |f.pending| && |f.pending| < 3
  {
    SplitFrames(bytes);
    FlattenLength(Split(bytes).segments);
  }

  lemma {:induction false} FlattenLength(segments: seq<Segment>)
    ensures |Flatten(segments)| == 3 * Triples(segments) + Dropped(segments)
  {
    if segments != [] {
      FlattenLength(segments[1..]);
    }
  }

  // ---- the packet codec ----------------------------------------------------------------------

  /** What a packet reports: buttons, displacements and overflow flags. */
  datatype Report = Report(lb: bool, rb: bool, mb: bool, deltaX: I16, deltaY: I16, xOv: bool, yOv: bool)

  /** A nine-bit two's-complement displacement: the low byte and a separate sign bit. */
  function Displacement(negative: bool, low: U8): I16 {
    ToI16(if negative then Or(low, 0xFF00) else low)
  }

  function Decode(b0: U8, b1: U8, b2: U8): Report {
    Report(Bit(b0, 0), Bit(b0, 1), Bit(b0, 2), Displacement(Bit(b0, 4), b1), Displacement(Bit(b0, 5), b2), Bit(b0, 6), Bit(b0, 7))
  }

  /** The report in a packet buffer. */
  function DecodeBytes(bytes: seq<U8>): Report
    requires |bytes| == 3
  {
    Decode(bytes[0], bytes[1], bytes[2])
  }

  /** A packet in numbers: buttons in the low bits, nine-bit displacements, overflow in the top bits. */
  lemma PacketInNumbers(b0: U8, b1: U8, b2: U8)
    ensures var r := Decode(b0, b1, b2);
            && (r.lb <==> b0 % 2 == 1) && (r.rb <==> b0 / 2 % 2 == 1) && (r.mb <==> b0 / 4 % 2 == 1)
            && r.deltaX == b1 - (if b0 / 16 % 2 == 1 then 256 else 0)
            && r.deltaY == b2 - (if b0 / 32 % 2 == 1 then 256 else 0)
            && (r.xOv <==> b0 / 64 % 2 == 1) && (r.yOv <==> b0 / 128 % 2 == 1)
  {
    BitInNumbers(b0);
    DisplacementInNumbers(Bit(b0, 4), b1);
    DisplacementInNumbers(Bit(b0, 5), b2);
  }

  lemma DisplacementInNumbers(negative: bool, low: U8)
    ensures Displacement(negative, low) == low - if negative then 256 else 0
  {
    if negative {
      OrLowByte(0xFF00, low);
      HighByteIsMinus(low);
    }
  }

  lemma LowThreeBits(b: U8)
    ensures b % 8 == b % 2 + 2 * (b / 2 % 2) + 4 * (b / 4 % 2)
  {
    assert b / 4 == b / 2 / 2;
  }

  lemma BitInNumbers(b: U8)
    ensures (Bit(b, 0) <==> b % 2 == 1) && (Bit(b, 1) <==> b / 2 % 2 == 1) && (Bit(b, 2) <==> b / 4 % 2 == 1)
    ensures (Bit(b, 3) <==> b / 8 % 2 == 1) && (Bit(b, 4) <==> b / 16 % 2 == 1) && (Bit(b, 5) <==> b / 32 % 2 == 1)
    ensures (Bit(b, 6) <==> b / 64 % 2 == 1) && (Bit(b, 7) <==> b / 128 % 2 == 1)
  {
    assert Pow2(3) == 8 && Pow2(4) == 16 && Pow2(7) == 128;
    BitIsDiv(b, 0);
    BitIsDiv(b, 1);
    BitIsDiv(b, 2);
    BitIsDiv(b, 3);
    BitIsDiv(b, 4);
    BitIsDiv(b, 5);
    BitIsDiv(b, 6);
    BitIsDiv(b, 7);
  }

  /** Displacements are nine-bit numbers. */
  predicate Sendable(r: Report) {
    -0x100 <= r.deltaX < 0x100 && -0x100 <= r.deltaY < 0x100
  }

  /** The number with the given bits, lowest first. */
  function Pack(flags: seq<bool>): (x: nat)
    ensures x < Pow2(|flags|)
  {
    if flags == [] then 0 else (if flags[0] then 1 else 0) + 2 * Pack(flags[1..])
  }

  function Flags(r: Report): seq<bool> {
    [r.lb, r.rb, r.mb, true, r.deltaX < 0, r.deltaY < 0, r.xOv, r.yOv]
  }

  /** The first byte of the packet for a report. */
  function Header(r: Report): U8 {
    Pow2At32();
    Pack(Flags(r))
  }

  function Encode(r: Report): Segment {
    Triple(Header(r), ToU8(r.deltaX), ToU8(r.deltaY))
  }

  lemma {:induction false} PackBit(flags: seq<bool>, k: nat)
    requires k < |flags|
    ensures Bit(Pack(flags), k) == flags[k]
  {
    if k > 0 {
      PackBit(flags[1..], k - 1);
    }
  }

  /** A number is determined by its bits. */
  lemma {:induction false} PackUnpack(flags: seq<bool>, x: nat)
    requires x < Pow2(|flags|)
    requires forall k :: 0 <= k < |flags| ==> flags[k] == Bit(x, k)
    ensures Pack(flags) == x
  {
    if flags != [] {
      assert flags[0] == (x % 2 == 1);
      forall k | 0 <= k < |flags| - 1 ensures flags[1..][k] == Bit(x / 2, k) {
        assert flags[k + 1] == Bit(x, k + 1);
      }
      PackUnpack(flags[1..], x / 2);
    }
  }

  /** A sign bit and a low byte are exactly the nine-bit numbers. */
  lemma DisplacementSplits(negative: bool, low: U8)
    ensures var d := Displacement(negative, low);
            -0x100 <= d < 0x100 && (d < 0) == negative && ToU8(d) == low
  {
    if negative {
      OrLowByte(0xFF00, low);
      HighByteIsMinus(low);
    }
  }

  lemma HighByteIsMinus(low: U8)
    ensures ToI16(0xFF00 + low) == low - 0x100 && ToU8(low - 0x100) == low
  {
    assert (0xFF00 + low) % 0x1_0000 == 0xFF00 + low;
    assert low - 0x100 == -1 * 0x100 + low;
  }

  lemma DisplacementJoins(d: I16)
    requires -0x100 <= d < 0x100
    ensures Displacement(d < 0, ToU8(d)) == d
  {
    OrLowByte(0xFF00, ToU8(d));
  }

  lemma HeaderBits(r: Report)
    ensures forall k :: 0 <= k < 8 ==> Bit(Header(r), k) == Flags(r)[k]
  {
    forall k | 0 <= k < 8 ensures Bit(Header(r), k) == Flags(r)[k] {
      PackBit(Flags(r), k);
    }
  }

  /** A report survives encoding and decoding, and its packet is recognised as one. */
  lemma DecodeEncode(r: Report)
    requires Sendable(r)
    ensures var t := Encode(r); GoodSegment(t) && Decode(t.b0, t.b1, t.b2) == r
  {
    HeaderBits(r);
    DisplacementJoins(r.deltaX);
    DisplacementJoins(r.deltaY);
  }

  lemma HeaderOfDecode(b0: U8, b1: U8, b2: U8)
    requires CanStart(b0)
    ensures Header(Decode(b0, b1, b2)) == b0
  {
    var bits := seq(8, k requires 0 <= k < 8 => Bit(b0, k));
    Pow2At32();
    PackUnpack(bits, b0);
    assert Flags(Decode(b0, b1, b2)) == bits by {
      DisplacementSplits(bits[4], b1);
      DisplacementSplits(bits[5], b2);
    }
  }

  /** Every packet is the encoding of what it reports. */
  lemma EncodeDecode(b0: U8, b1: U8, b2: U8)
    requires CanStart(b0)
    ensures Sendable(Decode(b0, b1, b2)) && Encode(Decode(b0, b1, b2)) == Triple(b0, b1, b2)
  {
    HeaderOfDecode(b0, b1, b2);
    DisplacementSplits(Bit(b0, 4), b1);
    DisplacementSplits(Bit(b0, 5), b2);
  }

  /** What one segment reports: nothing if it was dropped. */
  function SegmentReports(s: Segment): seq<Report> {
    match s
    case Noise(_) => []
    case Triple(b0, b1, b2) => [Decode(b0, b1, b2)]
  }

  /** The reports of the packets in a framing. */
  function Reports(segments: seq<Segment>): seq<Report> {
    if segments == [] then [] else SegmentReports(segments[0]) + Reports(segments[1..])
  }

  lemma {:induction false} ReportsConcat(a: seq<Segment>, b: seq<Segment>)
    ensures Reports(a + b) == Reports(a) + Reports(b)
  {
    if a == [] {
      assert a + b == b;
    } else {
      ReportsConcat(a[1..], b);
      assert (a + b)[1..] == a[1..] + b;
      Reassociate(SegmentReports(a[0]), Reports(a[1..]), Reports(b));
    }
  }

  lemma ReportsAppend(segments: seq<Segment>, s: Segment)
    ensures Reports(segments + [s]) == Reports(segments) + SegmentReports(s)
  {
    assert [s][1..] == [];
    ReportsConcat(segments, [s]);
  }

  /** In step, a byte with bit 3 clear is dropped, and one with bit 3 set starts a packet of three. */
  lemma OnePacket(b0: U8, b1: U8, b2: U8)
    ensures b0 / 8 % 2 == 0 ==> Split([b0]) == Framing([Noise(b0)], [])
    ensures b0 / 8 % 2 == 1 ==> Reports(Split([b0, b1, b2]).segments) == [Decode(b0, b1, b2)]
  {
    BitInNumbers(b0);
    assert [b0][1..] == [] && [b0, b1, b2][3..] == [];
    if b0 / 8 % 2 == 1 {
      var segments := Split([b0, b1, b2]).segments;
      assert segments == [Triple(b0, b1, b2)] + [] == [] + [Triple(b0, b1, b2)];
      ReportsAppend([], Triple(b0, b1, b2));
    }
  }

  /** One more byte reports something exactly when two were pending. */
  lemma FeedReports(f: Framing, b: U8)
    ensures Reports(Feed(f, b).segments)
         == Reports(f.segments) + if |f.pending| == 2 then [DecodeBytes(f.pending + [b])] else []
  {
    if f.pending == [] && !CanStart(b) {
      ReportsAppend(f.segments, Noise(b));
    } else if |f.pending| == 2 {
      ReportsAppend(f.segments, Triple(f.pending[0], f.pending[1], b));
    }
  }

  // ---- whole streams -----------------------------------------------------------------------

  /** A report as sent, after some bytes that do not belong to any packet. */
  datatype Sent = Sent(noise: seq<U8>, report: Report)

  predicate CanSend(s: Sent) {
    Sendable(s.report) && forall i :: 0 <= i < |s.noise| ==> !CanStart(s.noise[i])
  }

  function Transmit(stream: seq<Sent>): seq<U8> {
    if stream == [] then []
    else stream[0].noise + (SegmentBytes(Encode(stream[0].report)) + Transmit(stream[1..]))
  }

  function SentReports(stream: seq<Sent>): seq<Report> {
    if stream == [] then [] else [stream[0].report] + SentReports(stream[1..])
  }

  /**
   * Any list of reports survives the wire: framing and decoding its byte stream gives back
   * the same list and leaves nothing pending, whatever non-starting bytes fall in between.
   */
  lemma {:induction false} RoundTrip(stream: seq<Sent>)
    requires forall i :: 0 <= i < |stream| ==> CanSend(stream[i])
    ensures Reports(Split(Transmit(stream)).segments) == SentReports(stream)
    ensures Split(Transmit(stream)).pending == []
  {
    if stream != [] {
      RoundTrip(stream[1..]);
      var rest, t := Transmit(stream[1..]), Encode(stream[0].report);
      var f := Framing([t] + Split(rest).segments, []);
      SplitFrames(rest);
      DecodeEncode(stream[0].report);
      PrependSegment(t, Split(rest), rest);
      FramingIsSplit(f, SegmentBytes(t) + rest);
      assert f.segments[1..] == Split(rest).segments;
      SkipNoise(stream[0].noise, SegmentBytes(t) + rest);
    }
  }

  lemma {:induction false} FlattenConcat(a: seq<Segment>, b: seq<Segment>)
    ensures Flatten(a + b) == Flatten(a) + Flatten(b)
  {
    if a == [] {
      assert a + b == b;
    } else {
      FlattenConcat(a[1..], b);
      assert (a + b)[1..] == a[1..] + b;
      Reassociate(SegmentBytes(a[0]), Flatten(a[1..]), Flatten(b));
    }
  }

  /** Where nothing is pending, the framings of two streams are those of each. */
  lemma SplitConcat(a: seq<U8>, b: seq<U8>)
    requires Split(a).pending == []
    ensures Split(a + b) == Framing(Split(a).segments + Split(b).segments, Split(b).pending)
  {
    var f, g := Split(a), Split(b);
    SplitFrames(a);
    SplitFrames(b);
    FlattenConcat(f.segments, g.segments);
    assert f.segments + [] == f.segments && Flatten(f.segments) + [] == Flatten(f.segments);
    Reassociate(Flatten(f.segments), Flatten(g.segments), g.pending);
    FramingIsSplit(Framing(f.segments + g.segments, g.pending), a + b);
  }

  /** Whatever was received before, two bytes that cannot start a packet leave nothing pending. */
  lemma TwoBytesSettle(pre: seq<U8>, n1: U8, n2: U8)
    requires !CanStart(n1) && !CanStart(n2)
    ensures Split(pre + [n1, n2]).pending == []
  {
    SplitFrames(pre);
    FeedIsSplit(pre, n1);
    FeedIsSplit(pre + [n1], n2);
    assert pre + [n1] + [n2] == pre + [n1, n2];
  }

  /**
   * Resynchronisation: after any bytes at all, two bytes that cannot start a packet put the
   * framer back in step, and every report sent from there on arrives.
   */
  lemma Resynchronises(pre: seq<U8>, n1: U8, n2: U8, stream: seq<Sent>)
    requires !CanStart(n1) && !CanStart(n2)
    requires forall i :: 0 <= i < |stream| ==> CanSend(stream[i])
    ensures Reports(Split(pre + [n1, n2] + Transmit(stream)).segments)
         == Reports(Split(pre + [n1, n2]).segments) + SentReports(stream)
    ensures Split(pre + [n1, n2] + Transmit(stream)).pending == []
  {
    TwoBytesSettle(pre, n1, n2);
    SplitConcat(pre + [n1, n2], Transmit(stream));
    ReportsConcat(Split(pre + [n1, n2]).segments, Split(Transmit(stream)).segments);
    RoundTrip(stream);
  }

  /** One such byte is not enough: after a lone first byte, the next report's first byte is taken for the third. */
  lemma OneByteIsNotEnough(b0: U8, n: U8, r: Report)
    requires CanStart(b0) && !CanStart(n) && Sendable(r)
    ensures var f := Split([b0, n] + SegmentBytes(Encode(r))); f.segments != [] && f.segments[0] == Triple(b0, n, Header(r))
  {
    var bytes := [b0, n] + SegmentBytes(Encode(r));
    assert bytes[0] == b0 && bytes[1] == n && bytes[2] == Header(r);
  }

  /** Bytes that cannot start a packet are dropped when the framer is in step. */
  lemma SkipNoise(noise: seq<U8>, bytes: seq<U8>)
    requires forall i :: 0 <= i < |noise| ==> !CanStart(noise[i])
    ensures Reports(Split(noise + bytes).segments) == Reports(Split(bytes).segments)
    ensures Split(noise + bytes).pending == Split(bytes).pending
  {
    OnlyNoise(noise);
    SplitConcat(noise, bytes);
    ReportsConcat(Split(noise).segments, Split(bytes).segments);
  }

  lemma {:induction false} OnlyNoise(noise: seq<U8>)
    requires forall i :: 0 <= i < |noise| ==> !CanStart(noise[i])
    ensures Reports(Split(noise).segments) == [] && Split(noise).pending == []
  {
    if noise != [] {
      OnlyNoise(noise[1..]);
      var rest := Split(noise[1..]).segments;
      assert ([Noise(noise[0])] + rest)[1..] == rest;
    }
  }
}
