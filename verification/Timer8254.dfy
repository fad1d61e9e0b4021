/** Programming the i8254 timer, against a model of the chip. */
module Timer8254 {
  import opened Bits
  import opened Options

  const FREQUENCY: nat := 1193182
  const COUNTER_0: nat := 0x40
  const CONTROL: nat := 0x43

  /** One counter: access mode (bits 5-4 of its control word), counting mode and BCD bits (3-0), and its count. */
  datatype Counter = Counter(access: nat, modeBits: nat, count: U16, low: U8, expectHigh: bool, latched: bool) {
    predicate Valid() { access < 4 && modeBits < 16 }

    /** A data byte written by the processor. */
    function Load(b: U8): Counter {
      if access == 1 then this.(count := b)
      else if access == 2 then this.(count := 0x100 * b)
      else if expectHigh then this.(count := 0x100 * b + low, expectHigh := false)
      else this.(low := b, expectHigh := true)
    }

    /** The status byte; `pins` stands for the two top bits, which the program does not use. */
    function Status(pins: nat): U8
      requires Valid() && pins < 4
    {
      0x40 * pins + 0x10 * access + modeBits
    }
  }

  /** The bytes of a 16-bit value, as the utility functions extract them. */
  function Lsb(v: U16): (b: U8)
    ensures b == v % 0x100
  {
    AndMask(v, 8);
    Pow2At32();
    And(v, 0xFF)
  }

  function Msb(v: U16): (b: U8)
    ensures b == v / 0x100
  {
    Pow2At32();
    ShrIsDiv(v, 8);
    Shr(v, 8)
  }

  /** The guard on the frequency is the weakest one that keeps the divisor in 16 bits and nonzero. */
  lemma GuardIsLeast(freq: nat)
    requires freq > 0
    ensures 1 <= FREQUENCY / freq < 0x1_0000 <==> 19 <= freq <= FREQUENCY
    ensures 19 <= freq <= FREQUENCY ==> FREQUENCY / freq <= 62799
    ensures var d := FREQUENCY / freq; d * freq <= FREQUENCY < (d + 1) * freq
  {
    var d := FREQUENCY / freq;
    assert FREQUENCY == d * freq + FREQUENCY % freq;
    assert (d + 1) * freq == d * freq + freq;
    DivNonNegative(FREQUENCY, freq);
    if freq >= 19 && d >= 62800 {
      MulMonotone(62800, d, freq);
    }
    if freq <= 18 && d <= 66286 {
      MulMonotone(d + 1, 66287, freq);
    }
    if freq > FREQUENCY && d >= 1 {
      MulMonotone(1, d, freq);
    }
  }

  /** Does a read-back command address counter `i`? */
  predicate Selects(b: U8, i: nat) { Bit(b, i + 1) }

  /** What the chip does with a byte written to one of its ports. */
  function AfterWrite(cs: seq<Counter>, port: nat, b: U8): (r: seq<Counter>)
    requires |cs| == 3
    ensures |r| == 3 && ((forall i :: 0 <= i < 3 ==> cs[i].Valid()) ==> forall i :: 0 <= i < 3 ==> r[i].Valid())
  {
    if port == CONTROL then
      var select, access := b / 0x40, b / 0x10 % 4;
      if select == 3 then
        // read-back: bits 3 to 1 select counters, a clear bit 4 latches their status
        seq(3, i requires 0 <= i < 3 => if Selects(b, i) && !Bit(b, 4) then cs[i].(latched := true) else cs[i])
      else if access == 0 then cs
      else cs[select := cs[select].(access := access, modeBits := b % 0x10, expectHigh := false)]
    else if COUNTER_0 <= port < CONTROL then
      cs[port - COUNTER_0 := cs[port - COUNTER_0].Load(b)]
    else cs
  }

  class Chip {
    var counters: seq<Counter>

    predicate Valid()
      reads this
    {
      |counters| == 3 && forall i :: 0 <= i < 3 ==> counters[i].Valid()
    }

    constructor (initial: seq<Counter>)
      requires |initial| == 3 && forall i :: 0 <= i < 3 ==> initial[i].Valid()
      ensures Valid() && counters == initial
    {
      counters := initial;
    }

    method OutB(port: nat, b: U8)
      requires Valid()
      modifies this
      ensures Valid() && counters == AfterWrite(old(counters), port, b)
    {
      counters := AfterWrite(counters, port, b);
    }

    /** Reading a counter port gives a latched status first, and otherwise a byte of the count. */
    method InB(timer: nat, pins: nat) returns (b: U8)
      requires Valid() && timer < 3 && pins < 4
      modifies this
      ensures Valid() && counters == old(counters)[timer := old(counters)[timer].(latched := false)]
      ensures old(counters)[timer].latched ==> b == old(counters)[timer].Status(pins)
    {
      b := if counters[timer].latched then counters[timer].Status(pins) else Lsb(counters[timer].count);
      counters := counters[timer := counters[timer].(latched := false)];
    }
  }

  /** Read-back command for one timer: its status, not its count. */
  function ReadBack(timer: nat): (b: U8)
    requires timer < 3
    ensures b == if timer == 0 then 0xE2 else if timer == 1 then 0xE4 else 0xE8
  {
    SelectBit(timer);
    CommandBits(Shl(1, timer + 1));
    Or(Or(0xC0, 0x20), Shl(1, timer + 1))
  }

  lemma SelectBit(timer: nat)
    requires timer < 3
    ensures Shl(1, timer + 1) == if timer == 0 then 2 else if timer == 1 then 4 else 8
  {
    assert Pow2(1) == 2 && Pow2(2) == 4;
  }

  lemma CommandBits(select: nat)
    requires select < 0x20
    ensures Or(Or(0xC0, 0x20), select) == 0xE0 + select
  {
    assert Pow2(5) == 0x20 && Pow2(6) == 0x40;
    OrDisjoint(3, 0x20, 6);
    OrDisjoint(7, select, 5);
  }

  lemma ReadBackBits()
    ensures !Bit(0xE2, 4) && Selects(0xE2, 0) && !Selects(0xE2, 1) && !Selects(0xE2, 2)
    ensures !Bit(0xE4, 4) && !Selects(0xE4, 0) && Selects(0xE4, 1) && !Selects(0xE4, 2)
    ensures !Bit(0xE8, 4) && !Selects(0xE8, 0) && !Selects(0xE8, 1) && Selects(0xE8, 2)
  {
    assert Bit(0xE2, 1) && !Bit(0xE2, 2) && !Bit(0xE2, 3) && !Bit(0xE2, 4);
    assert !Bit(0xE4, 1) && Bit(0xE4, 2) && !Bit(0xE4, 3) && !Bit(0xE4, 4);
    assert !Bit(0xE8, 1) && !Bit(0xE8, 2) && Bit(0xE8, 3) && !Bit(0xE8, 4);
  }

  /** The command latches the status of that timer and does nothing else. */
  lemma AfterReadBack(cs: seq<Counter>, timer: nat)
    requires |cs| == 3 && timer < 3
    ensures AfterWrite(cs, 0x43, ReadBack(timer)) == cs[timer := cs[timer].(latched := true)]
  {
    ReadBackBits();
    var r := AfterWrite(cs, CONTROL, ReadBack(timer));
    forall i | 0 <= i < 3 ensures r[i] == if i == timer then cs[i].(latched := true) else cs[i] {
      assert i == 0 || i == 1 || i == 2;
    }
  }

  /** The control word that keeps the low bits of the status and asks for both count bytes. */
  function ControlWord(status: U8, timer: nat): (b: U8)
    requires timer < 3
    ensures b == 0x40 * timer + 0x30 + status % 0x10
  {
    assert Pow2(4) == 0x10 && Pow2(6) == 0x40;
    AndMask(status, 4);
    ControlBits(status % 0x10, timer, 0x30, 0x40 * timer);
    Or(Or(And(status, 0x0F), 0x30), 0x40 * timer)
  }

  lemma ControlBits(low: nat, timer: nat, both: nat, select: nat)
    requires low < Pow2(4) == 0x10 && both == 3 * Pow2(4) && select == timer * Pow2(6) && Pow2(6) == 0x40
    ensures Or(Or(low, both), select) == select + both + low
  {
    OrField(low, both, 3, 4);
    OrField(both + low, select, timer, 6);
  }

  lemma ControlFields(timer: nat, low: nat)
    requires timer < 3 && low < 0x10
    ensures var b := 0x40 * timer + 0x30 + low; b / 0x40 == timer && b / 0x10 % 4 == 3 && b % 0x10 == low
  {
  }

  /** The control word programs that timer's access and keeps the given mode bits. */
  lemma AfterControl(cs: seq<Counter>, status: U8, timer: nat)
    requires |cs| == 3 && timer < 3
    ensures AfterWrite(cs, 0x43, ControlWord(status, timer))
         == cs[timer := cs[timer].(access := 3, modeBits := status % 0x10, expectHigh := false)]
  {
    ControlFields(timer, status % 0x10);
  }

  /** Writing the two bytes of a value to a counter loads that value. */
  lemma AfterBothBytes(cs: seq<Counter>, timer: nat, d: U16)
    requires |cs| == 3 && timer < 3 && cs[timer].access == 3 && !cs[timer].expectHigh
    ensures AfterWrite(AfterWrite(cs, 0x40 + timer, d % 0x100), 0x40 + timer, d / 0x100)
         == cs[timer := cs[timer].(count := d, low := Lsb(d))]
  {
    assert d == 0x100 * Msb(d) + Lsb(d);
    assert cs[timer].Load(Lsb(d)).Load(Msb(d)) == cs[timer].(count := d, low := Lsb(d));
  }

  lemma StatusFields(c: Counter, pins: nat)
    requires c.Valid() && pins < 4
    ensures c.Status(pins) % 0x10 == c.modeBits && c.Status(pins) / 0x10 % 4 == c.access
  {
    assert c.Status(pins) == 0x10 * (4 * pins + c.access) + c.modeBits;
  }

  /** Sends the read-back command. */
  method LatchStatus(chip: Chip, timer: nat)
    requires chip.Valid() && timer < 3
    modifies chip
    ensures chip.Valid() && chip.counters == old(chip.counters)[timer := old(chip.counters)[timer].(latched := true)]
  {
    AfterReadBack(chip.counters, timer);
    chip.OutB(CONTROL, ReadBack(timer));
  }

  /** Reads a timer's status; nothing but a pending latch can change. */
  method TimerGetConf(chip: Chip, timer: U8, pins: nat) returns (ok: bool, status: U8)
    requires chip.Valid() && pins < 4
    modifies chip
    ensures chip.Valid() && ok == (timer <= 2)
    ensures !ok ==> chip.counters == old(chip.counters)
    ensures ok ==> chip.counters == old(chip.counters)[timer := old(chip.counters)[timer].(latched := false)]
    ensures ok ==> status % 0x10 == old(chip.counters)[timer].modeBits && status / 0x10 % 4 == old(chip.counters)[timer].access
  {
    status := 0;
    if timer > 2 {
      return false, status;
    }
    LatchStatus(chip, timer);
    StatusFields(chip.counters[timer], pins);
    status := chip.InB(timer, pins);
    return true, status;
  }

  method WriteControl(chip: Chip, timer: nat, status: U8)
    requires chip.Valid() && timer < 3
    modifies chip
    ensures chip.Valid()
    ensures chip.counters == old(chip.counters)[timer := old(chip.counters)[timer].(access := 3, modeBits := status % 0x10, expectHigh := false)]
  {
    AfterControl(chip.counters, status, timer);
    chip.OutB(CONTROL, ControlWord(status, timer));
  }

  /** Low byte first, then the high byte. */
  method WriteCount(chip: Chip, timer: nat, d: U16)
    requires chip.Valid() && timer < 3 && chip.counters[timer].access == 3 && !chip.counters[timer].expectHigh
    modifies chip
    ensures chip.Valid()
    ensures chip.counters == old(chip.counters)[timer := old(chip.counters)[timer].(count := d, low := Lsb(d))]
  {
    AfterBothBytes(chip.counters, timer, d);
    chip.OutB(COUNTER_0 + timer, Lsb(d));
    chip.OutB(COUNTER_0 + timer, Msb(d));
  }

  /** The register value of the timer divides the clock to `freq`, and its mode is as before. */
  predicate Programmed(before: Counter, after: Counter, freq: nat) {
    && after.count * freq <= FREQUENCY < (after.count + 1) * freq
    && 1 <= after.count <= 62799
    && after.modeBits == before.modeBits
    && after.access == 3 && !after.expectHigh
  }

  /** The four decimal digits of a register in BCD mode. */
  function Decimal(v: U16): nat {
    v % 0x10 + 10 * (v / 0x10 % 0x10) + 100 * (v / 0x100 % 0x10) + 1000 * (v / 0x1000)
  }

  predicate AllDigits(v: U16) {
    v % 0x10 <= 9 && v / 0x10 % 0x10 <= 9 && v / 0x100 % 0x10 <= 9 && v / 0x1000 <= 9
  }

  /**
   * What the chip divides by: the register as a binary number, or in BCD mode (bit 0) as four
   * decimal digits, which not every register value is. A register of 0 stands for the largest count.
   */
  function Divisor(c: Counter): Option<nat> {
    if c.modeBits % 2 == 0 then Some(if c.count == 0 then 0x1_0000 else c.count)
    else if !AllDigits(c.count) then None
    else Some(if c.count == 0 then 10000 else Decimal(c.count))
  }

  lemma DecimalAgrees(v: U16)
    requires v > 0
    ensures AllDigits(v) && Decimal(v) == v <==> v <= 9
  {
    HexDigits(v);
    DigitsAgree(v, v % 0x10, v / 0x10 % 0x10, v / 0x100 % 0x10, v / 0x1000);
  }

  lemma DigitsAgree(v: nat, a: nat, b: nat, c: nat, d: nat)
    requires v == a + 0x10 * b + 0x100 * c + 0x1000 * d
    ensures a <= 9 && b <= 9 && c <= 9 && d <= 9 && a + 10 * b + 100 * c + 1000 * d == v <==> v <= 9
  {
  }

  lemma HexDigits(v: U16)
    ensures v == v % 0x10 + 0x10 * (v / 0x10 % 0x10) + 0x100 * (v / 0x100 % 0x10) + 0x1000 * (v / 0x1000)
  {
    assert v / 0x100 == v / 0x10 / 0x10 && v / 0x1000 == v / 0x100 / 0x10;
  }

  /**
   * The program keeps the BCD bit but writes a binary number, so the timer runs at the frequency
   * asked for exactly when it counts in binary, or the divisor is a single digit.
   */
  lemma RunsAtFrequency(before: Counter, after: Counter, freq: nat)
    requires 19 <= freq <= FREQUENCY && Programmed(before, after, freq)
    ensures Divisor(after) == Some(FREQUENCY / freq) <==> before.modeBits % 2 == 0 || freq >= 119319
  {
    var d := after.count;
    DivModUnique(FREQUENCY, freq, d, FREQUENCY - d * freq);
    DecimalAgrees(d);
    if freq >= 119319 && d >= 10 {
      MulMonotone(10, d, freq);
    }
    if freq <= 119318 && d <= 9 {
      MulMonotone(d + 1, 10, freq);
    }
  }

  /** In BCD mode a timer asked for 60 Hz does not run at 60 Hz. */
  lemma WrongInDecimal(before: Counter, after: Counter)
    requires before.modeBits == 7 && Programmed(before, after, 60)
    ensures Divisor(after) != Some(FREQUENCY / 60)
  {
    RunsAtFrequency(before, after, 60);
  }

  lemma DivisorFits(freq: nat)
    requires 19 <= freq <= FREQUENCY
    ensures ToU16(FREQUENCY / freq) == FREQUENCY / freq
  {
    GuardIsLeast(freq);
    ToU16Exact(FREQUENCY / freq);
  }

  lemma RegisterIsDivisor(before: Counter, after: Counter, freq: nat)
    requires 19 <= freq <= FREQUENCY
    requires after.count == ToU16(FREQUENCY / freq) && after.modeBits == before.modeBits && after.access == 3 && !after.expectHigh
    ensures Programmed(before, after, freq)
  {
    GuardIsLeast(freq);
  }

  /**
   * Sets a timer's frequency. It refuses exactly the frequencies whose divisor would not fit,
   * then leaving the chip alone; otherwise it programs that timer and touches no other. The
   * timer then runs at that frequency exactly when it is in binary mode or the divisor is one digit.
   */
  method TimerSetFrequency(chip: Chip, timer: U8, freq: U32, pins: nat) returns (ok: bool)
    requires chip.Valid() && pins < 4
    modifies chip
    ensures chip.Valid()
    ensures ok <==> timer <= 2 && 19 <= freq <= 1193182
    ensures !ok ==> chip.counters == old(chip.counters)
    ensures ok ==> chip.counters == old(chip.counters)[timer := old(chip.counters)[timer].(
                     access := 3, count := chip.counters[timer].count, low := chip.counters[timer].count % 0x100,
                     expectHigh := false, latched := false)]
    ensures ok ==> chip.counters[timer].count == 1193182 / freq
    ensures ok ==> Programmed(old(chip.counters)[timer], chip.counters[timer], freq)
    ensures ok ==> (Divisor(chip.counters[timer]) == Some(1193182 / freq) <==>
                    old(chip.counters)[timer].modeBits % 2 == 0 || freq >= 119319)
  {
    if freq > FREQUENCY || freq < 19 || timer > 2 {
      return false;
    }
    var got, status := TimerGetConf(chip, timer, pins);
    if !got {
      return false;
    }
    var divisor := ToU16(FREQUENCY / freq);
    DivisorFits(freq);
    WriteControl(chip, timer, status);
    WriteCount(chip, timer, divisor);
    RegisterIsDivisor(old(chip.counters)[timer], chip.counters[timer], freq);
    RunsAtFrequency(old(chip.counters)[timer], chip.counters[timer], freq);
    return true;
  }
}
