/** The keyboard scancode assembler, which the program contains twice. */
module Scancodes {
  import opened Bits
  import opened Sequences

  const ESC: U8 := 0x81
  const TWO_BYTE: U8 := 0xE0

  /** A printed scancode: make or break, and its bytes. */
  datatype Code = Code(make: bool, bytes: seq<U8>)

  function Print(b: U8, prefixed: bool): seq<Code> {
    if b == TWO_BYTE then [] else [Code(!Bit(b, 7), if prefixed then [TWO_BYTE, b] else [b])]
  }

  /** The codes in a byte stream; `prefixed` says that a two-byte prefix has just been seen. */
  function Assemble(bytes: seq<U8>, prefixed: bool): seq<Code> {
    if bytes == [] then [] else Print(bytes[0], prefixed) + Assemble(bytes[1..], bytes[0] == TWO_BYTE)
  }

  /** The bytes up to and including the first ESC break code, if the run has not ended before it starts. */
  function Consumed(data: U8, bytes: seq<U8>): seq<U8>
    decreases bytes
  {
    if data == ESC || bytes == [] then [] else [bytes[0]] + Consumed(bytes[0], bytes[1..])
  }

  /** The stream without the prefixes that directly follow a prefix. */
  function Collapse(bytes: seq<U8>, prefixed: bool): seq<U8> {
    if bytes == [] then []
    else (if bytes[0] == TWO_BYTE && prefixed then [] else [bytes[0]]) + Collapse(bytes[1..], bytes[0] == TWO_BYTE)
  }

  function Flatten(codes: seq<Code>): seq<U8> {
    if codes == [] then [] else codes[0].bytes + Flatten(codes[1..])
  }

  /** A prefix that is still waiting for its second byte at the end of the stream. */
  function Waiting(bytes: seq<U8>, prefixed: bool): seq<U8> {
    if bytes == [] then (if prefixed then [TWO_BYTE] else []) else Waiting(bytes[1..], bytes[0] == TWO_BYTE)
  }

  lemma FlattenPrint(b: U8, prefixed: bool, codes: seq<Code>)
    ensures Flatten(Print(b, prefixed) + codes) == (if b == TWO_BYTE then [] else if prefixed then [TWO_BYTE, b] else [b]) + Flatten(codes)
  {
    if b == TWO_BYTE {
      assert Print(b, prefixed) + codes == codes;
    } else {
      assert (Print(b, prefixed) + codes)[1..] == codes;
    }
  }

  /** No byte is lost, invented or reordered: the codes spell the stream with its prefix runs collapsed. */
  lemma {:induction false} AssembleKeepsBytes(bytes: seq<U8>, prefixed: bool)
    ensures Flatten(Assemble(bytes, prefixed)) + Waiting(bytes, prefixed) == (if prefixed then [TWO_BYTE] else []) + Collapse(bytes, prefixed)
  {
    if bytes != [] {
      var b, rest := bytes[0], bytes[1..];
      var codes, wait, tail := Flatten(Assemble(rest, b == TWO_BYTE)), Waiting(rest, b == TWO_BYTE), Collapse(rest, b == TWO_BYTE);
      AssembleKeepsBytes(rest, b == TWO_BYTE);
      FlattenPrint(b, prefixed, Assemble(rest, b == TWO_BYTE));
      Regroup(b, prefixed, codes, wait, tail);
    }
  }

  lemma Regroup(b: U8, prefixed: bool, codes: seq<U8>, wait: seq<U8>, tail: seq<U8>)
    requires codes + wait == (if b == TWO_BYTE then [TWO_BYTE] else []) + tail
    ensures (if b == TWO_BYTE then [] else if prefixed then [TWO_BYTE, b] else [b]) + codes + wait
         == (if prefixed then [TWO_BYTE] else []) + ((if b == TWO_BYTE && prefixed then [] else [b]) + tail)
  {
    var head := if b == TWO_BYTE then [] else if prefixed then [TWO_BYTE, b] else [b];
    assert head + codes + wait == head + (codes + wait);
    if prefixed && b != TWO_BYTE {
      assert [TWO_BYTE, b] + tail == [TWO_BYTE] + ([b] + tail);
    }
  }

  /** A code is one byte, or a prefix and one byte; its last byte tells make from break. */
  predicate WellFormed(c: Code) {
    && 1 <= |c.bytes| <= 2
    && c.bytes[|c.bytes| - 1] != TWO_BYTE
    && (|c.bytes| == 2 ==> c.bytes[0] == TWO_BYTE)
    && c.make == !Bit(c.bytes[|c.bytes| - 1], 7)
  }

  lemma {:induction false} CodesWellFormed(bytes: seq<U8>, prefixed: bool)
    ensures forall i :: 0 <= i < |Assemble(bytes, prefixed)| ==> WellFormed(Assemble(bytes, prefixed)[i])
  {
    if bytes != [] {
      CodesWellFormed(bytes[1..], bytes[0] == TWO_BYTE);
    }
  }

  // ---- what keys send, and what is printed -----------------------------------------------------

  /** A key event as sent: the prefix byte some number of times, and the byte that ends the code. */
  datatype Key = Key(prefixes: nat, last: U8)

  function Prefixes(n: nat): seq<U8> { if n == 0 then [] else [0xE0] + Prefixes(n - 1) }

  function Spell(keys: seq<Key>): seq<U8> {
    if keys == [] then [] else Prefixes(keys[0].prefixes) + ([keys[0].last] + Spell(keys[1..]))
  }

  /** What should be printed: two bytes after any prefix, one otherwise; below 0x80 it is a make code. */
  function Printout(keys: seq<Key>): seq<Code> {
    if keys == [] then []
    else [Code(keys[0].last < 0x80, if keys[0].prefixes > 0 then [0xE0, keys[0].last] else [keys[0].last])] + Printout(keys[1..])
  }

  lemma {:induction false} AssemblePrefixes(n: nat, rest: seq<U8>, prefixed: bool)
    ensures Assemble(Prefixes(n) + rest, prefixed) == Assemble(rest, prefixed || n > 0)
  {
    if n == 0 {
      assert Prefixes(n) + rest == rest;
    } else {
      assert (Prefixes(n) + rest)[1..] == Prefixes(n - 1) + rest;
      AssemblePrefixes(n - 1, rest, true);
    }
  }

  /** Whatever keys are sent, exactly their codes are printed; prefixes at the end are still waiting. */
  lemma {:induction false} KeysRoundTrip(keys: seq<Key>, waiting: nat)
    requires forall i :: 0 <= i < |keys| ==> keys[i].last != 0xE0
    ensures Assemble(Spell(keys) + Prefixes(waiting), false) == Printout(keys)
  {
    if keys == [] {
      assert Spell(keys) + Prefixes(waiting) == Prefixes(waiting) + [];
      AssemblePrefixes(waiting, [], false);
    } else {
      var key, rest := keys[0], Spell(keys[1..]);
      KeysRoundTrip(keys[1..], waiting);
      OneKey(key, rest + Prefixes(waiting));
      Reassociate(Prefixes(key.prefixes), [key.last] + rest, Prefixes(waiting));
      Reassociate([key.last], rest, Prefixes(waiting));
    }
  }

  lemma OneKey(key: Key, rest: seq<U8>)
    requires key.last != 0xE0
    ensures Assemble(Prefixes(key.prefixes) + ([key.last] + rest), false)
         == [Code(key.last < 0x80, if key.prefixes > 0 then [0xE0, key.last] else [key.last])] + Assemble(rest, false)
  {
    AssemblePrefixes(key.prefixes, [key.last] + rest, false);
    assert ([key.last] + rest)[1..] == rest;
    MakeInNumbers(key.last);
  }

  lemma MakeInNumbers(b: U8)
    ensures !Bit(b, 7) <==> b < 0x80
  {
    assert Pow2(7) == 0x80;
    BitIsDiv(b, 7);
  }

  /** Every byte stream is sent by some keys, followed by some prefixes. */
  lemma {:induction false} EveryStreamIsKeys(bytes: seq<U8>) returns (keys: seq<Key>, waiting: nat)
    ensures bytes == Spell(keys) + Prefixes(waiting)
    ensures forall i :: 0 <= i < |keys| ==> keys[i].last != 0xE0
  {
    if bytes == [] {
      keys, waiting := [], 0;
    } else {
      keys, waiting := EveryStreamIsKeys(bytes[1..]);
      assert bytes == [bytes[0]] + bytes[1..];
      if bytes[0] != 0xE0 {
        keys := [Key(0, bytes[0])] + keys;
      } else if keys == [] {
        waiting := waiting + 1;
      } else {
        keys := [Key(keys[0].prefixes + 1, keys[0].last)] + keys[1..];
      }
    }
  }

  /** The bytes consumed are the input up to the first ESC break code. */
  lemma {:induction false} ConsumedMeans(data: U8, input: seq<U8>, n: nat)
    requires n <= |input| && input[..n] == Consumed(data, input)
    ensures data == 0x81 ==> n == 0
    ensures forall k :: 0 <= k < n - 1 ==> input[k] != 0x81
    ensures data == 0x81 || n == |input| || (n > 0 && input[n - 1] == 0x81)
    decreases n
  {
    if n > 0 {
      assert input[..n] == [input[0]] + input[1..][..n - 1];
      ConsumedMeans(input[0], input[1..], n - 1);
      forall k | 0 <= k < n - 1
        ensures input[k] != 0x81
      {
        if k > 0 {
          assert input[1..][k - 1] != 0x81;
        }
      }
    }
  }

  /** What is left to print before and after one more byte. */
  lemma OneByte(data: U8, input: seq<U8>, n: nat, prefixed: bool)
    requires n < |input| && data != ESC
    ensures Consumed(data, input[n..]) == [input[n]] + Consumed(input[n], input[n + 1..])
    ensures Assemble(Consumed(data, input[n..]), prefixed)
         == Print(input[n], prefixed) + Assemble(Consumed(input[n], input[n + 1..]), input[n] == TWO_BYTE)
  {
    assert input[n..][1..] == input[n + 1..];
    assert ([input[n]] + Consumed(input[n], input[n + 1..]))[1..] == Consumed(input[n], input[n + 1..]);
  }

  /** The loop state: the codes printed so far and those still to come make up the whole. */
  ghost predicate InStep(data0: U8, input: seq<U8>, n: nat, data: U8, prefixed: bool, printed: seq<Code>) {
    && n <= |input|
    && Consumed(data0, input) == input[..n] + Consumed(data, input[n..])
    && Assemble(Consumed(data0, input), false) == printed + Assemble(Consumed(data, input[n..]), prefixed)
  }

  lemma NextByte(data0: U8, input: seq<U8>, n: nat, data: U8, prefixed: bool, printed: seq<Code>)
    requires n < |input| && data != ESC && InStep(data0, input, n, data, prefixed, printed)
    ensures InStep(data0, input, n + 1, input[n], input[n] == TWO_BYTE, printed + Print(input[n], prefixed))
  {
    OneByte(data, input, n, prefixed);
    var rest := Consumed(input[n], input[n + 1..]);
    Reassociate(input[..n], [input[n]], rest);
    assert input[..n + 1] == input[..n] + [input[n]];
    Reassociate(printed, Print(input[n], prefixed), Assemble(rest, input[n] == TWO_BYTE));
  }

  lemma FirstHead(data0: U8, input: seq<U8>)
    ensures InStep(data0, input, 0, data0, false, [])
  {
    assert input[0..] == input && input[..0] == [];
  }

  lemma LastHead(data0: U8, input: seq<U8>, n: nat, data: U8, prefixed: bool, printed: seq<Code>)
    requires InStep(data0, input, n, data, prefixed, printed) && (data == ESC || n == |input|)
    ensures input[..n] == Consumed(data0, input) && printed == Assemble(Consumed(data0, input), false)
  {
    assert Consumed(data, input[n..]) == [];
  }

  /** The assembler's step: a prefix is remembered, any other byte completes a scancode. */
  method OnByte(data: U8, isTwoBytes0: bool, temp0: U8, printed0: seq<Code>) returns (printed: seq<Code>, isTwoBytes: bool, temp: U8)
    requires isTwoBytes0 ==> temp0 == TWO_BYTE
    ensures printed == printed0 + Print(data, isTwoBytes0)
    ensures isTwoBytes == (data == TWO_BYTE) && (isTwoBytes ==> temp == TWO_BYTE)
  {
    printed, isTwoBytes, temp := printed0, isTwoBytes0, temp0;
    if data == TWO_BYTE {
      isTwoBytes := true;
      temp := data;
    } else if isTwoBytes {
      isTwoBytes := false;
      printed := printed + [Code(!Bit(data, 7), [temp, data])];
    } else {
      printed := printed + [Code(!Bit(data, 7), [data])];
    }
  }

  /** The same in the polling loop, which writes the prefix out instead of remembering it. */
  method OnPolledByte(data: U8, isTwoBytes0: bool, printed0: seq<Code>) returns (printed: seq<Code>, isTwoBytes: bool)
    ensures printed == printed0 + Print(data, isTwoBytes0) && isTwoBytes == (data == TWO_BYTE)
  {
    printed, isTwoBytes := printed0, isTwoBytes0;
    if data == TWO_BYTE {
      isTwoBytes := true;
      return;
    }
    if isTwoBytes {
      isTwoBytes := false;
      printed := printed + [Code(!Bit(data, 7), [TWO_BYTE, data])];
    } else {
      printed := printed + [Code(!Bit(data, 7), [data])];
    }
  }

  /** The interrupt-driven assembler, over the bytes its handler leaves in `data`. */
  method TestScan(data0: U8, input: seq<U8>) returns (printed: seq<Code>, consumed: nat)
    ensures consumed <= |input| && printed == Assemble(input[..consumed], false)
    ensures data0 == 0x81 ==> consumed == 0
    ensures forall k :: 0 <= k < consumed - 1 ==> input[k] != 0x81
    ensures data0 == 0x81 || consumed == |input| || (consumed > 0 && input[consumed - 1] == 0x81)
  {
    var data, isTwoBytes, temp := data0, false, 0;
    printed, consumed := [], 0;
    FirstHead(data0, input);
    while data != ESC && consumed < |input|
      invariant InStep(data0, input, consumed, data, isTwoBytes, printed)
      invariant isTwoBytes ==> temp == TWO_BYTE
      decreases |input| - consumed
    {
      NextByte(data0, input, consumed, data, isTwoBytes, printed);
      data := input[consumed];
      consumed := consumed + 1;
      printed, isTwoBytes, temp := OnByte(data, isTwoBytes, temp, printed);
    }
    LastHead(data0, input, consumed, data, isTwoBytes, printed);
    ConsumedMeans(data0, input, consumed);
  }

  /** The polling assembler, over the bytes that polling reads: it prints the same codes. */
  method TestPoll(data0: U8, input: seq<U8>) returns (printed: seq<Code>, consumed: nat)
    ensures consumed <= |input| && printed == Assemble(input[..consumed], false)
    ensures data0 == 0x81 ==> consumed == 0
    ensures forall k :: 0 <= k < consumed - 1 ==> input[k] != 0x81
    ensures data0 == 0x81 || consumed == |input| || (consumed > 0 && input[consumed - 1] == 0x81)
  {
    var data, isTwoBytes := data0, false;
    printed, consumed := [], 0;
    FirstHead(data0, input);
    while data != ESC && consumed < |input|
      invariant InStep(data0, input, consumed, data, isTwoBytes, printed)
      decreases |input| - consumed
    {
      NextByte(data0, input, consumed, data, isTwoBytes, printed);
      data := input[consumed];
      consumed := consumed + 1;
      printed, isTwoBytes := OnPolledByte(data, isTwoBytes, printed);
    }
    LastHead(data0, input, consumed, data, isTwoBytes, printed);
    ConsumedMeans(data0, input, consumed);
  }
}
