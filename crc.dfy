/**
 * The CRC accumulator of the named record store: a table-driven CRC over the
 * reflected CRC-32 polynomial 0xEDB88320 (ISO 3309 / ITU-T V.42), processing
 * each byte as two 4-bit lookups. Unlike the textbook CRC-32, the accumulator
 * is complemented after every byte, not only at the end.
 */
module Crc32 {

  /** The reflected CRC-32 generator polynomial. */
  const Polynomial: bv32 := 0xEDB8_8320

  /**
   * kCrcTable, indexed by the low nibble of `x`: entry i is the CRC
   * remainder of the nibble i.
   */
  function Lookup(x: bv32): bv32 {
    var n := x & 0x0f;
    if n == 0x0 then 0x0000_0000 else if n == 0x1 then 0x1db7_1064
    else if n == 0x2 then 0x3b6e_20c8 else if n == 0x3 then 0x26d9_30ac
    else if n == 0x4 then 0x76dc_4190 else if n == 0x5 then 0x6b6b_51f4
    else if n == 0x6 then 0x4db2_6158 else if n == 0x7 then 0x5005_713c
    else if n == 0x8 then 0xedb8_8320 else if n == 0x9 then 0xf00f_9344
    else if n == 0xa then 0xd6d6_a3e8 else if n == 0xb then 0xcb61_b38c
    else if n == 0xc then 0x9b64_c2b0 else if n == 0xd then 0x86d3_d2d4
    else if n == 0xe then 0xa00a_e278 else 0xbdbd_f21c
  }

  /** A fresh accumulator holds `~0L`. */
  const InitialValue: bv32 := 0xFFFF_FFFF

  /** One table step: fold the nibble in the low four bits of `n` into the accumulator `c`. */
  function NibbleStep(c: bv32, n: bv32): bv32 {
    Lookup(c ^ n) ^ (c >> 4)
  }

  /** A byte promoted to the accumulator's width. */
  function Widen(v: bv8): (b: bv32)
    ensures b < 256
  {
    v as bv32
  }

  /**
   * `CRC::appendByte` on the promoted byte `b`: low-nibble step, high-nibble
   * step, then complement.
   */
  function ByteStep(c: bv32, b: bv32): bv32 {
    !NibbleStep(NibbleStep(c, b), b >> 4)
  }

  function AppendStep(c: bv32, v: bv8): bv32 {
    ByteStep(c, Widen(v))
  }

  /** The accumulator after appending `bytes`, in order, to an accumulator holding `c`. */
  function CrcFrom(c: bv32, bytes: seq<bv8>): bv32
    decreases |bytes|
  {
    if bytes == [] then c else CrcFrom(AppendStep(c, bytes[0]), bytes[1..])
  }

  /** The value of a fresh accumulator after appending `bytes`. */
  function CrcOf(bytes: seq<bv8>): bv32 {
    CrcFrom(InitialValue, bytes)
  }

  /** The streaming accumulator (`class CRC`). */
  class Crc {
    var value: bv32

    constructor ()
      ensures value == InitialValue
      ensures value == CrcOf([])
    {
      value := InitialValue;
    }

    method AppendByte(v: bv8)
      modifies this
      ensures value == AppendStep(old(value), v)
    {
      var b := Widen(v);
      value := NibbleStep(value, b);
      value := NibbleStep(value, b >> 4);
      value := !value;
    }
  }

  // ---------------------------------------------------------------------
  // What the accumulator computes.

  /** One round of the bit-serial reflected CRC: shift right, folding in the polynomial when bit 0 was set. */
  function BitRound(x: bv32): bv32 {
    if x & 1 == 1 then (x >> 1) ^ Polynomial else x >> 1
  }

  /** `n` bit-serial rounds. */
  function BitRounds(x: bv32, n: nat): bv32
    decreases n
  {
    if n == 0 then x else BitRounds(BitRound(x), n - 1)
  }

  function Round4(x: bv32): bv32 {
    BitRound(BitRound(BitRound(BitRound(x))))
  }

  lemma FourRounds(x: bv32)
    ensures BitRounds(x, 4) == Round4(x)
  {
    assert BitRounds(x, 4) == BitRounds(BitRound(x), 3);
    assert BitRounds(BitRound(x), 3) == BitRounds(BitRound(BitRound(x)), 2);
    assert BitRounds(BitRound(BitRound(x)), 2) == BitRounds(BitRound(BitRound(BitRound(x))), 1);
  }

  // The sixteen table entries, one low nibble at a time.
  lemma Nibble0(x: bv32) requires x & 0x0f == 0 ensures Round4(x) == Lookup(x) ^ (x >> 4) { assert Lookup(x) == 0x0000_0000; }
  lemma Nibble1(x: bv32) requires x & 0x0f == 1 ensures Round4(x) == Lookup(x) ^ (x >> 4) { assert Lookup(x) == 0x1db7_1064; }
  lemma Nibble2(x: bv32) requires x & 0x0f == 2 ensures Round4(x) == Lookup(x) ^ (x >> 4) { assert Lookup(x) == 0x3b6e_20c8; }
  lemma Nibble3(x: bv32) requires x & 0x0f == 3 ensures Round4(x) == Lookup(x) ^ (x >> 4) { assert Lookup(x) == 0x26d9_30ac; }
  lemma Nibble4(x: bv32) requires x & 0x0f == 4 ensures Round4(x) == Lookup(x) ^ (x >> 4) { assert Lookup(x) == 0x76dc_4190; }
  lemma Nibble5(x: bv32) requires x & 0x0f == 5 ensures Round4(x) == Lookup(x) ^ (x >> 4) { assert Lookup(x) == 0x6b6b_51f4; }
  lemma Nibble6(x: bv32) requires x & 0x0f == 6 ensures Round4(x) == Lookup(x) ^ (x >> 4) { assert Lookup(x) == 0x4db2_6158; }
  lemma Nibble7(x: bv32) requires x & 0x0f == 7 ensures Round4(x) == Lookup(x) ^ (x >> 4) { assert Lookup(x) == 0x5005_713c; }
  lemma Nibble8(x: bv32) requires x & 0x0f == 8 ensures Round4(x) == Lookup(x) ^ (x >> 4) { assert Lookup(x) == 0xedb8_8320; }
  lemma Nibble9(x: bv32) requires x & 0x0f == 9 ensures Round4(x) == Lookup(x) ^ (x >> 4) { assert Lookup(x) == 0xf00f_9344; }
  lemma NibbleA(x: bv32) requires x & 0x0f == 10 ensures Round4(x) == Lookup(x) ^ (x >> 4) { assert Lookup(x) == 0xd6d6_a3e8; }
  lemma NibbleB(x: bv32) requires x & 0x0f == 11 ensures Round4(x) == Lookup(x) ^ (x >> 4) { assert Lookup(x) == 0xcb61_b38c; }
  lemma NibbleC(x: bv32) requires x & 0x0f == 12 ensures Round4(x) == Lookup(x) ^ (x >> 4) { assert Lookup(x) == 0x9b64_c2b0; }
  lemma NibbleD(x: bv32) requires x & 0x0f == 13 ensures Round4(x) == Lookup(x) ^ (x >> 4) { assert Lookup(x) == 0x86d3_d2d4; }
  lemma NibbleE(x: bv32) requires x & 0x0f == 14 ensures Round4(x) == Lookup(x) ^ (x >> 4) { assert Lookup(x) == 0xa00a_e278; }
  lemma NibbleF(x: bv32) requires x & 0x0f == 15 ensures Round4(x) == Lookup(x) ^ (x >> 4) { assert Lookup(x) == 0xbdbd_f21c; }

  /**
   * Four bit-serial rounds equal one table step: the table entry of the low
   * nibble folded into the accumulator shifted right by four. In particular
   * every table entry is four rounds of the polynomial applied to its index.
   */
  lemma FourRoundsByTable(x: bv32)
    ensures BitRounds(x, 4) == Lookup(x) ^ (x >> 4)
  {
    FourRounds(x);
    var n := x & 0x0f;
    if n == 0 { Nibble0(x); } else if n == 1 { Nibble1(x); }
    else if n == 2 { Nibble2(x); } else if n == 3 { Nibble3(x); }
    else if n == 4 { Nibble4(x); } else if n == 5 { Nibble5(x); }
    else if n == 6 { Nibble6(x); } else if n == 7 { Nibble7(x); }
    else if n == 8 { Nibble8(x); } else if n == 9 { Nibble9(x); }
    else if n == 10 { NibbleA(x); } else if n == 11 { NibbleB(x); }
    else if n == 12 { NibbleC(x); } else if n == 13 { NibbleD(x); }
    else if n == 14 { NibbleE(x); } else if n == 15 { NibbleF(x); }
    else { assert false; }
  }

  lemma TableByRounds(x: bv32)
    ensures Lookup(x) == BitRounds(x, 4) ^ (x >> 4)
  {
    FourRoundsByTable(x);
    XorCancel(BitRounds(x, 4), x >> 4, 0);
  }

  lemma XorCancel(r: bv32, k: bv32, w: bv32)
    ensures r ^ (k ^ w) ^ k == r ^ w
  {
  }

  /** A nibble step is four rounds over the accumulator with the nibble folded in, up to the high bits. */
  lemma NibbleStepByRounds(c: bv32, n: bv32)
    ensures NibbleStep(c, n) == BitRounds(c ^ n, 4) ^ ((c ^ n) >> 4) ^ (c >> 4)
  {
    TableByRounds(c ^ n);
  }

  lemma LowNibbleAlgebra(r: bv32, c: bv32, b: bv32)
    ensures r ^ ((c ^ b) >> 4) ^ (c >> 4) == r ^ (b >> 4)
  {
  }

  /** The low-nibble step leaves four rounds of `c ^ b`, with the high nibble of `b` still to fold in. */
  lemma LowNibbleStep(c: bv32, b: bv32)
    ensures NibbleStep(c, b) == BitRounds(c ^ b, 4) ^ (b >> 4)
  {
    NibbleStepByRounds(c, b);
    LowNibbleAlgebra(BitRounds(c ^ b, 4), c, b);
  }

  lemma XorTwice(z: bv32, b: bv32)
    requires b < 256
    ensures (z ^ (b >> 4)) ^ (b >> 4) == z
    ensures (z ^ (b >> 4)) >> 4 == z >> 4
  {
  }

  /** The high-nibble step completes four more rounds. */
  lemma HighNibbleStep(z: bv32, b: bv32)
    requires b < 256
    ensures NibbleStep(z ^ (b >> 4), b >> 4) == BitRounds(z, 4)
  {
    XorTwice(z, b);
    FourRoundsByTable(z);
  }

  lemma {:induction false} RoundsAdd(x: bv32, m: nat, n: nat)
    ensures BitRounds(x, m + n) == BitRounds(BitRounds(x, m), n)
    decreases m
  {
    if m > 0 {
      RoundsAdd(BitRound(x), m - 1, n);
    }
  }

  lemma ByteRounds(c: bv32, b: bv32)
    requires b < 256
    ensures NibbleStep(NibbleStep(c, b), b >> 4) == BitRounds(c ^ b, 8)
  {
    LowNibbleStep(c, b);
    HighNibbleStep(BitRounds(c ^ b, 4), b);
    RoundsAdd(c ^ b, 4, 4);
  }

  /**
   * The byte step is the textbook byte-wise CRC-32 update (eight bit-serial
   * rounds over the accumulator with the byte folded in), complemented.
   */
  lemma AppendStepIsComplementedCrc32Round(c: bv32, v: bv8)
    ensures AppendStep(c, v) == !BitRounds(c ^ Widen(v), 8)
  {
    ByteRounds(c, Widen(v));
  }

  /**
   * The textbook CRC-32 of a byte string: start from all ones, run the byte
   * update over every byte, complement once at the end.
   */
  function TextbookRegister(c: bv32, bytes: seq<bv8>): bv32
    decreases |bytes|
  {
    if bytes == [] then c else TextbookRegister(BitRounds(c ^ Widen(bytes[0]), 8), bytes[1..])
  }

  function TextbookCrc32(bytes: seq<bv8>): bv32 {
    !TextbookRegister(0xFFFF_FFFF, bytes)
  }

  /** On a single byte the accumulator agrees with the textbook CRC-32 ... */
  lemma AgreesWithTextbookOnOneByte(v: bv8)
    ensures CrcOf([v]) == TextbookCrc32([v])
  {
    AppendStepIsComplementedCrc32Round(InitialValue, v);
    assert [v][1..] == [];
    assert CrcFrom(InitialValue, [v]) == CrcFrom(AppendStep(InitialValue, v), []);
    assert TextbookRegister(0xFFFF_FFFF, [v]) == BitRounds(InitialValue ^ Widen(v), 8);
  }

  /** ... but not on longer inputs, because it complements after every byte. */
  lemma DiffersFromTextbookOnTwoBytes()
    ensures CrcOf([0, 0]) != TextbookCrc32([0, 0])
  {
    var c1 := AppendStep(InitialValue, 0);
    AppendStepIsComplementedCrc32Round(InitialValue, 0);
    AppendStepIsComplementedCrc32Round(c1, 0);
    assert [0 as bv8, 0][1..] == [0];
    assert CrcOf([0, 0]) == AppendStep(c1, 0);
    var t1 := BitRounds(0xFFFF_FFFF, 8);
    assert TextbookCrc32([0, 0]) == !BitRounds(t1, 8);
    assert c1 == !t1;
    assert t1 == 0x2dfd_1072;
    assert BitRounds(t1, 8) != BitRounds(!t1, 8);
  }

  /**
   * Chunking does not matter: appending `a` then `b` gives what appending
   * `a + b` gives, so a CRC computed byte by byte from memory equals one
   * computed over a buffer holding the same bytes.
   */
  lemma {:induction false} CrcFromAppend(c: bv32, a: seq<bv8>, b: seq<bv8>)
    ensures CrcFrom(c, a + b) == CrcFrom(CrcFrom(c, a), b)
    decreases |a|
  {
    if a == [] {
      assert a + b == b;
    } else {
      assert (a + b)[0] == a[0];
      assert (a + b)[1..] == a[1..] + b;
      CrcFromAppend(AppendStep(c, a[0]), a[1..], b);
    }
  }

  /** Appending one byte at the end of the input is one more `appendByte`. */
  lemma CrcFromSnoc(c: bv32, a: seq<bv8>, v: bv8)
    ensures CrcFrom(c, a + [v]) == AppendStep(CrcFrom(c, a), v)
  {
    CrcFromAppend(c, a, [v]);
    assert [v][1..] == [];
  }

  // ---------------------------------------------------------------------
  // Error detection: a single changed byte always changes the CRC.

  /**
   * One bit-serial round loses nothing: the polynomial has its top bit set,
   * so whether it was folded in can be read off the result.
   */
  lemma BitRoundInjective(x: bv32, y: bv32)
    requires BitRound(x) == BitRound(y)
    ensures x == y
  {
  }

  lemma {:induction false} BitRoundsInjective(x: bv32, y: bv32, n: nat)
    requires BitRounds(x, n) == BitRounds(y, n)
    ensures x == y
    decreases n
  {
    if n > 0 {
      BitRoundsInjective(BitRound(x), BitRound(y), n - 1);
      BitRoundInjective(x, y);
    }
  }

  lemma ComplementedRoundsInjective(x: bv32, y: bv32)
    requires !BitRounds(x, 8) == !BitRounds(y, 8)
    ensures x == y
  {
    assert BitRounds(x, 8) == BitRounds(y, 8);
    BitRoundsInjective(x, y, 8);
  }

  lemma FoldInByteInjective(c: bv32, d: bv32, v: bv8, w: bv8)
    requires c ^ Widen(v) == d ^ Widen(w)
    ensures c == d <==> v == w
  {
  }

  /** Equal byte steps fold in equal values. */
  lemma AppendStepEqualMeansSameFold(c: bv32, d: bv32, v: bv8, w: bv8)
    requires AppendStep(c, v) == AppendStep(d, w)
    ensures c ^ Widen(v) == d ^ Widen(w)
  {
    AppendStepIsComplementedCrc32Round(c, v);
    AppendStepIsComplementedCrc32Round(d, w);
    ComplementedRoundsInjective(c ^ Widen(v), d ^ Widen(w));
  }

  /** `appendByte` into the same accumulator sends different bytes to different values. */
  lemma AppendStepInjectiveInByte(c: bv32, v: bv8, w: bv8)
    requires v != w
    ensures AppendStep(c, v) != AppendStep(c, w)
  {
    if AppendStep(c, v) == AppendStep(c, w) {
      AppendStepEqualMeansSameFold(c, c, v, w);
      FoldInByteInjective(c, c, v, w);
    }
  }

  /** `appendByte` of the same byte sends different accumulators to different values. */
  lemma AppendStepInjectiveInAccumulator(c: bv32, d: bv32, v: bv8)
    requires c != d
    ensures AppendStep(c, v) != AppendStep(d, v)
  {
    if AppendStep(c, v) == AppendStep(d, v) {
      AppendStepEqualMeansSameFold(c, d, v, v);
      FoldInByteInjective(c, d, v, v);
    }
  }

  /** Accumulators that differ keep differing over any further input. */
  lemma {:induction false} CrcFromInjective(c: bv32, d: bv32, bytes: seq<bv8>)
    requires c != d
    ensures CrcFrom(c, bytes) != CrcFrom(d, bytes)
    decreases |bytes|
  {
    if bytes != [] {
      AppendStepInjectiveInAccumulator(c, d, bytes[0]);
      CrcFromInjective(AppendStep(c, bytes[0]), AppendStep(d, bytes[0]), bytes[1..]);
    }
  }

  /** Replacing any one byte of the input by a different byte changes its CRC. */
  lemma CrcDetectsOneByteChange(p: seq<bv8>, i: nat, b: bv8)
    requires i < |p| && b != p[i]
    ensures CrcOf(p) != CrcOf(p[i := b])
  {
    var q := p[i := b];
    var tail := p[i + 1..];
    assert p == p[..i] + ([p[i]] + tail);
    assert q == p[..i] + ([b] + tail);
    CrcFromAppend(InitialValue, p[..i], [p[i]] + tail);
    CrcFromAppend(InitialValue, p[..i], [b] + tail);
    var a := CrcFrom(InitialValue, p[..i]);
    assert ([p[i]] + tail)[1..] == tail;
    assert ([b] + tail)[1..] == tail;
    AppendStepInjectiveInByte(a, p[i], b);
    CrcFromInjective(AppendStep(a, p[i]), AppendStep(a, b), tail);
  }
}
