/**
 * Random bits from the analog pins, debiased by von Neumann's method: two
 * readings of one pin give one candidate bit each (the low bit of the
 * reading); 0,1 yields 1, 1,0 yields 0, and an equal pair is thrown away and
 * the next pin is tried, until a read budget is spent. Bits are assembled
 * most significant first into an `uint32_t`.
 *
 * `analogRead` is an oracle: `adc(k, pin)` is the k-th conversion this
 * generator makes, taken on `pin`.
 */
module AnalogRandom {
  import opened Common

  /** The default read budget of `randomBit`, `randomByte` and `random32`. */
  const DefaultReadLimit: i16 := 100

  /** The analog pins (`kAnalogPinTable`: A0..A2 and up to A14 more) and the converter. */
  datatype Hardware = Hardware(pins: seq<int>, adc: (nat, int) -> int)

  predicate ValidHardware(hw: Hardware) {
    3 <= |hw.pins| <= 15
  }

  /** `analogRead(pin) & 1`; on two's complement `& 1` is the Euclidean remainder by 2. */
  function LowBit(reading: int): (b: int)
    ensures b == 0 || b == 1
  {
    reading % 2
  }

  /** A bit as `randomBit` returns it on success. */
  type Bit = b: int | b == 0 || b == 1

  /** The pin cursor after one attempt: the next pin, round-robin. */
  function NextPin(pin: nat, numPins: nat): (r: nat)
    requires pin < numPins
    ensures r < numPins
  {
    if pin + 1 == numPins then 0 else pin + 1
  }

  lemma ModBelow(x: int, n: int)
    requires 0 <= x < n
    ensures x % n == x
  {
  }

  lemma ModSelf(n: int)
    requires n > 0
    ensures n % n == 0
  {
  }

  /**
   * The outcome of one `randomBit`: the bit (or -1), how many attempts (pairs
   * of reads) it made, and where the pin cursor stands afterwards.
   */
  datatype BitDraw = BitDraw(bit: int, attempts: nat, pin: nat)

  /** The low bits of the two readings one attempt takes. */
  datatype Readings = Readings(bit0: int, bit1: int)

  /** One attempt's readings: conversions `read` and `read + 1`, both on the pin at cursor `pin`. */
  function ReadPair(hw: Hardware, pin: nat, read: nat): (r: Readings)
    requires ValidHardware(hw) && pin < |hw.pins|
    ensures (r.bit0 == 0 || r.bit0 == 1) && (r.bit1 == 0 || r.bit1 == 1)
  {
    var pinId := hw.pins[pin];
    Readings(LowBit(hw.adc(read, pinId)), LowBit(hw.adc(read + 1, pinId)))
  }

  /**
   * `readLimit -= 2` on the 16-bit `int` budget: below -32766 the
   * subtraction wraps round to 32766 or 32767.
   */
  function LimitAfterAttempt(limit: i16): i16
  {
    if limit - 2 < -0x8000 then limit - 2 + 0x1_0000 else limit - 2
  }

  /** How much budget is left to spend: it shrinks with every attempt that another follows. */
  function Budget(limit: i16): nat
  {
    if limit > 0 then limit else if limit - 2 < -0x8000 then limit + 0x1_0000 else 0
  }

  /**
   * `randomBit(limit)` with the pin cursor at `pin` and `read` conversions
   * already made: the do-while makes one attempt, and another while the
   * budget, less two per attempt, stays positive.
   */
  function DrawBit(hw: Hardware, pin: nat, read: nat, limit: i16): (d: BitDraw)
    requires ValidHardware(hw) && pin < |hw.pins|
    ensures d.pin < |hw.pins| && d.attempts >= 1
    decreases Budget(limit)
  {
    var pair := ReadPair(hw, pin, read);
    var next := NextPin(pin, |hw.pins|);
    var limit' := LimitAfterAttempt(limit);
    if pair.bit1 != pair.bit0 then BitDraw(pair.bit1, 1, next)
    else if limit' > 0 then
      var rest := DrawBit(hw, next, read + 2, limit');
      BitDraw(rest.bit, rest.attempts + 1, rest.pin)
    else BitDraw(-1, 1, next)
  }

  /** A draw yields a bit, 0 or 1, or the failure value -1. */
  lemma {:induction false} DrawBitValues(hw: Hardware, pin: nat, read: nat, limit: i16)
    requires ValidHardware(hw) && pin < |hw.pins|
    ensures var d := DrawBit(hw, pin, read, limit); d.bit == -1 || d.bit == 0 || d.bit == 1
    decreases Budget(limit)
  {
    var pair := ReadPair(hw, pin, read);
    if pair.bit1 == pair.bit0 && LimitAfterAttempt(limit) > 0 {
      DrawBitValues(hw, NextPin(pin, |hw.pins|), read + 2, LimitAfterAttempt(limit));
    }
  }

  /**
   * The most attempts one `randomBit(limit)` makes: `ceil(limit / 2)` for a
   * budget above 2, one for the others, except -32768 and -32767, whose first
   * decrement wraps round to 32766 and 32767 and buys 16383 or 16384
   * attempts more.
   */
  function MaxAttempts(limit: i16): (r: nat)
    ensures r >= 1
  {
    if limit - 2 < -0x8000 then 1 + (limit + 0xffff) / 2
    else if limit <= 2 then 1 else (limit + 1) / 2
  }

  /** The pin cursor after `k` attempts from `pin`, one step of `NextPin` each. */
  function PinAfter(pin: nat, k: nat, numPins: nat): (r: nat)
    requires pin < numPins
    ensures r < numPins
  {
    if k == 0 then pin else NextPin(PinAfter(pin, k - 1, numPins), numPins)
  }

  /** Stepping the cursor `k` times is adding `k` modulo the number of pins. */
  lemma {:induction false} PinAfterIsModulo(pin: nat, k: nat, numPins: nat)
    requires pin < numPins
    ensures PinAfter(pin, k, numPins) == (pin + k) % numPins
  {
    if k == 0 {
      ModBelow(pin, numPins);
    } else {
      PinAfterIsModulo(pin, k - 1, numPins);
      ModNext(pin + k - 1, numPins);
    }
  }

  lemma {:induction false} PinAfterFirst(pin: nat, k: nat, numPins: nat)
    requires pin < numPins
    ensures PinAfter(NextPin(pin, numPins), k, numPins) == PinAfter(pin, k + 1, numPins)
  {
    if k > 0 {
      PinAfterFirst(pin, k - 1, numPins);
    }
  }

  /** The two low bits read in attempt `j` of a draw that starts at cursor `pin` after `read` conversions. */
  function PairAt(hw: Hardware, pin: nat, read: nat, j: nat): Readings
    requires ValidHardware(hw) && pin < |hw.pins|
  {
    ReadPair(hw, PinAfter(pin, j, |hw.pins|), read + 2 * j)
  }

  lemma PairAtNext(hw: Hardware, pin: nat, read: nat, j: nat)
    requires ValidHardware(hw) && pin < |hw.pins|
    ensures PairAt(hw, NextPin(pin, |hw.pins|), read + 2, j) == PairAt(hw, pin, read, j + 1)
  {
    PinAfterFirst(pin, j, |hw.pins|);
  }

  /**
   * How far `randomBit` goes: the cursor moves one pin per attempt, at most
   * `MaxAttempts(limit)` attempts are made, and -1 comes only after all of them.
   */
  lemma {:induction false} DrawBitAttempts(hw: Hardware, pin: nat, read: nat, limit: i16)
    requires ValidHardware(hw) && pin < |hw.pins|
    ensures var d := DrawBit(hw, pin, read, limit);
      d.pin == PinAfter(pin, d.attempts, |hw.pins|) &&
      d.attempts <= MaxAttempts(limit) &&
      (d.bit == -1 ==> d.attempts == MaxAttempts(limit))
    decreases Budget(limit)
  {
    var first := PairAt(hw, pin, read, 0);
    if first.bit0 == first.bit1 && LimitAfterAttempt(limit) > 0 {
      var next := NextPin(pin, |hw.pins|);
      var rest := DrawBit(hw, next, read + 2, LimitAfterAttempt(limit));
      DrawBitAttempts(hw, next, read + 2, LimitAfterAttempt(limit));
      PinAfterFirst(pin, rest.attempts, |hw.pins|);
    }
  }

  /**
   * What the 16-bit wrap changes: a budget of 2 or less, down to -32766,
   * allows a single attempt, while -32768 and -32767 wrap round and keep
   * drawing after an equal pair.
   */
  lemma DrawBitWrappedBudget(hw: Hardware, pin: nat, read: nat, limit: i16)
    requires ValidHardware(hw) && pin < |hw.pins| && limit <= 2
    ensures var d := DrawBit(hw, pin, read, limit);
      var first := PairAt(hw, pin, read, 0);
      (-0x7ffe <= limit ==> d.attempts == 1) &&
      (limit < -0x7ffe && first.bit0 == first.bit1 ==> d.attempts >= 2)
  {
  }

  /** How an attempt with readings `last` ends a draw with result `bit`. */
  predicate EndsWith(bit: int, last: Readings) {
    if bit == -1 then last.bit0 == last.bit1 else last.bit0 != last.bit1 && bit == last.bit1
  }

  /**
   * Why `randomBit` stops where it does: a bit is returned only when the last
   * attempt's two readings differ, and it is the second reading; -1 only
   * when they were equal too.
   */
  lemma {:induction false} DrawBitLastPair(hw: Hardware, pin: nat, read: nat, limit: i16)
    requires ValidHardware(hw) && pin < |hw.pins|
    ensures var d := DrawBit(hw, pin, read, limit);
      EndsWith(d.bit, PairAt(hw, pin, read, d.attempts - 1))
    decreases Budget(limit)
  {
    var d := DrawBit(hw, pin, read, limit);
    var first := ReadPair(hw, pin, read);
    if first.bit0 == first.bit1 && LimitAfterAttempt(limit) > 0 {
      var next := NextPin(pin, |hw.pins|);
      var rest := DrawBit(hw, next, read + 2, LimitAfterAttempt(limit));
      DrawBitLastPair(hw, next, read + 2, LimitAfterAttempt(limit));
      PairAtNext(hw, pin, read, rest.attempts - 1);
    } else {
      assert PairAt(hw, pin, read, 0) == first;
    }
  }

  /** Every attempt of `randomBit` before the last one read two equal bits. */
  lemma {:induction false} DrawBitEarlierPairs(hw: Hardware, pin: nat, read: nat, limit: i16)
    requires ValidHardware(hw) && pin < |hw.pins|
    ensures var d := DrawBit(hw, pin, read, limit);
      forall j :: 0 <= j < d.attempts - 1 ==> PairAt(hw, pin, read, j).bit0 == PairAt(hw, pin, read, j).bit1
    decreases Budget(limit)
  {
    var d := DrawBit(hw, pin, read, limit);
    var first := PairAt(hw, pin, read, 0);
    if first.bit0 == first.bit1 && LimitAfterAttempt(limit) > 0 {
      var next := NextPin(pin, |hw.pins|);
      var rest := DrawBit(hw, next, read + 2, LimitAfterAttempt(limit));
      DrawBitEarlierPairs(hw, next, read + 2, LimitAfterAttempt(limit));
      assert d.attempts == rest.attempts + 1;
      forall j | 0 <= j < d.attempts - 1
        ensures PairAt(hw, pin, read, j).bit0 == PairAt(hw, pin, read, j).bit1
      {
        if j > 0 {
          PairAtNext(hw, pin, read, j - 1);
        }
      }
    }
  }

  /** One attempt of `randomBit`, seen against the draw `all` it is part of. */
  lemma AttemptStep(hw: Hardware, pin: nat, read: nat, limit: i16, attempts: nat, all: BitDraw,
                    bit0: int, bit1: int, pin': nat, read': nat, limit': i16)
    requires ValidHardware(hw) && pin < |hw.pins|
    requires var rest := DrawBit(hw, pin, read, limit);
      all == BitDraw(rest.bit, rest.attempts + attempts, rest.pin)
    requires Readings(bit0, bit1) == ReadPair(hw, pin, read)
    requires pin' == NextPin(pin, |hw.pins|) && read' == read + 2 && limit' == LimitAfterAttempt(limit)
    ensures bit1 != bit0 ==> all == BitDraw(bit1, attempts + 1, pin')
    ensures bit1 == bit0 && limit' <= 0 ==> all == BitDraw(-1, attempts + 1, pin')
    ensures bit1 == bit0 && limit' > 0 ==>
      var rest := DrawBit(hw, pin', read', limit');
      all == BitDraw(rest.bit, rest.attempts + (attempts + 1), rest.pin)
  {
  }

  /**
   * The outcome of `randomBits`: the bits drawn (up to the failure, if one
   * failed), whether one failed, the attempts made and the final pin cursor.
   */
  datatype BitsDraw = BitsDraw(bits: seq<Bit>, failed: bool, attempts: nat, pin: nat)

  /**
   * Successive `randomBit(readLimit)` calls after `drawn` was drawn in
   * `attempts` attempts, until `count` bits are drawn or one fails.
   */
  function DrawBitsFrom(hw: Hardware, pin: nat, read: nat, readLimit: i16, count: nat,
                        drawn: seq<Bit>, attempts: nat): (d: BitsDraw)
    requires ValidHardware(hw) && pin < |hw.pins| && |drawn| <= count
    ensures d.pin < |hw.pins|
    ensures !d.failed ==> |d.bits| == count
    decreases count - |drawn|, read  // `read` only keeps calls with constant arguments from being unrolled
  {
    if |drawn| == count then BitsDraw(drawn, false, attempts, pin)
    else
      var b := DrawBit(hw, pin, read, readLimit);
      DrawBitValues(hw, pin, read, readLimit);
      if b.bit < 0 then BitsDraw(drawn, true, attempts + b.attempts, b.pin)
      else DrawBitsFrom(hw, b.pin, read + 2 * b.attempts, readLimit, count,
                        drawn + [b.bit], attempts + b.attempts)
  }

  /** `randomBits(count, readLimit)` from cursor `pin` after `read` conversions. */
  function DrawBits(hw: Hardware, pin: nat, read: nat, readLimit: i16, count: nat): (d: BitsDraw)
    requires ValidHardware(hw) && pin < |hw.pins|
    ensures d.pin < |hw.pins|
    ensures !d.failed ==> |d.bits| == count
  {
    DrawBitsFrom(hw, pin, read, readLimit, count, [], 0)
  }

  /** Shifting in one more bit extends the packed value by that bit. */
  lemma PackBitsSnoc(bits: seq<Bit>, bit: Bit)
    ensures PackBits(bits + [bit]) == ShiftIn(PackBits(bits), bit)
  {
    assert (bits + [bit])[..|bits|] == bits;
  }

  /**
   * One `randomBit` inside `randomBits`, stated over the cursor `pin'` and
   * conversion count `read'` it leaves behind: it fails the whole draw, or
   * adds its bit to those drawn.
   */
  lemma DrawBitsStep(hw: Hardware, pin: nat, read: nat, readLimit: i16, count: nat,
                     drawn: seq<Bit>, attempts: nat, bit: int, more: nat, pin': nat, read': nat)
    requires ValidHardware(hw) && pin < |hw.pins| && |drawn| < count
    requires var b := DrawBit(hw, pin, read, readLimit);
      bit == b.bit && more == b.attempts && pin' == b.pin && read' == read + 2 * more
    ensures bit < 0 ==>
      DrawBitsFrom(hw, pin, read, readLimit, count, drawn, attempts) == BitsDraw(drawn, true, attempts + more, pin')
    ensures bit >= 0 ==>
      (bit == 0 || bit == 1) &&
      DrawBitsFrom(hw, pin, read, readLimit, count, drawn, attempts) ==
      DrawBitsFrom(hw, pin', read', readLimit, count, drawn + [bit], attempts + more)
  {
    DrawBitValues(hw, pin, read, readLimit);
  }

  /** `(acc << 1) | bit` on an `uint32_t`: the top bit falls off, the bit enters at the bottom. */
  function ShiftIn(acc: u32, bit: Bit): u32
  {
    if acc < TwoTo31 then acc * 2 + bit else acc * 2 - TwoTo32 + bit
  }

  /** The shift drops the top bit: modulo 2^32. */
  lemma ShiftInWraps(acc: u32, bit: Bit)
    ensures ShiftIn(acc, bit) == (acc * 2) % TwoTo32 + bit
  {
  }

  /** `result = (result << 1) | bit` over the bits in order. */
  function PackBits(bits: seq<Bit>): u32
  {
    if bits == [] then 0 else ShiftIn(PackBits(bits[..|bits| - 1]), bits[|bits| - 1])
  }

  /** Up to 32 bits never wrap: the packed value of `n` bits is below 2^n. */
  lemma {:induction false} PackBitsBound(bits: seq<Bit>)
    requires |bits| <= 32
    ensures PackBits(bits) < Pow2(|bits|)
  {
    if bits != [] {
      var front := bits[..|bits| - 1];
      PackBitsBound(front);
      Pow2Monotone(|front|, 31);
      Pow2Facts();
    }
  }

  /** Most significant first: the first bit drawn carries weight 2^(number of later bits). */
  lemma {:induction false} PackBitsFirst(bit: Bit, rest: seq<Bit>)
    requires |rest| < 32
    ensures PackBits([bit] + rest) == bit * Pow2(|rest|) + PackBits(rest)
  {
    if rest != [] {
      var front := rest[..|rest| - 1];
      var last := rest[|rest| - 1];
      assert rest == front + [last];
      assert [bit] + rest == ([bit] + front) + [last];
      PackBitsFirst(bit, front);
      PackBitsAppendNoWrap([bit] + front, last);
      PackBitsAppendNoWrap(front, last);
      if bit == 1 {
        assert Pow2(|rest|) == 2 * Pow2(|front|);
      }
    }
  }

  /** Below 32 bits, appending a bit doubles the packed value and adds the bit. */
  lemma PackBitsAppendNoWrap(bits: seq<Bit>, bit: Bit)
    requires |bits| < 32
    ensures PackBits(bits + [bit]) == 2 * PackBits(bits) + bit
  {
    PackBitsSnoc(bits, bit);
    PackBitsBound(bits);
    Pow2Monotone(|bits|, 31);
    Pow2Facts();
  }

  /** The low `n` bits of `x`, most significant first. */
  function UnpackBits(x: nat, n: nat): (bits: seq<Bit>)
    ensures |bits| == n
  {
    if n == 0 then [] else UnpackBits(x / 2, n - 1) + [x % 2]
  }

  /** Every value below 2^n is the packing of some `n` bits. */
  lemma {:induction false} PackUnpack(x: nat, n: nat)
    requires n <= 32 && x < Pow2(n)
    ensures PackBits(UnpackBits(x, n)) == x
  {
    if n > 0 {
      var bits := UnpackBits(x, n);
      assert bits[..n - 1] == UnpackBits(x / 2, n - 1);
      PackUnpack(x / 2, n - 1);
      Pow2Monotone(n - 1, 31);
      Pow2Facts();
    }
  }

  /** Packing loses nothing: unpacking gives the bits back. */
  lemma {:induction false} UnpackPack(bits: seq<Bit>)
    requires |bits| <= 32
    ensures UnpackBits(PackBits(bits), |bits|) == bits
  {
    if bits != [] {
      var front := bits[..|bits| - 1];
      var last := bits[|bits| - 1];
      UnpackPack(front);
      PackBitsBound(front);
      Pow2Monotone(|front|, 31);
      Pow2Facts();
      var packed := PackBits(bits);
      assert packed == 2 * PackBits(front) + last;
      assert packed / 2 == PackBits(front) && packed % 2 == last;
      assert bits == front + [last];
    }
  }

  /** Eight bits fill a byte exactly: `& 0xff` leaves their packing unchanged. */
  lemma ByteMask(bits: seq<Bit>)
    requires |bits| == 8
    ensures PackBits(bits) < 256 && PackBits(bits) % 256 == PackBits(bits)
  {
    PackBitsBound(bits);
    Pow2Facts();
  }

  class AnalogRandomClass {
    const hw: Hardware
    /** `next_pin_`: the pin to read next. */
    var nextPin: nat
    /** How many conversions this generator has made. */
    var conversions: nat
    /** The seed last passed to `randomSeed`, if any. */
    var arduinoSeed: Option<u32>

    predicate Valid()
      reads this
    {
      ValidHardware(hw) && nextPin < |hw.pins|
    }

    constructor (hardware: Hardware)
      requires ValidHardware(hardware)
      ensures Valid() && hw == hardware
      ensures nextPin == 0 && conversions == 0 && arduinoSeed == None
    {
      hw := hardware;
      nextPin := 0;
      conversions := 0;
      arduinoSeed := None;
    }

    /** `all` is `attempts` attempts already made, followed by the draw from the current state. */
    ghost predicate AttemptsTrack(all: BitDraw, attempts: nat, limit: i16)
      reads this
      requires Valid()
    {
      var rest := DrawBit(hw, nextPin, conversions, limit);
      all == BitDraw(rest.bit, rest.attempts + attempts, rest.pin)
    }

    /**
     * One attempt of `randomBit`: advance the pin cursor round-robin and read
     * the pin it stood on twice, keeping the low bit of each reading.
     */
    method Attempt() returns (bit0: int, bit1: int)
      requires Valid()
      modifies this
      ensures Valid() && arduinoSeed == old(arduinoSeed)
      ensures nextPin == NextPin(old(nextPin), |hw.pins|) && conversions == old(conversions) + 2
      ensures Readings(bit0, bit1) == ReadPair(hw, old(nextPin), old(conversions))
    {
      ModBelow(nextPin, |hw.pins|);
      ModSelf(|hw.pins|);
      var pinNum := nextPin % |hw.pins|;
      nextPin := nextPin + 1;
      if nextPin >= |hw.pins| {
        nextPin := nextPin % |hw.pins|;
      }
      var pinId := hw.pins[pinNum];
      bit0 := LowBit(hw.adc(conversions, pinId));
      conversions := conversions + 1;
      bit1 := LowBit(hw.adc(conversions, pinId));
      conversions := conversions + 1;
    }

    /** `randomBit`: one debiased bit, or -1 when the budget is spent. */
    method RandomBit(readLimit: i16) returns (bit: int)
      requires Valid()
      modifies this
      ensures Valid()
      ensures var d := DrawBit(hw, old(nextPin), old(conversions), readLimit);
        bit == d.bit && nextPin == d.pin && conversions == old(conversions) + 2 * d.attempts
      ensures arduinoSeed == old(arduinoSeed)
    {
      ghost var all := DrawBit(hw, nextPin, conversions, readLimit);
      var limit := readLimit;
      ghost var attempts: nat := 0;
      while true
        invariant Valid() && arduinoSeed == old(arduinoSeed)
        invariant conversions == old(conversions) + 2 * attempts
        invariant AttemptsTrack(all, attempts, limit)
        decreases Budget(limit)
      {
        ghost var pin := nextPin;
        ghost var read := conversions;
        var bit0, bit1 := Attempt();
        AttemptStep(hw, pin, read, limit, attempts, all, bit0, bit1, nextPin, conversions, LimitAfterAttempt(limit));
        attempts := attempts + 1;
        if bit1 != bit0 {
          return bit1;
        }
        limit := LimitAfterAttempt(limit);
        if limit <= 0 {
          break;
        }
      }
      return -1;
    }

    /** `all` is `drawn` (made in `attempts` attempts) followed by the draw of the rest of `count` bits from the current state. */
    ghost predicate Tracks(all: BitsDraw, drawn: seq<Bit>, attempts: nat, readLimit: i16, count: nat)
      reads this
      requires Valid()
    {
      |drawn| <= count && all == DrawBitsFrom(hw, nextPin, conversions, readLimit, count, drawn, attempts)
    }

    /**
     * One `randomBit` call of the `randomBits` loop: the draw fails here, or
     * `bit` joins the bits drawn.
     */
    method NextBit(readLimit: i16, ghost count: nat, ghost drawn: seq<Bit>, ghost attempts: nat,
                   ghost all: BitsDraw) returns (bit: int, ghost drawn': seq<Bit>, ghost attempts': nat)
      requires Valid() && |drawn| < count
      requires Tracks(all, drawn, attempts, readLimit, count)
      modifies this
      ensures Valid() && arduinoSeed == old(arduinoSeed)
      ensures conversions == old(conversions) + 2 * (attempts' - attempts)
      ensures bit < 0 ==> all == BitsDraw(drawn, true, attempts', nextPin)
      ensures bit >= 0 ==>
        (bit == 0 || bit == 1) && drawn' == drawn + [bit] &&
        Tracks(all, drawn', attempts', readLimit, count)
    {
      ghost var more := DrawBit(hw, nextPin, conversions, readLimit).attempts;
      bit := RandomBit(readLimit);
      attempts' := attempts + more;
      DrawBitsStep(hw, old(nextPin), old(conversions), readLimit, count, drawn, attempts,
                   bit, more, nextPin, conversions);
      drawn' := if bit >= 0 then drawn + [bit] else drawn;
    }

    /**
     * `randomBits`: `numBits` bits, most significant first; nothing when a
     * bit fails, so no partial value escapes.
     */
    method RandomBits(numBits: i16, perBitReadLimit: i16) returns (output: Option<u32>)
      requires Valid()
      modifies this
      ensures Valid()
      ensures var d := DrawBits(hw, old(nextPin), old(conversions), perBitReadLimit, if numBits > 0 then numBits else 0);
        nextPin == d.pin && conversions == old(conversions) + 2 * d.attempts &&
        output == if d.failed then None else Some(PackBits(d.bits))
      ensures arduinoSeed == old(arduinoSeed)
    {
      ghost var count: nat := if numBits > 0 then numBits else 0;
      ghost var all := DrawBits(hw, nextPin, conversions, perBitReadLimit, count);
      ghost var drawn: seq<Bit> := [];
      ghost var attempts: nat := 0;
      var result: u32 := 0;
      var i := 0;
      while i < numBits
        invariant Valid() && arduinoSeed == old(arduinoSeed)
        invariant 0 <= i <= count && |drawn| == i
        invariant conversions == old(conversions) + 2 * attempts
        invariant result == PackBits(drawn)
        invariant Tracks(all, drawn, attempts, perBitReadLimit, count)
      {
        ghost var before := drawn;
        var bit;
        bit, drawn, attempts := NextBit(perBitReadLimit, count, drawn, attempts, all);
        if bit < 0 {
          return None;
        }
        PackBitsSnoc(before, bit);
        result := ShiftIn(result, bit);
        i := i + 1;
      }
      output := Some(result);
    }

    /** `randomByte`: eight bits as a value in [0, 255], or -1. */
    method RandomByte(perBitReadLimit: i16) returns (r: int)
      requires Valid()
      modifies this
      ensures Valid()
      ensures var d := DrawBits(hw, old(nextPin), old(conversions), perBitReadLimit, 8);
        nextPin == d.pin && conversions == old(conversions) + 2 * d.attempts &&
        r == if d.failed then -1 else PackBits(d.bits)
      ensures -1 <= r < 256
      ensures arduinoSeed == old(arduinoSeed)
    {
      ghost var d := DrawBits(hw, nextPin, conversions, perBitReadLimit, 8);
      var result := RandomBits(8, perBitReadLimit);
      if result.Some? {
        ByteMask(d.bits);
        return result.value % 256;
      } else {
        return -1;
      }
    }

    /**
     * `random32`, as written: it draws eight bits, not the 32 its name and
     * its header promise, so its value never exceeds 255; 0 when a bit fails.
     */
    method Random32(perBitReadLimit: i16) returns (r: u32)
      requires Valid()
      modifies this
      ensures Valid()
      ensures var d := DrawBits(hw, old(nextPin), old(conversions), perBitReadLimit, 8);
        nextPin == d.pin && conversions == old(conversions) + 2 * d.attempts &&
        r == if d.failed then 0 else PackBits(d.bits)
      ensures r < 256
      ensures arduinoSeed == old(arduinoSeed)
    {
      ghost var d := DrawBits(hw, nextPin, conversions, perBitReadLimit, 8);
      var result := RandomBits(8, perBitReadLimit);
      if result.Some? {
        ByteMask(d.bits);
        return result.value % 256;
      } else {
        return 0;
      }
    }

    /**
     * `random32` as its header describes it: 32 bits, most significant
     * first; 0 when a bit fails.
     */
    method Random32Intended(perBitReadLimit: i16) returns (r: u32)
      requires Valid()
      modifies this
      ensures Valid()
      ensures var d := DrawBits(hw, old(nextPin), old(conversions), perBitReadLimit, 32);
        nextPin == d.pin && conversions == old(conversions) + 2 * d.attempts &&
        r == if d.failed then 0 else PackBits(d.bits)
      ensures arduinoSeed == old(arduinoSeed)
    {
      var result := RandomBits(32, perBitReadLimit);
      if result.Some? {
        return result.value;
      } else {
        return 0;
      }
    }

    /**
     * `seedArduinoRNG`: seed the Arduino generator with a `random32()` draw
     * when that is nonzero. A failed draw and a zero draw look the same, and
     * as `random32` is written the seed is below 256.
     */
    method SeedArduinoRng() returns (seeded: bool)
      requires Valid()
      modifies this
      ensures Valid()
      ensures var d := DrawBits(hw, old(nextPin), old(conversions), DefaultReadLimit, 8);
        var seed := if d.failed then 0 else PackBits(d.bits);
        nextPin == d.pin && conversions == old(conversions) + 2 * d.attempts &&
        seeded == (seed != 0) &&
        arduinoSeed == (if seeded then Some(seed) else old(arduinoSeed))
      ensures seeded ==> arduinoSeed.Some? && 0 < arduinoSeed.value < 256
    {
      var seed := Random32(DefaultReadLimit);
      if seed != 0 {
        arduinoSeed := Some(seed);
        return true;
      } else {
        return false;
      }
    }
  }
}
