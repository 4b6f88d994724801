/**
 * `JitterRandom::random32` and the watchdog interrupt that feeds it
 * (utilities/jitter_random.cpp). The interrupt reads the two bytes of Timer 1
 * and shifts the low byte into `rand`; `random32` restarts `rand` and waits
 * until 32 interrupts have fired. Each interrupt is modelled as one call of
 * `Isr`, and the busy-wait as a loop that lets the next interrupt fire.
 * The `uint32_t` `rand` is an integer in [0, 2^32).
 */
module JitterRandom {
  import opened Common
  import opened JitterHashes

  /** Capacity of `TCNT1L_values` and `TCNT1H_values`. */
  const NumValues := 64

  /** The value `random32` gives `nrot`: the number of interrupts it waits for. */
  const RotationsPerValue := 32

  /** What one interrupt reads from Timer 1: `TCNT1L` and `TCNT1H`. */
  datatype TimerSample = TimerSample(low: Byte, high: Byte)

  /** `nrot--` on an `int8_t`. */
  function DecrementInt8(n: int): (r: int)
    requires -128 <= n < 128
    ensures -128 <= r < 128
    ensures n > -128 ==> r == n - 1
  {
    if n == -128 then 127 else n - 1
  }

  /**
   * `rand <<= 8; rand ^= lvalue;` on a `uint32_t`: the shift drops the top
   * byte and clears the low one, which the XOR then fills with `lvalue`.
   */
  function ShiftInByte(rand: u32, b: Byte): (r: u32)
  {
    (rand % 0x100_0000) * 256 + b
  }

  /** `rand` after the interrupt has shifted in the bytes `s`, starting from 0. */
  function RandAfter(s: seq<Byte>): (r: u32)
  {
    if s == [] then 0 else ShiftInByte(RandAfter(s[..|s| - 1]), s[|s| - 1])
  }

  /** Four bytes read as a big-endian 32-bit number. */
  function BigEndian(a: Byte, b: Byte, c: Byte, d: Byte): int
  {
    a * 0x100_0000 + b * 0x1_0000 + c * 0x100 + d
  }

  /** Shifting a byte in, then keeping the low `256 * m` values, only looks at `y % m`. */
  lemma ShiftInLow(y: int, a: Byte, m: int)
    requires m > 0 && y >= 0
    ensures (y * 256 + a) % (m * 256) == (y % m) * 256 + a
  {
    var q := y / m;
    assert y == q * m + y % m;
    assert y * 256 + a == q * (m * 256) + ((y % m) * 256 + a);
    ModUnique(y * 256 + a, m * 256, q, (y % m) * 256 + a);
  }

  /** After a byte is shifted in, each low window of the word is the next lower window of the old word followed by that byte. */
  lemma ShiftInWindows(r: u32, b: Byte)
    ensures ShiftInByte(r, b) % 0x100_0000 == (r % 0x1_0000) * 256 + b
    ensures ShiftInByte(r, b) % 0x1_0000 == (r % 0x100) * 256 + b
    ensures ShiftInByte(r, b) % 0x100 == b
  {
    var y := r % 0x100_0000;
    ShiftInLow(y, b, 0x1_0000);
    ShiftInLow(y, b, 0x100);
    ShiftInLow(y, b, 1);
    ModOfMod(r, 0x1_0000, 0x100);
    ModOfMod(r, 0x100, 0x1_0000);
  }

  /** Four shifts push every earlier bit out of the word. */
  lemma FourShiftsForget(x: u32, a: Byte, b: Byte, c: Byte, d: Byte)
    ensures ShiftInByte(ShiftInByte(ShiftInByte(ShiftInByte(x, a), b), c), d) == BigEndian(a, b, c, d)
  {
    var x1 := ShiftInByte(x, a);
    var x2 := ShiftInByte(x1, b);
    ShiftInWindows(x, a);
    ShiftInWindows(x1, b);
    ShiftInWindows(x2, c);
  }

  /** Once four bytes have gone in, `rand` is exactly the last four, big-endian. */
  lemma RandAfterKeepsLastFour(s: seq<Byte>)
    requires |s| >= 4
    ensures RandAfter(s) == BigEndian(s[|s| - 4], s[|s| - 3], s[|s| - 2], s[|s| - 1])
  {
    var n := |s|;
    assert s[..n - 1][..n - 2] == s[..n - 2];
    assert s[..n - 2][..n - 3] == s[..n - 3];
    assert s[..n - 3][..n - 4] == s[..n - 4];
    FourShiftsForget(RandAfter(s[..n - 4]), s[n - 4], s[n - 3], s[n - 2], s[n - 1]);
  }

  /** The low byte of `rand` is always the byte shifted in last. */
  lemma RandAfterEndsWithLastByte(s: seq<Byte>)
    requires |s| >= 1
    ensures RandAfter(s) % 256 == s[|s| - 1]
  {
    ShiftInWindows(RandAfter(s[..|s| - 1]), s[|s| - 1]);
  }

  /** The low bytes of the `count` samples read from the `from`-th interrupt on. */
  function LowBytes(timer: nat -> TimerSample, from: nat, count: nat): (s: seq<Byte>)
    ensures |s| == count
    ensures forall i :: 0 <= i < count ==> s[i] == timer(from + i).low
  {
    seq<Byte>(count, i requires 0 <= i < count => timer(from + i).low)
  }

  /**
   * The file-scope state shared by the interrupt and `random32`. `timer(k)` is
   * what Timer 1 holds when the k-th interrupt fires; `interrupts` counts them.
   */
  class JitterState {
    var rand: u32
    var nrot: int
    const lowValues: array<Byte>
    const highValues: array<Byte>
    var valuesCursor: int
    const timer: nat -> TimerSample
    var interrupts: nat
    /** The low bytes shifted into `rand` since it was last cleared. */
    ghost var lows: seq<Byte>

    ghost predicate Valid()
      reads this
    {
      lowValues.Length == NumValues && highValues.Length == NumValues && lowValues != highValues
      && 0 <= valuesCursor <= NumValues && -128 <= nrot < 128
      && rand == RandAfter(lows)
    }

    /** Static storage starts zeroed. */
    constructor(timer: nat -> TimerSample)
      ensures Valid() && this.timer == timer && interrupts == 0
      ensures rand == 0 && nrot == 0 && valuesCursor == 0 && lows == []
      ensures fresh(lowValues) && fresh(highValues)
    {
      rand := 0;
      nrot := 0;
      lowValues := new Byte[NumValues](_ => 0);
      highValues := new Byte[NumValues](_ => 0);
      valuesCursor := 0;
      this.timer := timer;
      interrupts := 0;
      lows := [];
    }

    /**
     * `ISR(WDT_vect)`: shift `rand` left by a byte, XOR the low timer byte in,
     * and record both bytes while the capture buffers have room.
     */
    method Isr()
      requires Valid()
      modifies this, lowValues, highValues
      ensures Valid() && interrupts == old(interrupts) + 1
      ensures nrot == DecrementInt8(old(nrot))
      ensures rand == ShiftInByte(old(rand), timer(old(interrupts)).low)
      ensures lows == old(lows) + [timer(old(interrupts)).low]
      ensures valuesCursor == if old(valuesCursor) < NumValues then old(valuesCursor) + 1 else old(valuesCursor)
      ensures old(valuesCursor) < NumValues ==> lowValues[old(valuesCursor)] == timer(old(interrupts)).low
      ensures old(valuesCursor) < NumValues ==> highValues[old(valuesCursor)] == timer(old(interrupts)).high
      ensures forall i :: 0 <= i < NumValues && i != old(valuesCursor) ==> lowValues[i] == old(lowValues[i])
      ensures forall i :: 0 <= i < NumValues && i != old(valuesCursor) ==> highValues[i] == old(highValues[i])
    {
      var sample := timer(interrupts);
      interrupts := interrupts + 1;
      nrot := DecrementInt8(nrot);
      ShiftInLow(rand, 0, 0x100_0000);
      rand := (rand * 256) % TwoTo32;
      var lvalue := sample.low;
      var hvalue := sample.high;
      // The shift left the low byte zero, so the XOR adds `lvalue`.
      rand := rand + lvalue;
      assert (lows + [lvalue])[..|lows|] == lows;
      lows := lows + [lvalue];
      if valuesCursor < NumValues {
        lowValues[valuesCursor] := lvalue;
        highValues[valuesCursor] := hvalue;
        valuesCursor := valuesCursor + 1;
      }
    }

    /**
     * `JitterRandom::random32`: reset `rand`, `nrot` and the cursor, then let
     * interrupts fire until `nrot` reaches zero. `numRegisterReads` is accepted
     * and never used. The result is what the 32 low bytes leave in `rand`
     * (which `Random32KeepsLastFourSamples` reduces to the last four).
     */
    method Random32(numRegisterReads: int) returns (r: u32)
      requires Valid()
      modifies this, lowValues, highValues
      ensures Valid() && interrupts == old(interrupts) + RotationsPerValue
      ensures nrot == 0 && valuesCursor == RotationsPerValue
      ensures r == rand == RandAfter(LowBytes(timer, old(interrupts), RotationsPerValue))
      ensures forall i :: 0 <= i < RotationsPerValue ==>
        lowValues[i] == timer(old(interrupts) + i).low && highValues[i] == timer(old(interrupts) + i).high
      ensures forall i :: RotationsPerValue <= i < NumValues ==>
        lowValues[i] == old(lowValues[i]) && highValues[i] == old(highValues[i])
    {
      rand := 0;
      nrot := RotationsPerValue;
      valuesCursor := 0;
      lows := [];
      AwaitRotations();
      r := rand;
    }

    /** The `while (nrot > 0);` wait of `random32`, during which the interrupt fires 32 times. */
    method AwaitRotations()
      requires Valid() && lows == [] && nrot == RotationsPerValue && valuesCursor == 0
      modifies this, lowValues, highValues
      ensures Valid() && interrupts == old(interrupts) + RotationsPerValue
      ensures nrot == 0 && valuesCursor == RotationsPerValue
      ensures rand == RandAfter(LowBytes(timer, old(interrupts), RotationsPerValue))
      ensures forall i :: 0 <= i < RotationsPerValue ==>
        lowValues[i] == timer(old(interrupts) + i).low && highValues[i] == timer(old(interrupts) + i).high
      ensures forall i :: RotationsPerValue <= i < NumValues ==>
        lowValues[i] == old(lowValues[i]) && highValues[i] == old(highValues[i])
    {
      ghost var start := interrupts;
      while nrot > 0
        invariant Valid() && 0 <= valuesCursor <= RotationsPerValue
        invariant interrupts == start + valuesCursor && nrot == RotationsPerValue - valuesCursor
        invariant |lows| == valuesCursor
        invariant forall i :: 0 <= i < valuesCursor ==> lows[i] == timer(start + i).low
        invariant forall i :: 0 <= i < valuesCursor ==> lowValues[i] == timer(start + i).low
        invariant forall i :: 0 <= i < valuesCursor ==> highValues[i] == timer(start + i).high
        invariant forall i :: RotationsPerValue <= i < NumValues ==> lowValues[i] == old(lowValues[i])
        invariant forall i :: RotationsPerValue <= i < NumValues ==> highValues[i] == old(highValues[i])
        decreases nrot
      {
        Isr();
      }
      assert lows == LowBytes(timer, start, RotationsPerValue);
    }
  }

  /** What `random32` returns is the last four of its 32 low timer bytes, packed big-endian. */
  lemma Random32KeepsLastFourSamples(timer: nat -> TimerSample, from: nat)
    ensures RandAfter(LowBytes(timer, from, RotationsPerValue))
         == BigEndian(timer(from + 28).low, timer(from + 29).low, timer(from + 30).low, timer(from + 31).low)
  {
    RandAfterKeepsLastFour(LowBytes(timer, from, RotationsPerValue));
  }
}
