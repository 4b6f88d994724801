/**
 * `SensorAndLED::readSensor(int num_reads)`, which is the same in both
 * DogDetector revisions (DogDetector_feb09a and DogDetector_feb09b): start
 * from the ceiling 1023 and, on each pass of a do-while loop, set
 * `value = min(value, analogRead(sensor_pin))`.
 *
 * On the AVR core `min(a, b)` is the macro `((a)<(b)?(a):(b))`, so its
 * arguments are evaluated again for the value it yields: a pass calls
 * `analogRead` once for the comparison and, unless `value` is strictly
 * smaller, a second time for the value kept. The result is therefore not
 * the minimum of the readings; `ReadSensorIntended` is the single-evaluation
 * minimum the loop evidently means.
 *
 * `analogRead` is an oracle: `reading(i)` is what the i-th call returns.
 */
module SensorSampling {
  import opened Common

  /** What `analogRead` returns: a 10-bit conversion. */
  type AnalogValue = x: int | 0 <= x < 1024

  /** The value `readSensor` starts from, and the top of the analog range. */
  const Ceiling := 1023

  /** The Arduino `min` macro, on operands without side effects. */
  function Min(a: int, b: int): int
  {
    if a < b then a else b
  }

  /** `--n` on a 16-bit `int`: -32768 wraps round to 32767. */
  function DecrementInt16(n: i16): i16
  {
    if n == -0x8000 then 0x7fff else n - 1
  }

  /**
   * How many passes the `do { ... } while (--num_reads > 0)` loop makes:
   * `num_reads` when it is positive, one when it is zero or negative, except
   * for -32768, whose decrement wraps to 32767.
   */
  function ReadCount(numReads: i16): nat
  {
    if numReads >= 1 then numReads else if numReads == -0x8000 then 0x8000 else 1
  }

  /** The loop makes at least one pass, and exactly `num_reads` for a positive count. */
  lemma ReadsAtLeastOnce(numReads: i16)
    ensures ReadCount(numReads) >= 1
    ensures numReads >= 1 ==> ReadCount(numReads) == numReads
  {
  }

  // ---------------------------------------------------------------------
  // The loop as written.

  /** The loop's `value` and how many conversions have been taken. */
  datatype Sample = Sample(value: int, conversions: nat)

  /**
   * One pass of `value = min(value, analogRead(sensor_pin))` with the macro
   * expanded: the comparison reads once; when `value` is not strictly
   * smaller, the value kept comes from a second reading.
   */
  function MacroMinPass(reading: nat -> AnalogValue, s: Sample): (t: Sample)
    ensures t.conversions == s.conversions + 1 || t.conversions == s.conversions + 2
  {
    if s.value < reading(s.conversions) then Sample(s.value, s.conversions + 1)
    else Sample(reading(s.conversions + 1), s.conversions + 2)
  }

  /** The state after `passes` passes, from 1023 and no conversions. */
  function MacroSample(reading: nat -> AnalogValue, passes: nat): Sample
  {
    if passes == 0 then Sample(Ceiling, 0) else MacroMinPass(reading, MacroSample(reading, passes - 1))
  }

  /**
   * What the loop as written computes: a value no larger than 1023 that is
   * one of the readings taken, never the very first one as such (the first
   * comparison is against 1023, so the first pass always reads again); and
   * `n` passes take between `n + 1` and `2n` conversions.
   */
  lemma {:induction false} MacroSampleFacts(reading: nat -> AnalogValue, passes: nat)
    requires passes >= 1
    ensures var s := MacroSample(reading, passes);
      s.value <= Ceiling && passes + 1 <= s.conversions <= 2 * passes &&
      exists j :: 1 <= j < s.conversions && s.value == reading(j)
  {
    var s := MacroSample(reading, passes);
    if passes == 1 {
      assert s == Sample(reading(1), 2);
    } else {
      MacroSampleFacts(reading, passes - 1);
      var p := MacroSample(reading, passes - 1);
      if p.value < reading(p.conversions) {
        var j :| 1 <= j < p.conversions && p.value == reading(j);
        assert 1 <= j < s.conversions && s.value == reading(j);
      } else {
        assert s.value == reading(p.conversions + 1);
      }
    }
  }

  /**
   * The kept value need not be the smallest reading: with one pass and
   * readings 500 then 900, the loop returns 900, where the minimum is 500.
   */
  lemma MacroMinKeepsLaterReading(reading: nat -> AnalogValue)
    requires reading(0) == 500 && reading(1) == 900
    ensures MacroSample(reading, ReadCount(1)).value == 900 > reading(0)
    ensures MinReading(reading, ReadCount(1)) == 500
  {
    assert MacroSample(reading, 1) == MacroMinPass(reading, Sample(Ceiling, 0));
  }

  /**
   * `readSensor(num_reads)` as written. `conversions` is how many times it
   * called `analogRead`.
   */
  method ReadSensor(numReads: i16, reading: nat -> AnalogValue) returns (value: int, conversions: nat)
    ensures Sample(value, conversions) == MacroSample(reading, ReadCount(numReads))
  {
    value := Ceiling;
    conversions := 0;
    var n := numReads;
    ghost var passes := 0;
    // The first pass of the do-while runs unconditionally.
    var first := true;
    while first || n > 0
      invariant passes <= ReadCount(numReads) && Sample(value, conversions) == MacroSample(reading, passes)
      invariant first ==> passes == 0 && n == numReads
      invariant !first && n > 0 ==> passes + (n as int) == ReadCount(numReads)
      invariant !first && n <= 0 ==> passes == ReadCount(numReads)
      decreases ReadCount(numReads) - passes
    {
      if value < reading(conversions) {
        conversions := conversions + 1;
      } else {
        value := reading(conversions + 1);
        conversions := conversions + 2;
      }
      passes := passes + 1;
      n := DecrementInt16(n);
      first := false;
    }
  }

  // ---------------------------------------------------------------------
  // The loop as intended: one reading per pass.

  /** The smallest of 1023 and the first `k` readings. */
  function MinReading(reading: nat -> AnalogValue, k: nat): int
  {
    if k == 0 then Ceiling else Min(MinReading(reading, k - 1), reading(k - 1))
  }

  /**
   * `MinReading` is the minimum: no larger than 1023 or any reading taken,
   * and equal to 1023 or to one of the readings.
   */
  lemma {:induction false} MinReadingIsMinimum(reading: nat -> AnalogValue, k: nat)
    ensures MinReading(reading, k) <= Ceiling
    ensures forall i :: 0 <= i < k ==> MinReading(reading, k) <= reading(i)
    ensures MinReading(reading, k) == Ceiling || exists i :: 0 <= i < k && MinReading(reading, k) == reading(i)
  {
    if k > 0 {
      MinReadingIsMinimum(reading, k - 1);
      if MinReading(reading, k) != Ceiling && MinReading(reading, k) != reading(k - 1) {
        var i :| 0 <= i < k - 1 && MinReading(reading, k - 1) == reading(i);
        assert MinReading(reading, k) == reading(i);
      }
    }
  }

  /**
   * `readSensor` with the reading taken once per pass
   * (`int r = analogRead(sensor_pin); value = min(value, r);`): the minimum
   * of 1023 and one reading per pass.
   */
  method ReadSensorIntended(numReads: i16, reading: nat -> AnalogValue) returns (value: int)
    ensures value == MinReading(reading, ReadCount(numReads))
  {
    value := Ceiling;
    var n := numReads;
    var taken: int := 0;
    // The first pass of the do-while runs unconditionally.
    value := Min(value, reading(taken));
    taken := taken + 1;
    n := DecrementInt16(n);
    while n > 0
      invariant 1 <= taken && value == MinReading(reading, taken)
      invariant n > 0 ==> taken + (n as int) == ReadCount(numReads)
      invariant n <= 0 ==> taken == ReadCount(numReads)
      decreases n
    {
      value := Min(value, reading(taken));
      taken := taken + 1;
      n := DecrementInt16(n);
    }
  }
}
