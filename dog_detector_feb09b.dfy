/**
 * `SensorAndLED` of DogDetector_feb09b (SensorAndLED.cpp and SensorAndLED.h):
 * one analog sensor with its indicator LED, a trigger threshold kept in
 * EEPROM, and edge and duration tracking of the trigger state. Pins and
 * `digitalWrite` are left out (the LED level is `ledState`); `analogRead` is
 * an oracle and EEPROM an array of bytes.
 */
module DogDetectorFeb09b {
  import opened Common
  import opened SensorSampling
  import opened ThresholdRecord
  import opened LedBlink

  /** The largest duration a reading reports: 65.535 s. */
  const DurationCap := 0xffff

  /** `SensorReading`: the trigger state, whether it just changed, and how long the (previous) state lasted. */
  datatype SensorReading = SensorReading(isTriggered: bool, isChanged: bool, durationMs: u16)
  {
    /** `isTriggered(tolerance_ms)`: triggered now, or within the last `toleranceMs` milliseconds. */
    predicate TriggeredWithin(toleranceMs: u16)
    {
      isTriggered || isChanged || (!isChanged && durationMs < toleranceMs)
    }
  }

  /** The `!is_changed` conjunct is redundant: the test is "triggered, changed, or recent". */
  lemma TriggeredWithinSimplifies(r: SensorReading, toleranceMs: u16)
    ensures r.TriggeredWithin(toleranceMs) <==> r.isTriggered || r.isChanged || r.durationMs < toleranceMs
  {
  }

  /**
   * `min(now_ms - last_transition, 0xffff)`: the `long` time is converted to
   * `unsigned long`, the difference wraps modulo 2^32, and the result is
   * pegged at 0xffff.
   */
  function ElapsedCapped(nowMs: i32, lastTransition: u32): u16
  {
    Min(ToUnsigned(nowMs - lastTransition), DurationCap)
  }

  /** The duration is pegged at 0xffff exactly when at least 65.535 s have passed; below that it is exact. */
  lemma ElapsedIsPegged(nowMs: i32, lastTransition: u32)
    ensures ElapsedCapped(nowMs, lastTransition) == DurationCap <==> ToUnsigned(nowMs - lastTransition) >= DurationCap
    ensures ElapsedCapped(nowMs, lastTransition) < DurationCap ==> ElapsedCapped(nowMs, lastTransition) == ToUnsigned(nowMs - lastTransition)
  {
  }

  /**
   * A transition recorded at `then` (stored as `unsigned long`) and a reading
   * at `now` less than 65.535 s later report exactly the time in between, even
   * when the clock's `long` value crosses zero in between.
   */
  lemma ElapsedSinceTransition(thenMs: i32, nowMs: i32)
    requires 0 <= nowMs - thenMs < DurationCap
    ensures ElapsedCapped(nowMs, ToUnsigned(thenMs)) == nowMs - thenMs
  {
    var stored := ToUnsigned(thenMs);
    var k := (thenMs - stored) / TwoTo32;
    assert thenMs - stored == k * TwoTo32 by {
      var q := thenMs / TwoTo32;
      assert thenMs == q * TwoTo32 + stored;
      DivUnique(thenMs - stored, TwoTo32, q, 0);
    }
    assert nowMs - stored == (nowMs - thenMs) + k * TwoTo32;
    ShiftByWord(nowMs - thenMs, k);
  }

  class SensorAndLed {
    var nextToggle: u32
    var lastTransition: u32
    var togglePeriod: i16
    var threshold: i16
    var ledState: bool
    var lastState: bool
    const sensorPin: i8
    const ledPin: i8
    const tag: i8

    /** The blink state held in `nextToggle`, `togglePeriod` and `ledState`. */
    function Blink(): Blinker
      reads this
    {
      Blinker(nextToggle, togglePeriod, ledState)
    }

    /** The fields the LED methods leave alone. */
    twostate predicate SensorStateUnchanged()
      reads this
    {
      threshold == old(threshold) && lastState == old(lastState) && lastTransition == old(lastTransition)
    }

    /** The constructor stores the pins and the tag, then runs `init`. */
    constructor(sensorPin: i8, ledPin: i8, tag: i8)
      ensures this.sensorPin == sensorPin && this.ledPin == ledPin && this.tag == tag
      ensures Blink() == Blinker(0, 0, false)
      ensures lastTransition == 0 && threshold == Unset && !lastState
    {
      this.sensorPin := sensorPin;
      this.ledPin := ledPin;
      this.tag := tag;
      new;
      Init();
    }

    /** `init`: no blinking, no transition yet, and the unset threshold so nothing triggers. */
    method Init()
      modifies this
      ensures Blink() == Blinker(0, 0, false)
      ensures lastTransition == 0 && threshold == Unset && !lastState
    {
      nextToggle := 0;
      lastTransition := 0;
      togglePeriod := 0;
      threshold := Unset;
      lastState := false;
      LedOff();
    }

    /** `ledOff`. */
    method LedOff()
      modifies this
      ensures Blink() == old(Blink()).(ledOn := false) && SensorStateUnchanged()
    {
      ledState := false;
    }

    /** `ledOn`. */
    method LedOn()
      modifies this
      ensures Blink() == old(Blink()).(ledOn := true) && SensorStateUnchanged()
    {
      ledState := true;
    }

    /** `toggleLed`. */
    method ToggleLed()
      modifies this
      ensures Blink() == Toggle(old(Blink())) && SensorStateUnchanged()
    {
      if ledState {
        LedOff();
      } else {
        LedOn();
      }
    }

    /** `startBlinking(now_millis, toggle_period)`; `now_millis` is not used. */
    method StartBlinking(nowMillis: i32, period: i16)
      modifies this
      ensures Blink() == Start(old(Blink()), period) && SensorStateUnchanged()
    {
      if togglePeriod == period {
        return;
      }
      LedOn();
      togglePeriod := period;
      nextToggle := ToUnsigned(nextToggle + period);
    }

    /** `stopBlinking`: acts only while a period is set. */
    method StopBlinking()
      modifies this
      ensures Blink() == StopIfBlinking(old(Blink())) && SensorStateUnchanged()
    {
      if togglePeriod != 0 {
        LedOff();
        togglePeriod := 0;
        nextToggle := 0;
      }
    }

    /** `updateLed(now_millis)`. */
    method UpdateLed(nowMillis: i32)
      modifies this
      ensures Blink() == Update(old(Blink()), nowMillis) && SensorStateUnchanged()
    {
      if togglePeriod != 0 {
        if nextToggle <= ToUnsigned(nowMillis) {
          ToggleLed();
          nextToggle := ToUnsigned(nextToggle + togglePeriod);
        }
      }
    }

    /**
     * `readSensor(now_ms, num_reads, tolerance)`: compare the value of
     * `readSensor(num_reads)` (see `SensorSampling.ReadSensor`)
     * with `threshold + tolerance` (a 16-bit `int` sum), report whether the
     * state changed and how long the previous state lasted, and record the
     * transition when it did change. Afterwards `lastState` is always the
     * state just reported.
     */
    method ReadSensorAt(nowMs: i32, numReads: i16, tolerance: i16, reading: nat -> AnalogValue) returns (r: SensorReading)
      modifies this
      ensures r.isTriggered == (MacroSample(reading, ReadCount(numReads)).value >= ToInt16(old(threshold) + tolerance))
      ensures r.isChanged == (r.isTriggered != old(lastState))
      ensures r.durationMs == ElapsedCapped(nowMs, old(lastTransition))
      ensures lastState == r.isTriggered
      ensures lastTransition == if r.isChanged then ToUnsigned(nowMs) else old(lastTransition)
      ensures Blink() == old(Blink()) && threshold == old(threshold)
    {
      var value, conversions := SensorSampling.ReadSensor(numReads, reading);
      var adjustedThreshold := ToInt16(threshold + tolerance);
      var isTriggered := value >= adjustedThreshold;
      var isChanged := isTriggered != lastState;
      var durationMs := Min(ToUnsigned(nowMs - lastTransition), DurationCap);
      r := SensorReading(isTriggered, isChanged, durationMs);
      if r.isChanged {
        lastState := r.isTriggered;
        lastTransition := ToUnsigned(nowMs);
      }
    }

    /** `writeThreshold(addr)`: store the record, unvalidated, and return the address after it. */
    method WriteThreshold(eeprom: array<u8>, addr: int) returns (next: int)
      requires 0 <= addr && addr + RecordSize <= eeprom.Length
      modifies eeprom
      ensures next == addr + RecordSize
      ensures eeprom[addr..addr + RecordSize] == RecordBytes(tag, threshold)
      ensures forall i :: 0 <= i < eeprom.Length && !(addr <= i < addr + RecordSize) ==> eeprom[i] == old(eeprom[i])
    {
      next := WriteRecord(eeprom, addr, tag, threshold);
    }

    /**
     * `readThreshold(addr)`: start from the unset threshold; take the stored
     * one, and return the address after the record, only when the tag matches
     * and the value lies in the window; otherwise return -1.
     */
    method ReadThreshold(eeprom: array<u8>, addr: int) returns (r: int)
      requires 0 <= addr && addr + RecordSize <= eeprom.Length
      modifies this
      ensures ParseRecord(tag, eeprom[addr..addr + RecordSize]).Some? ==>
        threshold == ParseRecord(tag, eeprom[addr..addr + RecordSize]).value && r == addr + RecordSize
      ensures ParseRecord(tag, eeprom[addr..addr + RecordSize]).None? ==> threshold == Unset && r == -1
      ensures Blink() == old(Blink()) && lastState == old(lastState) && lastTransition == old(lastTransition)
    {
      threshold := Unset;
      var savedTag := ToChar(eeprom[addr]);
      if savedTag == tag {
        var value: int := ToInt16((eeprom[addr + 1] as int) * 0x100);
        // `value |= low`: the shift left the low eight bits zero.
        value := value + eeprom[addr + 2];
        if 0 < value && value < 1023 {
          threshold := value;
          return addr + RecordSize;
        }
      }
      return -1;
    }
  }
}
