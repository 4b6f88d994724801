/**
 * `SensorAndLED` of DogDetector_feb09a (SensorAndLED.cpp and SensorAndLED.h),
 * the earlier revision: no edge or duration tracking, an unconditional
 * `stopBlinking`, a boolean `isSensorTriggered`, and a `readThreshold` that
 * compares the stored tag byte unsigned and returns six bytes past the start
 * of the record. Pins and `digitalWrite` are left out; `analogRead` is an
 * oracle and EEPROM an array of bytes.
 */
module DogDetectorFeb09a {
  import opened Common
  import opened SensorSampling
  import opened ThresholdRecord
  import opened LedBlink

  class SensorAndLed {
    var nextToggle: u32
    var togglePeriod: i16
    var threshold: i16
    var ledState: bool
    const sensorPin: i8
    const ledPin: i8
    const tag: i8

    /** The blink state held in `nextToggle`, `togglePeriod` and `ledState`. */
    function Blink(): Blinker
      reads this
    {
      Blinker(nextToggle, togglePeriod, ledState)
    }

    /** The constructor stores the pins and the tag, then runs `init`. */
    constructor(sensorPin: i8, ledPin: i8, tag: i8)
      ensures this.sensorPin == sensorPin && this.ledPin == ledPin && this.tag == tag
      ensures Blink() == Blinker(0, 0, false) && threshold == Unset
    {
      this.sensorPin := sensorPin;
      this.ledPin := ledPin;
      this.tag := tag;
      new;
      Init();
    }

    /** `init`: threshold 1024, period 0, next toggle 0, LED off. */
    method Init()
      modifies this
      ensures Blink() == Blinker(0, 0, false) && threshold == Unset
    {
      nextToggle := 0;
      togglePeriod := 0;
      threshold := Unset;
      LedOff();
    }

    /** `ledOff`. */
    method LedOff()
      modifies this
      ensures Blink() == old(Blink()).(ledOn := false) && threshold == old(threshold)
    {
      ledState := false;
    }

    /** `ledOn`. */
    method LedOn()
      modifies this
      ensures Blink() == old(Blink()).(ledOn := true) && threshold == old(threshold)
    {
      ledState := true;
    }

    /** `toggleLed`. */
    method ToggleLed()
      modifies this
      ensures Blink() == Toggle(old(Blink())) && threshold == old(threshold)
    {
      if ledState {
        LedOff();
      } else {
        LedOn();
      }
    }

    /** `startBlinking(now_millis, toggle_period)`; `now_millis` is not used. */
    method StartBlinking(nowMillis: i32, period: i16)
      modifies this
      ensures Blink() == Start(old(Blink()), period) && threshold == old(threshold)
    {
      if togglePeriod == period {
        return;
      }
      LedOn();
      togglePeriod := period;
      nextToggle := ToUnsigned(nextToggle + period);
    }

    /** `stopBlinking`: LED off, period 0, next toggle 0, whatever the state. */
    method StopBlinking()
      modifies this
      ensures Blink() == Stop(old(Blink())) && threshold == old(threshold)
    {
      LedOff();
      togglePeriod := 0;
      nextToggle := 0;
    }

    /** `updateLed(now_millis)`. */
    method UpdateLed(nowMillis: i32)
      modifies this
      ensures Blink() == Update(old(Blink()), nowMillis) && threshold == old(threshold)
    {
      if togglePeriod != 0 {
        if nextToggle <= ToUnsigned(nowMillis) {
          ToggleLed();
          nextToggle := ToUnsigned(nextToggle + togglePeriod);
        }
      }
    }

    /**
     * `isSensorTriggered(num_reads, tolerance)`: whether the value `readSensor`
     * returns (see `SensorSampling.ReadSensor`)
     * reaches `threshold + tolerance` (a 16-bit `int` sum).
     */
    method IsSensorTriggered(numReads: i16, tolerance: i16, reading: nat -> AnalogValue) returns (triggered: bool)
      ensures triggered <==> MacroSample(reading, ReadCount(numReads)).value >= ToInt16(threshold + tolerance)
    {
      var value, conversions := SensorSampling.ReadSensor(numReads, reading);
      var adjustedThreshold := ToInt16(threshold + tolerance);
      triggered := value >= adjustedThreshold;
    }

    /** `writeThreshold(addr)`: store the record and return the address after it. */
    method WriteThreshold(eeprom: array<u8>, addr: int) returns (next: int)
      requires 0 <= addr && addr + RecordSize <= eeprom.Length
      modifies eeprom
      ensures next == addr + RecordSize
      ensures eeprom[addr..addr + RecordSize] == RecordBytes(tag, threshold)
      ensures forall i :: 0 <= i < eeprom.Length && !(addr <= i < addr + RecordSize) ==> eeprom[i] == old(eeprom[i])
    {
      next := WriteRecord(eeprom, addr, tag, threshold);
    }

    /**
     * `readThreshold(addr)` as written: `addr` is post-incremented past each
     * of the three bytes, and on success `addr + 3` is returned on top of
     * that, six bytes past the start of the record.
     */
    method ReadThreshold(eeprom: array<u8>, addr: int) returns (r: int)
      requires 0 <= addr && addr + RecordSize <= eeprom.Length
      modifies this
      ensures ParseRecordFeb09a(tag, eeprom[addr..addr + RecordSize]).Some? ==>
        threshold == ParseRecordFeb09a(tag, eeprom[addr..addr + RecordSize]).value && r == addr + 2 * RecordSize
      ensures ParseRecordFeb09a(tag, eeprom[addr..addr + RecordSize]).None? ==> threshold == Unset && r == -1
      ensures Blink() == old(Blink())
    {
      threshold := Unset;
      var a := addr;
      var savedTag := eeprom[a];
      a := a + 1;
      if savedTag == tag {
        var value: int := ToInt16((eeprom[a] as int) * 0x100);
        a := a + 1;
        // `value |= low`: the shift left the low eight bits zero.
        value := value + eeprom[a];
        a := a + 1;
        if 0 < value && value < 1023 {
          threshold := value;
          return a + 3;
        }
      }
      return -1;
    }
  }

  /**
   * Two records written back to back from address 0: the address this
   * revision's `readThreshold` returns after the first (6) is past the start of
   * the second (3), so a caller chaining reads from it misses the second record.
   */
  lemma ReturnedAddressSkipsNextRecord()
    ensures var eeprom := RecordBytes(76, 500) + RecordBytes(82, 600) + [0, 0, 0];
      ParseRecordFeb09a(76, eeprom[0..3]) == Some(500)
      && ParseRecordFeb09a(82, eeprom[0 + 2 * RecordSize..0 + 3 * RecordSize]) == None
      && ParseRecordFeb09a(82, eeprom[0 + RecordSize..0 + 2 * RecordSize]) == Some(600)
  {
    var eeprom := RecordBytes(76, 500) + RecordBytes(82, 600) + [0, 0, 0];
    assert eeprom[0..3] == RecordBytes(76, 500);
    assert eeprom[3..6] == RecordBytes(82, 600);
    assert eeprom[6..9] == [0, 0, 0];
    ValueBytesRoundTrip(76, 500);
    ValueBytesRoundTrip(82, 600);
  }
}
