/**
 * The three-byte threshold record of the DogDetector sketches
 * (DogDetector_feb09a and DogDetector_feb09b, `writeThreshold` and
 * `readThreshold`): the sensor's tag, then the threshold's high and low byte.
 * A record is accepted only when the tag matches and the value lies strictly
 * between 0 and 1023. EEPROM bytes are integers in [0, 256).
 */
module ThresholdRecord {
  import opened Common

  /** `char` on the AVR target: signed 8-bit. */
  type i8 = x: int | -0x80 <= x < 0x80

  const RecordSize := 3

  /** The threshold a sensor holds while it has none: above every reading, so it never triggers. */
  const Unset := 1024

  /** Conversion to `uint8_t`: the low eight bits. */
  function ToByte(x: int): u8
  {
    x % 0x100
  }

  /** Conversion to a 16-bit `int`: the low sixteen bits as two's complement. */
  function ToInt16(x: int): i16
  {
    var m := x % 0x1_0000;
    if m >= 0x8000 then m - 0x1_0000 else m
  }

  /** Conversion of a byte to `char`. */
  function ToChar(b: u8): i8
  {
    if b >= 0x80 then b - 0x100 else b
  }

  /**
   * The bytes `writeThreshold` stores: `tag`, `threshold >> 8` and
   * `threshold & 0xff`. The shift is arithmetic, which on an integer is
   * floor division by 256.
   */
  function RecordBytes(tag: i8, threshold: i16): seq<u8>
  {
    [ToByte(tag), ToByte(threshold / 0x100), ToByte(threshold)]
  }

  /**
   * `int value = high << 8; value |= low;` in a 16-bit `int`: the shift
   * overflows into the sign bit when `high >= 128`, and the OR fills the
   * eight zero bits the shift left.
   */
  function StoredValue(high: u8, low: u8): i16
  {
    ToInt16(high * 0x100) + low
  }

  /** The window a stored threshold must lie in to be accepted. */
  predicate ValidThreshold(v: int)
  {
    0 < v < 1023
  }

  /**
   * What the DogDetector_feb09b `readThreshold` makes of three bytes: it reads
   * the tag into a `char` and compares it with the sensor's own, then checks
   * the value's window.
   */
  function ParseRecord(tag: i8, bytes: seq<u8>): Option<int>
    requires |bytes| == RecordSize
  {
    var value := StoredValue(bytes[1], bytes[2]);
    if ToChar(bytes[0]) == tag && ValidThreshold(value) then Some(value) else None
  }

  /**
   * What the DogDetector_feb09a `readThreshold` makes of three bytes: it
   * compares the unsigned byte directly with the `char` tag.
   */
  function ParseRecordFeb09a(tag: i8, bytes: seq<u8>): Option<int>
    requires |bytes| == RecordSize
  {
    var value := StoredValue(bytes[1], bytes[2]);
    if bytes[0] == tag && ValidThreshold(value) then Some(value) else None
  }

  /** Every 16-bit threshold survives the two value bytes unchanged: `writeThreshold` loses nothing and checks nothing. */
  lemma ValueBytesRoundTrip(tag: i8, threshold: i16)
    ensures StoredValue(RecordBytes(tag, threshold)[1], RecordBytes(tag, threshold)[2]) == threshold
  {
    var q := threshold / 0x100;
    var high: int := ToByte(q);
    var low := ToByte(threshold);
    assert threshold == q * 0x100 + low;
    if q >= 0 {
      assert high == q;
      ModUnique(high * 0x100, 0x1_0000, 0, q * 0x100);
    } else {
      ModUnique(q, 0x100, -1, q + 0x100);
      assert high * 0x100 == q * 0x100 + 0x1_0000;
      ModUnique(high * 0x100, 0x1_0000, 0, high * 0x100);
    }
  }

  /** A tag reads back as itself. */
  lemma TagRoundTrip(tag: i8)
    ensures ToChar(ToByte(tag)) == tag
  {
    if tag < 0 {
      ModUnique(tag, 0x100, -1, tag + 0x100);
    }
  }

  /** Round trip: a record written with a threshold in the window reads back as that threshold. */
  lemma RecordRoundTrip(tag: i8, threshold: i16)
    requires ValidThreshold(threshold)
    ensures ParseRecord(tag, RecordBytes(tag, threshold)) == Some(threshold)
  {
    ValueBytesRoundTrip(tag, threshold);
    TagRoundTrip(tag);
  }

  /** A record written with a threshold outside the window, such as `Unset`, is refused when read. */
  lemma OutOfWindowRefused(tag: i8, threshold: i16)
    requires !ValidThreshold(threshold)
    ensures ParseRecord(tag, RecordBytes(tag, threshold)) == None
  {
    ValueBytesRoundTrip(tag, threshold);
  }

  /** A record written under another sensor's tag is refused. */
  lemma ForeignTagRefused(writer: i8, reader: i8, threshold: i16)
    requires writer != reader
    ensures ParseRecord(reader, RecordBytes(writer, threshold)) == None
  {
    TagRoundTrip(writer);
  }

  /** An accepted record always carries the reader's tag and a threshold in the window. */
  lemma AcceptedRecordIsValid(tag: i8, bytes: seq<u8>)
    requires |bytes| == RecordSize && ParseRecord(tag, bytes).Some?
    ensures ToByte(tag) == bytes[0] && ValidThreshold(ParseRecord(tag, bytes).value)
  {
  }

  /** Two records written back to back: the second starts `RecordSize` bytes after the first and reads back there. */
  lemma ConsecutiveRecords(tag1: i8, t1: i16, tag2: i8, t2: i16)
    requires ValidThreshold(t1) && ValidThreshold(t2)
    ensures var eeprom := RecordBytes(tag1, t1) + RecordBytes(tag2, t2);
      ParseRecord(tag1, eeprom[..RecordSize]) == Some(t1)
      && ParseRecord(tag2, eeprom[RecordSize..2 * RecordSize]) == Some(t2)
  {
    var eeprom := RecordBytes(tag1, t1) + RecordBytes(tag2, t2);
    assert eeprom[..RecordSize] == RecordBytes(tag1, t1);
    assert eeprom[RecordSize..2 * RecordSize] == RecordBytes(tag2, t2);
    RecordRoundTrip(tag1, t1);
    RecordRoundTrip(tag2, t2);
  }

  /**
   * The DogDetector_feb09a comparison refuses every record whose tag has the
   * high bit set, including one it wrote itself: the byte is in [128, 256)
   * while the `char` tag is negative.
   */
  lemma Feb09aRefusesHighTags(tag: i8, threshold: i16)
    requires tag < 0
    ensures ParseRecordFeb09a(tag, RecordBytes(tag, threshold)) == None
  {
  }

  /** For tags below 128 the two revisions' checks agree. */
  lemma ParsersAgreeOnLowTags(tag: i8, bytes: seq<u8>)
    requires |bytes| == RecordSize && tag >= 0
    ensures ParseRecordFeb09a(tag, bytes) == ParseRecord(tag, bytes)
  {
  }

  /** `writeThreshold`'s stores: the three record bytes from `addr` on, post-incrementing the address. */
  method WriteRecord(eeprom: array<u8>, addr: int, tag: i8, threshold: i16) returns (next: int)
    requires 0 <= addr && addr + RecordSize <= eeprom.Length
    modifies eeprom
    ensures next == addr + RecordSize
    ensures eeprom[addr..addr + RecordSize] == RecordBytes(tag, threshold)
    ensures forall i :: 0 <= i < eeprom.Length && !(addr <= i < addr + RecordSize) ==> eeprom[i] == old(eeprom[i])
  {
    var a := addr;
    eeprom[a] := ToByte(tag);
    a := a + 1;
    eeprom[a] := ToByte(threshold / 0x100);
    a := a + 1;
    eeprom[a] := ToByte(threshold);
    a := a + 1;
    next := a;
  }
}
