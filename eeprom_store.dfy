/**
 * The named, CRC-checked record store kept in EEPROM. A record is
 *
 *     name bytes | CRC of the payload (4 bytes, little-endian) | payload
 *
 * and always starts at address 0, so the store holds one record at a time.
 * The EEPROM is an array of bytes; a name is the characters of a C string
 * before its terminating NUL.
 */
module EepromStore {
  import opened Common
  import opened Crc32

  /** Bytes taken by the stored CRC (`sizeof(unsigned long)` on the target). */
  const CrcSize: nat := 4

  /** The characters of a C string: no NUL before its end. */
  predicate IsCName(name: seq<bv8>) {
    forall i :: 0 <= i < |name| ==> name[i] != 0
  }

  /** How `EEPROM.put` lays out an `unsigned long`: least significant byte first. */
  function LeBytes(x: bv32): (r: seq<bv8>)
    ensures |r| == CrcSize
  {
    [(x & 0xff) as bv8, ((x >> 8) & 0xff) as bv8, ((x >> 16) & 0xff) as bv8, (x >> 24) as bv8]
  }

  /** The `unsigned long` whose bytes, least significant first, are `a`, `b`, `c`, `d`. */
  function Pack(a: bv8, b: bv8, c: bv8, d: bv8): bv32 {
    (a as bv32) | ((b as bv32) << 8) | ((c as bv32) << 16) | ((d as bv32) << 24)
  }

  /** How `EEPROM.get` reads an `unsigned long` back. */
  function FromLe(s: seq<bv8>): bv32
    requires |s| == CrcSize
  {
    Pack(s[0], s[1], s[2], s[3])
  }

  lemma LeRoundTrip(x: bv32)
    ensures FromLe(LeBytes(x)) == x
  {
  }

  lemma Unpack0(a: bv8, b: bv8, c: bv8, d: bv8) ensures (Pack(a, b, c, d) & 0xff) as bv8 == a { }
  lemma Unpack1(a: bv8, b: bv8, c: bv8, d: bv8) ensures ((Pack(a, b, c, d) >> 8) & 0xff) as bv8 == b { }
  lemma Unpack2(a: bv8, b: bv8, c: bv8, d: bv8) ensures ((Pack(a, b, c, d) >> 16) & 0xff) as bv8 == c { }
  lemma Unpack3(a: bv8, b: bv8, c: bv8, d: bv8) ensures (Pack(a, b, c, d) >> 24) as bv8 == d { }

  lemma LeBytesOfFromLe(s: seq<bv8>)
    requires |s| == CrcSize
    ensures LeBytes(FromLe(s)) == s
  {
    Unpack0(s[0], s[1], s[2], s[3]);
    Unpack1(s[0], s[1], s[2], s[3]);
    Unpack2(s[0], s[1], s[2], s[3]);
    Unpack3(s[0], s[1], s[2], s[3]);
  }

  // ---------------------------------------------------------------------
  // The record format.

  /** Room for a record with this name and this many payload bytes. */
  predicate Fits(size: int, name: seq<bv8>, numBytes: int) {
    0 <= numBytes && |name| + CrcSize + numBytes <= size
  }

  /** The bytes of a record. */
  function Record(name: seq<bv8>, payload: seq<bv8>): (r: seq<bv8>)
    ensures |r| == |name| + CrcSize + |payload|
  {
    name + LeBytes(CrcOf(payload)) + payload
  }

  /** The EEPROM contents after saving `payload` under `name` over `mem`. */
  function SavedImage(mem: seq<bv8>, name: seq<bv8>, payload: seq<bv8>): (r: seq<bv8>)
    requires Fits(|mem|, name, |payload|)
    ensures |r| == |mem|
  {
    Record(name, payload) + mem[|name| + CrcSize + |payload|..]
  }

  /**
   * What loading `numBytes` bytes under `name` from `mem` yields: nothing
   * when the stored name differs or the stored CRC is not the CRC of the
   * stored payload, otherwise the stored payload.
   */
  function LoadRecord(mem: seq<bv8>, name: seq<bv8>, numBytes: nat): (r: Option<seq<bv8>>)
    requires Fits(|mem|, name, numBytes)
    ensures r.Some? ==> |r.value| == numBytes
  {
    var dataStart := |name| + CrcSize;
    if mem[..|name|] != name then None
    else if FromLe(mem[|name|..dataStart]) != CrcOf(mem[dataStart..dataStart + numBytes]) then None
    else Some(mem[dataStart..dataStart + numBytes])
  }

  // ---------------------------------------------------------------------
  // The routines.

  /** `crcEEPROMRange`: the CRC of `length` EEPROM bytes from `start`. */
  method CrcEepromRange(eeprom: array<bv8>, start: int, length: int) returns (r: bv32)
    requires 0 <= start && (length <= 0 || start + length <= eeprom.Length)
    ensures length <= 0 ==> r == InitialValue
    ensures length > 0 ==> r == CrcOf(eeprom[start..start + length])
  {
    var crc := new Crc();
    ghost var read: seq<bv8> := [];
    var offset := 0;
    while offset < length
      invariant 0 <= offset == |read| && (offset == 0 || offset <= length)
      invariant length > 0 ==> read == eeprom[start..start + offset]
      invariant crc.value == CrcOf(read)
    {
      crc.AppendByte(eeprom[start + offset]);
      CrcFromSnoc(InitialValue, read, eeprom[start + offset]);
      read := read + [eeprom[start + offset]];
      offset := offset + 1;
    }
    if length > 0 {
      assert read == eeprom[start..start + length];
    } else {
      assert read == [];
    }
    r := crc.value;
  }

  /** `crcBytes`: the CRC of the first `numBytes` bytes of a RAM buffer. */
  method CrcBytes(src: array<bv8>, numBytes: nat) returns (r: bv32)
    requires numBytes <= src.Length
    ensures r == CrcOf(src[..numBytes])
  {
    var crc := new Crc();
    var offset := 0;
    while offset < numBytes
      invariant offset <= numBytes
      invariant crc.value == CrcOf(src[..offset])
    {
      crc.AppendByte(src[offset]);
      CrcFromSnoc(InitialValue, src[..offset], src[offset]);
      assert src[..offset + 1] == src[..offset] + [src[offset]];
      offset := offset + 1;
    }
    r := crc.value;
  }

  /**
   * The two CRC routines agree whenever the EEPROM range holds the bytes of
   * the buffer.
   */
  method CrcRoutinesAgree(eeprom: array<bv8>, start: nat, src: array<bv8>, n: nat)
    returns (fromEeprom: bv32, fromBuffer: bv32)
    requires start + n <= eeprom.Length && n <= src.Length
    requires eeprom[start..start + n] == src[..n]
    ensures fromEeprom == fromBuffer
  {
    fromEeprom := CrcEepromRange(eeprom, start, n);
    fromBuffer := CrcBytes(src, n);
  }

  /** `putName`: write the name from address 0 and return its length. */
  method PutName(eeprom: array<bv8>, name: seq<bv8>) returns (numBytes: int)
    requires IsCName(name) && |name| <= eeprom.Length
    modifies eeprom
    ensures numBytes == |name|
    ensures eeprom[..] == name + old(eeprom[|name|..])
  {
    numBytes := 0;
    while numBytes < |name|
      invariant 0 <= numBytes <= |name|
      invariant eeprom[..numBytes] == name[..numBytes]
      invariant eeprom[numBytes..] == old(eeprom[numBytes..])
    {
      eeprom[numBytes] := name[numBytes];
      numBytes := numBytes + 1;
    }
    assert eeprom[..] == eeprom[..numBytes] + eeprom[numBytes..];
  }

  /** `EEPROM.put(address, crc)`: the four bytes of the CRC, least significant first. */
  method PutCrc(eeprom: array<bv8>, address: nat, crc: bv32)
    requires address + CrcSize <= eeprom.Length
    modifies eeprom
    ensures eeprom[..] == old(eeprom[..address]) + LeBytes(crc) + old(eeprom[address + CrcSize..])
  {
    var bytes := LeBytes(crc);
    eeprom[address] := bytes[0];
    eeprom[address + 1] := bytes[1];
    eeprom[address + 2] := bytes[2];
    eeprom[address + 3] := bytes[3];
    assert eeprom[..] == old(eeprom[..address]) + bytes + old(eeprom[address + CrcSize..]);
  }

  /** `EEPROM.get(address, crc)`. */
  function GetCrc(mem: seq<bv8>, address: nat): bv32
    requires address + CrcSize <= |mem|
  {
    FromLe(mem[address..address + CrcSize])
  }

  /**
   * `putBytes`: copy `numBytes` bytes of `src` to `address` with
   * `EEPROM.update`, which writes a cell only when its value differs; the
   * result is the same as writing every byte.
   */
  method PutBytes(eeprom: array<bv8>, address: nat, src: array<bv8>, numBytes: nat)
    requires src != eeprom
    requires numBytes <= src.Length && address + numBytes <= eeprom.Length
    modifies eeprom
    ensures eeprom[..] == old(eeprom[..address]) + src[..numBytes] + old(eeprom[address + numBytes..])
  {
    var i := 0;
    while i < numBytes
      invariant 0 <= i <= numBytes
      invariant eeprom[..address] == old(eeprom[..address])
      invariant eeprom[address..address + i] == src[..i]
      invariant eeprom[address + i..] == old(eeprom[address + i..])
    {
      if eeprom[address + i] != src[i] {
        eeprom[address + i] := src[i];
      }
      assert eeprom[address..address + i + 1] == eeprom[address..address + i] + [eeprom[address + i]];
      i := i + 1;
    }
    assert eeprom[..] == eeprom[..address] + eeprom[address..address + numBytes] + eeprom[address + numBytes..];
  }

  /** `getBytes`: copy `numBytes` EEPROM bytes from `address` into `dest`. */
  method GetBytes(eeprom: array<bv8>, address: nat, numBytes: nat, dest: array<bv8>)
    requires dest != eeprom
    requires address + numBytes <= eeprom.Length && numBytes <= dest.Length
    modifies dest
    ensures dest[..] == eeprom[address..address + numBytes] + old(dest[numBytes..])
  {
    var i := 0;
    while i < numBytes
      invariant 0 <= i <= numBytes
      invariant dest[..i] == eeprom[address..address + i]
      invariant dest[i..] == old(dest[i..])
    {
      dest[i] := eeprom[address + i];
      assert dest[..i + 1] == dest[..i] + [dest[i]];
      i := i + 1;
    }
    assert dest[..] == dest[..numBytes] + dest[numBytes..];
  }

  /** `saveBytesToEEPROM`: write the record for `src[..numBytes]` under `name`. */
  method SaveBytes(eeprom: array<bv8>, name: seq<bv8>, src: array<bv8>, numBytes: nat)
    requires src != eeprom && IsCName(name)
    requires numBytes <= src.Length && Fits(eeprom.Length, name, numBytes)
    modifies eeprom
    ensures eeprom[..] == SavedImage(old(eeprom[..]), name, src[..numBytes])
  {
    ghost var mem := eeprom[..];
    var nameLen := PutName(eeprom, name);
    var crc := CrcBytes(src, numBytes);
    PutCrc(eeprom, nameLen, crc);
    PutBytes(eeprom, nameLen + CrcSize, src, numBytes);
    assert eeprom[..] == name + LeBytes(crc) + src[..numBytes] + mem[|name| + CrcSize + numBytes..];
  }

  /**
   * `readBytesFromEEPROM`: compare the stored name, then the stored CRC
   * against the CRC of the stored payload, and only then copy the payload
   * into `dest`. On failure `dest` is untouched.
   */
  method ReadBytes(eeprom: array<bv8>, name: seq<bv8>, numBytes: nat, dest: array<bv8>)
    returns (ok: bool)
    requires dest != eeprom && IsCName(name)
    requires numBytes <= dest.Length && Fits(eeprom.Length, name, numBytes)
    modifies dest
    ensures ok == LoadRecord(eeprom[..], name, numBytes).Some?
    ensures ok ==> dest[..] == LoadRecord(eeprom[..], name, numBytes).value + old(dest[numBytes..])
    ensures !ok ==> dest[..] == old(dest[..])
  {
    var nameLen := 0;
    while nameLen < |name|
      invariant 0 <= nameLen <= |name|
      invariant eeprom[..nameLen] == name[..nameLen]
    {
      var c := eeprom[nameLen];
      if c != name[nameLen] {
        NameMismatchRejected(eeprom[..], name, numBytes, nameLen);
        return false;
      }
      assert eeprom[..nameLen + 1] == eeprom[..nameLen] + [c];
      nameLen := nameLen + 1;
    }
    var storedCrc := GetCrc(eeprom[..], nameLen);
    var dataStart := nameLen + CrcSize;
    var computedCrc := CrcEepromRange(eeprom, dataStart, numBytes);
    if numBytes == 0 {
      assert eeprom[dataStart..dataStart + numBytes] == [];
    }
    assert eeprom[dataStart..dataStart + numBytes] == eeprom[..][dataStart..dataStart + numBytes];
    NameMatchDecidedByCrc(eeprom[..], name, numBytes);
    if storedCrc != computedCrc {
      return false;
    }
    GetBytes(eeprom, dataStart, numBytes, dest);
    return true;
  }

  // ---------------------------------------------------------------------
  // Properties of the format.

  /** The name check fails at the first stored character that differs from the name. */
  lemma NameMismatchRejected(mem: seq<bv8>, name: seq<bv8>, numBytes: nat, i: nat)
    requires Fits(|mem|, name, numBytes)
    requires i < |name| && mem[i] != name[i]
    ensures LoadRecord(mem, name, numBytes) == None
  {
    assert mem[..|name|][i] == mem[i];
  }

  /** Once the name matches, the CRC comparison alone decides the load. */
  lemma NameMatchDecidedByCrc(mem: seq<bv8>, name: seq<bv8>, numBytes: nat)
    requires Fits(|mem|, name, numBytes)
    requires mem[..|name|] == name
    ensures var payload := mem[|name| + CrcSize..|name| + CrcSize + numBytes];
      LoadRecord(mem, name, numBytes) ==
        if GetCrc(mem, |name|) == CrcOf(payload) then Some(payload) else None
  {
  }

  /** Loading what was just saved, under the same name and size, gives the payload back. */
  lemma SaveThenLoad(mem: seq<bv8>, name: seq<bv8>, payload: seq<bv8>)
    requires Fits(|mem|, name, |payload|)
    ensures LoadRecord(SavedImage(mem, name, payload), name, |payload|) == Some(payload)
  {
    var img := SavedImage(mem, name, payload);
    var dataStart := |name| + CrcSize;
    assert img[..|name|] == name;
    assert img[|name|..dataStart] == LeBytes(CrcOf(payload));
    assert img[dataStart..dataStart + |payload|] == payload;
    LeRoundTrip(CrcOf(payload));
  }

  /**
   * A load succeeds exactly when the start of the EEPROM is the record that
   * saving its payload under that name would have written.
   */
  lemma LoadSucceedsIffRecordPresent(mem: seq<bv8>, name: seq<bv8>, numBytes: nat)
    requires Fits(|mem|, name, numBytes)
    ensures LoadRecord(mem, name, numBytes).Some? <==>
      mem[..|name| + CrcSize + numBytes] == Record(name, mem[|name| + CrcSize..|name| + CrcSize + numBytes])
  {
    var dataStart := |name| + CrcSize;
    var end := dataStart + numBytes;
    var payload := mem[dataStart..end];
    var stored := mem[|name|..dataStart];
    assert mem[..end] == mem[..|name|] + stored + payload;
    if LoadRecord(mem, name, numBytes).Some? {
      LeBytesOfFromLe(stored);
    } else if mem[..end] == Record(name, payload) {
      assert mem[..end][..|name|] == name;
      assert mem[..|name|] == mem[..end][..|name|];
      assert stored == mem[..end][|name|..dataStart];
      LeRoundTrip(CrcOf(payload));
      assert false;
    }
  }

  /**
   * A record saved under one name is not loaded under another name that
   * differs from it at some position both names have.
   */
  lemma OtherNameRejected(mem: seq<bv8>, name: seq<bv8>, payload: seq<bv8>, other: seq<bv8>, numBytes: nat, i: nat)
    requires Fits(|mem|, name, |payload|) && Fits(|mem|, other, numBytes)
    requires i < |name| && i < |other| && name[i] != other[i]
    ensures LoadRecord(SavedImage(mem, name, payload), other, numBytes) == None
  {
    var img := SavedImage(mem, name, payload);
    assert img[..|other|][i] == img[i] == name[i];
  }

  /**
   * The name check compares only the characters of the requested name: a
   * record saved under `name` passes it for every prefix of `name`.
   */
  lemma PrefixNamePassesNameCheck(mem: seq<bv8>, name: seq<bv8>, payload: seq<bv8>, k: nat)
    requires Fits(|mem|, name, |payload|) && k <= |name|
    ensures SavedImage(mem, name, payload)[..k] == name[..k]
  {
  }

  /** A record whose stored CRC does not match its stored payload is rejected. */
  lemma CorruptCrcRejected(mem: seq<bv8>, name: seq<bv8>, numBytes: nat)
    requires Fits(|mem|, name, numBytes)
    requires GetCrc(mem, |name|) != CrcOf(mem[|name| + CrcSize..|name| + CrcSize + numBytes])
    ensures LoadRecord(mem, name, numBytes) == None
  {
  }

  /**
   * A saved record with any one byte of its stored CRC or of its payload
   * changed is rejected: a changed CRC field no longer decodes to the
   * payload's CRC, and a changed payload byte changes the payload's CRC.
   */
  lemma CorruptedRecordRejected(mem: seq<bv8>, name: seq<bv8>, payload: seq<bv8>, k: nat, b: bv8)
    requires Fits(|mem|, name, |payload|)
    requires |name| <= k < |name| + CrcSize + |payload|
    requires b != SavedImage(mem, name, payload)[k]
    ensures LoadRecord(SavedImage(mem, name, payload)[k := b], name, |payload|) == None
  {
    var img := SavedImage(mem, name, payload);
    var corrupt := img[k := b];
    var dataStart := |name| + CrcSize;
    var crc := CrcOf(payload);
    assert img[|name|..dataStart] == LeBytes(crc);
    assert img[dataStart..dataStart + |payload|] == payload;
    assert corrupt[..|name|] == img[..|name|] == name;
    var stored := corrupt[|name|..dataStart];
    var data := corrupt[dataStart..dataStart + |payload|];
    if k < dataStart {
      assert data == payload;
      assert stored == LeBytes(crc)[k - |name| := b];
      assert stored[k - |name|] != LeBytes(crc)[k - |name|];
      LeBytesOfFromLe(stored);
    } else {
      assert stored == LeBytes(crc);
      LeRoundTrip(crc);
      assert data == payload[k - dataStart := b];
      CrcDetectsOneByteChange(payload, k - dataStart, b);
    }
  }

  /** Saving writes only the record's bytes; every later byte is unchanged. */
  lemma SaveLeavesRestUnchanged(mem: seq<bv8>, name: seq<bv8>, payload: seq<bv8>, i: nat)
    requires Fits(|mem|, name, |payload|)
    requires |name| + CrcSize + |payload| <= i < |mem|
    ensures SavedImage(mem, name, payload)[i] == mem[i]
  {
  }
}
