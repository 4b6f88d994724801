/**
 * The Ethernet addresses of the sensor server: a locally administered
 * unicast MAC address and a link-local IPv4 address (169.254.c.d), both
 * drawn from the analog noise generator, and kept in the EEPROM record store
 * under the name "addrs".
 *
 * The struct image stored in the EEPROM is the four IP octets followed by
 * the six MAC bytes.
 */
module SensorAddresses {
  import opened Common
  import opened AnalogRandom
  import opened EepromStore

  const MacSize: nat := 6
  const IpSize: nat := 4
  const ImageSize: nat := IpSize + MacSize

  /** `kName`: "addrs", the characters before the NUL. */
  const Name: seq<bv8> := [0x61, 0x64, 0x64, 0x72, 0x73]

  /** Storing an `int` in [0, 255] into a `byte`. */
  function ToByte(x: int): bv8
    requires 0 <= x < 256
  {
    x as bv8
  }

  // ---------------------------------------------------------------------
  // Draws, as seen from the addresses code.

  /** The value one call returns, and the generator state after it. */
  datatype Draw = Draw(value: int, pin: nat, read: nat)

  /** `randomByte()` with the default budget, from cursor `pin` after `read` conversions. */
  function DrawByte(hw: Hardware, pin: nat, read: nat): (d: Draw)
    requires ValidHardware(hw) && pin < |hw.pins|
    ensures d.pin < |hw.pins| && -1 <= d.value < 256
  {
    var bits := DrawBits(hw, pin, read, DefaultReadLimit, 8);
    if bits.failed then Draw(-1, bits.pin, read + 2 * bits.attempts)
    else
      ByteMask(bits.bits);
      Draw(PackBits(bits.bits), bits.pin, read + 2 * bits.attempts)
  }

  /**
   * `random32()` with the default budget, as written: eight bits, so the
   * value is below 256; 0 when a bit fails.
   */
  function DrawRandom32(hw: Hardware, pin: nat, read: nat): (d: Draw)
    requires ValidHardware(hw) && pin < |hw.pins|
    ensures d.pin < |hw.pins| && 0 <= d.value < 256
  {
    var bits := DrawBits(hw, pin, read, DefaultReadLimit, 8);
    if bits.failed then Draw(0, bits.pin, read + 2 * bits.attempts)
    else
      ByteMask(bits.bits);
      Draw(PackBits(bits.bits), bits.pin, read + 2 * bits.attempts)
  }

  /** Bytes drawn one after another, stopping at the first failure. */
  datatype BytesDraw = BytesDraw(bytes: seq<bv8>, failed: bool, pin: nat, read: nat)

  /** `randomByte()` calls after the bytes `drawn`, until there are `count` bytes or one fails. */
  function DrawBytesFrom(hw: Hardware, pin: nat, read: nat, count: nat, drawn: seq<bv8>): (d: BytesDraw)
    requires ValidHardware(hw) && pin < |hw.pins| && |drawn| <= count
    ensures d.pin < |hw.pins|
    ensures |d.bytes| <= count
    ensures !d.failed ==> |d.bytes| == count
    decreases count - |drawn|, read  // `read` only keeps calls with constant arguments from being unrolled
  {
    if |drawn| == count then BytesDraw(drawn, false, pin, read)
    else
      var b := DrawByte(hw, pin, read);
      if b.value < 0 then BytesDraw(drawn, true, b.pin, b.read)
      else DrawBytesFrom(hw, b.pin, b.read, count, drawn + [ToByte(b.value)])
  }

  lemma DrawBytesStep(hw: Hardware, pin: nat, read: nat, count: nat, drawn: seq<bv8>,
                      value: int, pin': nat, read': nat)
    requires ValidHardware(hw) && pin < |hw.pins| && |drawn| < count
    requires DrawByte(hw, pin, read) == Draw(value, pin', read')
    ensures value < 0 ==> DrawBytesFrom(hw, pin, read, count, drawn) == BytesDraw(drawn, true, pin', read')
    ensures 0 <= value < 256 && pin' < |hw.pins| ==>
      DrawBytesFrom(hw, pin, read, count, drawn) == DrawBytesFrom(hw, pin', read', count, drawn + [ToByte(value)])
  {
  }

  // ---------------------------------------------------------------------
  // The MAC address.

  /** `mac[0] |= 2; mac[0] &= ~1;`: set the locally-administered bit, clear the multicast bit. */
  function LocalUnicast(b: bv8): bv8 {
    (b | 2) & !1
  }

  /**
   * The first octet of the address is locally administered (bit 1 set) and
   * unicast (bit 0 clear), as clause 8.2 of IEEE Std 802-2014 defines those
   * bits; the other six bits are the drawn ones; an octet that already is
   * locally administered unicast is kept.
   */
  lemma LocalUnicastBits(b: bv8)
    ensures LocalUnicast(b) & 3 == 2
    ensures LocalUnicast(b) & 0xfc == b & 0xfc
    ensures b & 3 == 2 <==> LocalUnicast(b) == b
  {
  }

  /** The MAC address made from six drawn bytes. */
  function MacFromBytes(bytes: seq<bv8>): (mac: seq<bv8>)
    requires |bytes| == MacSize
    ensures |mac| == MacSize
  {
    [LocalUnicast(bytes[0])] + bytes[1..]
  }

  /**
   * A picked MAC address is a locally administered unicast one, and it keeps
   * every drawn bit except the two it fixes.
   */
  lemma PickedMacIsLocalUnicast(bytes: seq<bv8>)
    requires |bytes| == MacSize
    ensures var mac := MacFromBytes(bytes);
      mac[0] & 3 == 2 && mac[0] & 0xfc == bytes[0] & 0xfc && mac[1..] == bytes[1..]
  {
    LocalUnicastBits(bytes[0]);
  }

  /** What `pickMACAddress` draws: six bytes, or fewer and a failure. */
  function PickMac(hw: Hardware, pin: nat, read: nat): (d: BytesDraw)
    requires ValidHardware(hw) && pin < |hw.pins|
    ensures d.pin < |hw.pins|
    ensures |d.bytes| <= MacSize && (!d.failed ==> |d.bytes| == MacSize)
  {
    DrawBytesFrom(hw, pin, read, MacSize, [])
  }

  /** `all` is the bytes `drawn` so far followed by the draws of the rest of `count` bytes from the generator's current state. */
  ghost predicate Tracks(rng: AnalogRandomClass, all: BytesDraw, count: nat, drawn: seq<bv8>)
    reads rng
    requires rng.Valid()
  {
    |drawn| <= count && all == DrawBytesFrom(rng.hw, rng.nextPin, rng.conversions, count, drawn)
  }

  /** One `randomByte()` call, seen against the byte draw `all` it is part of. */
  method NextByte(rng: AnalogRandomClass, ghost count: nat, ghost drawn: seq<bv8>, ghost all: BytesDraw)
    returns (r: int)
    requires rng.Valid() && |drawn| < count && Tracks(rng, all, count, drawn)
    modifies rng
    ensures rng.Valid() && rng.arduinoSeed == old(rng.arduinoSeed)
    ensures r < 256
    ensures r < 0 ==> all == BytesDraw(drawn, true, rng.nextPin, rng.conversions)
    ensures r >= 0 ==> Tracks(rng, all, count, drawn + [ToByte(r)])
  {
    r := rng.RandomByte(DefaultReadLimit);
    DrawBytesStep(rng.hw, old(rng.nextPin), old(rng.conversions), count, drawn, r, rng.nextPin, rng.conversions);
  }

  /**
   * The loop of `pickMACAddress`: six `randomByte()` calls fill `mac`; the
   * first failure stops it, leaving the bytes drawn so far written.
   */
  method DrawMacBytes(mac: array<bv8>, rng: AnalogRandomClass) returns (ok: bool)
    requires mac.Length == MacSize && rng.Valid()
    modifies mac, rng
    ensures rng.Valid() && rng.arduinoSeed == old(rng.arduinoSeed)
    ensures var d := PickMac(rng.hw, old(rng.nextPin), old(rng.conversions));
      rng.nextPin == d.pin && rng.conversions == d.read && ok == !d.failed &&
      mac[..] == d.bytes + old(mac[|d.bytes|..])
  {
    ghost var all := PickMac(rng.hw, rng.nextPin, rng.conversions);
    var i := 0;
    assert mac[..i] == [];
    while i < MacSize
      invariant 0 <= i <= MacSize
      invariant rng.Valid() && rng.arduinoSeed == old(rng.arduinoSeed)
      invariant Tracks(rng, all, MacSize, mac[..i])
      invariant mac[i..] == old(mac[i..])
    {
      ghost var drawn := mac[..i];
      var r := NextByte(rng, MacSize, drawn, all);
      if r < 0 {
        assert mac[..] == mac[..i] + mac[i..];
        return false;
      }
      mac[i] := ToByte(r);
      assert mac[..i + 1] == drawn + [ToByte(r)];
      i := i + 1;
    }
    assert mac[..] == mac[..i];
    return true;
  }

  /**
   * `pickMACAddress`: six drawn bytes fill `mac`, or it returns false at the
   * first failure with the bytes drawn so far written; on success the first
   * byte is made locally administered unicast.
   */
  method PickMacAddress(mac: array<bv8>, rng: AnalogRandomClass) returns (ok: bool)
    requires mac.Length == MacSize && rng.Valid()
    modifies mac, rng
    ensures rng.Valid() && rng.arduinoSeed == old(rng.arduinoSeed)
    ensures var d := PickMac(rng.hw, old(rng.nextPin), old(rng.conversions));
      rng.nextPin == d.pin && rng.conversions == d.read && ok == !d.failed &&
      (ok ==> mac[..] == MacFromBytes(d.bytes)) &&
      (!ok ==> mac[..] == d.bytes + old(mac[|d.bytes|..]))
  {
    ok := DrawMacBytes(mac, rng);
    if !ok {
      return;
    }
    ghost var bytes := mac[..];
    mac[0] := mac[0] | 2;
    mac[0] := mac[0] & !1;
    assert mac[..] == [LocalUnicast(bytes[0])] + bytes[1..];
  }

  // ---------------------------------------------------------------------
  // The IPv4 address.

  /** The third octet from the first draw: shifted right by one, then `% 254 + 1`. */
  function ThirdOctet(r1: u32): int {
    (r1 / 2) % 254 + 1
  }

  /**
   * The fourth octet from the second draw: shifted right by one, then
   * `& 0xff`, which on an unsigned value keeps the remainder by 256.
   */
  function FourthOctet(r2: u32): int {
    (r2 / 2) % 256
  }

  /**
   * The third octet keeps the address in the range section 2.1 of RFC 3927
   * gives link-local addresses, 169.254.1.0 to 169.254.254.255, and the
   * fourth is a byte.
   */
  lemma OctetsInRange(r1: u32, r2: u32)
    ensures 1 <= ThirdOctet(r1) <= 254 && 0 <= FourthOctet(r2) < 256
  {
  }

  /** 169.254.c.d from two nonzero draws. */
  function LinkLocal(r1: u32, r2: u32): (ip: seq<bv8>)
    ensures |ip| == IpSize
  {
    OctetsInRange(r1, r2);
    [169, 254, ToByte(ThirdOctet(r1)), ToByte(FourthOctet(r2))]
  }

  /**
   * With full 32-bit draws, as `random32`'s header promises, every octet
   * value that range allows can be picked, from nonzero draws.
   */
  lemma OctetsReachRange(c: int, d: int)
    requires 1 <= c <= 254 && 0 <= d < 256
    ensures exists r1: u32, r2: u32 :: r1 != 0 && r2 != 0 && ThirdOctet(r1) == c && FourthOctet(r2) == d
  {
    var r1: u32 := 2 * (c - 1) + 1;
    var r2: u32 := 2 * d + 1;
    assert ThirdOctet(r1) == c && FourthOctet(r2) == d;
  }

  /**
   * With draws below 256, all that `random32` as written can return, the
   * third octet never exceeds 128 and the fourth never exceeds 127.
   */
  lemma ByteDrawsNarrowOctets(r1: u32, r2: u32)
    requires r1 < 256 && r2 < 256
    ensures ThirdOctet(r1) <= 128 && FourthOctet(r2) <= 127
  {
  }

  /**
   * What `pickIPAddress` draws: a zero first draw fails before the second
   * is made; a zero second draw fails too; the octets are empty on failure.
   */
  function PickIp(hw: Hardware, pin: nat, read: nat): (d: BytesDraw)
    requires ValidHardware(hw) && pin < |hw.pins|
    ensures d.pin < |hw.pins|
    ensures d.failed <==> d.bytes == []
    ensures !d.failed ==> |d.bytes| == IpSize
  {
    var w1 := DrawRandom32(hw, pin, read);
    if w1.value == 0 then BytesDraw([], true, w1.pin, w1.read)
    else
      var w2 := DrawRandom32(hw, w1.pin, w1.read);
      if w2.value == 0 then BytesDraw([], true, w2.pin, w2.read)
      else BytesDraw(LinkLocal(w1.value, w2.value), false, w2.pin, w2.read)
  }

  /** 169.254.c.d with c in [1, 254]: the link-local range of section 2.1 of RFC 3927. */
  predicate LinkLocalOctets(ip: seq<bv8>) {
    exists c: int, d: int :: 1 <= c <= 254 && 0 <= d < 256 && ip == [169, 254, ToByte(c), ToByte(d)]
  }

  /** 169.254.c.d with c at most `maxC` and d at most `maxD`. */
  predicate OctetsAtMost(ip: seq<bv8>, maxC: int, maxD: int) {
    exists c: int, d: int :: 1 <= c <= maxC && 0 <= d <= maxD && c < 256 && d < 256 &&
      ip == [169, 254, ToByte(c), ToByte(d)]
  }

  /**
   * A picked IP address is always a link-local one; with `random32` as
   * written it is confined to 169.254.1.0 to 169.254.128.127.
   */
  lemma PickedIpIsLinkLocal(hw: Hardware, pin: nat, read: nat)
    requires ValidHardware(hw) && pin < |hw.pins|
    ensures var d := PickIp(hw, pin, read);
      !d.failed ==> LinkLocalOctets(d.bytes) && OctetsAtMost(d.bytes, 128, 127)
  {
    var w1 := DrawRandom32(hw, pin, read);
    var w2 := DrawRandom32(hw, w1.pin, w1.read);
    OctetsInRange(w1.value, w2.value);
    ByteDrawsNarrowOctets(w1.value, w2.value);
    var c, d := ThirdOctet(w1.value), FourthOctet(w2.value);
    assert LinkLocal(w1.value, w2.value) == [169, 254, ToByte(c), ToByte(d)];
  }

  /** `pickIPAddress`: two `random32()` draws, each required nonzero; `ip` is written only on success. */
  method PickIpAddress(ip: array<bv8>, rng: AnalogRandomClass) returns (ok: bool)
    requires ip.Length == IpSize && rng.Valid()
    modifies ip, rng
    ensures rng.Valid() && rng.arduinoSeed == old(rng.arduinoSeed)
    ensures var d := PickIp(rng.hw, old(rng.nextPin), old(rng.conversions));
      rng.nextPin == d.pin && rng.conversions == d.read && ok == !d.failed &&
      ip[..] == if ok then d.bytes else old(ip[..])
  {
    var r := rng.Random32(DefaultReadLimit);
    if r == 0 {
      return false;
    }
    r := r / 2;
    var c := (r % 254) + 1;
    r := rng.Random32(DefaultReadLimit);
    if r == 0 {
      return false;
    }
    r := r / 2;
    var d := r % 256;
    ip[0] := 169;
    ip[1] := 254;
    ip[2] := ToByte(c);
    ip[3] := ToByte(d);
    return true;
  }

  // ---------------------------------------------------------------------
  // The struct and its persistence.

  /** `struct Addresses`: the IPv4 address and the MAC address. */
  class Addresses {
    const ip: array<bv8>
    const mac: array<bv8>

    predicate Valid()
      reads this
    {
      ip.Length == IpSize && mac.Length == MacSize
    }

    constructor ()
      ensures Valid() && fresh(ip) && fresh(mac)
    {
      ip := new bv8[IpSize];
      mac := new bv8[MacSize];
    }

    /** The bytes of the struct as the record store sees them. */
    function Image(): (img: seq<bv8>)
      reads this, ip, mac
      requires Valid()
      ensures |img| == ImageSize && img[..IpSize] == ip[..] && img[IpSize..] == mac[..]
    {
      ip[..] + mac[..]
    }

    /** The struct's bytes in a fresh buffer (what `reinterpret_cast` exposes). */
    method ToBytes() returns (buf: array<bv8>)
      requires Valid()
      ensures fresh(buf) && buf[..] == Image()
    {
      buf := new bv8[ImageSize];
      forall i | 0 <= i < IpSize {
        buf[i] := ip[i];
      }
      forall i | IpSize <= i < ImageSize {
        buf[i] := mac[i - IpSize];
      }
    }

    /** Overwrite the struct with the first `ImageSize` bytes of `buf`. */
    method FromBytes(buf: array<bv8>)
      requires Valid() && ImageSize <= buf.Length
      modifies ip, mac
      ensures Image() == buf[..ImageSize]
    {
      assert buf.Length != ip.Length && buf.Length != mac.Length;
      forall i | 0 <= i < IpSize {
        ip[i] := buf[i];
      }
      forall i | 0 <= i < MacSize {
        mac[i] := buf[IpSize + i];
      }
    }

    /** `Addresses::save`: store the struct under "addrs". */
    method Save(eeprom: array<bv8>)
      requires Valid() && Fits(eeprom.Length, Name, ImageSize)
      modifies eeprom
      ensures eeprom[..] == SavedImage(old(eeprom[..]), Name, old(Image()))
    {
      var src := ToBytes();
      assert src[..ImageSize] == src[..];
      SaveBytes(eeprom, Name, src, ImageSize);
    }

    /**
     * `Addresses::load`: restore the struct from the record named "addrs";
     * false, with the struct untouched, when the name or the CRC does not match.
     */
    method Load(eeprom: array<bv8>) returns (ok: bool)
      requires Valid() && Fits(eeprom.Length, Name, ImageSize)
      modifies ip, mac
      ensures var stored := LoadRecord(eeprom[..], Name, ImageSize);
        ok == stored.Some? && Image() == if ok then stored.value else old(Image())
    {
      assert eeprom.Length != ip.Length && eeprom.Length != mac.Length;
      ghost var stored := LoadRecord(eeprom[..], Name, ImageSize);
      var dest := new bv8[ImageSize];
      ok := ReadBytes(eeprom, Name, ImageSize, dest);
      if ok {
        assert dest[..ImageSize] == stored.value;
        FromBytes(dest);
      }
    }

    /**
     * `Addresses::generateAddresses`: with a fresh generator (cursor at the
     * first pin) reading the analog noise `hw`, pick the MAC address and,
     * only if that succeeds, the IP address.
     */
    method GenerateAddresses(hw: Hardware) returns (ok: bool)
      requires Valid() && ValidHardware(hw)
      modifies ip, mac
      ensures var m := PickMac(hw, 0, 0);
        if m.failed then
          !ok && mac[..] == m.bytes + old(mac[|m.bytes|..]) && ip[..] == old(ip[..])
        else
          var p := PickIp(hw, m.pin, m.read);
          ok == !p.failed && mac[..] == MacFromBytes(m.bytes) &&
          ip[..] == if ok then p.bytes else old(ip[..])
    {
      var rng := new AnalogRandomClass(hw);
      ok := PickMacAddress(mac, rng);
      if !ok {
        return;
      }
      ok := PickIpAddress(ip, rng);
    }
  }

  /**
   * Renaming the record (say to "Addrs") invalidates what was stored under
   * "addrs": a load under another name of the same length fails.
   */
  lemma RenamedRecordUnreadable(mem: seq<bv8>, image: seq<bv8>, other: seq<bv8>)
    requires |image| == ImageSize && Fits(|mem|, Name, ImageSize)
    requires |other| == |Name| && other != Name
    ensures LoadRecord(SavedImage(mem, Name, image), other, ImageSize) == None
  {
    var i :| 0 <= i < |Name| && other[i] != Name[i];
    OtherNameRejected(mem, Name, image, other, ImageSize, i);
  }
}
