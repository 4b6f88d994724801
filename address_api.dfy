/**
 * The address API of the utilities library: an OUI prefix for locally
 * administered MAC addresses, a MAC address and an IPv4 address that save
 * themselves to and read themselves from the EEPROM while feeding a CRC
 * accumulator, and the pair of addresses, loaded from the record store,
 * checked against a prefix, or generated and stored.
 *
 * Only the interface of this API is published; the bodies here are one
 * implementation of it, built on the record format of the sensor server
 * (name | CRC | IP octets | MAC bytes, under the name "addrs"), and the
 * contracts state what the interface documents.
 */
module AddressApi {
  import opened Common
  import opened Crc32
  import opened AnalogRandom
  import opened EepromStore
  import opened SensorAddresses

  const OuiSize: nat := 3

  /**
   * `OuiPrefix`: the first three bytes of a MAC address that is not globally
   * unique; the first one is locally administered and unicast.
   */
  datatype OuiPrefix = OuiPrefix(bytes: seq<bv8>)

  predicate ValidOui(p: OuiPrefix) {
    |p.bytes| == OuiSize && p.bytes[0] & 3 == 2
  }

  type Oui = p: OuiPrefix | ValidOui(p) witness OuiPrefix([2, 0, 0])

  /**
   * `OuiPrefix(a, b, c)`: the constructor sets the locally administered bit
   * and clears the multicast bit of the first byte and keeps the rest.
   */
  function MakeOuiPrefix(a: bv8, b: bv8, c: bv8): (p: Oui)
    ensures p.bytes[0] & 3 == 2
    ensures p.bytes[0] & 0xfc == a & 0xfc && p.bytes[1] == b && p.bytes[2] == c
  {
    LocalUnicastBits(a);
    OuiPrefix([LocalUnicast(a), b, c])
  }

  /** `mem` with `bytes` written from address `at`. */
  function WriteAt(mem: seq<bv8>, at: nat, bytes: seq<bv8>): (r: seq<bv8>)
    requires at + |bytes| <= |mem|
    ensures |r| == |mem|
  {
    mem[..at] + bytes + mem[at + |bytes|..]
  }

  /** Reading back what was written at `at` gives the bytes written, and nothing else moved. */
  lemma WriteAtReadBack(mem: seq<bv8>, at: nat, bytes: seq<bv8>, i: nat)
    requires at + |bytes| <= |mem| && i < |mem|
    ensures WriteAt(mem, at, bytes)[at..at + |bytes|] == bytes
    ensures !(at <= i < at + |bytes|) ==> WriteAt(mem, at, bytes)[i] == mem[i]
  {
    var r := WriteAt(mem, at, bytes);
    assert r[at..at + |bytes|] == bytes;
  }

  /**
   * Write `bytes` to the EEPROM from `at`, appending each to `crc`; the
   * address after them is returned.
   */
  method SaveField(eeprom: array<bv8>, at: nat, bytes: seq<bv8>, crc: Crc) returns (next: nat)
    requires at + |bytes| <= eeprom.Length
    modifies eeprom, crc
    ensures next == at + |bytes|
    ensures eeprom[..] == WriteAt(old(eeprom[..]), at, bytes)
    ensures crc.value == CrcFrom(old(crc.value), bytes)
  {
    var i := 0;
    while i < |bytes|
      invariant 0 <= i <= |bytes|
      invariant eeprom[..at] == old(eeprom[..at])
      invariant eeprom[at..at + i] == bytes[..i]
      invariant eeprom[at + i..] == old(eeprom[at + i..])
      invariant crc.value == CrcFrom(old(crc.value), bytes[..i])
    {
      eeprom[at + i] := bytes[i];
      crc.AppendByte(bytes[i]);
      CrcFromSnoc(old(crc.value), bytes[..i], bytes[i]);
      assert bytes[..i + 1] == bytes[..i] + [bytes[i]];
      assert eeprom[at..at + i + 1] == eeprom[at..at + i] + [eeprom[at + i]];
      i := i + 1;
    }
    assert bytes[..i] == bytes;
    assert eeprom[..] == eeprom[..at] + eeprom[at..at + |bytes|] + eeprom[at + |bytes|..];
    return at + |bytes|;
  }

  /**
   * Fill `dest` from the EEPROM at `at`, appending each byte to `crc`; the
   * address after them is returned.
   */
  method ReadField(eeprom: array<bv8>, at: nat, dest: array<bv8>, crc: Crc) returns (next: nat)
    requires dest != eeprom && at + dest.Length <= eeprom.Length
    modifies dest, crc
    ensures next == at + dest.Length
    ensures dest[..] == eeprom[at..at + dest.Length]
    ensures crc.value == CrcFrom(old(crc.value), dest[..])
  {
    var i := 0;
    while i < dest.Length
      invariant 0 <= i <= dest.Length
      invariant dest[..i] == eeprom[at..at + i]
      invariant crc.value == CrcFrom(old(crc.value), dest[..i])
    {
      dest[i] := eeprom[at + i];
      crc.AppendByte(dest[i]);
      CrcFromSnoc(old(crc.value), dest[..i], dest[i]);
      assert dest[..i + 1] == dest[..i] + [dest[i]];
      i := i + 1;
    }
    assert dest[..i] == dest[..];
    return at + dest.Length;
  }

  /** `struct MacAddress`: six bytes. */
  class MacAddress {
    const mac: array<bv8>

    predicate Valid()
      reads this
    {
      mac.Length == MacSize
    }

    constructor ()
      ensures Valid() && fresh(mac)
    {
      mac := new bv8[MacSize];
    }

    /** `save`: write the six bytes at `toAddress`, feeding `crc`; returns the address after them. */
    method Save(eeprom: array<bv8>, toAddress: nat, crc: Crc) returns (next: nat)
      requires Valid() && eeprom != mac && toAddress + MacSize <= eeprom.Length
      modifies eeprom, crc
      ensures next == toAddress + MacSize
      ensures eeprom[..] == WriteAt(old(eeprom[..]), toAddress, mac[..])
      ensures crc.value == CrcFrom(old(crc.value), mac[..])
    {
      next := SaveField(eeprom, toAddress, mac[..], crc);
    }

    /** `read`: restore the six bytes from `fromAddress`, feeding `crc`; returns the address after them. */
    method Read(eeprom: array<bv8>, fromAddress: nat, crc: Crc) returns (next: nat)
      requires Valid() && eeprom != mac && fromAddress + MacSize <= eeprom.Length
      modifies mac, crc
      ensures next == fromAddress + MacSize
      ensures mac[..] == eeprom[fromAddress..fromAddress + MacSize]
      ensures crc.value == CrcFrom(old(crc.value), mac[..])
    {
      next := ReadField(eeprom, fromAddress, mac, crc);
    }

    /** `hasOuiPrefix`: the first three bytes are the prefix. */
    predicate HasOuiPrefix(p: Oui)
      reads this, mac
      requires Valid()
      ensures HasOuiPrefix(p) <==> mac[..OuiSize] == p.bytes
    {
      mac[0] == p.bytes[0] && mac[1] == p.bytes[1] && mac[2] == p.bytes[2]
    }

    /** `operator==`: byte by byte. */
    predicate Equals(other: MacAddress)
      reads this, mac, other, other.mac
      requires Valid() && other.Valid()
      ensures Equals(other) <==> mac[..] == other.mac[..]
    {
      forall i :: 0 <= i < MacSize ==> mac[i] == other.mac[i]
    }

    /**
     * `generateAddress`: draw a locally administered unicast address and,
     * when a prefix is given, put the prefix in its first three bytes; false
     * when the randomness ran out. All six bytes are drawn even when a prefix
     * then overwrites three of them, so a prefix does not save any draws.
     * The header declares this operation without implementing it; the body
     * here is the model's own reading of that declaration.
     */
    method GenerateAddress(oui: Option<Oui>, rng: AnalogRandomClass) returns (ok: bool)
      requires Valid() && rng.Valid()
      modifies mac, rng
      ensures rng.Valid() && rng.arduinoSeed == old(rng.arduinoSeed)
      ensures var d := PickMac(rng.hw, old(rng.nextPin), old(rng.conversions));
        rng.nextPin == d.pin && rng.conversions == d.read && ok == !d.failed &&
        (ok ==> mac[..] == (if oui.Some? then oui.value.bytes + MacFromBytes(d.bytes)[OuiSize..]
                            else MacFromBytes(d.bytes)))
      ensures ok ==> mac[0] & 3 == 2
      ensures ok && oui.Some? ==> HasOuiPrefix(oui.value)
    {
      ok := PickMacAddress(mac, rng);
      if !ok {
        return;
      }
      ghost var picked := mac[..];
      PickedMacIsLocalUnicast(PickMac(rng.hw, old(rng.nextPin), old(rng.conversions)).bytes);
      if oui.Some? {
        var prefix := oui.value.bytes;
        mac[0] := prefix[0];
        mac[1] := prefix[1];
        mac[2] := prefix[2];
        assert mac[..] == prefix + picked[OuiSize..];
      }
    }
  }

  /** `SaveableIPAddress`: the four octets. */
  class SaveableIpAddress {
    const octets: array<bv8>

    predicate Valid()
      reads this
    {
      octets.Length == IpSize
    }

    constructor ()
      ensures Valid() && fresh(octets)
    {
      octets := new bv8[IpSize];
    }

    /** `save`: write the four octets at `toAddress`, feeding `crc`; returns the address after them. */
    method Save(eeprom: array<bv8>, toAddress: nat, crc: Crc) returns (next: nat)
      requires Valid() && eeprom != octets && toAddress + IpSize <= eeprom.Length
      modifies eeprom, crc
      ensures next == toAddress + IpSize
      ensures eeprom[..] == WriteAt(old(eeprom[..]), toAddress, octets[..])
      ensures crc.value == CrcFrom(old(crc.value), octets[..])
    {
      next := SaveField(eeprom, toAddress, octets[..], crc);
    }

    /** `read`: restore the four octets from `fromAddress`, feeding `crc`; returns the address after them. */
    method Read(eeprom: array<bv8>, fromAddress: nat, crc: Crc) returns (next: nat)
      requires Valid() && eeprom != octets && fromAddress + IpSize <= eeprom.Length
      modifies octets, crc
      ensures next == fromAddress + IpSize
      ensures octets[..] == eeprom[fromAddress..fromAddress + IpSize]
      ensures crc.value == CrcFrom(old(crc.value), octets[..])
    {
      next := ReadField(eeprom, fromAddress, octets, crc);
    }
  }

  /**
   * What `Addresses::load` accepts in `mem`: the stored image when the name
   * and the CRC match and, if a prefix is given, the stored MAC address
   * carries it.
   */
  function LoadAddresses(mem: seq<bv8>, oui: Option<Oui>): (r: Option<seq<bv8>>)
    requires Fits(|mem|, Name, ImageSize)
    ensures r.Some? ==> |r.value| == ImageSize && LoadRecord(mem, Name, ImageSize) == r
    ensures r.Some? && oui.Some? ==> r.value[IpSize..IpSize + OuiSize] == oui.value.bytes
  {
    var stored := LoadRecord(mem, Name, ImageSize);
    if stored.None? then None
    else if oui.Some? && stored.value[IpSize..IpSize + OuiSize] != oui.value.bytes then None
    else stored
  }

  /**
   * Saved addresses load back, under any prefix they carry and under no
   * prefix; under a prefix they do not carry they are rejected.
   */
  lemma SavedAddressesLoad(mem: seq<bv8>, image: seq<bv8>, oui: Option<Oui>)
    requires |image| == ImageSize && Fits(|mem|, Name, ImageSize)
    ensures LoadAddresses(SavedImage(mem, Name, image), oui) ==
      if oui.None? || image[IpSize..IpSize + OuiSize] == oui.value.bytes then Some(image) else None
  {
    SaveThenLoad(mem, Name, image);
  }

  /**
   * The EEPROM states `Addresses::save` passes through: the name, the two
   * addresses after the reserved CRC slot, then the CRC in its slot; the
   * result is the record followed by the untouched rest.
   */
  lemma SaveLayout(mem: seq<bv8>, named: seq<bv8>, withIp: seq<bv8>, withMac: seq<bv8>, done: seq<bv8>,
                   ipBytes: seq<bv8>, macBytes: seq<bv8>, crcBytes: seq<bv8>)
    requires |ipBytes| == IpSize && |macBytes| == MacSize && |crcBytes| == CrcSize
    requires Fits(|mem|, Name, ImageSize)
    requires named == Name + mem[|Name|..]
    requires withIp == WriteAt(named, |Name| + CrcSize, ipBytes)
    requires withMac == WriteAt(withIp, |Name| + CrcSize + IpSize, macBytes)
    requires done == withMac[..|Name|] + crcBytes + withMac[|Name| + CrcSize..]
    ensures done == Name + crcBytes + (ipBytes + macBytes) + mem[|Name| + CrcSize + ImageSize..]
  {
    var ipAt := |Name| + CrcSize;
    var macAt := ipAt + IpSize;
    var rest := mem[macAt + MacSize..];
    assert withIp == named[..ipAt] + ipBytes + named[macAt..];
    assert withIp[..macAt] == named[..ipAt] + ipBytes;
    assert withIp[macAt + MacSize..] == rest;
    assert withMac == withIp[..macAt] + macBytes + withIp[macAt + MacSize..];
    assert withMac[..|Name|] == Name;
    assert withMac[ipAt..] == ipBytes + macBytes + rest;
  }

  lemma SliceSplit(s: seq<bv8>, i: nat, j: nat, k: nat)
    requires i <= j <= k <= |s|
    ensures s[i..k] == s[i..j] + s[j..k]
  {
  }

  /**
   * The name check of `load`, character by character from address 0; a
   * mismatch means no record is there to load.
   */
  method NameStored(eeprom: array<bv8>) returns (matches: bool)
    requires Fits(eeprom.Length, Name, ImageSize)
    ensures matches <==> eeprom[..|Name|] == Name
    ensures !matches ==> LoadRecord(eeprom[..], Name, ImageSize) == None
  {
    var i := 0;
    while i < |Name|
      invariant 0 <= i <= |Name|
      invariant eeprom[..i] == Name[..i]
    {
      if eeprom[i] != Name[i] {
        NameMismatchRejected(eeprom[..], Name, ImageSize, i);
        return false;
      }
      assert eeprom[..i + 1] == eeprom[..i] + [eeprom[i]];
      i := i + 1;
    }
    return true;
  }

  /** `struct Addresses`: the IPv4 address and the MAC address. */
  class Addresses {
    const ip: SaveableIpAddress
    const mac: MacAddress

    predicate Valid()
      reads this, ip, mac
    {
      ip.Valid() && mac.Valid() && ip.octets != mac.mac
    }

    constructor ()
      ensures Valid() && fresh(ip) && fresh(ip.octets) && fresh(mac) && fresh(mac.mac)
    {
      ip := new SaveableIpAddress();
      mac := new MacAddress();
    }

    /** The bytes of the struct as the record store sees them. */
    function Image(): (img: seq<bv8>)
      reads this, ip, mac, ip.octets, mac.mac
      requires Valid()
      ensures |img| == ImageSize && img[..IpSize] == ip.octets[..] && img[IpSize..] == mac.mac[..]
    {
      ip.octets[..] + mac.mac[..]
    }

    /** The EEPROM is neither of the struct's arrays. */
    predicate Apart(eeprom: array<bv8>)
      reads this, ip, mac
    {
      eeprom != ip.octets && eeprom != mac.mac
    }

    /**
     * `save`: the record from address 0: the name, the CRC of the two
     * addresses, the IP octets and the MAC bytes.
     */
    method Save(eeprom: array<bv8>)
      requires Valid() && Apart(eeprom) && Fits(eeprom.Length, Name, ImageSize)
      modifies eeprom
      ensures eeprom[..] == SavedImage(old(eeprom[..]), Name, Image())
    {
      ghost var mem := eeprom[..];
      var at := PutName(eeprom, Name);
      ghost var named := eeprom[..];
      var crcAt := at;
      at := at + CrcSize;
      var crc := new Crc();
      at := ip.Save(eeprom, at, crc);
      ghost var withIp := eeprom[..];
      at := mac.Save(eeprom, at, crc);
      ghost var withMac := eeprom[..];
      CrcFromAppend(InitialValue, ip.octets[..], mac.mac[..]);
      assert crc.value == CrcOf(Image());
      PutCrc(eeprom, crcAt, crc.value);
      SaveLayout(mem, named, withIp, withMac, eeprom[..], ip.octets[..], mac.mac[..], LeBytes(crc.value));
    }

    /**
     * `load`: check the name, read the stored CRC, restore both addresses
     * while recomputing the CRC, and compare; then check the prefix if one
     * is given. True exactly when the record loads and carries the prefix,
     * and then the struct holds the stored addresses. The fields are
     * overwritten before the CRC and prefix checks, so once the name matches
     * they hold the stored bytes even when the load then fails.
     */
    method Load(eeprom: array<bv8>, oui: Option<Oui>) returns (ok: bool)
      requires Valid() && Apart(eeprom) && Fits(eeprom.Length, Name, ImageSize)
      modifies ip.octets, mac.mac
      ensures ok == LoadAddresses(eeprom[..], oui).Some?
      ensures ok ==> Image() == LoadAddresses(eeprom[..], oui).value
      ensures eeprom[..|Name|] != Name ==> Image() == old(Image())
      ensures eeprom[..|Name|] == Name ==> Image() == eeprom[|Name| + CrcSize..|Name| + CrcSize + ImageSize]
    {
      var named := NameStored(eeprom);
      if !named {
        return false;
      }
      var storedCrc := GetCrc(eeprom[..], |Name|);
      var computed := ReadImage(eeprom);
      NameMatchDecidedByCrc(eeprom[..], Name, ImageSize);
      if computed != storedCrc {
        return false;
      }
      if oui.Some? && !mac.HasOuiPrefix(oui.value) {
        return false;
      }
      return true;
    }

    /**
     * The field reads of `load`: the IP and then the MAC address from just
     * past the name and the stored CRC, with the CRC of what was read.
     */
    method ReadImage(eeprom: array<bv8>) returns (computed: bv32)
      requires Valid() && Apart(eeprom) && Fits(eeprom.Length, Name, ImageSize)
      modifies ip.octets, mac.mac
      ensures Image() == eeprom[|Name| + CrcSize..|Name| + CrcSize + ImageSize]
      ensures computed == CrcOf(Image())
    {
      ghost var mem := eeprom[..];
      var ipAt := |Name| + CrcSize;
      ghost var macAt := ipAt + IpSize;
      var crc := new Crc();
      var at := ip.Read(eeprom, ipAt, crc);
      at := mac.Read(eeprom, at, crc);
      assert ip.octets[..] == mem[ipAt..macAt];
      assert mac.mac[..] == mem[macAt..macAt + MacSize];
      SliceSplit(mem, ipAt, macAt, macAt + MacSize);
      CrcFromAppend(InitialValue, ip.octets[..], mac.mac[..]);
      computed := crc.value;
    }

    /**
     * `generateAddresses`: a MAC address (with the prefix, if given) and,
     * only if that succeeds, a link-local IP address; false exactly when the
     * randomness ran out.
     */
    method GenerateAddresses(oui: Option<Oui>, rng: AnalogRandomClass) returns (ok: bool)
      requires Valid() && rng.Valid()
      modifies ip.octets, mac.mac, rng
      ensures rng.Valid() && rng.arduinoSeed == old(rng.arduinoSeed)
      ensures var m := PickMac(rng.hw, old(rng.nextPin), old(rng.conversions));
        var p := PickIp(rng.hw, m.pin, m.read);
        ok == (!m.failed && !p.failed) &&
        (ok ==> ip.octets[..] == p.bytes && LinkLocalOctets(p.bytes) && OctetsAtMost(p.bytes, 128, 127))
      ensures ok ==> mac.mac[0] & 3 == 2
      ensures ok && oui.Some? ==> mac.HasOuiPrefix(oui.value)
    {
      ok := mac.GenerateAddress(oui, rng);
      if !ok {
        return;
      }
      ghost var m := PickMac(rng.hw, old(rng.nextPin), old(rng.conversions));
      ok := PickIpAddress(ip.octets, rng);
      if ok {
        PickedIpIsLinkLocal(rng.hw, m.pin, m.read);
      }
    }

    /**
     * `loadOrGenAndSave`: the stored addresses when they load and carry the
     * prefix (the EEPROM is left alone); otherwise new addresses, saved
     * when they could be generated. False exactly when neither happened.
     */
    method LoadOrGenAndSave(eeprom: array<bv8>, oui: Option<Oui>, rng: AnalogRandomClass) returns (ok: bool)
      requires Valid() && Apart(eeprom) && Fits(eeprom.Length, Name, ImageSize) && rng.Valid()
      modifies eeprom, ip.octets, mac.mac, rng
      ensures var loaded := LoadAddresses(old(eeprom[..]), oui);
        if loaded.Some? then
          ok && Image() == loaded.value && eeprom[..] == old(eeprom[..])
        else
          var m := PickMac(rng.hw, old(rng.nextPin), old(rng.conversions));
          ok == (!m.failed && !PickIp(rng.hw, m.pin, m.read).failed) &&
          (ok ==> eeprom[..] == SavedImage(old(eeprom[..]), Name, Image()) &&
                  LoadAddresses(eeprom[..], oui) == Some(Image())) &&
          (!ok ==> eeprom[..] == old(eeprom[..]))
    {
      ghost var mem := eeprom[..];
      ok := Load(eeprom, oui);
      if ok {
        return;
      }
      assert eeprom[..] == mem && LoadAddresses(mem, oui) == None;
      ok := GenerateAddresses(oui, rng);
      if !ok {
        return;
      }
      Save(eeprom);
      SavedAddressesLoad(old(eeprom[..]), Image(), oui);
    }

    /** `operator==`: both addresses equal. */
    predicate Equals(other: Addresses)
      reads this, ip, mac, ip.octets, mac.mac, other, other.ip, other.mac, other.ip.octets, other.mac.mac
      requires Valid() && other.Valid()
      ensures Equals(other) <==> Image() == other.Image()
    {
      ip.octets[..] == other.ip.octets[..] && mac.Equals(other.mac)
    }
  }
}
