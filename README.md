# Arduino sensor utilities, modelled in Dafny

This project models the sequential core of a collection of Arduino sketches and
libraries. Six parts are modelled:

- **Named record store (`sensor_ether_server`).** Records live in EEPROM as
  `name | CRC (4 bytes, little-endian) | payload`, always from address 0. The
  CRC is a nibble-table CRC over the reflected CRC-32 polynomial 0xEDB88320,
  complemented after every byte.
- **Analog entropy source (`sensor_ether_server`).** Von Neumann debiasing of
  the low bit of analog readings, with a round-robin pin cursor, a read budget
  per bit, and most-significant-first assembly of multi-bit values.
- **Ethernet addresses.** A locally administered unicast MAC address (clause
  8.2 of IEEE Std 802-2014) and a link-local IPv4 address 169.254.c.d
  (section 2.1 of RFC 3927). Both are drawn from the entropy source and kept
  in the record store under the name "addrs". The same section covers the
  contract-only address API of the utilities library.
- **Timer-jitter random words.** The watchdog interrupt of `JitterRandom`,
  the three 32-bit hash folds of the Python analysis scripts, and the scripts'
  bucket-counting and memoising evaluator.
- **Times and durations on the 32-bit millisecond clock.** Wrapping
  arithmetic, unit conversions, the split into days, hours, minutes, seconds
  and milliseconds, and zero-padded printing.
- **The `SensorAndLED` object of the DogDetector sketch, in two revisions
  (feb09a, feb09b).** A three-byte threshold record in EEPROM, an LED blink
  state machine, the n-pass sensor reading (under the `min` macro), and edge and duration
  tracking of the trigger state.

AVR widths are modelled explicitly:

- `int` is 16-bit, `long` 32-bit and `char` signed 8-bit.
- Unsigned arithmetic wraps modulo 2^32.
- Signed overflow is taken to wrap as two's complement.

Hardware is replaced as follows:

- `analogRead`, Timer 1 and `random.getrandbits` are oracles: functions from
  the index of the call to the value read.
- EEPROM is an array of bytes.
- `millis()` is a parameter.
- Printed output is returned as a string.

The modules mirror the source files:

- `Common`: word types and modular-arithmetic helpers
- `Crc32`, `EepromStore`: sensor_ether_server/eeprom_io.cpp
- `AnalogRandom`: sensor_ether_server/analog_random.cpp
- `SensorAddresses`: sensor_ether_server/addresses.cpp
- `AddressApi`: utilities/addresses.h
- `JitterRandom`: utilities/jitter_random.cpp
- `JitterHashes`: jitter_random_tester/jitter_random_tester.py
- `HashTester`, `HashEvaluation`: jitter_random_tester/hash_tester.py
- `ArdTimes`: utilities/time.cpp
- `SensorSampling`, `ThresholdRecord`, `LedBlink`: the parts both DogDetector revisions share
- `DogDetectorFeb09b`, `DogDetectorFeb09a`: the two `SensorAndLED` classes

## Model

| member | source | states |
|---|---|---|
| `Crc32.Crc.constructor` | sensor_ether_server/eeprom_io.cpp:28 | a fresh accumulator holds all ones, the CRC of no bytes |
| `Crc32.Crc.AppendByte` | sensor_ether_server/eeprom_io.cpp:19-23 | the accumulator takes one byte step: low-nibble lookup, high-nibble lookup, complement |
| `Crc32.FourRoundsByTable` | sensor_ether_server/eeprom_io.cpp:10-15 | each of the 16 table entries is four bit-serial rounds of polynomial 0xEDB88320 on its index, so a table step equals four rounds |
| `Crc32.AppendStepIsComplementedCrc32Round` | sensor_ether_server/eeprom_io.cpp:19-23 | one byte step is the textbook CRC-32 byte update (eight rounds) followed by a complement |
| `Crc32.AgreesWithTextbookOnOneByte` | sensor_ether_server/eeprom_io.cpp:19-23 | on a single byte the accumulator equals the textbook CRC-32 |
| `Crc32.DiffersFromTextbookOnTwoBytes` | sensor_ether_server/eeprom_io.cpp:19-23 | on the input `00 00` it differs from the textbook CRC-32, because it complements after every byte |
| `Crc32.BitRoundsInjective` | sensor_ether_server/eeprom_io.cpp:10-15 | the bit-serial rounds behind the table lose no information: equal results after n rounds mean equal inputs |
| `Crc32.AppendStepEqualMeansSameFold` | sensor_ether_server/eeprom_io.cpp:19-23 | two byte steps with equal results folded equal values into the accumulator |
| `Crc32.AppendStepInjectiveInByte` | sensor_ether_server/eeprom_io.cpp:19-23 | from one accumulator, different bytes give different results |
| `Crc32.AppendStepInjectiveInAccumulator` | sensor_ether_server/eeprom_io.cpp:19-23 | for one byte, different accumulators give different results |
| `Crc32.CrcFromInjective` | sensor_ether_server/eeprom_io.cpp:19-23 | accumulators that differ keep differing after appending any bytes |
| `Crc32.CrcDetectsOneByteChange` | sensor_ether_server/eeprom_io.cpp:19-23 | replacing any one byte of the input with a different byte changes its CRC |
| `Crc32.CrcFromAppend` | sensor_ether_server/eeprom_io.cpp:31-45 | the CRC of `a + b` is the CRC of `b` continued from the CRC of `a`, so chunking does not matter |
| `EepromStore.LeRoundTrip` | sensor_ether_server/eeprom_io.cpp:72 | the four little-endian bytes `EEPROM.put` writes for a CRC read back as that CRC |
| `EepromStore.CrcEepromRange` | sensor_ether_server/eeprom_io.cpp:31-37 | the result is the CRC of the `length` EEPROM bytes from `start`; a non-positive length gives the initial value |
| `EepromStore.CrcBytes` | sensor_ether_server/eeprom_io.cpp:39-45 | the result is the CRC of the first `numBytes` bytes of the buffer |
| `EepromStore.CrcRoutinesAgree` | sensor_ether_server/eeprom_io.cpp:31-45 | the two routines return the same CRC whenever the EEPROM range holds the buffer's bytes, including for zero bytes |
| `EepromStore.PutName` | sensor_ether_server/eeprom_io.cpp:47-53 | the name's characters are written at addresses 0 to len-1, the rest is unchanged, and the length is returned |
| `EepromStore.PutCrc` | sensor_ether_server/eeprom_io.cpp:72 | the CRC's four bytes, least significant first, land at `address`, and nothing else changes |
| `EepromStore.PutBytes` | sensor_ether_server/eeprom_io.cpp:55-59 | write-if-different leaves the same memory as a plain copy of `src` to `address`; nothing else changes |
| `EepromStore.GetBytes` | sensor_ether_server/eeprom_io.cpp:61-65 | `dest` receives the EEPROM bytes from `address`; the rest of `dest` is unchanged |
| `EepromStore.SaveBytes` | sensor_ether_server/eeprom_io.cpp:69-74 | the EEPROM becomes name, then the payload's CRC, then the payload, followed by the old contents |
| `EepromStore.ReadBytes` | sensor_ether_server/eeprom_io.cpp:76-101 | true exactly when the name and then the CRC match; only then is `dest` filled with the stored payload, otherwise `dest` is untouched |
| `EepromStore.SaveThenLoad` | sensor_ether_server/eeprom_io.cpp:69-101 | loading under the same name and size returns what was saved |
| `EepromStore.LoadSucceedsIffRecordPresent` | sensor_ether_server/eeprom_io.cpp:76-101 | a load succeeds exactly when the EEPROM starts with the record that saving its payload under that name writes |
| `EepromStore.NameMismatchRejected` | sensor_ether_server/eeprom_io.cpp:78-86 | a stored character that differs from the name fails the load |
| `EepromStore.NameMatchDecidedByCrc` | sensor_ether_server/eeprom_io.cpp:87-100 | once the name matches, the CRC comparison alone decides the load |
| `EepromStore.CorruptCrcRejected` | sensor_ether_server/eeprom_io.cpp:88-97 | with the name matching, a stored CRC that differs from the recomputed one fails the load |
| `EepromStore.CorruptedRecordRejected` | sensor_ether_server/eeprom_io.cpp:88-97 | a saved record with any one byte of its CRC field or its payload changed fails to load under its name and size |
| `EepromStore.OtherNameRejected` | sensor_ether_server/eeprom_io.cpp:78-86 | a record saved under one name does not load under a name that differs at a shared position |
| `EepromStore.PrefixNamePassesNameCheck` | sensor_ether_server/eeprom_io.cpp:79-86 | the name check compares only the requested characters, so every prefix of the saved name passes it |
| `EepromStore.SaveLeavesRestUnchanged` | sensor_ether_server/eeprom_io.cpp:69-74 | every byte past the record keeps its old value |
| `AnalogRandom.LowBit` | sensor_ether_server/analog_random.cpp:91-92 | `analogRead(pin) & 1` is 0 or 1 |
| `AnalogRandom.NextPin` | sensor_ether_server/analog_random.cpp:84-87 | the pin cursor stays below the number of pins |
| `AnalogRandom.DrawBitValues` | sensor_ether_server/analog_random.cpp:82-102 | `randomBit` returns only 0, 1 or -1 |
| `AnalogRandom.DrawBitLastPair` | sensor_ether_server/analog_random.cpp:91-96 | a bit comes only from an attempt whose two readings differ, and it is the second reading; -1 only after an equal pair |
| `AnalogRandom.DrawBitEarlierPairs` | sensor_ether_server/analog_random.cpp:94-100 | every attempt before the last read two equal bits |
| `AnalogRandom.DrawBitAttempts` | sensor_ether_server/analog_random.cpp:82-100 | at least one attempt and at most `max(1, ceil(readLimit/2))` attempts, or, when the 16-bit `readLimit -= 2` wraps (`readLimit` of -32768 or -32767), 16384 or 16385; -1 only after all of them; the cursor advances one pin per attempt |
| `AnalogRandom.DrawBitWrappedBudget` | sensor_ether_server/analog_random.cpp:99-100 | a `readLimit` of at most 2 allows one attempt, except at -32768 and -32767, where the 16-bit decrement wraps to a large positive limit and an equal first pair leads to a retry |
| `AnalogRandom.PinAfterIsModulo` | sensor_ether_server/analog_random.cpp:84-87 | after k attempts the cursor is `(pin + k) mod kNumAnalogPins` |
| `AnalogRandom.PackBitsBound` | sensor_ether_server/analog_random.cpp:145-157 | n ≤ 32 bits assemble to a value below 2^n |
| `AnalogRandom.PackBitsFirst` | sensor_ether_server/analog_random.cpp:153 | most significant first: the first bit drawn has weight 2^(number of later bits) |
| `AnalogRandom.UnpackPack` | sensor_ether_server/analog_random.cpp:153 | assembling loses nothing: the bits can be read back from the value |
| `AnalogRandom.PackUnpack` | sensor_ether_server/analog_random.cpp:153 | every value below 2^n is the assembly of some n bits |
| `AnalogRandom.AnalogRandomClass.constructor` | sensor_ether_server/analog_random.h:30 | the cursor starts at the first pin |
| `AnalogRandom.AnalogRandomClass.RandomBit` | sensor_ether_server/analog_random.cpp:55-103 | the result, the new cursor and the number of conversions are those of the debiasing draw, whose `readLimit` is a 16-bit `int` decremented with wrap-around; each attempt takes two conversions |
| `AnalogRandom.AnalogRandomClass.RandomBits` | sensor_ether_server/analog_random.cpp:145-157 | the result is the MSB-first assembly of the drawn bits, or nothing when a bit fails, so no partial value escapes |
| `AnalogRandom.AnalogRandomClass.RandomByte` | sensor_ether_server/analog_random.cpp:105-111 | eight bits as a value in [0, 255], or -1 |
| `AnalogRandom.AnalogRandomClass.Random32` | sensor_ether_server/analog_random.cpp:125-131 | as written: eight bits, so the value is below 256; 0 when a bit fails |
| `AnalogRandom.AnalogRandomClass.Random32Intended` | sensor_ether_server/analog_random.h:18-21 | 32 bits assembled MSB first; 0 when a bit fails |
| `AnalogRandom.AnalogRandomClass.SeedArduinoRng` | sensor_ether_server/analog_random.cpp:161-169 | seeds with `random32()` as written, and returns true, exactly when the draw is nonzero; a failure and a zero draw look the same; the seed is below 256 |
| `SensorAddresses.LocalUnicastBits` | sensor_ether_server/addresses.cpp:44-47 | the first octet ends `…10` (locally administered, unicast) and keeps the other six drawn bits |
| `SensorAddresses.PickedMacIsLocalUnicast` | sensor_ether_server/addresses.cpp:37-47 | `mac[1..5]` are the 2nd to 6th drawn bytes, and `mac[0]` differs from the first only in bits 0 and 1 |
| `SensorAddresses.PickMac` | sensor_ether_server/addresses.cpp:37-43 | six bytes, or fewer and a failure at the first failed draw |
| `SensorAddresses.PickMacAddress` | sensor_ether_server/addresses.cpp:36-49 | on success `mac` is the six drawn bytes with the first made local unicast; on failure the bytes drawn so far are written |
| `SensorAddresses.OctetsInRange` | sensor_ether_server/addresses.cpp:58-66 | c is in [1, 254] and d is a byte |
| `SensorAddresses.DrawRandom32` | sensor_ether_server/analog_random.cpp:125-131 | `random32()` as written: eight debiased bits, 0 on failure, so the value is below 256 |
| `SensorAddresses.PickIp` | sensor_ether_server/addresses.cpp:54-65 | fails exactly when it yields no octets; otherwise four octets from two `random32()` draws as written, with the pin cursor still in range |
| `SensorAddresses.PickedIpIsLinkLocal` | sensor_ether_server/addresses.cpp:51-73 | a picked address is 169.254.c.d with c in [1, 254]; because `random32()` as written yields at most 255, also c ≤ 128 and d ≤ 127 |
| `SensorAddresses.PickIpAddress` | sensor_ether_server/addresses.cpp:53-73 | the octets are written only on success, from two `random32()` draws as written |
| `SensorAddresses.OctetsReachRange` | sensor_ether_server/addresses.cpp:51-52 | with 32-bit draws, every c in [1, 254] and every d in [0, 255] is reachable from nonzero draws |
| `SensorAddresses.ByteDrawsNarrowOctets` | sensor_ether_server/addresses.cpp:58-66 | with draws below 256, all the as-written `random32` gives, c ≤ 128 and d ≤ 127 |
| `SensorAddresses.Addresses.Save` | sensor_ether_server/addresses.cpp:84-86 | the struct image is saved under "addrs" |
| `SensorAddresses.Addresses.Load` | sensor_ether_server/addresses.cpp:88-90 | true exactly when a record under "addrs" loads, and then the struct holds it; otherwise it is untouched |
| `SensorAddresses.Addresses.GenerateAddresses` | sensor_ether_server/addresses.cpp:92-103 | the IP is attempted only after a successful MAC pick; true exactly when both succeed |
| `SensorAddresses.RenamedRecordUnreadable` | sensor_ether_server/addresses.cpp:7-12 | data saved under "addrs" cannot be loaded under another name of the same length |
| `AddressApi.MakeOuiPrefix` | utilities/addresses.h:16-20 | the first byte ends `…10` (local bit set, multicast bit clear) and keeps its upper six bits; the other two bytes are kept |
| `AddressApi.WriteAtReadBack` | utilities/addresses.h:30-36 | bytes written at an address read back there, and nothing else moves |
| `AddressApi.MacAddress.Save` | utilities/addresses.h:30-32 | the six bytes are written at `toAddress` and fed to the CRC; the address after them is returned |
| `AddressApi.MacAddress.Read` | utilities/addresses.h:34-36 | the six bytes are restored from `fromAddress` and fed to the CRC; the address after them is returned |
| `AddressApi.MacAddress.HasOuiPrefix` | utilities/addresses.h:38-39 | true iff the first three bytes are the prefix |
| `AddressApi.MacAddress.Equals` | utilities/addresses.h:41 | true iff all six bytes are equal |
| `AddressApi.MacAddress.GenerateAddress` | utilities/addresses.h:27 | on success a local unicast address carrying the prefix, when one is given |
| `AddressApi.SaveableIpAddress.Save` | utilities/addresses.h:51-53 | the four octets are written and fed to the CRC; the address after them is returned |
| `AddressApi.SaveableIpAddress.Read` | utilities/addresses.h:55-57 | the four octets are restored and fed to the CRC; the address after them is returned |
| `AddressApi.LoadAddresses` | utilities/addresses.h:71-74 | an accepted image is the record stored under "addrs", and it carries the prefix when one is given |
| `AddressApi.SavedAddressesLoad` | utilities/addresses.h:68-74 | saved addresses load back under no prefix and under the prefix they carry, and are refused under any other prefix |
| `AddressApi.NameStored` | utilities/addresses.h:71-74 | the name check matches iff "addrs" is stored at 0; a mismatch means nothing loads |
| `AddressApi.Addresses.Save` | utilities/addresses.h:68-69 | the record at address 0 is the name, the CRC, the IP octets and the MAC bytes |
| `AddressApi.Addresses.Load` | utilities/addresses.h:71-74 | true exactly when the name and CRC match and the prefix (if given) is carried, and then the struct holds the stored addresses; after a failed load the fields are unchanged when the name differs, and otherwise hold the stored bytes |
| `AddressApi.Addresses.ReadImage` | utilities/addresses.h:71-74 | both addresses are restored from just past the name and CRC, together with the CRC of what was read |
| `AddressApi.Addresses.GenerateAddresses` | utilities/addresses.h:76-81 | false only when randomness ran out; on success a local unicast MAC (with the prefix) and a link-local IP 169.254.c.d with c ≤ 128 and d ≤ 127 |
| `AddressApi.Addresses.LoadOrGenAndSave` | utilities/addresses.h:63-66 | the stored addresses when they load with the prefix, and the EEPROM is left alone; otherwise new addresses, saved when generated |
| `AddressApi.Addresses.Equals` | utilities/addresses.h:88 | true iff both addresses are equal |
| `JitterRandom.DecrementInt8` | utilities/jitter_random.cpp:26 | `nrot--` on an `int8_t` stays in range and is exact above -128 |
| `JitterRandom.ShiftInWindows` | utilities/jitter_random.cpp:27-32 | after a shift-in, each low window of `rand` is the next lower old window followed by the new byte |
| `JitterRandom.FourShiftsForget` | utilities/jitter_random.cpp:27-32 | four shift-ins leave exactly those four bytes, big-endian, whatever came before |
| `JitterRandom.RandAfterKeepsLastFour` | utilities/jitter_random.cpp:27-32 | after at least four bytes, `rand` is the last four, big-endian |
| `JitterRandom.JitterState.constructor` | utilities/jitter_random.cpp:16-21 | static storage starts zeroed |
| `JitterRandom.JitterState.Isr` | utilities/jitter_random.cpp:24-38 | `nrot` decrements, `rand` shifts the low byte in, and a sample is recorded at the cursor only while it is below 64; other entries are untouched |
| `JitterRandom.JitterState.AwaitRotations` | utilities/jitter_random.cpp:57 | the wait lets exactly 32 interrupts fire, leaving `nrot` 0 and the cursor at 32 |
| `JitterRandom.JitterState.Random32` | utilities/jitter_random.cpp:42-77 | resets the state and runs 32 steps; entry i < 32 holds sample i, later entries are untouched, and the result is `rand` over the 32 low bytes |
| `JitterRandom.Random32KeepsLastFourSamples` | utilities/jitter_random.cpp:27-32 | the returned value is the last four samples' low bytes, big-endian |
| `JitterHashes.Mask32` | jitter_random_tester/jitter_random_tester.py:23-24 | the result is below 2^32, congruent to v, and v itself when v already fits |
| `JitterHashes.Mask8` | jitter_random_tester/jitter_random_tester.py:27-28 | the result is below 2^8, congruent to v, and v itself when v already fits |
| `JitterHashes.JitterRandomHash` | jitter_random_tester/jitter_random_tester.py:31-36 | the loop computes the left fold of the shift-by-8 step from 0 |
| `JitterHashes.EndolithHash` | jitter_random_tester/jitter_random_tester.py:39-46 | the loop computes the left fold of the rotate-and-XOR step from 0 |
| `JitterHashes.Djb2Hash` | jitter_random_tester/jitter_random_tester.py:49-54 | the loop computes the left fold of `acc * 33 + b` modulo 2^32 from 0 |
| `JitterHashes.GenerateRandomBytes` | jitter_random_tester/jitter_random_tester.py:16-20 | a list of length n whose entries are the successive draws, each in [0, 255] |
| `JitterHashes.JitterHashOfLastFour` | jitter_random_tester/jitter_random_tester.py:8-11 | for at least four inputs, the hash of the data equals the hash of its last four |
| `JitterHashes.JitterHashIsLastFourBytes` | jitter_random_tester/jitter_random_tester.py:31-36 | the hash of at least four values is the last four bytes, big-endian |
| `JitterHashes.JitterHashIgnoresFirstByte` | jitter_random_tester/jitter_random_tester.py:8-11 | with five or more inputs, changing the first changes nothing |
| `JitterHashes.EndolithStepRotates` | jitter_random_tester/jitter_random_tester.py:43-45 | the endolith step is a one-bit left rotation, then the XOR of the byte |
| `JitterHashes.EndolithFoldInjective` | jitter_random_tester/jitter_random_tester.py:39-46 | distinct starting accumulators stay distinct over any input |
| `JitterHashes.EndolithHashUsesFirstByte` | jitter_random_tester/jitter_random_tester.py:8-11 | the endolith hash depends on the first byte, however long the input |
| `HashTester.BitsSubset` | jitter_random_tester/hash_tester.py:22-28 | the output has as many values as the input |
| `HashTester.BitsSubsetBounded` | jitter_random_tester/hash_tester.py:22-28 | every value is in [0, 2^num_bits) |
| `HashTester.BitFieldSelectsBits` | jitter_random_tester/hash_tester.py:22-28 | the value is exactly bits `off .. off+k-1` of the hash: put back above the lower bits it gives the hash mod 2^(off+k) |
| `HashTester.MaxOf` | jitter_random_tester/hash_tester.py:36 | `max` is an element no smaller than any other |
| `HashTester.CountOccurrences` | jitter_random_tester/hash_tester.py:31-40 | the buckets are sized as the source does and tallied, or nothing where Python raises |
| `HashTester.AddHashes` | jitter_random_tester/hash_tester.py:38-39 | succeeds iff every hash indexes the list, and then each bucket holds its tally |
| `HashTester.CountsOfNonNegativeHashes` | jitter_random_tester/hash_tester.py:31-40 | without negative hashes, bucket i is the number of occurrences of i |
| `HashTester.NonNegativeCountsSucceed` | jitter_random_tester/hash_tester.py:35-36 | non-negative values always fit buckets sized by their maximum |
| `HashTester.BucketsSumToLength` | jitter_random_tester/hash_tester.py:31-40 | the buckets sum to the input length |
| `HashTester.AddCounts` | jitter_random_tester/hash_tester.py:56-64 | the combined list has the longer of the two lengths |
| `HashTester.AddCountsSum` | jitter_random_tester/hash_tester.py:56-64 | the total of the sum is the sum of the totals |
| `HashTester.Occurrences.constructor` | jitter_random_tester/hash_tester.py:52-54 | the counts are `count_occurrences(numbers)` |
| `HashTester.Occurrences.Add` | jitter_random_tester/hash_tester.py:56-64 | the counts become both lists zero-extended and added entrywise |
| `HashTester.First4BytesHash` | jitter_random_tester/hash_tester.py:230-235 | the result is a 32-bit value |
| `HashTester.First4BytesIsJitterOnFourBytes` | jitter_random_tester/hash_tester.py:204-235 | on four bytes, `first_4bytes_hash` equals `jitter_random_hash` |
| `HashEvaluation.WindowsAreFull` | jitter_random_tester/hash_tester.py:105-110 | each of the `len - bph + 1` windows is a full run of `bph` consecutive bytes |
| `HashEvaluation.JitterWindowHashIsLastFour` | jitter_random_tester/hash_tester.py:105-110 | with windows of at least four bytes, each JitterRandom hash is the last four bytes of its window |
| `HashEvaluation.CombinedTotal` | jitter_random_tester/hash_tester.py:133-136 | a combined table over m offsets counts every hash m times |
| `HashEvaluation.RecordKeepsTables` | jitter_random_tester/hash_tester.py:129-136 | recording a new key keeps both memo tables equal to what recomputing them gives |
| `HashEvaluation.HashEvaluator.constructor` | jitter_random_tester/hash_tester.py:101-116 | `len(bytes) - bph + 1` hashes, hash i of window i; both tables empty |
| `HashEvaluation.HashEvaluator.EvalBitSubset` | jitter_random_tester/hash_tester.py:123-137 | returns the field's counts; a repeated key changes no table; a new key is stored and added into its `num_bits` table |
| `HashEvaluation.HashEvaluator.Record` | jitter_random_tester/hash_tester.py:131-136 | the key is stored, and the counts are copied or added into the table for `num_bits` |
| `HashEvaluation.HashEvaluator.OccurrencesForNumBits` | jitter_random_tester/hash_tester.py:118-121 | offsets 0 to 32-k are all evaluated, and the combined table for k is returned |
| `ArdTimes.ToSigned` | utilities/time.cpp:120-122 | conversion to `long` keeps values that fit, and never changes a value modulo 2^32 |
| `ArdTimes.TimeDifference` | utilities/time.cpp:116-124 | both branches give the unsigned difference modulo 2^32, read as a `long` |
| `ArdTimes.TimePlusThenMinus` | utilities/time.cpp:128-137 | subtracting a duration undoes adding it, across roll-over |
| `ArdTimes.DifferenceThenPlus` | utilities/time.cpp:116-137 | `b + (a - b) == a` for every pair of times |
| `ArdTimes.PlusThenDifference` | utilities/time.cpp:116-137 | `(t + d) - t == d` for every time and duration |
| `ArdTimes.DifferenceOfCloseTimes` | utilities/time.cpp:116-127 | for times less than 2^31 ms apart the difference is exact, and non-negative iff `a >= b` |
| `ArdTimes.DifferenceSignFailsAtHalfRange` | utilities/time.cpp:116-127 | at 2^31 ms apart, `a >= b` yet `a - b` is negative |
| `ArdTimes.DurationTimes` | utilities/time.cpp:152-155 | the product is exact when it fits in a `long` |
| `ArdTimes.TruncDivRemainder` | utilities/time.cpp:148-151 | C++ division truncates: the remainder is smaller than the divisor, is zero or has the dividend's sign, and the quotient is no larger than the dividend |
| `ArdTimes.DurationDivide` | utilities/time.cpp:148-151 | the truncated quotient, except -2^31 / -1, which wraps |
| `ArdTimes.DurationOrderIsTotal` | utilities/time.cpp:164-183 | the four comparisons are one total order on the millisecond counts |
| `ArdTimes.DurationPlusThenMinus` | utilities/time.cpp:138-147 | subtracting undoes adding, even when the sum wraps |
| `ArdTimes.DurationArithmeticExact` | utilities/time.cpp:138-147 | sums and differences that fit in a `long` are exact |
| `ArdTimes.SecondsLong` | utilities/time.cpp:194-196 | `n * 1000` in `long` arithmetic |
| `ArdTimes.SecondsInt` | utilities/time.cpp:197-199 | exactly `n * 1000` for every 16-bit n |
| `ArdTimes.MinutesLong` | utilities/time.cpp:206-208 | `n * 60000` modulo 2^32 as a `long`, though computed in two wrapping steps |
| `ArdTimes.MinutesInt` | utilities/time.cpp:203-205 | exactly `n * 60000` for every 16-bit n |
| `ArdTimes.HoursInt` | utilities/time.cpp:212-214 | `n * 3600000` modulo 2^32 as a `long` |
| `ArdTimes.HoursExactWithinRange` | utilities/time.cpp:212-214 | `Hours(int)` is exact iff the count is within ±596 |
| `ArdTimes.LongConversionsExact` | utilities/time.cpp:194-208 | `Seconds(long)` and `Minutes(long)` are exact when the product fits |
| `ArdTimes.SplitRecombines` | utilities/time.cpp:42-53 | fields in range, not negative, recombining to the count; days ≤ 49, so it fits a `uint8_t` |
| `ArdTimes.MakeTimeParts` | utilities/time.cpp:42-53 | the step-by-step constructor gives the closed-form split |
| `ArdTimes.DurationPartsMeaning` | utilities/time.cpp:104-111 | the split is negative iff the count is, and stands for its magnitude |
| `ArdTimes.DurationSplit` | utilities/time.cpp:104-111 | splits the count, or its `long` negation, marking the sign; -2^31 included |
| `ArdTimes.Digits` | utilities/time.cpp:38 | at least one decimal digit, with no leading zero except for 0 |
| `ArdTimes.DigitsRoundTrip` | utilities/time.cpp:38 | the digits read back as the number |
| `ArdTimes.PaddedRoundTrip` | utilities/time.cpp:27-39 | the padded text reads back as the number and has at least the requested width |
| `ArdTimes.PrintWithLeadingZeros` | utilities/time.cpp:27-39 | the digits left-padded with '0' to at least `min_width`, and the count of characters |
| `ArdTimes.PrintTo` | utilities/time.cpp:54-76 | `[-][<days>d ][HH:]MM:SS.mmm` and its length |
| `ArdTimes.PrintTime` | utilities/time.cpp:95-97 | prints the split of the time |
| `ArdTimes.PrintDuration` | utilities/time.cpp:112-114 | prints the signed split of the duration |
| `ArdTimes.FormatSign` | utilities/time.cpp:56-58 | the text starts with '-' iff the parts are negative |
| `ArdTimes.ClockReadsBack` | utilities/time.cpp:70-74 | for parts in range the clock is nine characters, whose fields read back as minutes, seconds and milliseconds |
| `ArdTimes.FormatLength` | utilities/time.cpp:54-76 | the length: sign, day field, `HH:` exactly when days or hours are nonzero, and nine clock characters |
| `SensorSampling.ReadsAtLeastOnce` | DogDetector/DogDetector_feb09b/SensorAndLED.cpp:123-125 | the do-while makes at least one pass, and exactly n passes for positive n; -32768 wraps to 32768 passes |
| `SensorSampling.MacroSampleFacts` | DogDetector/DogDetector_feb09b/SensorAndLED.cpp:121-127 | with the `min` macro's second evaluation, the result is at most 1023 and is one of the readings taken, never the first one as such; n passes make between n+1 and 2n conversions |
| `SensorSampling.MacroMinKeepsLaterReading` | DogDetector/DogDetector_feb09b/SensorAndLED.cpp:124 | with one pass and readings 500 then 900 the loop returns 900, while the minimum is 500 |
| `SensorSampling.ReadSensor` | DogDetector/DogDetector_feb09b/SensorAndLED.cpp:121-127 | as written: each pass compares with one reading and, unless the value is strictly smaller, keeps a second reading; value and conversion count are those of that process over the passes the 16-bit do-while makes |
| `SensorSampling.MinReadingIsMinimum` | DogDetector/DogDetector_feb09b/SensorAndLED.cpp:121-127 | as intended: the single-evaluation minimum is at most 1023 and at most every reading taken, and equals 1023 or one of them |
| `SensorSampling.ReadSensorIntended` | DogDetector/DogDetector_feb09b/SensorAndLED.cpp:121-127 | as intended, one reading per pass: the minimum of 1023 and the readings, over the same passes |
| `ThresholdRecord.ValueBytesRoundTrip` | DogDetector/DogDetector_feb09b/SensorAndLED.cpp:132-133 | every 16-bit threshold survives the high and low bytes |
| `ThresholdRecord.TagRoundTrip` | DogDetector/DogDetector_feb09b/SensorAndLED.cpp:131 | a tag reads back as itself |
| `ThresholdRecord.RecordRoundTrip` | DogDetector/DogDetector_feb09b/SensorAndLED.cpp:129-154 | a written threshold in (0, 1023) reads back |
| `ThresholdRecord.OutOfWindowRefused` | DogDetector/DogDetector_feb09b/SensorAndLED.cpp:146 | a written threshold outside (0, 1023) is refused |
| `ThresholdRecord.ForeignTagRefused` | DogDetector/DogDetector_feb09b/SensorAndLED.cpp:142-143 | a record with another sensor's tag is refused |
| `ThresholdRecord.AcceptedRecordIsValid` | DogDetector/DogDetector_feb09b/SensorAndLED.cpp:142-150 | an accepted record carries the reader's tag and a value in the window |
| `ThresholdRecord.ConsecutiveRecords` | DogDetector/DogDetector_feb09b/SensorAndLED.h:48-51 | a second record written after the first reads back at the address the first read returns |
| `ThresholdRecord.Feb09aRefusesHighTags` | DogDetector/DogDetector_feb09a/SensorAndLED.cpp:118 | the unsigned tag comparison refuses every record with a negative tag, its own included |
| `ThresholdRecord.ParsersAgreeOnLowTags` | DogDetector/DogDetector_feb09a/SensorAndLED.cpp:118-121 | for tags below 128 the two revisions accept the same records |
| `ThresholdRecord.WriteRecord` | DogDetector/DogDetector_feb09b/SensorAndLED.cpp:129-135 | tag, high and low byte at `a..a+2`, nothing else changed, and `a+3` returned |
| `LedBlink.UpdateTogglesOnlyWhenDue` | DogDetector/DogDetector_feb09b/SensorAndLED.cpp:64-71 | the LED flips iff blinking and due, at most once, and the period never changes |
| `LedBlink.TwoTogglesRestoreLed` | DogDetector/DogDetector_feb09b/SensorAndLED.cpp:64-71 | two due updates restore the LED and move the toggle time two periods on |
| `LedBlink.StartIsIdempotent` | DogDetector/DogDetector_feb09b/SensorAndLED.cpp:47-54 | starting again at the same period is a no-op |
| `LedBlink.StoppedStaysStill` | DogDetector/DogDetector_feb09b/SensorAndLED.cpp:56-71 | after either revision's stop, updates change nothing |
| `LedBlink.StopsAgreeWhileBlinking` | DogDetector/DogDetector_feb09a/SensorAndLED.cpp:47-51 | while a period is set the two revisions' stops agree |
| `LedBlink.StopsDifferAfterZeroPeriod` | DogDetector/DogDetector_feb09b/SensorAndLED.cpp:56-62 | after starting with period 0 the LED stays on; only the feb09a stop turns it off |
| `DogDetectorFeb09b.TriggeredWithinSimplifies` | DogDetector/DogDetector_feb09b/SensorAndLED.h:10-12 | `isTriggered(t)` iff triggered, changed, or `duration < t`; the `!is_changed` conjunct is redundant |
| `DogDetectorFeb09b.ElapsedIsPegged` | DogDetector/DogDetector_feb09b/SensorAndLED.h:16-19 | the duration is 0xffff exactly when at least 65.535 s passed, and exact below |
| `DogDetectorFeb09b.ElapsedSinceTransition` | DogDetector/DogDetector_feb09b/SensorAndLED.cpp:101-105 | less than 65.535 s after a transition the duration is exact, even across the clock's sign change |
| `DogDetectorFeb09b.SensorAndLed.constructor` | DogDetector/DogDetector_feb09b/SensorAndLED.h:24-29 | stores the pins and tag, then runs `init` |
| `DogDetectorFeb09b.SensorAndLed.Init` | DogDetector/DogDetector_feb09b/SensorAndLED.cpp:12-27 | no blinking, LED off, no transition, threshold 1024 |
| `DogDetectorFeb09b.SensorAndLed.LedOff` | DogDetector/DogDetector_feb09b/SensorAndLED.cpp:29-32 | the LED goes off; nothing else changes |
| `DogDetectorFeb09b.SensorAndLed.LedOn` | DogDetector/DogDetector_feb09b/SensorAndLED.cpp:34-37 | the LED goes on; nothing else changes |
| `DogDetectorFeb09b.SensorAndLed.ToggleLed` | DogDetector/DogDetector_feb09b/SensorAndLED.cpp:39-45 | the LED flips |
| `DogDetectorFeb09b.SensorAndLed.StartBlinking` | DogDetector/DogDetector_feb09b/SensorAndLED.cpp:47-54 | nothing at the same period; otherwise LED on, the period taken, next toggle one period later |
| `DogDetectorFeb09b.SensorAndLed.StopBlinking` | DogDetector/DogDetector_feb09b/SensorAndLED.cpp:56-62 | only while a period is set: LED off, period 0, next toggle 0 |
| `DogDetectorFeb09b.SensorAndLed.UpdateLed` | DogDetector/DogDetector_feb09b/SensorAndLED.cpp:64-71 | when due, toggle once and move the next toggle one period on |
| `DogDetectorFeb09b.SensorAndLed.ReadSensorAt` | DogDetector/DogDetector_feb09b/SensorAndLED.cpp:95-119 | triggered iff the value `readSensor` returns as written is ≥ threshold + tolerance, changed iff different from the last state, the capped duration, and the transition recorded only on change |
| `DogDetectorFeb09b.SensorAndLed.WriteThreshold` | DogDetector/DogDetector_feb09b/SensorAndLED.cpp:129-135 | the record is written unvalidated, and the address after it returned |
| `DogDetectorFeb09b.SensorAndLed.ReadThreshold` | DogDetector/DogDetector_feb09b/SensorAndLED.cpp:139-154 | the stored threshold and `addr+3` iff the tag matches and the value is in (0, 1023); else threshold 1024 and -1 |
| `DogDetectorFeb09a.SensorAndLed.constructor` | DogDetector/DogDetector_feb09a/SensorAndLED.h:8-13 | stores the pins and tag, then runs `init` |
| `DogDetectorFeb09a.SensorAndLed.Init` | DogDetector/DogDetector_feb09a/SensorAndLED.cpp:8-18 | threshold 1024, period 0, next toggle 0, LED off |
| `DogDetectorFeb09a.SensorAndLed.LedOff` | DogDetector/DogDetector_feb09a/SensorAndLED.cpp:20-23 | the LED goes off |
| `DogDetectorFeb09a.SensorAndLed.LedOn` | DogDetector/DogDetector_feb09a/SensorAndLED.cpp:25-28 | the LED goes on |
| `DogDetectorFeb09a.SensorAndLed.ToggleLed` | DogDetector/DogDetector_feb09a/SensorAndLED.cpp:30-36 | the LED flips |
| `DogDetectorFeb09a.SensorAndLed.StartBlinking` | DogDetector/DogDetector_feb09a/SensorAndLED.cpp:38-45 | as in feb09b |
| `DogDetectorFeb09a.SensorAndLed.StopBlinking` | DogDetector/DogDetector_feb09a/SensorAndLED.cpp:47-51 | unconditionally: LED off, period 0, next toggle 0 |
| `DogDetectorFeb09a.SensorAndLed.UpdateLed` | DogDetector/DogDetector_feb09a/SensorAndLED.cpp:53-60 | when due, toggle once and move the next toggle one period on |
| `DogDetectorFeb09a.SensorAndLed.IsSensorTriggered` | DogDetector/DogDetector_feb09a/SensorAndLED.cpp:82-95 | true iff the value `readSensor` returns as written reaches the 16-bit sum `threshold + tolerance` |
| `DogDetectorFeb09a.SensorAndLed.WriteThreshold` | DogDetector/DogDetector_feb09a/SensorAndLED.cpp:105-111 | the record at `a..a+2`, and `a+3` returned |
| `DogDetectorFeb09a.SensorAndLed.ReadThreshold` | DogDetector/DogDetector_feb09a/SensorAndLED.cpp:115-129 | as written: on success the threshold and `addr+6`; else threshold 1024 and -1 |
| `DogDetectorFeb09a.ReturnedAddressSkipsNextRecord` | DogDetector/DogDetector_feb09a/SensorAndLED.cpp:118-124 | with two records back to back, the returned address (6) misses the second record, which starts at 3 |

## Left out

- Hardware primitives are replaced, not modelled as devices:
  - `analogRead` and Timer 1 are oracles.
  - EEPROM is an array.
  - `millis()` and `now` are parameters.
  - `pinMode`, `digitalWrite` and `randomSeed` become field updates, or nothing.
- Interrupt plumbing is left out: `cli`/`sei`, the watchdog registers, and the concurrency of the interrupt with `random32`. Each interrupt is one sequential `Isr` call, and the busy-wait is a loop of them.
- Floating point is left out: the `double` overloads in utilities/time.cpp, `Occurrences.compute_stats` and the chi-square printing.
- `Hours(long)` is declared in utilities/time.h but never defined, so there is nothing to model.
- `ArdTime::operator=` and `ArdTime::operator+=` (utilities/time.cpp:80-87) return `this` where a reference is declared, and `ArdDuration::operator=` returns nothing. All three are taken as plain updates of a value type.
- `ArdTime::Now` reads `millis()` and is left out.
- Printing, serial, DLOG and debug blocks are left out: `printMACAddress`, `Serial` output, the `next_announce` announcements, and the Python `main` drivers and `print_*` methods.
- `calibrate()` is left out in both DogDetector revisions: it is a busy loop bounded by wall-clock `millis()`.
- The default `OuiPrefix()` constructor has no defined value, so only `OuiPrefix(a, b, c)` is modelled.
- utilities/addresses.h publishes only an interface. The model gives one implementation on top of the record store and states the header's promises as contracts.
- `Addresses::generateAddresses` creates its own generator. The model makes the generator's oracle a parameter.
- `JitterRandom.JitterState.Random32`: the step count is fixed at 32, and the `num_register_reads` parameter is accepted and ignored, as in the source.
- The C++ `rand` of `JitterRandom` is an integer in [0, 2^32), while the Python folds are 32-bit bit-vectors. Each side proves its own last-four-bytes property, and no lemma links the two.
- `HashTester.Occurrences.constructor` and the memo tables keep only the counts. Statistics over them are not modelled.
- `JitterHashes.Djb2Hash`: only its fold and its 32-bit range are stated; no distribution property of djb2 is claimed.
- `ArdTimes.PrintWithLeadingZeros`: `min_width` is an unbounded integer. A 16-bit `int` wrap of `min_width - 1` would need a width near -32768, which no caller passes.
- `ArdTimes.DifferenceOfCloseTimes`: the sign of `a - b` agrees with `a >= b` only for times less than 2^31 ms apart. `ArdTimes.DifferenceSignFailsAtHalfRange` shows the limit.
- Signed overflow of `long` and `int` arithmetic is undefined in C++. It is modelled throughout as two's-complement wrap, which is what the AVR compiler produces.
- The DogDetector EEPROM holds bytes as integers in [0, 256). The record store's EEPROM holds them as 8-bit bit-vectors. The two are separate memories in separate sketches.
- The saved address image is the 4 IP octets followed by the 6 MAC bytes. `saveStructToEEPROM(kName, *this)` stores `sizeof` of the whole `Addresses` object, and the layout of Arduino's `IPAddress` (the address union, and the virtual-table slot it carries as a `Printable`) is not part of this model.
- `HashTester.BitsSubset` and `HashTester.Occurrences.constructor` leave two Python error paths to their parameter types, because no caller reaches them. A negative `num_bits`, on which `1 << num_bits` raises, is excluded by `numBits: nat`. An empty list, or a negative value that indexes past the front, is excluded by the constructor's requirement that `count_occurrences` succeeds.
- The DogDetector sketches are read against the AVR core, where `min` is a macro that evaluates its arguments twice. The trigger decisions use the value that `readSensor` computes under that macro.
- eeprom_io_tester/eeprom_io.h is not part of this model: it is an unfinished draft that does not compile.

## Findings

| source | as written | input that shows it | evidently intended | confidence | as-written member | corrected member |
|---|---|---|---|---|---|---|
| sensor_ether_server/analog_random.cpp:125-131 | `random32` draws 8 bits and returns `result & 0xff`, so its value is at most 255. The header (analog_random.h:18-21) promises 32 bits. | Any successful draw: the value is below 256. `pickIPAddress` then gets c ≤ 128 and d ≤ 127 (`SensorAddresses.ByteDrawsNarrowOctets`). | Draw 32 bits, so that every c in [1, 254] and d in [0, 255] is reachable (`SensorAddresses.OctetsReachRange`) | not executed | `AnalogRandom.AnalogRandomClass.Random32` | `AnalogRandom.AnalogRandomClass.Random32Intended` |
| DogDetector/DogDetector_feb09a/SensorAndLED.cpp:118-124 | `addr` is post-incremented past all three bytes, and then `addr + 3` is returned: six bytes past the record's start. The header (SensorAndLED.h:32-34) promises the address just past the record. | Records `('L', 500)` at 0 and `('R', 600)` at 3. Reading at 0 returns 6, where no record starts (`DogDetectorFeb09a.ReturnedAddressSkipsNextRecord`). | Return `addr + 3` from the record's start, as feb09b does, so that chained reads find the next record (`ThresholdRecord.ConsecutiveRecords`) | not executed | `DogDetectorFeb09a.SensorAndLed.ReadThreshold` | `DogDetectorFeb09b.SensorAndLed.ReadThreshold` |
| DogDetector/DogDetector_feb09b/SensorAndLED.cpp:121-127 | On the AVR core `min` is the macro `((a)<(b)?(a):(b))`, so `min(value, analogRead(sensor_pin))` reads the sensor again for the value it keeps. The result is one of the readings, not their minimum, and n passes take up to 2n conversions. The feb09a copy (SensorAndLED.cpp:97-103) is the same. | One pass, readings 500 then 900: the loop returns 900 (`SensorSampling.MacroMinKeepsLaterReading`). | Read once per pass and keep the minimum of the readings (`SensorSampling.MinReadingIsMinimum`) | not executed | `SensorSampling.ReadSensor` | `SensorSampling.ReadSensorIntended` |
| DogDetector/DogDetector_feb09a/SensorAndLED.cpp:118 | The stored byte, read unsigned, is compared with the signed `char` tag. | Any tag of 128 or more as a byte, i.e. a negative `char`: the record it wrote itself is refused. | Compare as `char`, as feb09b does (`ThresholdRecord.RecordRoundTrip`) | not executed | `ThresholdRecord.Feb09aRefusesHighTags` | `ThresholdRecord.RecordRoundTrip` |
