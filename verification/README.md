# MCCI FRAM I2C driver: library version numbers

A Dafny model of the pure core of the MCCI FRAM I2C driver for MB85RC-family
ferroelectric RAM chips: the packing of the library's version number into one
32-bit word, the four field extractors, the library's own version constant,
and the two fixed MB85RC protocol constants (the default bus address and the
device-ID slave id).

A version number has four one-byte fields, major, minor, patch and local. They
are packed major in bits 31..24, minor in 23..16, patch in 15..8 and local in
7..0. `local` defaults to 0. The header creates these words "for comparison"
and offers the library's own version for clients' compile-time checks, so the
model proves that numeric order on packed words is lexicographic order on the
fields.

Modules:

- `FramVersion` (`fram_version.dfy`): `MakeVersion`, `GetVersion`,
  `GetMajor`, `GetMinor`, `GetPatch`, `GetLocal`, over `bv8` (`uint8_t`) and
  `bv32` (`uint32_t`), with the round-trip, injectivity, ordering,
  locality and arithmetic-value lemmas.
- `Mb85rc` (`mb85rc.dfy`): the constants `DefaultAddress` and `SlaveId`.
- `Base256` (`base256.dfy`): numbers written as base-256 digit sequences,
  most significant first, and the theorem that lexicographic order on digit
  sequences of one length is numeric order. It is the independent reference
  for what comparing packed version words means.

The shifts and the bitwise or are the source's own operators on bit-vectors.
The conversion to `uint8_t` is truncation modulo 256 and is written as a mask
with 0xFF. The packed value's meaning as a number is stated separately, as the
base-256 number whose digits are the fields (`MakeVersionValue`, `WordValue`,
`ExtractorValues`). This is the reference definition the bit-level code is
checked against.

## Model

`MakeVersion` has no row of its own, because it carries no contract. The rows
that stand for it are `ExtractMakeVersion` and `MakeVersionOfFields` (the two
round trips), `MakeVersionInjective`, `DefaultLocal`, `MakeVersionOrder`,
`MakeVersionAtMost`, `MakeVersionNumericOrder` (order) and `MakeVersionValue`
(numeric value).

| member | source | states |
|---|---|---|
| FramVersion.GetMajor | libraries/MCCI_FRAM_I2C/src/MCCI_FRAM_I2C.h:77-82 | the major number is exactly the bits 31..24 of the word, moved down to a byte |
| FramVersion.GetMinor | libraries/MCCI_FRAM_I2C/src/MCCI_FRAM_I2C.h:84-89 | the minor number is exactly the bits 23..16 of the word; the truncation to a byte drops the major bits |
| FramVersion.GetPatch | libraries/MCCI_FRAM_I2C/src/MCCI_FRAM_I2C.h:91-96 | the patch number is exactly the bits 15..8 of the word; the truncation drops everything above |
| FramVersion.GetLocal | libraries/MCCI_FRAM_I2C/src/MCCI_FRAM_I2C.h:98-103 | the local number is the byte that, placed below the word's upper 24 bits, gives back the whole word |
| FramVersion.GetVersion | libraries/MCCI_FRAM_I2C/src/MCCI_FRAM_I2C.h:74-75 | the library's version word is 0x02000200 and reads back as major 2, minor 0, patch 2, local 0 |
| FramVersion.ExtractMakeVersion | libraries/MCCI_FRAM_I2C/src/MCCI_FRAM_I2C.h:66-103 | decoding inverts encoding: each extractor returns the field packed into its byte, for all fields |
| FramVersion.MakeVersionOfFields | libraries/MCCI_FRAM_I2C/src/MCCI_FRAM_I2C.h:66-103 | encoding inverts decoding: repacking a word's four fields gives the same word, for every 32-bit word |
| FramVersion.MasksTile | libraries/MCCI_FRAM_I2C/src/MCCI_FRAM_I2C.h:71-103 | the four field bytes are disjoint and together cover all 32 bits |
| FramVersion.MakeVersionInjective | libraries/MCCI_FRAM_I2C/src/MCCI_FRAM_I2C.h:66-72 | two packed words are equal if and only if all four fields are equal |
| FramVersion.DefaultLocal | libraries/MCCI_FRAM_I2C/src/MCCI_FRAM_I2C.h:66-72 | the three-argument form packs local 0: it equals the four-argument form with 0, its local field is 0 and its low byte is clear |
| FramVersion.MajorReadsOwnByte | libraries/MCCI_FRAM_I2C/src/MCCI_FRAM_I2C.h:77-82 | two words have the same major number if and only if they agree on bits 31..24, whatever their other bits |
| FramVersion.MinorReadsOwnByte | libraries/MCCI_FRAM_I2C/src/MCCI_FRAM_I2C.h:84-89 | two words have the same minor number if and only if they agree on bits 23..16 |
| FramVersion.PatchReadsOwnByte | libraries/MCCI_FRAM_I2C/src/MCCI_FRAM_I2C.h:91-96 | two words have the same patch number if and only if they agree on bits 15..8 |
| FramVersion.LocalReadsOwnByte | libraries/MCCI_FRAM_I2C/src/MCCI_FRAM_I2C.h:98-103 | two words have the same local number if and only if they agree on bits 7..0 |
| FramVersion.MakeVersionOrder | libraries/MCCI_FRAM_I2C/src/MCCI_FRAM_I2C.h:65-72 | one packed version is less than another, as unsigned words, if and only if its fields come first in lexicographic order (major, minor, patch, local) |
| FramVersion.MakeVersionAtMost | libraries/MCCI_FRAM_I2C/src/MCCI_FRAM_I2C.h:65-75 | the minimum-version comparison `<=` on packed words holds if and only if the first version does not come after the second lexicographically |
| FramVersion.MakeVersionValue | libraries/MCCI_FRAM_I2C/src/MCCI_FRAM_I2C.h:65-72 | the packed word, read as an unsigned number, is major·2^24 + minor·2^16 + patch·2^8 + local |
| FramVersion.WordValue | libraries/MCCI_FRAM_I2C/src/MCCI_FRAM_I2C.h:66-103 | every 32-bit word is the base-256 number whose four digits are its extracted fields |
| FramVersion.ExtractorValues | libraries/MCCI_FRAM_I2C/src/MCCI_FRAM_I2C.h:77-103 | each extractor returns one base-256 digit of the word: major is v / 2^24, minor (v / 2^16) mod 256, patch (v / 2^8) mod 256, local v mod 256 |
| Base256.ValueBound | libraries/MCCI_FRAM_I2C/src/MCCI_FRAM_I2C.h:65-72 | n base-256 digits always write a number below 256^n, so a leading digit outweighs all digits after it |
| Base256.LexLessIsNumericLess | libraries/MCCI_FRAM_I2C/src/MCCI_FRAM_I2C.h:65-72 | two digit sequences of one length are in lexicographic order if and only if the numbers they write are in numeric order |
| FramVersion.MakeVersionIsDigitValue | libraries/MCCI_FRAM_I2C/src/MCCI_FRAM_I2C.h:66-72 | the packed word read as a number equals the base-256 number whose digits are major, minor, patch, local |
| FramVersion.PrecedesIsLexLess | libraries/MCCI_FRAM_I2C/src/MCCI_FRAM_I2C.h:65-72 | field-by-field precedence of versions is lexicographic order on their digit sequences |
| FramVersion.MakeVersionNumericOrder | libraries/MCCI_FRAM_I2C/src/MCCI_FRAM_I2C.h:65-75 | comparing two packed versions as unsigned numbers gives less-than if and only if the first version precedes the second field by field; a second proof of the order property, from the base-256 reading rather than from the bits |
| Mb85rc.ProtocolConstants | libraries/MCCI_FRAM_I2C/src/MCCI_FRAM_I2C.h:57-63 | the default chip address is 0x50 and fits in seven bits; the device-ID slave id is 0xF8 |

## Left out

- `begin`, `write8`, `write`, `read8`, `read` and `getDeviceID`: blocking I2C transactions through the Arduino `TwoWire` bus object. Only their declarations are in the header, so their bus traffic, the split of a 16-bit FRAM offset into address bytes and the device-ID bit layout cannot be modelled from code.
- `prepIO` and `getI2cAddr`: private helpers whose bodies are not in the header; the mapping from a FRAM offset to a slave address is therefore not modelled.
- The constructor and the `m_i2c_addr`, `m_framInitialized` and `m_pWire` state: bus-binding glue with no visible transitions.
- The Arduino and Wire include plumbing: build configuration only.
- Mb85rc.ProtocolConstants: states only the declared values of `kDefaultAddress` and `kSlaveID` and that 0x50 fits in seven bits. How `kSlaveID` is put on the bus (as an eight-bit form with a read/write bit, or offset by address bits) depends on `getDeviceID`, whose body is not in the header, so no reading of 0xF8 beyond its value is modelled.
