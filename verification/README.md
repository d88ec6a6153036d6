# Smart-home device-bus codec, modelled in Dafny

This project models the codec of a compact binary smart-home device-bus protocol, implemented in `src/Main.java`.
The codec turns a raw frame into structured fields and writes those fields back out.
A frame is a length byte, a payload and a trailing byte named `crc8`.
The payload holds two 2-byte bus addresses, a serial number, a device type, a command code and a device-specific body.
The model follows the Java code as written, quirks included:

- Bytes are `int` values 0..255 (`Bytes.byte`). Byte arrays are `seq<byte>`.
- Java exceptions become `Results.Result` failures:
  - `ArrayIndexOutOfBoundsException` is `IndexOutOfBounds`;
  - `IllegalArgumentException` from `Arrays.copyOfRange` is `IllegalArgument`;
  - `BufferOverflowException` from `ByteBuffer.put` is `BufferOverflow`;
  - `NullPointerException` on a null device is `NullPointer`.
  The Java `null` device is `Option.None`.
- The ULEB128 coder follows section 7.6 of the DWARF Version 5 standard.
  Bit operations are written arithmetically: `b & 0x7f` is `b % 128`, a set continuation flag is `b >= 128`, `value >>= 7` is `value / 128`, and `x << s` is `x * 2^s`.
  The decoder's `value |= group << shift` is written as addition. The two agree because each 7-bit group lands above every bit already set.
- `struct.combineByteArrays` is `Bytes.Combine`: the pieces, then zero padding up to the preset size, or a `BufferOverflow` when they do not fit.
  `Bytes.CombineByteArrays` is the same operation written as the source's write-position loop.
  `asArray(b)` is the one-element sequence `[b]`.
- Devices form one datatype, `Devices.Device`. `SmartHub` keeps a name and `Clock` keeps a name or a timestamp.
  `EnvSensor`, `Switch`, `Lamp` and `Socket` keep only their body length, and they serialise to no bytes.
- Neither framing byte is computed or checked. The code contains no checksum algorithm, so none is modelled.

The protocol the codec implements calls for a checksum over the payload, a length byte equal to the payload's length, address fields that always occupy 2 bytes, and bodies of every device kind that come back byte for byte.
The code does otherwise, and the model follows the code:
- No checksum is computed or validated, and the length byte is not checked against the payload.
- Addresses are re-encoded at their natural ULEB128 length instead of being padded to 2 bytes.
- There is no `Unknown` body variant. An unknown device type decodes to a null device, which fails on serialisation.
- Environment-sensor triggers, switch name lists and lamp/socket on-off bytes are not parsed.
  Those bodies serialise to nothing, and the payload's zero padding fills their place.

## Model

| member | source | states |
|---|---|---|
| `Bytes.Combine` | src/Main.java:57-64 | Succeeds exactly when the pieces' total length is at most `size`, and otherwise fails with a buffer overflow. On success the result has exactly `size` bytes: the pieces in order, then zeros. |
| `Bytes.CombineByteArrays` | src/Main.java:57-64 | The write-position loop over a zero-filled buffer returns the same result as `Combine`, including failing on the first piece that does not fit. |
| `Uleb128.Encode` | src/Main.java:22-40 | The encoding has at least one byte. Every byte but the last has the continuation flag 0x80 set, and the last byte has it clear. |
| `Uleb128.EncodeLoop` | src/Main.java:22-40 | The do-while loop (emit the low 7 bits, shift right by 7, set the flag while the rest is nonzero) yields exactly `Encode(value)`. |
| `Uleb128.EncodeBounds` | src/Main.java:24-32 | `value < 128^n` for an encoding of `n` bytes, and `128^(n-1) <= value` when `n > 1`. |
| `Uleb128.EncodeLength` | src/Main.java:24-32 | For `k >= 1`, the encoding has exactly `k` bytes iff `value < 128^k` and either `k == 1` or `128^(k-1) <= value`. In particular every value below 128 takes one byte. |
| `Uleb128.EncodeCanonical` | src/Main.java:24-32 | Every encoder output is minimal: flags on all bytes but the last, and no trailing zero group. |
| `Uleb128.Decode` | src/Main.java:42-51 | For inputs of at most 9 bytes, the decoded value is below `128^|bytes|`, so it fits a non-negative `long`. |
| `Uleb128.DecodeLoop` | src/Main.java:42-51 | The for-each loop with a running shift of `7*i` computes `Decode(bytes)`. The value read so far stays below `2^shift`, so adding each shifted group equals or-ing it in. |
| `Uleb128.DecodeAppend` | src/Main.java:45-49 | Decoding consumes every byte of the span: one more byte adds its low 7 bits times `128^i`, whatever the flag of the byte before it. |
| `Uleb128.DecodeIgnoresFlags` | src/Main.java:46-47 | Spans whose bytes agree in their low 7 bits decode to the same value. The continuation flags are never consulted. |
| `Uleb128.DecodeZeros` | src/Main.java:42-51 | A span of zero bytes decodes to 0. The empty span counts, so `decode([]) == 0`. |
| `Uleb128.DecodeTrailingZeros` | src/Main.java:42-51 | Zero bytes appended after a span do not change its value. |
| `Uleb128.DecodeEncode` | src/Main.java:22-51 | Round trip: every `0 <= v < 2^63` encodes in at most 9 bytes, and those bytes decode back to `v`. |
| `Uleb128.EncodeDecodeCanonical` | src/Main.java:22-51 | A minimal encoding of at most 9 bytes is reproduced exactly by decoding it and encoding again. |
| `Uleb128.CanonicalIff` | src/Main.java:22-51 | For spans of at most 9 bytes, re-encoding the decoded value gives back the span iff the span is minimal. |
| `Devices.SetName` | src/Main.java:89-92 | Fails iff the body is empty. Otherwise the name has exactly `bytes[0]` bytes, copied from index 0, so the length byte opens the name. Positions past the body are zero. |
| `Devices.CreateDevice` | src/Main.java:96-107 | Device types 1-6 give SmartHub/EnvSensor/Switch/Lamp/Socket/Clock, each remembering the body length; any other type gives no device. Construction fails iff the body is empty and a name must be read (a hub, or a clock under command 1). A hub's name is `setName(body)`. A clock keeps `setName(body)` under command 1. Under command 6 its timestamp is the ULEB128 value of the whole body, below `128^|body|`. Under any other command the timestamp stays 0. |
| `Devices.ToBytes` | src/Main.java:110-192 | A hub succeeds iff its name fits the body length, and a clock succeeds iff its timestamp encoding fits. On success a hub writes its name and a clock writes `encode(timestamp)`, each followed by zeros up to the body length. The four stub classes write no bytes. |
| `Devices.DecodedDeviceToBytes` | src/Main.java:96-192 | A device built from a body serialises iff a hub's declared name length fits the body and a clock's body is non-empty. The result is as long as the body, or empty for a stub class. |
| `Devices.DeviceRoundTrip` | src/Main.java:96-192 | Building a device from a body and serialising it gives back the body iff the body is reproducible. For a hub: the name fits and zeros follow it. For a stub: the body is empty. For a command-6 clock: a minimal encoding then zeros. For any other clock: all zeros. |
| `Devices.SmartHubRoundTrip` | src/Main.java:110-120 | A hub body comes back unchanged iff `body[0] <= |body|` and every byte from index `body[0]` on is zero. |
| `Devices.ClockZeroRoundTrip` | src/Main.java:177-192 | A clock that holds no timestamp writes `encode(0)` padded with zeros, so its body comes back all zeros. That happens under command 1 and every command other than 6. |
| `Devices.ClockReencoding` | src/Main.java:181-191 | A command-6 clock writes the minimal encoding of its decoded timestamp, zero-padded to the body length, and this never overflows a non-empty body. |
| `Devices.ClockTimestampRoundTrip` | src/Main.java:181-191 | For a non-empty body of at most 9 bytes, serialisation succeeds. It reproduces the body iff the body is a minimal encoding followed by zero bytes. |
| `Devices.ClockCanonicalRoundTrip` | src/Main.java:181-191 | A body that is a minimal ULEB128 encoding is reproduced exactly. |
| `Payloads.Decode` | src/Main.java:203-211 | Fails iff the input is shorter than 7 bytes, or is exactly 7 bytes for a hub or a command-1 clock. On success: `src = decode(bytes[0..2])` and `dst = decode(bytes[2..4])`, both below 2^14; `serial`, `devType` and `cmd` are bytes 4, 5 and 6; the device is present iff the type is 1-6, and it is the device `createDevice` builds from type, command and `bytes[7..]`. |
| `Payloads.ToBytes` | src/Main.java:213-217 | Fails with a null-pointer fault when there is no device, and otherwise only with a buffer overflow. On success it returns exactly the payload's original length. |
| `Payloads.FieldsLayout` | src/Main.java:214-216 | The serialised fields are `encode(src)`, `encode(dst)`, serial, type and command, then the device bytes, in that order. |
| `Payloads.AddressEncodingFits` | src/Main.java:205-206 | An address read from two bytes re-encodes in at most two bytes, and in exactly two iff it is at least 128. |
| `Payloads.ReserialisedLayout` | src/Main.java:213-217 | A decoded payload re-serialises iff its device does. The output is the re-encoded addresses, the three header bytes and the device bytes, zero-padded to the original length. |
| `Payloads.PayloadRoundTrip` | src/Main.java:203-217 | A payload re-serialises to its own bytes iff both address fields are 2-byte minimal encodings and its body survives the device layer. A stub device's body survives when it is all zeros. Any address below 128 therefore prevents the round trip. |
| `Payloads.ShiftedAddressesFail` | src/Main.java:205-214 | A payload whose address fields are not both 2-byte minimal encodings never re-serialises to its own bytes: the shorter re-encoding shifts serial, type and command, and the bytes would have to line up on a device type with no device. |
| `Packets.Decode` | src/Main.java:74-79 | An empty input fails with an index fault and a 1-byte input with an illegal-argument fault. Otherwise decoding succeeds iff the middle section decodes as a payload. `length` is the first byte and `crc8` the last, with no validation. |
| `Packets.ToBytes` | src/Main.java:82-84 | On success the output has exactly the packet's size, and its first byte is the length byte. A payload serialisation fault propagates unchanged. |
| `Packets.FrameLayout` | src/Main.java:83 | The frame pieces are written in order: length byte, payload bytes, `crc8`. |
| `Packets.FramingNotValidated` | src/Main.java:74-79 | For any length byte and any trailing byte, the frame decodes iff its payload section does, and always to the same payload. |
| `Packets.ReserialisedFrame` | src/Main.java:82-84 | A decoded packet re-serialises iff its payload does. The output is exactly `[length] ++ payload.toBytes() ++ [crc8]`, with no padding. |
| `Packets.PacketRoundTrip` | src/Main.java:74-84 | A frame of at least 2 bytes comes back byte for byte iff its payload section does. |
| `Packets.FrameRoundTrip` | src/Main.java:74-84 | A frame comes back byte for byte iff both addresses are 2-byte minimal encodings and its command body survives the device layer. |
| `Sample.SampleValues` | src/Main.java:235-236 | `b3 06` decodes to 819, `ff 7f` to 16383, and `88 d0 ab fa 93 31` to 1688984021000. |
| `Sample.SampleFrameDecodes` | src/Main.java:235-237 | The demo frame decodes to `length = 13` and `crc8 = 0x8a`. Its payload has `src = 819`, `dst = 16383`, `serial = 1`, `devType = 6`, `cmd = 6`, and a clock with timestamp 1688984021000. |
| `Sample.SampleFrameRoundTrip` | src/Main.java:235-238 | Re-serialising the decoded demo frame yields the identical 15 bytes. |
| `Corrections.SetNameKeepsLengthByte` | src/Main.java:89-92 | As written, hub body `03 61 62 63` gets the name `03 61 62` and serialises back as `03 61 62 00`. |
| `Corrections.ReadName` | src/Main.java:89-92 | Corrected name reading: fails iff the body is empty. The name has `bytes[0]` bytes and equals `bytes[1..1+len]` when those bytes exist. |
| `Corrections.HubToBytes` | src/Main.java:117-119 | Corrected hub serialisation succeeds iff the length byte and the name fit the body. The result has exactly the body length. |
| `Corrections.HubNameRoundTrip` | src/Main.java:110-120 | With the correction, every name that fits its body is read back unchanged after serialisation. |
| `Corrections.HubBodyRoundTrip` | src/Main.java:110-120 | With the correction, a hub body comes back byte for byte when the bytes after its name are zero. |
| `Corrections.ShortAddressShiftsFields` | src/Main.java:203-217 | As written, payload `05 00 ff 7f 01 06 06 01` decodes with `src = 5` and serialises to `05 ff 7f 01 06 06 01 00`. That output decodes with `src = 16261`. |
| `Corrections.EncodeAddress` | src/Main.java:214 | A corrected address field is always exactly 2 bytes. |
| `Corrections.AddressRoundTrip` | src/Main.java:205-206 | Every address below 2^14 decodes back from its corrected 2-byte field. |
| `Corrections.PayloadToBytes` | src/Main.java:213-217 | The corrected payload serialisation has the original length. Its first 7 bytes are the two 2-byte address fields, then serial, type and command. |
| `Corrections.HeaderSurvives` | src/Main.java:203-217 | With fixed-width addresses, decoding a re-serialised payload gives back both addresses, the serial, the device type and the command. |

## Left out

- `main`'s hex printing, Base64 URL encoding and decoding, and console output (src/Main.java:239-248). These are I/O and library plumbing. `byteToHex` (src/Main.java:10-12) is string formatting and is left out for the same reason.
- Character-set conversion. `setName` decodes the name as UTF-8 and `SmartHub.toBytes` re-encodes it with the platform charset. Names are modelled as raw bytes. Malformed UTF-8, which could change a name's byte length, is therefore not modelled.
- Uleb128.Decode: defined only for spans of at most 9 bytes. The 64-bit overflow and shift masking of longer spans are not modelled.
  As a result, a command-6 clock body must be at most 9 bytes. This is `Devices.ClockBodyFits`, a precondition of `Devices.CreateDevice`, `Payloads.Decode` and `Packets.Decode`.
- Uleb128.Encode: defined on non-negative values only. The Java loop never terminates for a negative `long`, because `>>=` is an arithmetic shift. Every value the codec re-encodes was decoded from at most 9 bytes, so it is never negative.
- The `Trigger` class, and the `sensors`/`triggers`/`values`/`turnOn`/`devNames` fields of `EnvSensor`, `Switch`, `Lamp` and `Socket`. The code never fills these fields (src/Main.java:122-173, 221-233), so those devices are modelled as bodies that serialise to no bytes.
- A checksum algorithm. The code has none: `crc8` is copied from the input and written back.
- The `size` field of a device or payload is whatever length it was built from. Objects built by other means than decoding are modelled only through the datatypes' fields.

## Findings

| source | as written | input that shows it | evidently intended | confidence | as-written member | corrected member |
|---|---|---|---|---|---|---|
| src/Main.java:89-92 | `setName` copies `bytes[0..len)`. The length byte becomes the first name byte and the last name byte is lost. | hub body `03 61 62 63` | the name is `bytes[1..1+len)`, written back after its length byte | high; not executed | `Corrections.SetNameKeepsLengthByte` | `Corrections.HubNameRoundTrip` |
| src/Main.java:213-216 | Addresses read from fixed 2-byte fields are written back with the variable-length encoder. An address below 128 takes one byte and every later field shifts left. | payload `05 00 ff 7f 01 06 06 01` | each address is zero-padded to its 2-byte field | high; not executed | `Corrections.ShortAddressShiftsFields` | `Corrections.HeaderSurvives` |

The main model (`Devices`, `Payloads`, `Packets`) keeps the behaviour as written.
The corrected reading, serialisation and round-trip properties live in `Corrections`, next to the counterexamples.
