/** `Payload`: the addressed envelope. Its wire layout is a 2-byte source
    address, a 2-byte destination address (each decoded as ULEB128 over
    exactly those two bytes), then one byte each of serial number, device
    type and command, then the device body. Serialisation writes the
    addresses back with the variable-length encoder and zero-pads the whole
    payload to the length it was decoded from. */
module Payloads {
  import opened Results
  import opened Bytes
  import Uleb128
  import Devices

  /** Bytes of the fixed header: src (2), dst (2), serial, devType, cmd. */
  const HeaderSize: nat := 7
  const AddressBytes: nat := 2

  datatype Payload = Payload(
    size: nat,
    src: nat,
    dst: nat,
    serial: byte,
    devType: byte,
    cmd: byte,
    device: Option<Devices.Device>)

  /** Largest value two ULEB128 bytes can carry, plus one: 2^14. */
  function AddressLimit(): nat {
    Uleb128.Pow128(AddressBytes)
  }

  /** The body that `Payload` hands to the device factory. */
  function Body(bytes: seq<byte>): seq<byte>
    requires |bytes| >= HeaderSize
  {
    bytes[HeaderSize..]
  }

  /** Inputs inside the modelled range: a clock timestamp body fits a `long`. */
  predicate InModel(bytes: seq<byte>) {
    |bytes| >= HeaderSize ==> Devices.ClockBodyFits(bytes[5], bytes[6], Body(bytes))
  }

  /** The `Payload(byte[])` constructor. Too short a header throws; so does a
      hub (or a clock asked for its name) with an empty body. */
  function Decode(bytes: seq<byte>): (r: Result<Payload>)
    requires InModel(bytes)
    ensures r.Fail? <==>
      || |bytes| < HeaderSize
      || (|bytes| == HeaderSize && (bytes[5] == Devices.SmartHubType ||
                                    (bytes[5] == Devices.ClockType && bytes[6] == Devices.NameCommand)))
    ensures r.Fail? ==> r.fault == IndexOutOfBounds
    ensures r.Ok? ==> r.value.size == |bytes|
    ensures r.Ok? ==> r.value.src == Uleb128.Decode(bytes[0..2]) && r.value.dst == Uleb128.Decode(bytes[2..4])
    ensures r.Ok? ==> r.value.serial == bytes[4] && r.value.devType == bytes[5] && r.value.cmd == bytes[6]
    ensures r.Ok? ==> r.value.src < AddressLimit() && r.value.dst < AddressLimit()
    ensures r.Ok? ==> (r.value.device.Some? <==> Devices.KnownType(bytes[5]))
    ensures r.Ok? ==> Devices.CreateDevice(bytes[5], bytes[6], Body(bytes)) == Ok(r.value.device)
  {
    var srcBytes := CopyOfRange(bytes, 0, 2).value;
    var dstBytes :- CopyOfRange(bytes, 2, 4);
    if |bytes| < HeaderSize then
      Fail(IndexOutOfBounds)
    else
      assert srcBytes == bytes[0..2] && dstBytes == bytes[2..4];
      var device :- Devices.CreateDevice(bytes[5], bytes[6], Body(bytes));
      Ok(Payload(|bytes|, Uleb128.Decode(srcBytes), Uleb128.Decode(dstBytes),
                 bytes[4], bytes[5], bytes[6], device))
  }

  /** `this.device.toBytes()`: a null device throws. */
  function DeviceBytes(device: Option<Devices.Device>): Result<seq<byte>> {
    match device
    case None => Fail(NullPointer)
    case Some(d) => Devices.ToBytes(d)
  }

  /** The pieces `Payload.toBytes` hands to `combineByteArrays`. */
  function Fields(p: Payload, body: seq<byte>): seq<seq<byte>> {
    [Uleb128.Encode(p.src), Uleb128.Encode(p.dst), [p.serial], [p.devType], [p.cmd], body]
  }

  lemma FieldsLayout(p: Payload, body: seq<byte>)
    ensures Flatten(Fields(p, body)) ==
      Uleb128.Encode(p.src) + Uleb128.Encode(p.dst) + [p.serial, p.devType, p.cmd] + body
  {
    var a, b := Uleb128.Encode(p.src), Uleb128.Encode(p.dst);
    var s, t, c := [p.serial], [p.devType], [p.cmd];
    FlattenSnoc([], a);
    FlattenSnoc([a], b);
    FlattenSnoc([a, b], s);
    FlattenSnoc([a, b, s], t);
    FlattenSnoc([a, b, s, t], c);
    FlattenSnoc([a, b, s, t, c], body);
    assert [] + [a] == [a] && [a] + [b] == [a, b] && [a, b] + [s] == [a, b, s];
    assert [a, b, s] + [t] == [a, b, s, t] && [a, b, s, t] + [c] == [a, b, s, t, c];
    assert [a, b, s, t, c] + [body] == [a, b, s, t, c, body];
    assert Flatten([]) == [];
    assert a + b + s + t + c + body == a + b + [p.serial, p.devType, p.cmd] + body;
  }

  /** `Payload.toBytes`: addresses re-encoded at their natural ULEB128
      length, the three single-byte fields, the device body, all written into
      an array of the payload's original length. */
  function ToBytes(p: Payload): (r: Result<seq<byte>>)
    ensures p.device.None? ==> r == Fail(NullPointer)
    ensures r.Ok? ==> |r.value| == p.size
    ensures r.Fail? && p.device.Some? ==> r.fault == BufferOverflow
  {
    var body :- DeviceBytes(p.device);
    FieldsLayout(p, body);
    Combine(p.size, Fields(p, body))
  }

  /** An address read from two bytes re-encodes in at most two bytes, and in
      exactly two when it is at least 128. */
  lemma AddressEncodingFits(v: nat)
    requires v < AddressLimit()
    ensures |Uleb128.Encode(v)| <= AddressBytes
    ensures |Uleb128.Encode(v)| == AddressBytes <==> v >= 128
  {
    var k := |Uleb128.Encode(v)|;
    Uleb128.EncodeLength(v, k);
    Uleb128.Pow128Monotonic(AddressBytes, if k > AddressBytes then k - 1 else AddressBytes);
  }

  /** Re-serialising a decoded payload fails only through its device (a null
      device, a name longer than the body, an empty clock body); otherwise it
      yields the re-encoded addresses, the three header bytes and the device
      bytes, zero-padded to the original length. */
  lemma ReserialisedLayout(bytes: seq<byte>)
    requires InModel(bytes)
    requires Decode(bytes).Ok?
    ensures var p := Decode(bytes).value;
            ToBytes(p).Ok? <==> DeviceBytes(p.device).Ok?
    ensures var p := Decode(bytes).value;
            ToBytes(p).Ok? ==>
              var head := Uleb128.Encode(p.src) + Uleb128.Encode(p.dst) + bytes[4..HeaderSize]
                          + DeviceBytes(p.device).value;
              |head| <= |bytes| && ToBytes(p).value[..|head|] == head && AllZero(ToBytes(p).value[|head|..])
  {
    var p := Decode(bytes).value;
    if DeviceBytes(p.device).Ok? {
      var db := DeviceBytes(p.device).value;
      Devices.DecodedDeviceToBytes(bytes[5], bytes[6], Body(bytes));
      AddressEncodingFits(p.src);
      AddressEncodingFits(p.dst);
      FieldsLayout(p, db);
      assert bytes[4..HeaderSize] == [p.serial, p.devType, p.cmd];
    }
  }

  /** The two address fields come back as they were exactly when each holds
      a two-byte minimal encoding, i.e. an address of at least 128. */
  predicate AddressesCanonical(bytes: seq<byte>)
    requires |bytes| >= HeaderSize
  {
    Uleb128.Canonical(bytes[0..2]) && Uleb128.Canonical(bytes[2..4])
  }

  /** Which bodies survive a decode and re-serialisation of their payload.
      The payload-level zero padding lets a stub device's body come back when
      it was all zeros. */
  ghost predicate BodySurvives(devType: byte, cmd: byte, body: seq<byte>) {
    if Devices.IsStub(devType) then AllZero(body) else Devices.Reproducible(devType, cmd, body)
  }

  /** Payload round trip: a payload re-serialises to its own bytes exactly
      when both address fields are minimal two-byte encodings and its body
      survives the device layer. An address field holding a value below 128
      is written back in one byte, and the payload never comes back. */
  lemma PayloadRoundTrip(bytes: seq<byte>)
    requires InModel(bytes)
    requires |bytes| >= HeaderSize
    ensures (Decode(bytes).Ok? && ToBytes(Decode(bytes).value) == Ok(bytes))
            <==> AddressesCanonical(bytes) && BodySurvives(bytes[5], bytes[6], Body(bytes))
  {
    if AddressesCanonical(bytes) {
      CanonicalPayloadRoundTrip(bytes);
    } else {
      ShiftedAddressesFail(bytes);
    }
  }

  /** With both address fields minimally encoded, a payload re-serialises
      to its own bytes exactly when its body survives the device layer. */
  lemma CanonicalPayloadRoundTrip(bytes: seq<byte>)
    requires InModel(bytes)
    requires |bytes| >= HeaderSize
    requires AddressesCanonical(bytes)
    ensures (Decode(bytes).Ok? && ToBytes(Decode(bytes).value) == Ok(bytes))
            <==> BodySurvives(bytes[5], bytes[6], Body(bytes))
  {
    var body := Body(bytes);
    Devices.DeviceRoundTrip(bytes[5], bytes[6], body);
    if Decode(bytes).Ok? {
      var p := Decode(bytes).value;
      Uleb128.EncodeDecodeCanonical(bytes[0..2]);
      Uleb128.EncodeDecodeCanonical(bytes[2..4]);
      if DeviceBytes(p.device).Ok? {
        var db := DeviceBytes(p.device).value;
        Devices.DecodedDeviceToBytes(bytes[5], bytes[6], body);
        FieldsLayout(p, db);
        assert bytes == bytes[0..2] + bytes[2..4] + [p.serial, p.devType, p.cmd] + body;
        CombinePadded(|bytes|, Fields(p, db));
        var out := ToBytes(p).value;
        assert out == bytes[..HeaderSize] + db + Zeros(|body| - |db|);
        BodyPaddingIff(bytes, db);
        if Devices.IsStub(bytes[5]) {
          assert db == [];
          assert db + Zeros(|body|) == body <==> AllZero(body) by {
            if AllZero(body) {
              assert body == Zeros(|body|);
            }
          }
        } else {
          assert |db| == |body|;
          assert Zeros(0) == [];
          assert db + Zeros(0) == db;
        }
      }
    }
  }

  /** A payload whose address fields are not both minimal two-byte
      encodings never comes back. A shorter re-encoding moves serial, type
      and command towards the front; for the output to match the input the
      device type would have to repeat a byte whose 7 value bits are zero,
      and types 0 and 128 have no device to serialise. */
  lemma ShiftedAddressesFail(bytes: seq<byte>)
    requires InModel(bytes)
    requires |bytes| >= HeaderSize
    requires !AddressesCanonical(bytes)
    ensures !(Decode(bytes).Ok? && ToBytes(Decode(bytes).value) == Ok(bytes))
  {
    if Decode(bytes).Ok? && ToBytes(Decode(bytes).value) == Ok(bytes) {
      var p := Decode(bytes).value;
      ReserialisedLayout(bytes);
      AddressEncodingFits(p.src);
      AddressEncodingFits(p.dst);
      var es, ed := Uleb128.Encode(p.src), Uleb128.Encode(p.dst);
      HeaderAlignment(bytes, es, ed, DeviceBytes(p.device).value);
      assert Devices.KnownType(bytes[5]);
      DecodeTwo(bytes[0..2]);
      DecodeTwo(bytes[2..4]);
      if |es| == 2 && |ed| == 2 {
        Uleb128.CanonicalIff(bytes[0..2]);
        Uleb128.CanonicalIff(bytes[2..4]);
        assert false;
      } else if |es| == 1 {
        ShortSourceClash(bytes, p.src, p.dst);
        assert false;
      } else {
        ShortDestinationClash(bytes, p.dst);
        assert false;
      }
    }
  }

  /** A source address below 128 is written back in one byte, so the
      destination's first output byte lands on input byte 1. */
  lemma ShortSourceClash(bytes: seq<byte>, src: nat, dst: nat)
    requires |bytes| >= HeaderSize
    requires src == Uleb128.Low7(bytes[0]) + 128 * Uleb128.Low7(bytes[1])
    requires dst == Uleb128.Low7(bytes[2]) + 128 * Uleb128.Low7(bytes[3])
    requires src < 128 && dst < AddressLimit()
    requires bytes[1] == Uleb128.Encode(dst)[0]
    requires |Uleb128.Encode(dst)| == 2 ==> bytes[2] == Uleb128.Encode(dst)[1]
    requires |Uleb128.Encode(dst)| == 1 ==> bytes[3] == bytes[5]
    ensures !Devices.KnownType(bytes[5])
  {
    Uleb128.EncodeUnfold(dst);
    Uleb128.EncodeUnfold(dst / 128);
    SelfShiftedAddress(dst, bytes[2], bytes[3]);
    if dst < 128 {
      assert Uleb128.Low7(bytes[5]) == 0;
    } else {
      assert false;
    }
  }

  /** A two-byte address whose low group is zero cannot have its high group
      stored at the place of its low group: `128 * q == q + 128 * h` has no
      solution with `0 < q < 128`. */
  lemma SelfShiftedAddress(dst: nat, low: byte, high: byte)
    ensures 128 <= dst < AddressLimit() && dst % 128 == 0 && low == dst / 128 ==>
            dst != Uleb128.Low7(low) + 128 * Uleb128.Low7(high)
  {
  }

  /** A destination address below 128 is written back in one byte, so the
      device type lands on input byte 3, whose value bits must be zero. */
  lemma ShortDestinationClash(bytes: seq<byte>, dst: nat)
    requires |bytes| >= HeaderSize
    requires dst == Uleb128.Low7(bytes[2]) + 128 * Uleb128.Low7(bytes[3])
    requires |Uleb128.Encode(dst)| == 1 && bytes[3] == bytes[5]
    ensures !Devices.KnownType(bytes[5])
  {
    Uleb128.EncodeLength(dst, 1);
    assert Uleb128.Low7(bytes[5]) == 0;
  }

  /** Where a round trip would put each re-encoded field: the pieces of the
      output laid over the input bytes. */
  lemma HeaderAlignment(bytes: seq<byte>, es: seq<byte>, ed: seq<byte>, rest: seq<byte>)
    requires |bytes| >= HeaderSize
    requires 1 <= |es| <= AddressBytes && 1 <= |ed| <= AddressBytes
    requires var head := es + ed + bytes[4..HeaderSize] + rest;
             |head| <= |bytes| && bytes[..|head|] == head
    ensures bytes[0] == es[0]
    ensures |es| == 2 ==> bytes[0..2] == es && bytes[2] == ed[0]
    ensures |es| == 1 ==> bytes[1] == ed[0]
    ensures |es| == 1 && |ed| == 2 ==> bytes[2] == ed[1]
    ensures |es| == 2 && |ed| == 2 ==> bytes[2..4] == ed
    ensures |es| + |ed| < 4 ==> bytes[3] == bytes[5]
  {
    var head := es + ed + bytes[4..HeaderSize] + rest;
    assert forall i :: 0 <= i < |head| ==> bytes[i] == head[i];
    if |es| + |ed| == 2 {
      assert head[3] == bytes[5];
    } else if |es| + |ed| == 3 {
      assert head[3] == bytes[4] && head[4] == bytes[5];
    }
  }

  lemma DecodeTwo(field: seq<byte>)
    requires |field| == AddressBytes
    ensures Uleb128.Decode(field) == Uleb128.Low7(field[0]) + 128 * Uleb128.Low7(field[1])
  {
    assert field[1..][1..] == [];
  }

  lemma BodyPaddingIff(bytes: seq<byte>, db: seq<byte>)
    requires |bytes| >= HeaderSize
    requires |db| <= |bytes| - HeaderSize
    ensures bytes[..HeaderSize] + db + Zeros(|bytes| - HeaderSize - |db|) == bytes
            <==> db + Zeros(|bytes| - HeaderSize - |db|) == Body(bytes)
  {
    var tail := db + Zeros(|bytes| - HeaderSize - |db|);
    assert bytes[..HeaderSize] + db + Zeros(|bytes| - HeaderSize - |db|) == bytes[..HeaderSize] + tail;
    assert bytes == bytes[..HeaderSize] + Body(bytes);
    if bytes[..HeaderSize] + tail == bytes {
      assert tail == (bytes[..HeaderSize] + tail)[HeaderSize..];
    }
  }
}
