/** Two places where the code evidently does not do what it was written for,
    each shown on a concrete input against the code as written, and each
    paired with a corrected definition and the property it was meant to have.

    1. `Device.setName` copies `bytes[0 .. len)` where the name is
       `bytes[1 .. 1 + len)`: the length byte becomes the first character of
       the name and the last character is lost.
    2. `Payload.toBytes` re-encodes the 2-byte address fields with the
       variable-length encoder, so an address below 128 is written as a single
       byte and every later field shifts one position to the left. */
module Corrections {
  import opened Results
  import opened Bytes
  import Uleb128
  import Devices
  import Payloads

  // ---------------------------------------------------------------------
  // 1. Device names
  // ---------------------------------------------------------------------

  /** As written: the hub body `03 'a' 'b' 'c'` yields the name `03 'a' 'b'`
      and serialises back as `03 'a' 'b' 00`. */
  lemma SetNameKeepsLengthByte()
    ensures Devices.SetName([3, 0x61, 0x62, 0x63]) == Ok([3, 0x61, 0x62])
    ensures Devices.CreateDevice(Devices.SmartHubType, 0, [3, 0x61, 0x62, 0x63]).value.value.devName == [3, 0x61, 0x62]
    ensures Devices.ToBytes(Devices.CreateDevice(Devices.SmartHubType, 0, [3, 0x61, 0x62, 0x63]).value.value)
            == Ok([3, 0x61, 0x62, 0])
  {
    var body: seq<byte> := [3, 0x61, 0x62, 0x63];
    assert body[0..3] == [3, 0x61, 0x62];
    CombineOne(4, [3, 0x61, 0x62]);
    assert [3, 0x61, 0x62] + Zeros(1) == [3, 0x61, 0x62, 0];
  }

  /** Corrected: the name is the `len` bytes after the length byte. */
  function ReadName(bytes: seq<byte>): (name: Result<seq<byte>>)
    ensures name.Fail? <==> |bytes| == 0
    ensures name.Ok? ==> |name.value| == bytes[0]
    ensures name.Ok? && 1 + bytes[0] <= |bytes| ==> name.value == bytes[1..1 + bytes[0]]
  {
    if |bytes| == 0 then Fail(IndexOutOfBounds) else CopyOfRange(bytes, 1, 1 + bytes[0] as nat)
  }

  /** A name as it appears on the wire: its length, then its bytes. */
  function NameField(name: seq<byte>): (field: seq<byte>)
    requires |name| < 256
    ensures |field| == 1 + |name| && field[0] == |name| && field[1..] == name
  {
    [|name| as byte] + name
  }

  /** Corrected hub serialisation: the name field, zero-padded to the body
      length it was read from. */
  function HubToBytes(size: nat, name: seq<byte>): (r: Result<seq<byte>>)
    requires |name| < 256
    ensures r.Ok? <==> 1 + |name| <= size
    ensures r.Ok? ==> |r.value| == size
  {
    CombineOne(size, NameField(name));
    Combine(size, [NameField(name)])
  }

  /** With the correction, every name that fits its body is read back
      unchanged: the round trip the as-written code loses. */
  lemma HubNameRoundTrip(size: nat, name: seq<byte>)
    requires |name| < 256
    requires 1 + |name| <= size
    ensures HubToBytes(size, name).Ok?
    ensures ReadName(HubToBytes(size, name).value) == Ok(name)
  {
    CombineOne(size, NameField(name));
    var out := NameField(name) + Zeros(size - 1 - |name|);
    assert out[1..1 + |name|] == name;
  }

  /** And a hub body comes back byte for byte when the bytes after its name
      are zero. */
  lemma HubBodyRoundTrip(body: seq<byte>)
    requires 1 <= |body| && 1 + body[0] <= |body|
    requires AllZero(body[1 + body[0]..])
    ensures ReadName(body).Ok?
    ensures HubToBytes(|body|, ReadName(body).value) == Ok(body)
  {
    var name := ReadName(body).value;
    CombineOne(|body|, NameField(name));
    assert body[1 + body[0]..] == Zeros(|body| - 1 - |name|);
    assert body == NameField(name) + body[1 + body[0]..];
  }

  // ---------------------------------------------------------------------
  // 2. Address fields
  // ---------------------------------------------------------------------

  const ShortSource: seq<byte> := [0x05, 0x00, 0xff, 0x7f, 0x01, 0x06, 0x06, 0x01]
  const ShortSourceOut: seq<byte> := [0x05, 0xff, 0x7f, 0x01, 0x06, 0x06, 0x01, 0x00]

  /** As written: source address 5 is written as one byte, so re-reading the
      serialised payload takes the destination's first byte as part of the
      source address and the source comes back as 16261. */
  lemma ShortAddressShiftsFields()
    ensures Payloads.InModel(ShortSource) && Payloads.Decode(ShortSource).Ok?
    ensures Payloads.Decode(ShortSource).value.src == 5
    ensures Payloads.ToBytes(Payloads.Decode(ShortSource).value) == Ok(ShortSourceOut)
    ensures Payloads.InModel(ShortSourceOut) && Payloads.Decode(ShortSourceOut).Ok?
    ensures Payloads.Decode(ShortSourceOut).value.src == 16261
  {
    ShortSourceDecodes();
    ShortSourceSerialises();
    ShortSourceRedecodes();
  }

  lemma ShortSourceDecodes()
    ensures Payloads.InModel(ShortSource)
    ensures Payloads.Decode(ShortSource) == Ok(Payloads.Payload(8, 5, 16383, 1, 6, 6, Some(Devices.Clock(1, None, 1))))
  {
    assert ShortSource[0..2] == [0x05, 0x00] && ShortSource[2..4] == [0xff, 0x7f];
    assert Payloads.Body(ShortSource) == [0x01];
    assert [0x05, 0x00][1..] == [0x00] && [0x00][1..] == [] && [0x01][1..] == [];
    assert [0xff, 0x7f][1..] == [0x7f] && [0x7f][1..] == [];
  }

  lemma ShortSourceSerialises()
    ensures Payloads.ToBytes(Payloads.Payload(8, 5, 16383, 1, 6, 6, Some(Devices.Clock(1, None, 1)))) == Ok(ShortSourceOut)
  {
    var p := Payloads.Payload(8, 5, 16383, 1, 6, 6, Some(Devices.Clock(1, None, 1)));
    var one: seq<byte> := [1];
    assert Uleb128.Encode(1) == one;
    CombineOne(1, one);
    assert one + Zeros(0) == one;
    assert Payloads.DeviceBytes(p.device) == Ok(one);
    assert Uleb128.Encode(5) == [5];
    assert Uleb128.Encode(16383) == [0xff, 0x7f] by {
      assert Uleb128.Encode(127) == [0x7f];
    }
    Payloads.FieldsLayout(p, one);
    CombinePadded(8, Payloads.Fields(p, one));
    var flat := Flatten(Payloads.Fields(p, one));
    assert flat == [0x05, 0xff, 0x7f, 0x01, 0x06, 0x06, 0x01];
    assert flat + Zeros(1) == ShortSourceOut;
  }

  lemma ShortSourceRedecodes()
    ensures Payloads.InModel(ShortSourceOut) && Payloads.Decode(ShortSourceOut).Ok?
    ensures Payloads.Decode(ShortSourceOut).value.src == 16261
  {
    assert ShortSourceOut[0..2] == [0x05, 0xff] && ShortSourceOut[2..4] == [0x7f, 0x01];
    assert Payloads.Body(ShortSourceOut) == [0x00];
    assert [0x05, 0xff][1..] == [0xff] && [0xff][1..] == [];
  }

  /** Corrected: an address is written as its ULEB128 encoding zero-padded
      to the two bytes the field occupies. */
  function EncodeAddress(v: nat): (field: seq<byte>)
    requires v < Payloads.AddressLimit()
    ensures |field| == Payloads.AddressBytes
  {
    Payloads.AddressEncodingFits(v);
    Uleb128.Encode(v) + Zeros(Payloads.AddressBytes - |Uleb128.Encode(v)|)
  }

  /** Every address survives the fixed-width field. */
  lemma AddressRoundTrip(v: nat)
    requires v < Payloads.AddressLimit()
    ensures Uleb128.Decode(EncodeAddress(v)) == v
  {
    var e := Uleb128.Encode(v);
    Payloads.AddressEncodingFits(v);
    Uleb128.Pow128Monotonic(Payloads.AddressBytes, Uleb128.MaxLongBytes);
    Uleb128.DecodeEncode(v);
    Uleb128.DecodeTrailingZeros(e, Payloads.AddressBytes - |e|);
  }

  /** Corrected `Payload.toBytes`: fixed-width addresses. */
  function PayloadToBytes(p: Payloads.Payload): (r: Result<seq<byte>>)
    requires p.src < Payloads.AddressLimit() && p.dst < Payloads.AddressLimit()
    ensures p.device.None? ==> r == Fail(NullPointer)
    ensures r.Ok? ==> |r.value| == p.size
    ensures r.Ok? ==> (p.size >= Payloads.HeaderSize && r.value[..Payloads.HeaderSize] ==
                       EncodeAddress(p.src) + EncodeAddress(p.dst) + [p.serial, p.devType, p.cmd])
  {
    var body :- Payloads.DeviceBytes(p.device);
    var fields := [EncodeAddress(p.src), EncodeAddress(p.dst), [p.serial], [p.devType], [p.cmd], body];
    FixedFieldsLayout(p, body);
    Combine(p.size, fields)
  }

  lemma FixedFieldsLayout(p: Payloads.Payload, body: seq<byte>)
    requires p.src < Payloads.AddressLimit() && p.dst < Payloads.AddressLimit()
    ensures var f := [EncodeAddress(p.src), EncodeAddress(p.dst), [p.serial], [p.devType], [p.cmd], body];
            Flatten(f) == EncodeAddress(p.src) + EncodeAddress(p.dst) + [p.serial, p.devType, p.cmd] + body
  {
    var a, b := EncodeAddress(p.src), EncodeAddress(p.dst);
    var s, t, c := [p.serial], [p.devType], [p.cmd];
    FlattenSnoc([], a);
    FlattenSnoc([a], b);
    FlattenSnoc([a, b], s);
    FlattenSnoc([a, b, s], t);
    FlattenSnoc([a, b, s, t], c);
    FlattenSnoc([a, b, s, t, c], body);
    assert [] + [a] == [a] && [a] + [b] == [a, b] && [a, b] + [s] == [a, b, s];
    assert [a, b, s] + [t] == [a, b, s, t] && [a, b, s, t] + [c] == [a, b, s, t, c];
    assert [a, b, s, t, c] + [body] == [a, b, s, t, c, body];
    assert Flatten([]) == [];
    assert a + b + s + t + c + body == a + b + [p.serial, p.devType, p.cmd] + body;
  }

  /** With fixed-width addresses, decoding the serialised payload gives back
      every header field: both addresses, serial, device type and command. */
  lemma HeaderSurvives(bytes: seq<byte>)
    requires Payloads.InModel(bytes)
    requires Payloads.Decode(bytes).Ok?
    requires PayloadToBytes(Payloads.Decode(bytes).value).Ok?
    ensures var out := PayloadToBytes(Payloads.Decode(bytes).value).value;
            Payloads.InModel(out) && Payloads.Decode(out).Ok?
    ensures var p := Payloads.Decode(bytes).value;
            var q := Payloads.Decode(PayloadToBytes(p).value).value;
            q.src == p.src && q.dst == p.dst && q.serial == p.serial && q.devType == p.devType && q.cmd == p.cmd
  {
    var p := Payloads.Decode(bytes).value;
    var out := PayloadToBytes(p).value;
    assert out[..Payloads.HeaderSize][0..2] == out[0..2];
    assert out[..Payloads.HeaderSize][2..4] == out[2..4];
    assert out[0..2] == EncodeAddress(p.src);
    assert out[2..4] == EncodeAddress(p.dst);
    assert out[4] == p.serial && out[5] == p.devType && out[6] == p.cmd;
    AddressRoundTrip(p.src);
    AddressRoundTrip(p.dst);
  }
}
