/** `Packet`: the outermost frame, a length byte, the payload and a trailing
    byte named `crc8`. Neither framing byte is computed or checked: both are
    read from the input and written back as they were. */
module Packets {
  import opened Results
  import opened Bytes
  import Uleb128
  import Devices
  import Payloads

  datatype Packet = Packet(size: nat, length: byte, payload: Payloads.Payload, crc8: byte)

  /** The payload section: everything between the first and the last byte. */
  function PayloadSection(bytes: seq<byte>): seq<byte>
    requires |bytes| >= 2
  {
    bytes[1..|bytes| - 1]
  }

  predicate InModel(bytes: seq<byte>) {
    |bytes| >= 2 ==> Payloads.InModel(PayloadSection(bytes))
  }

  /** The `Packet(byte[])` constructor. */
  function Decode(bytes: seq<byte>): (r: Result<Packet>)
    requires InModel(bytes)
    ensures r.Ok? <==> |bytes| >= 2 && Payloads.Decode(PayloadSection(bytes)).Ok?
    ensures |bytes| == 0 ==> r == Fail(IndexOutOfBounds)
    ensures |bytes| == 1 ==> r == Fail(IllegalArgument)
    ensures r.Ok? ==> r.value.size == |bytes| && r.value.length == bytes[0] && r.value.crc8 == bytes[|bytes| - 1]
    ensures r.Ok? ==> r.value.payload == Payloads.Decode(PayloadSection(bytes)).value
  {
    if |bytes| == 0 then
      Fail(IndexOutOfBounds)
    else
      var section :- CopyOfRange(bytes, 1, |bytes| - 1);
      assert section == PayloadSection(bytes);
      var payload :- Payloads.Decode(section);
      Ok(Packet(|bytes|, bytes[0], payload, bytes[|bytes| - 1]))
  }

  /** `Packet.toBytes`: length byte, serialised payload, `crc8`, written into
      an array of the packet's original length. */
  function ToBytes(p: Packet): (r: Result<seq<byte>>)
    ensures r.Ok? ==> |r.value| == p.size && p.size >= 2
    ensures r.Ok? ==> r.value[0] == p.length
    ensures Payloads.ToBytes(p.payload).Fail? ==> r == Fail(Payloads.ToBytes(p.payload).fault)
  {
    var section :- Payloads.ToBytes(p.payload);
    FrameLayout([p.length], section, [p.crc8]);
    Combine(p.size, [[p.length], section, [p.crc8]])
  }

  lemma FrameLayout(first: seq<byte>, section: seq<byte>, last: seq<byte>)
    ensures Flatten([first, section, last]) == first + section + last
  {
    FlattenSnoc([], first);
    FlattenSnoc([first], section);
    FlattenSnoc([first, section], last);
    assert [] + [first] == [first] && [first] + [section] == [first, section];
    assert [first, section] + [last] == [first, section, last];
    assert Flatten([]) == [];
  }

  /** Neither framing byte is validated: whatever the length byte and the
      trailing byte hold, the frame decodes exactly when its payload section
      does, to the same payload. */
  lemma FramingNotValidated(length: byte, section: seq<byte>, crc8: byte)
    requires Payloads.InModel(section)
    ensures var bytes := [length] + section + [crc8];
            InModel(bytes) && (Decode(bytes).Ok? <==> Payloads.Decode(section).Ok?)
    ensures var bytes := [length] + section + [crc8];
            InModel(bytes) && Decode(bytes).Ok? ==>
              Decode(bytes).value == Packet(|section| + 2, length, Payloads.Decode(section).value, crc8)
  {
    var bytes := [length] + section + [crc8];
    assert PayloadSection(bytes) == section;
  }

  /** A decoded packet re-serialises without overflow whenever its payload
      does, and then to the length byte, the payload bytes and `crc8` with no
      padding: the payload section keeps its length. */
  lemma ReserialisedFrame(bytes: seq<byte>)
    requires InModel(bytes)
    requires Decode(bytes).Ok?
    ensures var p := Decode(bytes).value;
            ToBytes(p).Ok? <==> Payloads.ToBytes(p.payload).Ok?
    ensures var p := Decode(bytes).value;
            ToBytes(p).Ok? ==> ToBytes(p).value == [bytes[0]] + Payloads.ToBytes(p.payload).value + [bytes[|bytes| - 1]]
  {
    var p := Decode(bytes).value;
    if Payloads.ToBytes(p.payload).Ok? {
      var section := Payloads.ToBytes(p.payload).value;
      FrameLayout([p.length], section, [p.crc8]);
      CombinePadded(|bytes|, [[p.length], section, [p.crc8]]);
      assert Zeros(0) == [];
    }
  }

  /** A frame round-trips exactly when its payload section does: the framing
      bytes are copied through unchanged. */
  lemma PacketRoundTrip(bytes: seq<byte>)
    requires InModel(bytes)
    requires |bytes| >= 2
    ensures (Decode(bytes).Ok? && ToBytes(Decode(bytes).value) == Ok(bytes))
            <==> (var section := PayloadSection(bytes);
                  Payloads.Decode(section).Ok? && Payloads.ToBytes(Payloads.Decode(section).value) == Ok(section))
  {
    var section := PayloadSection(bytes);
    assert bytes == [bytes[0]] + section + [bytes[|bytes| - 1]];
    if Decode(bytes).Ok? {
      ReserialisedFrame(bytes);
      var p := Decode(bytes).value;
      if Payloads.ToBytes(p.payload).Ok? {
        var out := Payloads.ToBytes(p.payload).value;
        if [bytes[0]] + out + [bytes[|bytes| - 1]] == bytes {
          assert out == ([bytes[0]] + out + [bytes[|bytes| - 1]])[1..|bytes| - 1];
        }
      }
    }
  }

  /** End to end: a frame comes back byte for byte exactly when both its
      addresses are minimal two-byte encodings and its command body
      survives the device layer. */
  lemma FrameRoundTrip(bytes: seq<byte>)
    requires InModel(bytes)
    requires |bytes| >= 2 + Payloads.HeaderSize
    ensures (Decode(bytes).Ok? && ToBytes(Decode(bytes).value) == Ok(bytes))
            <==> Payloads.AddressesCanonical(PayloadSection(bytes))
                 && Payloads.BodySurvives(bytes[6], bytes[7], bytes[8..|bytes| - 1])
  {
    var section := PayloadSection(bytes);
    PacketRoundTrip(bytes);
    Payloads.PayloadRoundTrip(section);
    assert Payloads.Body(section) == bytes[8..|bytes| - 1];
  }
}
