/** The frame the demo entry point feeds through the codec: a clock
    (device type 6) reporting a timestamp (command 6) from bus address 819 to
    bus address 16383. */
module Sample {
  import opened Results
  import opened Bytes
  import Uleb128
  import Devices
  import Payloads
  import Packets

  const Frame: seq<byte> :=
    [0x0d, 0xb3, 0x06, 0xff, 0x7f, 0x01, 0x06, 0x06, 0x88, 0xd0, 0xab, 0xfa, 0x93, 0x31, 0x8a]

  /** The six body bytes `88 d0 ab fa 93 31` as one ULEB128 value. */
  const Timestamp: nat := 1688984021000

  const Section: seq<byte> := [0xb3, 0x06, 0xff, 0x7f, 0x01, 0x06, 0x06, 0x88, 0xd0, 0xab, 0xfa, 0x93, 0x31]
  const Body: seq<byte> := [0x88, 0xd0, 0xab, 0xfa, 0x93, 0x31]

  lemma SampleSlices()
    ensures Packets.PayloadSection(Frame) == Section
    ensures Section[0..2] == [0xb3, 0x06] && Section[2..4] == [0xff, 0x7f]
    ensures Payloads.Body(Section) == Body
  {
  }

  lemma SampleValues()
    ensures Uleb128.Decode([0xb3, 0x06]) == 819
    ensures Uleb128.Decode([0xff, 0x7f]) == 16383
    ensures Uleb128.Decode(Body) == Timestamp
  {
    assert Uleb128.Decode([0x06]) == 6 by { assert [0x06][1..] == []; }
    assert [0xb3, 0x06][1..] == [0x06];
    assert Uleb128.Decode([0x7f]) == 127 by { assert [0x7f][1..] == []; }
    assert [0xff, 0x7f][1..] == [0x7f];
    var b5: seq<byte> := [0x31];
    var b4: seq<byte> := [0x93, 0x31];
    var b3: seq<byte> := [0xfa, 0x93, 0x31];
    var b2: seq<byte> := [0xab, 0xfa, 0x93, 0x31];
    var b1: seq<byte> := [0xd0, 0xab, 0xfa, 0x93, 0x31];
    assert b5[1..] == [] && b4[1..] == b5 && b3[1..] == b4 && b2[1..] == b3 && b1[1..] == b2 && Body[1..] == b1;
    assert Uleb128.Decode(b5) == 0x31;
    assert Uleb128.Decode(b4) == 0x13 + 128 * 0x31;
    assert Uleb128.Decode(b3) == 0x7a + 128 * (0x13 + 128 * 0x31);
    assert Uleb128.Decode(b2) == 0x2b + 128 * (0x7a + 128 * (0x13 + 128 * 0x31));
    assert Uleb128.Decode(b1) == 0x50 + 128 * (0x2b + 128 * (0x7a + 128 * (0x13 + 128 * 0x31)));
  }

  lemma SampleInModel()
    ensures Packets.InModel(Frame) && |Frame| >= 2 + Payloads.HeaderSize
    ensures Packets.PayloadSection(Frame) == Section && Frame[8..|Frame| - 1] == Body
  {
    SampleSlices();
  }

  /** `Packets.FrameRoundTrip` stated over named pieces of a frame. */
  lemma FrameRoundTripAt(frame: seq<byte>, section: seq<byte>, body: seq<byte>)
    requires Packets.InModel(frame) && |frame| >= 2 + Payloads.HeaderSize
    requires Packets.PayloadSection(frame) == section && frame[8..|frame| - 1] == body
    requires Payloads.AddressesCanonical(section)
    requires Payloads.BodySurvives(frame[6], frame[7], body)
    ensures Packets.Decode(frame).Ok? && Packets.ToBytes(Packets.Decode(frame).value) == Ok(frame)
  {
    Packets.FrameRoundTrip(frame);
  }

  /** Both addresses and the timestamp are minimal encodings. */
  lemma SampleCanonical()
    ensures Payloads.AddressesCanonical(Section)
    ensures Devices.PaddedCanonical(Body)
  {
    SampleSlices();
    assert Uleb128.Canonical([0xb3, 0x06]) && Uleb128.Canonical([0xff, 0x7f]);
    assert Body[..6] == Body && Uleb128.Canonical(Body[..6]);
    assert AllZero(Body[6..]);
  }

  /** The sample decodes to the documented fields. */
  lemma SampleFrameDecodes()
    ensures Packets.InModel(Frame)
    ensures Packets.Decode(Frame) ==
      Ok(Packets.Packet(15, 0x0d,
                        Payloads.Payload(13, 819, 16383, 1, Devices.ClockType, Devices.TimestampCommand,
                                         Some(Devices.Clock(6, None, Timestamp))),
                        0x8a))
  {
    SampleSlices();
    SampleValues();
  }

  /** Re-serialising the decoded sample yields the identical 15 bytes. */
  lemma SampleFrameRoundTrip()
    ensures Packets.InModel(Frame)
    ensures Packets.Decode(Frame).Ok?
    ensures Packets.ToBytes(Packets.Decode(Frame).value) == Ok(Frame)
  {
    SampleSlices();
    SampleCanonical();
    SampleInModel();
    FrameRoundTripAt(Frame, Section, Body);
  }
}
