/** The device layer: `DeviceFabric.createDevice` picks a device class by its
    type code and hands it the command body; each class's `toBytes` writes the
    body back. Only `SmartHub` (a name) and `Clock` (a name or a timestamp)
    keep anything; `EnvSensor`, `Switch`, `Lamp` and `Socket` remember only the
    body's length and serialise to no bytes at all. */
module Devices {
  import opened Results
  import opened Bytes
  import Uleb128

  const SmartHubType: byte := 1
  const EnvSensorType: byte := 2
  const SwitchType: byte := 3
  const LampType: byte := 4
  const SocketType: byte := 5
  const ClockType: byte := 6

  /** Command codes the `Clock` constructor distinguishes. */
  const NameCommand: byte := 1
  const TimestampCommand: byte := 6

  /** A constructed device. `size` is the length of the body it was built
      from; names are raw bytes (no character-set conversion). */
  datatype Device =
    | SmartHub(size: nat, devName: seq<byte>)
    | EnvSensor(size: nat)
    | Switch(size: nat)
    | Lamp(size: nat)
    | Socket(size: nat)
    | Clock(size: nat, clockName: Option<seq<byte>>, timestamp: nat)

  /** The type code `createDevice` maps to each class. */
  function TypeCode(d: Device): byte {
    match d
    case SmartHub(_, _) => SmartHubType
    case EnvSensor(_) => EnvSensorType
    case Switch(_) => SwitchType
    case Lamp(_) => LampType
    case Socket(_) => SocketType
    case Clock(_, _, _) => ClockType
  }

  predicate KnownType(devType: byte) {
    SmartHubType <= devType <= ClockType
  }

  /** Devices whose `toBytes` returns an empty array. */
  predicate IsStub(devType: byte) {
    EnvSensorType <= devType <= SocketType
  }

  /** The one case the model leaves to a precondition: a clock timestamp
      body longer than a Java `long` can hold. */
  predicate ClockBodyFits(devType: byte, cmd: byte, body: seq<byte>) {
    devType == ClockType && cmd == TimestampCommand ==> |body| <= Uleb128.MaxLongBytes
  }

  /** `Device.setName`: the first `bytes[0]` bytes, counted from index 0, so
      the length byte itself opens the name; zero-padded when the declared
      length runs past the body. */
  function SetName(bytes: seq<byte>): (name: Result<seq<byte>>)
    ensures name.Fail? <==> |bytes| == 0
    ensures name.Fail? ==> name.fault == IndexOutOfBounds
    ensures name.Ok? ==> |name.value| == bytes[0]
    ensures name.Ok? && bytes[0] > 0 ==> name.value[0] == bytes[0]
    ensures name.Ok? ==> forall i :: 0 <= i < |name.value| ==> name.value[i] == (if i < |bytes| then bytes[i] else 0)
  {
    if |bytes| == 0 then Fail(IndexOutOfBounds) else CopyOfRange(bytes, 0, bytes[0])
  }

  /** `DeviceFabric.createDevice`: dispatch on the type code; an unknown code
      yields no device. Constructors that read a name fail on an empty body. */
  function CreateDevice(devType: byte, cmd: byte, body: seq<byte>): (r: Result<Option<Device>>)
    requires ClockBodyFits(devType, cmd, body)
    ensures r.Fail? <==> |body| == 0 && (devType == SmartHubType || (devType == ClockType && cmd == NameCommand))
    ensures r.Fail? ==> r.fault == IndexOutOfBounds
    ensures r.Ok? ==> (r.value.Some? <==> KnownType(devType))
    ensures r.Ok? && r.value.Some? ==> TypeCode(r.value.value) == devType && r.value.value.size == |body|
    ensures r.Ok? && r.value.Some? && r.value.value.Clock? && cmd == TimestampCommand ==>
      r.value.value.timestamp < Uleb128.Pow128(|body|)
    ensures r.Ok? && devType == SmartHubType ==> r.value == Some(SmartHub(|body|, SetName(body).value))
    ensures r.Ok? && devType == ClockType ==>
      r.value == Some(Clock(|body|,
                            if cmd == NameCommand then Some(SetName(body).value) else None,
                            if cmd == TimestampCommand then Uleb128.Decode(body) else 0))
  {
    if devType == SmartHubType then
      var name :- SetName(body);
      Ok(Some(SmartHub(|body|, name)))
    else if devType == EnvSensorType then Ok(Some(EnvSensor(|body|)))
    else if devType == SwitchType then Ok(Some(Switch(|body|)))
    else if devType == LampType then Ok(Some(Lamp(|body|)))
    else if devType == SocketType then Ok(Some(Socket(|body|)))
    else if devType == ClockType then
      if cmd == NameCommand then
        var name :- SetName(body);
        Ok(Some(Clock(|body|, Some(name), 0)))
      else if cmd == TimestampCommand then
        Ok(Some(Clock(|body|, None, Uleb128.Decode(body))))
      else
        Ok(Some(Clock(|body|, None, 0)))
    else Ok(None)
  }

  /** Each class's `toBytes`. A name or timestamp is written into an array of
      the original body length; one that does not fit overflows the buffer. */
  function ToBytes(d: Device): (r: Result<seq<byte>>)
    ensures d.SmartHub? ==> (r.Ok? <==> |d.devName| <= d.size)
    ensures d.Clock? ==> (r.Ok? <==> |Uleb128.Encode(d.timestamp)| <= d.size)
    ensures (d.SmartHub? || d.Clock?) && r.Ok? ==> |r.value| == d.size
    ensures !(d.SmartHub? || d.Clock?) ==> r == Ok([])
    ensures d.SmartHub? && r.Ok? ==> r.value == d.devName + Zeros(d.size - |d.devName|)
    ensures d.Clock? && r.Ok? ==>
      r.value == Uleb128.Encode(d.timestamp) + Zeros(d.size - |Uleb128.Encode(d.timestamp)|)
    ensures r.Fail? ==> r.fault == BufferOverflow
  {
    match d
    case SmartHub(size, name) =>
      CombineOne(size, name);
      Combine(size, [name])
    case Clock(size, _, timestamp) =>
      CombineOne(size, Uleb128.Encode(timestamp));
      Combine(size, [Uleb128.Encode(timestamp)])
    case _ => Ok([])
  }

  /** A body that is a minimal timestamp encoding followed by zero bytes. */
  ghost predicate PaddedCanonical(body: seq<byte>) {
    exists k :: 1 <= k <= |body| && Uleb128.Canonical(body[..k]) && AllZero(body[k..])
  }

  /** The bodies a device reproduces byte for byte when decoded and
      serialised again. */
  ghost predicate Reproducible(devType: byte, cmd: byte, body: seq<byte>) {
    if devType == SmartHubType then
      |body| >= 1 && body[0] <= |body| && AllZero(body[body[0]..])
    else if IsStub(devType) then
      body == []
    else if devType == ClockType then
      if cmd == TimestampCommand then PaddedCanonical(body) else |body| >= 1 && AllZero(body)
    else
      false
  }

  /** Decoding a body into a device and serialising the device gives back the
      same bytes exactly for the `Reproducible` bodies. */
  lemma DeviceRoundTrip(devType: byte, cmd: byte, body: seq<byte>)
    requires ClockBodyFits(devType, cmd, body)
    ensures (var r := CreateDevice(devType, cmd, body);
             r.Ok? && r.value.Some? && ToBytes(r.value.value) == Ok(body))
            <==> Reproducible(devType, cmd, body)
  {
    if devType == SmartHubType && |body| >= 1 {
      SmartHubRoundTrip(body);
    } else if devType == ClockType && |body| >= 1 {
      if cmd == TimestampCommand {
        ClockTimestampRoundTrip(body);
      } else {
        ClockZeroRoundTrip(body, CreateDevice(devType, cmd, body).value.value.clockName);
      }
    }
  }

  /** A hub reproduces its body when the declared name length fits and
      everything after the name is zero: the name keeps its first `body[0]`
      bytes and the rest of the array is padding. */
  lemma SmartHubRoundTrip(body: seq<byte>)
    requires |body| >= 1
    ensures ToBytes(CreateDevice(SmartHubType, 0, body).value.value) == Ok(body)
            <==> body[0] <= |body| && AllZero(body[body[0]..])
  {
    var name := CreateDevice(SmartHubType, 0, body).value.value.devName;
    CombineOne(|body|, name);
    if body[0] <= |body| {
      assert name == body[..body[0]];
      assert body == body[..body[0]] + body[body[0]..];
      if AllZero(body[body[0]..]) {
        assert body[body[0]..] == Zeros(|body| - body[0]);
      }
    }
  }

  /** A clock that holds no timestamp writes the single byte `encode(0)`, so
      its body comes back as all zeros. */
  lemma ClockZeroRoundTrip(body: seq<byte>, name: Option<seq<byte>>)
    requires |body| >= 1
    ensures ToBytes(Clock(|body|, name, 0)) == Ok(Zeros(|body|))
    ensures ToBytes(Clock(|body|, name, 0)) == Ok(body) <==> AllZero(body)
  {
    CombineOne(|body|, Uleb128.Encode(0));
    assert Uleb128.Encode(0) + Zeros(|body| - 1) == Zeros(|body|);
    if AllZero(body) {
      assert body == Zeros(|body|);
    }
  }

  /** The timestamp re-encoding of a `Clock` body under command 6: it never
      overflows a non-empty body, and it reproduces the body exactly when the
      body is a minimal encoding followed by zero bytes. */
  lemma ClockTimestampRoundTrip(body: seq<byte>)
    requires 1 <= |body| <= Uleb128.MaxLongBytes
    ensures ToBytes(Clock(|body|, None, Uleb128.Decode(body))).Ok?
    ensures ToBytes(Clock(|body|, None, Uleb128.Decode(body))) == Ok(body) <==> PaddedCanonical(body)
  {
    ClockReencoding(body);
    ReencodingIff(body);
  }

  /** The bytes a command-6 clock writes: the minimal encoding of its value,
      zero-padded to the body length. */
  lemma ClockReencoding(body: seq<byte>)
    requires 1 <= |body| <= Uleb128.MaxLongBytes
    ensures |Uleb128.Encode(Uleb128.Decode(body))| <= |body|
    ensures var e := Uleb128.Encode(Uleb128.Decode(body));
            ToBytes(Clock(|body|, None, Uleb128.Decode(body))) == Ok(e + Zeros(|body| - |e|))
  {
    TimestampFits(body);
    CombineOne(|body|, Uleb128.Encode(Uleb128.Decode(body)));
  }

  lemma ReencodingIff(body: seq<byte>)
    requires 1 <= |body| <= Uleb128.MaxLongBytes
    requires |Uleb128.Encode(Uleb128.Decode(body))| <= |body|
    ensures var e := Uleb128.Encode(Uleb128.Decode(body));
            e + Zeros(|body| - |e|) == body <==> PaddedCanonical(body)
  {
    var e := Uleb128.Encode(Uleb128.Decode(body));
    if e + Zeros(|body| - |e|) == body {
      ReproducedIsPaddedCanonical(body);
    }
    if PaddedCanonical(body) {
      PaddedCanonicalIsReproduced(body);
    }
  }

  /** In particular a minimal encoding is reproduced as it is. */
  lemma ClockCanonicalRoundTrip(body: seq<byte>)
    requires |body| <= Uleb128.MaxLongBytes
    requires Uleb128.Canonical(body)
    ensures ToBytes(Clock(|body|, None, Uleb128.Decode(body))) == Ok(body)
  {
    assert body[..|body|] == body;
    assert AllZero(body[|body|..]);
    ClockTimestampRoundTrip(body);
  }

  /** Re-encoding the value of a non-empty body never needs more bytes. */
  lemma TimestampFits(body: seq<byte>)
    requires 1 <= |body| <= Uleb128.MaxLongBytes
    ensures |Uleb128.Encode(Uleb128.Decode(body))| <= |body|
  {
    var t := Uleb128.Decode(body);
    var e := Uleb128.Encode(t);
    Uleb128.EncodeBounds(t);
    Uleb128.Pow128Monotonic(|body|, if |e| > |body| then |e| - 1 else |body|);
  }

  lemma ReproducedIsPaddedCanonical(body: seq<byte>)
    requires 1 <= |body| <= Uleb128.MaxLongBytes
    requires |Uleb128.Encode(Uleb128.Decode(body))| <= |body|
    requires (var e := Uleb128.Encode(Uleb128.Decode(body)); e + Zeros(|body| - |e|) == body)
    ensures PaddedCanonical(body)
  {
    var e := Uleb128.Encode(Uleb128.Decode(body));
    Uleb128.EncodeCanonical(Uleb128.Decode(body));
    assert body[..|e|] == e;
    assert AllZero(body[|e|..]);
  }

  lemma PaddedCanonicalIsReproduced(body: seq<byte>)
    requires 1 <= |body| <= Uleb128.MaxLongBytes
    requires |Uleb128.Encode(Uleb128.Decode(body))| <= |body|
    requires PaddedCanonical(body)
    ensures (var e := Uleb128.Encode(Uleb128.Decode(body)); e + Zeros(|body| - |e|) == body)
  {
    var k :| 1 <= k <= |body| && Uleb128.Canonical(body[..k]) && AllZero(body[k..]);
    var c := body[..k];
    assert body[k..] == Zeros(|body| - k);
    assert body == c + Zeros(|body| - k);
    Uleb128.DecodeTrailingZeros(c, |body| - k);
    Uleb128.EncodeDecodeCanonical(c);
  }

  /** A device built from a body serialises back to the body's length (or to
      nothing, for the stub classes) and fails only when a name is declared
      longer than the body or a clock body is empty. */
  lemma DecodedDeviceToBytes(devType: byte, cmd: byte, body: seq<byte>)
    requires ClockBodyFits(devType, cmd, body)
    requires CreateDevice(devType, cmd, body).Ok?
    requires CreateDevice(devType, cmd, body).value.Some?
    ensures var d := CreateDevice(devType, cmd, body).value.value;
            ToBytes(d).Ok? <==> (devType == SmartHubType ==> body[0] <= |body|) && (devType == ClockType ==> |body| >= 1)
    ensures var d := CreateDevice(devType, cmd, body).value.value;
            ToBytes(d).Ok? ==> |ToBytes(d).value| == (if IsStub(devType) then 0 else |body|)
  {
    var d := CreateDevice(devType, cmd, body).value.value;
    if devType == ClockType && |body| >= 1 && cmd == TimestampCommand {
      ClockTimestampRoundTrip(body);
    }
  }
}
