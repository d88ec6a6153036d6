/** `ULEB128Coder`: unsigned LEB128 (section 7.6 of the DWARF Version 5
    standard). A value is cut into 7-bit groups, least significant group
    first; every byte but the last carries the continuation flag 0x80.

    Bit operations are written arithmetically on bytes 0..255:
    `b & 0x7f` is `b % 128`, `(b & 0x80) != 0` is `b >= 128`, `b | 0x80` on a
    7-bit group is `b + 128`, `x << s` is `x * 2^s` and `value >>= 7` on a
    non-negative value is `value / 128`. The decoder's `value |= group << shift`
    is written as addition: each group lands above every bit set so far. */
module Uleb128 {
  import opened Bytes

  const NextMask: byte := 0x80
  /** The longest input whose decoded value still fits a non-negative Java `long`. */
  const MaxLongBytes: nat := 9

  /** The 7 value bits of a byte: `b & BIT_MASK`. */
  function Low7(b: byte): byte {
    b % 128
  }

  /** Whether the continuation flag is set: `(b & NEXT_MASK) != 0`. */
  predicate HasNext(b: byte) {
    b >= NextMask
  }

  function Pow128(k: nat): (r: nat)
    ensures r >= 1
  {
    if k == 0 then 1 else 128 * Pow128(k - 1)
  }

  function Pow2(k: nat): (r: nat)
    ensures r >= 1
  {
    if k == 0 then 1 else 2 * Pow2(k - 1)
  }

  /** Exclusive upper bound of a non-negative Java `long`: 2^63. */
  function LongLimit(): nat {
    Pow128(MaxLongBytes)
  }

  /** `ULEB128Coder.encode` on a non-negative value: one byte per 7-bit group,
      at least one byte, continuation flag on all but the last. The length is
      the least number of groups that holds the value. */
  function Encode(value: nat): (r: seq<byte>)
    ensures |r| >= 1
    ensures forall i :: 0 <= i < |r| - 1 ==> HasNext(r[i])
    ensures !HasNext(r[|r| - 1])
    decreases value
  {
    if value < 128 then [value] else [value % 128 + NextMask] + Encode(value / 128)
  }

  /** `ULEB128Coder.decode`: the groups of every byte of the span, weighted
      128^i, with the continuation flags masked off and never consulted. */
  function Decode(bytes: seq<byte>): (value: nat)
    requires |bytes| <= MaxLongBytes
    ensures value < Pow128(|bytes|)
  {
    if |bytes| == 0 then 0 else Low7(bytes[0]) + 128 * Decode(bytes[1..])
  }

  /** A minimal encoding: flags on all but the last byte, and no trailing
      zero group that could be dropped. */
  predicate Canonical(bytes: seq<byte>) {
    && |bytes| >= 1
    && (forall i :: 0 <= i < |bytes| - 1 ==> HasNext(bytes[i]))
    && !HasNext(bytes[|bytes| - 1])
    && (|bytes| > 1 ==> bytes[|bytes| - 1] != 0)
  }

  /** The do-while loop of `ULEB128Coder.encode`, step by step. */
  method EncodeLoop(value: nat) returns (bytes: seq<byte>)
    ensures bytes == Encode(value)
  {
    var v := value;
    bytes := [];
    var more := true;
    while more
      invariant more ==> bytes + Encode(v) == Encode(value)
      invariant !more ==> bytes == Encode(value)
      decreases if more then v + 1 else 0
    {
      var cur := v % 128;
      var rest := v / 128;
      assert rest < v || rest == 0;
      if rest != 0 {
        cur := cur + NextMask;
      }
      EncodeUnfold(v);
      AppendStep(bytes, cur, if rest == 0 then [] else Encode(rest), Encode(v));
      bytes := bytes + [cur];
      v := rest;
      more := v != 0;
    }
  }

  /** One iteration of the encoder loop: the byte it emits and what is left. */
  lemma EncodeUnfold(v: nat)
    ensures v / 128 == 0 ==> Encode(v) == [v % 128]
    ensures v / 128 != 0 ==> Encode(v) == [v % 128 + NextMask] + Encode(v / 128)
  {
  }

  lemma AppendStep(done: seq<byte>, cur: byte, rest: seq<byte>, whole: seq<byte>)
    requires whole == [cur] + rest
    ensures done + whole == (done + [cur]) + rest
  {
  }

  /** The for-each loop of `ULEB128Coder.decode`, with `shift` the running
      bit offset `7 * i`. The value read so far stays below `2^shift`, so the
      next group, shifted by `shift`, shares no bit with it: adding the group
      is the same as or-ing it in. */
  method DecodeLoop(bytes: seq<byte>) returns (value: nat)
    requires |bytes| <= MaxLongBytes
    ensures value == Decode(bytes)
  {
    value := 0;
    var shift := 0;
    for i := 0 to |bytes|
      invariant shift == 7 * i
      invariant value == Decode(bytes[..i])
      invariant value < Pow2(shift)
    {
      var cur := Low7(bytes[i]);
      Pow2Shift(i);
      Pow2Shift(i + 1);
      DecodeAppend(bytes[..i], bytes[i]);
      assert bytes[..i + 1] == bytes[..i] + [bytes[i]];
      value := value + cur * Pow2(shift);
      shift := shift + 7;
    }
    assert bytes[..|bytes|] == bytes;
  }

  lemma {:induction false} Pow2Shift(k: nat)
    ensures Pow2(7 * k) == Pow128(k)
  {
    if k > 0 {
      Pow2Shift(k - 1);
      var n := 7 * (k - 1);
      assert Pow2(n + 7) == 128 * Pow2(n) by {
        assert Pow2(n + 7) == 2 * Pow2(n + 6) == 4 * Pow2(n + 5) == 8 * Pow2(n + 4);
        assert Pow2(n + 4) == 2 * Pow2(n + 3) == 4 * Pow2(n + 2) == 8 * Pow2(n + 1) == 16 * Pow2(n);
      }
    }
  }

  lemma {:induction false} Pow128Monotonic(j: nat, k: nat)
    requires j <= k
    ensures Pow128(j) <= Pow128(k)
    decreases k
  {
    if j < k {
      Pow128Monotonic(j, k - 1);
    }
  }

  /** Decoding consumes every byte: one more byte adds its group at the next
      weight, whatever the flag of the byte before it. */
  lemma {:induction false} DecodeAppend(bytes: seq<byte>, b: byte)
    requires |bytes| < MaxLongBytes
    ensures Decode(bytes + [b]) == Decode(bytes) + Low7(b) * Pow128(|bytes|)
    decreases |bytes|
  {
    if |bytes| == 0 {
      assert (bytes + [b])[1..] == [];
    } else {
      var n := |bytes|;
      assert (bytes + [b])[1..] == bytes[1..] + [b];
      DecodeAppend(bytes[1..], b);
      Distribute128(Low7(bytes[0]), Decode(bytes[1..]), Low7(b), Pow128(n - 1));
    }
  }

  lemma Distribute128(head: int, tail: int, g: int, p: int)
    ensures head + 128 * (tail + g * p) == (head + 128 * tail) + g * (128 * p)
  {
  }

  /** The continuation flags carry no value: bytes with equal low groups
      decode to the same number. */
  lemma {:induction false} DecodeIgnoresFlags(a: seq<byte>, b: seq<byte>)
    requires |a| == |b| <= MaxLongBytes
    requires forall i :: 0 <= i < |a| ==> Low7(a[i]) == Low7(b[i])
    ensures Decode(a) == Decode(b)
    decreases |a|
  {
    if |a| > 0 {
      assert Low7(a[0]) == Low7(b[0]);
      DecodeIgnoresFlags(a[1..], b[1..]);
    }
  }

  /** Zero bytes after the last group do not change the value. */
  lemma {:induction false} DecodeTrailingZeros(bytes: seq<byte>, n: nat)
    requires |bytes| + n <= MaxLongBytes
    ensures Decode(bytes + Zeros(n)) == Decode(bytes)
    decreases |bytes|
  {
    if |bytes| == 0 {
      DecodeZeros(n);
      assert bytes + Zeros(n) == Zeros(n);
    } else {
      assert (bytes + Zeros(n))[1..] == bytes[1..] + Zeros(n);
      DecodeTrailingZeros(bytes[1..], n);
    }
  }

  lemma {:induction false} DecodeZeros(n: nat)
    requires n <= MaxLongBytes
    ensures Decode(Zeros(n)) == 0
  {
    if n > 0 {
      assert Zeros(n)[1..] == Zeros(n - 1);
      DecodeZeros(n - 1);
    }
  }

  /** Round trip: every non-negative `long` encodes in at most 9 bytes and
      decodes back to itself. */
  lemma {:induction false} DecodeEncode(value: nat)
    requires value < LongLimit()
    ensures |Encode(value)| <= MaxLongBytes
    ensures Decode(Encode(value)) == value
  {
    EncodeFits(value);
    DecodeEncodeAny(value);
  }

  lemma EncodeFits(value: nat)
    requires value < LongLimit()
    ensures |Encode(value)| <= MaxLongBytes
  {
    var n := |Encode(value)|;
    EncodeBounds(value);
    Pow128Monotonic(MaxLongBytes, if n > MaxLongBytes then n - 1 else MaxLongBytes);
  }

  lemma {:induction false} DecodeEncodeAny(value: nat)
    requires |Encode(value)| <= MaxLongBytes
    ensures Decode(Encode(value)) == value
    decreases value
  {
    if value >= 128 {
      var e := Encode(value);
      assert e[1..] == Encode(value / 128);
      DecodeEncodeAny(value / 128);
    }
  }

  /** Whatever the encoder emits is minimal. */
  lemma {:induction false} EncodeCanonical(value: nat)
    ensures Canonical(Encode(value))
    decreases value
  {
    if value >= 128 {
      EncodeCanonical(value / 128);
      var e := Encode(value);
      assert e[|e| - 1] == Encode(value / 128)[|Encode(value / 128)| - 1];
    }
  }

  /** A minimal encoding is reproduced exactly by decoding and re-encoding. */
  lemma {:induction false} EncodeDecodeCanonical(bytes: seq<byte>)
    requires |bytes| <= MaxLongBytes
    requires Canonical(bytes)
    ensures Encode(Decode(bytes)) == bytes
    decreases |bytes|
  {
    var v := Decode(bytes);
    if |bytes| == 1 {
      assert v == bytes[0];
    } else {
      var rest := bytes[1..];
      assert Canonical(rest) by {
        assert forall i :: 0 <= i < |rest| - 1 ==> rest[i] == bytes[i + 1];
      }
      EncodeDecodeCanonical(rest);
      var w := Decode(rest);
      assert w > 0;
      assert v == bytes[0] - 128 + 128 * w;
      assert v / 128 == w && v % 128 == bytes[0] - 128;
    }
  }

  /** The encoder's outputs are exactly the minimal encodings. */
  lemma CanonicalIff(bytes: seq<byte>)
    requires |bytes| <= MaxLongBytes
    ensures Canonical(bytes) <==> Encode(Decode(bytes)) == bytes
  {
    if Canonical(bytes) {
      EncodeDecodeCanonical(bytes);
    } else if Encode(Decode(bytes)) == bytes {
      EncodeCanonical(Decode(bytes));
    }
  }

  /** The encoder uses no more groups than the value needs. */
  lemma {:induction false} EncodeBounds(value: nat)
    ensures value < Pow128(|Encode(value)|)
    ensures |Encode(value)| > 1 ==> Pow128(|Encode(value)| - 1) <= value
    decreases value
  {
    if value >= 128 {
      EncodeBounds(value / 128);
      assert |Encode(value)| == 1 + |Encode(value / 128)|;
    }
  }

  /** `encode` emits exactly `k` bytes for values in [128^(k-1), 128^k), and a
      single byte for every value below 128, zero included. */
  lemma EncodeLength(value: nat, k: nat)
    requires k >= 1
    ensures |Encode(value)| == k <==> (k == 1 || Pow128(k - 1) <= value) && value < Pow128(k)
  {
    var n := |Encode(value)|;
    EncodeBounds(value);
    if n < k {
      Pow128Monotonic(n, k - 1);
    } else if n > k {
      Pow128Monotonic(k, n - 1);
    }
  }
}
