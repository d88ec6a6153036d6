/** Byte sequences and the fixed-size assembly helper shared by every
    serialiser of the codec (`struct.combineByteArrays`), together with the
    JDK's `Arrays.copyOfRange` slicing the decoders rely on. */
module Bytes {
  import opened Results

  /** An unsigned byte, as produced by `b & 0xff`. */
  type byte = x: int | 0 <= x < 256

  /** `n` zero bytes, the contents of a fresh `new byte[n]`. */
  function Zeros(n: nat): (r: seq<byte>)
    ensures |r| == n
    ensures forall i :: 0 <= i < n ==> r[i] == 0
  {
    seq(n, _ => 0)
  }

  predicate AllZero(s: seq<byte>) {
    forall i :: 0 <= i < |s| ==> s[i] == 0
  }

  /** Concatenation of the pieces, in order. */
  function Flatten(pieces: seq<seq<byte>>): seq<byte> {
    if |pieces| == 0 then [] else Flatten(pieces[..|pieces| - 1]) + pieces[|pieces| - 1]
  }

  lemma FlattenSnoc(pieces: seq<seq<byte>>, last: seq<byte>)
    ensures Flatten(pieces + [last]) == Flatten(pieces) + last
  {
    assert (pieces + [last])[..|pieces|] == pieces;
  }

  lemma {:induction false} FlattenPrefixLength(pieces: seq<seq<byte>>, k: nat)
    requires k <= |pieces|
    ensures |Flatten(pieces[..k])| <= |Flatten(pieces)|
    decreases |pieces|
  {
    if k < |pieces| {
      var n := |pieces| - 1;
      assert pieces[..n][..k] == pieces[..k];
      FlattenPrefixLength(pieces[..n], k);
      assert pieces[..|pieces|] == pieces;
    } else {
      assert pieces[..k] == pieces;
    }
  }

  /** `Arrays.copyOfRange(s, from, to)`: a copy of `s[from..to]`, padded with
      zeros when `to` runs past the end of `s`. */
  function CopyOfRange(s: seq<byte>, from: nat, to: nat): (r: Result<seq<byte>>)
    ensures r.Fail? <==> from > to || from > |s|
    ensures from > to ==> r == Fail(IllegalArgument)
    ensures r.Ok? ==> |r.value| == to - from
    ensures r.Ok? ==> forall i :: from <= i < to ==> r.value[i - from] == (if i < |s| then s[i] else 0)
  {
    if from > to then Fail(IllegalArgument)
    else if from > |s| then Fail(IndexOutOfBounds)
    else if to <= |s| then Ok(s[from..to])
    else Ok(s[from..] + Zeros(to - |s|))
  }

  /** `combineByteArrays(size, pieces)`: the pieces written one after another
      into a zero-filled array of exactly `size` bytes; a piece that does not
      fit makes `ByteBuffer.put` throw. */
  function Combine(size: nat, pieces: seq<seq<byte>>): (r: Result<seq<byte>>)
    ensures r.Ok? <==> |Flatten(pieces)| <= size
    ensures r.Fail? ==> r.fault == BufferOverflow
    ensures r.Ok? ==> |r.value| == size
    ensures r.Ok? ==> r.value[..|Flatten(pieces)|] == Flatten(pieces)
    ensures r.Ok? ==> AllZero(r.value[|Flatten(pieces)|..])
  {
    var content := Flatten(pieces);
    if |content| <= size then
      var out := content + Zeros(size - |content|);
      assert out[..|content|] == content;
      assert out[|content|..] == Zeros(size - |content|);
      Ok(out)
    else
      Fail(BufferOverflow)
  }

  /** What fits is the pieces followed by zero padding up to `size`. */
  lemma CombinePadded(size: nat, pieces: seq<seq<byte>>)
    requires |Flatten(pieces)| <= size
    ensures Combine(size, pieces) == Ok(Flatten(pieces) + Zeros(size - |Flatten(pieces)|))
  {
  }

  /** Assembling a single piece: the piece followed by zero padding. */
  lemma CombineOne(size: nat, piece: seq<byte>)
    ensures |piece| <= size ==> Combine(size, [piece]) == Ok(piece + Zeros(size - |piece|))
    ensures |piece| > size ==> Combine(size, [piece]) == Fail(BufferOverflow)
  {
    assert [piece][..0] == [];
    assert Flatten([piece]) == piece;
  }

  /** The same assembly performed the way the source does it: a write
      position advancing through a zero-filled buffer, one `put` per piece. */
  method CombineByteArrays(size: nat, pieces: seq<seq<byte>>) returns (r: Result<seq<byte>>)
    ensures r == Combine(size, pieces)
  {
    var buffer := Zeros(size);
    var position := 0;
    for k := 0 to |pieces|
      invariant position == |Flatten(pieces[..k])| <= size
      invariant |buffer| == size
      invariant buffer[..position] == Flatten(pieces[..k])
      invariant forall i :: position <= i < size ==> buffer[i] == 0
    {
      var piece := pieces[k];
      assert pieces[..k + 1][..k] == pieces[..k];
      if |piece| > size - position {
        FlattenPrefixLength(pieces, k + 1);
        return Fail(BufferOverflow);
      }
      buffer := buffer[..position] + piece + buffer[position + |piece|..];
      position := position + |piece|;
    }
    assert pieces[..|pieces|] == pieces;
    assert buffer == Flatten(pieces) + Zeros(size - position);
    r := Ok(buffer);
  }
}
