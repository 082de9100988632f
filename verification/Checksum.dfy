/** The one-byte check code: the XOR of all bytes before it. */
module Checksum {
  import opened Bytes
  import Bits

  function XorByte(a: Byte, b: Byte): Byte {
    assert Bits.Pow2(8) == 256;
    Bits.XorBound(a, b, 8);
    Bits.Xor(a, b)
  }

  function Fold(data: Bytes): Byte {
    if data == [] then 0 else XorByte(data[0], Fold(data[1..]))
  }

  method XorChecksum(data: Bytes) returns (cs: Byte)
    ensures cs == Fold(data)
  {
    cs := 0;
    Bits.XorZero(Fold(data));
    for i := 0 to |data|
      invariant XorByte(cs, Fold(data[i..])) == Fold(data)
    {
      assert data[i..][1..] == data[i + 1..];
      Bits.XorAssociates(cs, data[i], Fold(data[i + 1..]));
      cs := XorByte(cs, data[i]);
    }
    Bits.XorZero(cs);
  }

  lemma {:induction false} FoldConcat(a: Bytes, b: Bytes)
    ensures Fold(a + b) == XorByte(Fold(a), Fold(b))
  {
    if a == [] {
      assert a + b == b;
      Bits.XorZero(Fold(b));
    } else {
      assert (a + b)[1..] == a[1..] + b;
      FoldConcat(a[1..], b);
      Bits.XorAssociates(a[0], Fold(a[1..]), Fold(b));
    }
  }

  /** A payload followed by its check code. */
  function Seal(data: Bytes): (sealed: Bytes)
    ensures |sealed| == |data| + 1
  {
    data + [Fold(data)]
  }

  /** The receivers' test: the last byte is the check code of the bytes before it. */
  predicate Checks(payload: Bytes)
    requires payload != []
  {
    Fold(payload[..|payload| - 1]) == payload[|payload| - 1]
  }

  lemma ChecksIffFoldsToZero(payload: Bytes)
    requires payload != []
    ensures Checks(payload) <==> Fold(payload) == 0
  {
    var data, cs := payload[..|payload| - 1], payload[|payload| - 1];
    assert payload == data + [cs];
    FoldConcat(data, [cs]);
    assert Fold([cs]) == XorByte(cs, Fold([]));
    Bits.XorZero(cs);
    Bits.XorIsZero(Fold(data), cs);
  }

  lemma SealChecks(data: Bytes)
    ensures Checks(Seal(data)) && Fold(Seal(data)) == 0
    ensures Seal(data)[..|Seal(data)| - 1] == data
  {
    assert Seal(data)[..|data|] == data;
    ChecksIffFoldsToZero(Seal(data));
  }

  /** Two payloads with the same fold cannot differ in exactly one position. */
  lemma FoldDetectsByte(a: Bytes, b: Bytes, i: nat)
    requires |a| == |b| && i < |a|
    requires forall j :: 0 <= j < |a| && j != i ==> a[j] == b[j]
    ensures Fold(a) == Fold(b) <==> a == b
  {
    var pre, post := a[..i], a[i + 1..];
    assert a == pre + ([a[i]] + post);
    assert b == pre + ([b[i]] + post);
    FoldConcat(pre, [a[i]] + post);
    FoldConcat(pre, [b[i]] + post);
    assert ([a[i]] + post)[1..] == post && ([b[i]] + post)[1..] == post;
    if Fold(a) == Fold(b) {
      XorCancels(Fold(pre), XorByte(a[i], Fold(post)), XorByte(b[i], Fold(post)));
      Bits.XorCommutes(a[i], Fold(post));
      Bits.XorCommutes(b[i], Fold(post));
      XorCancels(Fold(post), a[i], b[i]);
    }
  }

  lemma XorCancels(x: nat, y: nat, z: nat)
    requires Bits.Xor(x, y) == Bits.Xor(x, z)
    ensures y == z
  {
    Bits.XorAssociates(x, x, y);
    Bits.XorAssociates(x, x, z);
    Bits.XorIsZero(x, x);
    Bits.XorZero(y);
    Bits.XorZero(z);
  }

  /** No single corrupted byte, the check code included, goes unnoticed. */
  lemma SingleByteErrorDetected(sent: Bytes, received: Bytes, i: nat)
    requires sent != [] && Checks(sent)
    requires |received| == |sent| && i < |sent| && received[i] != sent[i]
    requires forall j :: 0 <= j < |sent| && j != i ==> received[j] == sent[j]
    ensures !Checks(received)
  {
    ChecksIffFoldsToZero(sent);
    ChecksIffFoldsToZero(received);
    FoldDetectsByte(sent, received, i);
  }
}
