/** Byte strings, the big-endian integers of `struct`, and clamped slices. */
module Bytes {

  type Byte = b: int | 0 <= b < 256
  type Bytes = seq<Byte>
  type Word = w: int | 0 <= w < 0x1_0000
  type DWord = d: int | 0 <= d < 0x1_0000_0000

  datatype Option<+T> = None | Some(value: T)

  /** `struct.pack('>H', w)` */
  function PackWord(w: Word): (b: Bytes)
    ensures |b| == 2
  {
    [w / 256, w % 256]
  }

  /** `struct.unpack_from('>H', b, at)` on a buffer that is long enough */
  function WordAt(b: Bytes, at: nat): Word
    requires at + 2 <= |b|
  {
    b[at] as int * 256 + b[at + 1]
  }

  /** `struct.pack('>I', d)` */
  function PackDWord(d: DWord): (b: Bytes)
    ensures |b| == 4
  {
    PackWord(d / 0x1_0000) + PackWord(d % 0x1_0000)
  }

  /** `struct.unpack_from('>I', b, at)` on a buffer that is long enough */
  function DWordAt(b: Bytes, at: nat): DWord
    requires at + 4 <= |b|
  {
    WordAt(b, at) as int * 0x1_0000 + WordAt(b, at + 2)
  }

  /** The Python slice `s[lo:hi]`, whose bounds are clamped to the length. */
  function Slice<T>(s: seq<T>, lo: nat, hi: nat): (r: seq<T>)
    ensures lo <= hi <= |s| ==> r == s[lo..hi]
    ensures hi >= |s| ==> |r| == if lo <= |s| then |s| - lo else 0
    ensures hi >= lo ==> |r| <= hi - lo
  {
    var top := if hi < |s| then hi else |s|;
    if lo < top then s[lo..top] else []
  }

  /** Slicing the rest of a buffer is slicing the buffer. */
  lemma SliceOfRest(body: Bytes, offset: nat, k: nat, n: nat)
    requires offset + k <= |body|
    ensures var rest := Slice(body, offset, |body|);
            && |rest| == |body| - offset
            && (forall j :: 0 <= j < |rest| ==> rest[j] == body[offset + j])
            && Slice(rest, k, k + n) == Slice(body, offset + k, offset + k + n)
            && Slice(rest, k + n, |rest|) == Slice(body, offset + k + n, |body|)
  {
    var rest := Slice(body, offset, |body|);
    if offset < |body| {
      assert rest == body[offset..];
    }
    if offset + k + n <= |body| {
      assert rest[k..k + n] == body[offset + k..offset + k + n];
      assert rest[k + n..|rest|] == body[offset + k + n..|body|];
    } else {
      assert Slice(rest, k, k + n) == rest[k..] == body[offset + k..];
    }
  }

  /** `buf.find(x, from)`: the first index of x at or after `from`, or -1. */
  function Find(buf: Bytes, x: Byte, from: nat): (i: int)
    requires from <= |buf|
    ensures i == -1 || from <= i < |buf|
    ensures i == -1 ==> x !in buf[from..]
    ensures i >= 0 ==> buf[i] == x && x !in buf[from..i]
    decreases |buf| - from
  {
    if from == |buf| then -1
    else if buf[from] == x then from
    else
      assert buf[from..] == [buf[from]] + buf[from + 1..];
      var i := Find(buf, x, from + 1);
      assert i >= 0 ==> buf[from..i] == [buf[from]] + buf[from + 1..i];
      i
  }

  /** The concatenation of a list of byte strings. */
  function Concat(parts: seq<Bytes>): Bytes {
    if parts == [] then [] else parts[0] + Concat(parts[1..])
  }

  lemma ConcatAssociates<T>(a: seq<T>, b: seq<T>, c: seq<T>)
    ensures (a + b) + c == a + (b + c)
  {
  }

  lemma WordRoundTrip(pre: Bytes, w: Word, post: Bytes)
    ensures WordAt(pre + PackWord(w) + post, |pre|) == w
  {
    var b := pre + PackWord(w) + post;
    assert b[|pre|] == w / 256 && b[|pre| + 1] == w % 256;
  }

  lemma DWordRoundTrip(pre: Bytes, d: DWord, post: Bytes)
    ensures DWordAt(pre + PackDWord(d) + post, |pre|) == d
  {
    var b := pre + PackDWord(d) + post;
    WordRoundTrip(pre, d / 0x1_0000, PackWord(d % 0x1_0000) + post);
    assert b == pre + PackWord(d / 0x1_0000) + (PackWord(d % 0x1_0000) + post);
    WordRoundTrip(pre + PackWord(d / 0x1_0000), d % 0x1_0000, post);
    assert b == pre + PackWord(d / 0x1_0000) + PackWord(d % 0x1_0000) + post;
  }
}
