/**
 * Little-endian unsigned 32-bit fields, as Python's `struct` module reads
 * and writes them with the format `'<I'`.
 */
module Bytes {

  type byte = b: int | 0 <= b < 0x100

  /** The values `'<I'` accepts; packing anything else raises `struct.error`. */
  type u32 = x: int | 0 <= x < 0x1_0000_0000

  const U32_LIMIT: int := 0x1_0000_0000

  /** `b'\x00' * n` */
  function Zeros(n: nat): (r: seq<byte>)
    ensures |r| == n
    ensures forall i :: 0 <= i < n ==> r[i] == 0
  {
    seq(n, _ => 0)
  }

  /** `struct.pack('<I', v)`: least significant byte first. */
  function PackU32(v: u32): (r: seq<byte>)
    ensures |r| == 4
    ensures r[0] as int + 0x100 * r[1] as int + 0x1_0000 * r[2] as int + 0x100_0000 * r[3] as int == v
  {
    var q1 := v / 0x100;
    var q2 := q1 / 0x100;
    var q3 := q2 / 0x100;
    assert v == q1 * 0x100 + v % 0x100;
    assert q1 == q2 * 0x100 + q1 % 0x100;
    assert q2 == q3 * 0x100 + q2 % 0x100;
    assert v / 0x1_0000 == q2;
    assert v / 0x100_0000 == q3;
    [v % 0x100, (v / 0x100) % 0x100, (v / 0x1_0000) % 0x100, v / 0x100_0000]
  }

  /** `struct.unpack_from('<I', s, offset)[0]` on a buffer long enough for it. */
  function UnpackU32At(s: seq<byte>, offset: nat): (r: u32)
    requires offset + 4 <= |s|
  {
    s[offset] as int + 0x100 * s[offset + 1] as int + 0x1_0000 * s[offset + 2] as int
      + 0x100_0000 * s[offset + 3] as int
  }

  /** The first byte is the least significant, the fourth the most significant. */
  lemma UnpackByteOrder(s: seq<byte>, offset: nat)
    requires offset + 4 <= |s|
    ensures UnpackU32At(s, offset) % 0x100 == s[offset]
    ensures UnpackU32At(s, offset) / 0x100_0000 == s[offset + 3]
  {
  }

  /** Unpacking what was packed gives back the value. */
  lemma UnpackPack(v: u32)
    ensures UnpackU32At(PackU32(v), 0) == v
  {
  }

  /** Packing what was unpacked gives back the four bytes. */
  lemma PackUnpack(s: seq<byte>, offset: nat)
    requires offset + 4 <= |s|
    ensures PackU32(UnpackU32At(s, offset)) == s[offset..offset + 4]
  {
    var v := UnpackU32At(s, offset);
    var b0: int, b1: int, b2: int, b3: int := s[offset], s[offset + 1], s[offset + 2], s[offset + 3];
    assert v == b0 + 0x100 * (b1 + 0x100 * (b2 + 0x100 * b3));
    assert v % 0x100 == b0 && v / 0x100 == b1 + 0x100 * (b2 + 0x100 * b3);
    var w := v / 0x100;
    assert w % 0x100 == b1 && w / 0x100 == b2 + 0x100 * b3;
    assert v / 0x1_0000 == w / 0x100;
    assert v / 0x100_0000 == (w / 0x100) / 0x100;
  }

  /** Reading a field reads exactly the four bytes at its offset. */
  lemma UnpackAtSlice(s: seq<byte>, t: seq<byte>, offset: nat, toffset: nat)
    requires offset + 4 <= |s| && toffset + 4 <= |t|
    requires s[offset..offset + 4] == t[toffset..toffset + 4]
    ensures UnpackU32At(s, offset) == UnpackU32At(t, toffset)
  {
    assert s[offset] == s[offset..offset + 4][0] == t[toffset..toffset + 4][0] == t[toffset];
    assert s[offset + 1] == s[offset..offset + 4][1] == t[toffset..toffset + 4][1] == t[toffset + 1];
    assert s[offset + 2] == s[offset..offset + 4][2] == t[toffset..toffset + 4][2] == t[toffset + 2];
    assert s[offset + 3] == s[offset..offset + 4][3] == t[toffset..toffset + 4][3] == t[toffset + 3];
  }

  /** A field written at an offset is read back there. */
  lemma UnpackPacked(s: seq<byte>, offset: nat, v: u32)
    requires offset + 4 <= |s|
    requires s[offset..offset + 4] == PackU32(v)
    ensures UnpackU32At(s, offset) == v
  {
    UnpackPack(v);
    UnpackAtSlice(s, PackU32(v), offset, 0);
  }

  /** A field read from a slice is the field at the shifted offset of the whole. */
  lemma UnpackInSlice(s: seq<byte>, lo: nat, hi: nat, offset: nat)
    requires lo + offset + 4 <= hi <= |s|
    ensures UnpackU32At(s[lo..hi], offset) == UnpackU32At(s, lo + offset)
  {
  }

  /** Writing four bytes at the end of the filled part of a zero-tailed buffer extends the filled part. */
  lemma FillZeros(filled: seq<byte>, p: seq<byte>, n: nat)
    requires |p| == 4 <= n
    ensures (filled + Zeros(n))[..|filled|] + p + (filled + Zeros(n))[|filled| + 4..]
         == filled + p + Zeros(n - 4)
  {
    assert (filled + Zeros(n))[..|filled|] == filled;
    assert (filled + Zeros(n))[|filled| + 4..] == Zeros(n - 4);
  }

  /** Zero bytes left in place count as filled. */
  lemma SkipZeros(filled: seq<byte>, k: nat, n: nat)
    requires k <= n
    ensures filled + Zeros(n) == filled + Zeros(k) + Zeros(n - k)
  {
    assert Zeros(n) == Zeros(k) + Zeros(n - k);
  }
}
