/** Bytes and 32-bit little-endian words, the on-disk encoding used for
    block pointers (block_sector_t) and for the fields of the inode record. */
module Bytes {

  newtype byte = x: int | 0 <= x < 256

  /** An unsigned 32-bit value, the width of block_sector_t and off_t fields. */
  type u32 = x: int | 0 <= x < 0x1_0000_0000

  /** The largest u32; as a block pointer it means "not allocated". */
  const SENTINEL: u32 := 0xFFFF_FFFF

  /** Byte k (0 = least significant) of v. */
  function ByteOf(v: u32, k: nat): byte
    requires k < 4
  {
    if k == 0 then (v % 256) as byte
    else if k == 1 then ((v / 256) % 256) as byte
    else if k == 2 then ((v / 256 / 256) % 256) as byte
    else ((v / 256 / 256 / 256) % 256) as byte
  }

  /** The little-endian word stored at bytes 4k .. 4k+3 of b. */
  function Word(b: seq<byte>, k: nat): u32
    requires 4 * k + 4 <= |b|
  {
    b[4 * k] as int + 256 * b[4 * k + 1] as int
      + 65536 * b[4 * k + 2] as int + 16777216 * b[4 * k + 3] as int
  }

  /** Lays out a sequence of words as bytes, four per word. */
  function Encode(ws: seq<u32>): (b: seq<byte>)
    ensures |b| == 4 * |ws|
  {
    seq(4 * |ws|, p requires 0 <= p < 4 * |ws| => ByteOf(ws[p / 4], p % 4))
  }

  /** Reads a byte sequence of whole words back as words. */
  function Decode(b: seq<byte>): (ws: seq<u32>)
    requires |b| % 4 == 0
    ensures |ws| == |b| / 4
  {
    seq(|b| / 4, k requires 0 <= k < |b| / 4 => Word(b, k))
  }

  /** The four bytes of v put back together give v. */
  lemma Reassemble(v: u32)
    ensures ByteOf(v, 0) as int + 256 * ByteOf(v, 1) as int
              + 65536 * ByteOf(v, 2) as int + 16777216 * ByteOf(v, 3) as int == v
  {
    var q1 := v / 256;
    var q2 := q1 / 256;
    var q3 := q2 / 256;
    assert v == v % 256 + 256 * q1;
    assert q1 == q1 % 256 + 256 * q2;
    assert q2 == q2 % 256 + 256 * q3;
    assert q3 < 256;
  }

  /** Byte i of the word formed by four bytes is the i-th of those bytes. */
  lemma Split(b0: byte, b1: byte, b2: byte, b3: byte, i: nat)
    requires i < 4
    ensures ByteOf(b0 as int + 256 * b1 as int + 65536 * b2 as int + 16777216 * b3 as int, i)
            == [b0, b1, b2, b3][i]
  {
    var v := b0 as int + 256 * b1 as int + 65536 * b2 as int + 16777216 * b3 as int;
    var r1 := b1 as int + 256 * b2 as int + 65536 * b3 as int;
    var r2 := b2 as int + 256 * b3 as int;
    assert v == b0 as int + 256 * r1;
    assert v % 256 == b0 as int && v / 256 == r1;
    assert r1 == b1 as int + 256 * r2;
    assert r1 % 256 == b1 as int && r1 / 256 == r2;
    assert r2 % 256 == b2 as int && r2 / 256 == b3 as int;
  }

  lemma WordOfEncode(ws: seq<u32>, k: nat)
    requires k < |ws|
    ensures Word(Encode(ws), k) == ws[k]
  {
    var b := Encode(ws);
    assert b[4 * k] == ByteOf(ws[k], 0);
    assert b[4 * k + 1] == ByteOf(ws[k], 1);
    assert b[4 * k + 2] == ByteOf(ws[k], 2);
    assert b[4 * k + 3] == ByteOf(ws[k], 3);
    Reassemble(ws[k]);
  }

  /** Decoding what was encoded gives back the words. */
  lemma DecodeEncode(ws: seq<u32>)
    ensures Decode(Encode(ws)) == ws
  {
    forall k | 0 <= k < |ws| ensures Decode(Encode(ws))[k] == ws[k] {
      WordOfEncode(ws, k);
    }
  }

  /** Encoding what was decoded gives back the bytes. */
  lemma EncodeDecode(b: seq<byte>)
    requires |b| % 4 == 0
    ensures Encode(Decode(b)) == b
  {
    var ws := Decode(b);
    forall p | 0 <= p < |b| ensures Encode(ws)[p] == b[p] {
      var k, i := p / 4, p % 4;
      assert ws[k] == Word(b, k);
      Split(b[4 * k], b[4 * k + 1], b[4 * k + 2], b[4 * k + 3], i);
      assert [b[4 * k], b[4 * k + 1], b[4 * k + 2], b[4 * k + 3]][i] == b[p];
    }
  }

  /** Every word of a block filled with 0xff bytes is the sentinel:
      memset (buf, 0xff, ...) marks every pointer of an index block unallocated. */
  lemma AllOnesAreSentinels(b: seq<byte>, k: nat)
    requires 4 * k + 4 <= |b|
    requires forall p :: 0 <= p < |b| ==> b[p] == 255
    ensures Word(b, k) == SENTINEL
  {
  }
}
