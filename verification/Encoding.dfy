/** Byte order of SSZ chunks. */
module Encoding {
  import opened Arrays

  /** The word with its 32 bytes in the opposite order: byte i becomes byte 31 - i. */
  function ReverseBytes(v: bv256): bv256 {
    ((v & 0xff) << 248) |
    ((v & 0xff00) << 232) |
    ((v & 0xff0000) << 216) |
    ((v & 0xff000000) << 200) |
    ((v & 0xff00000000) << 184) |
    ((v & 0xff0000000000) << 168) |
    ((v & 0xff000000000000) << 152) |
    ((v & 0xff00000000000000) << 136) |
    ((v & 0xff0000000000000000) << 120) |
    ((v & 0xff000000000000000000) << 104) |
    ((v & 0xff00000000000000000000) << 88) |
    ((v & 0xff0000000000000000000000) << 72) |
    ((v & 0xff000000000000000000000000) << 56) |
    ((v & 0xff00000000000000000000000000) << 40) |
    ((v & 0xff0000000000000000000000000000) << 24) |
    ((v & 0xff000000000000000000000000000000) << 8) |
    ((v & 0xff00000000000000000000000000000000) >> 8) |
    ((v & 0xff0000000000000000000000000000000000) >> 24) |
    ((v & 0xff000000000000000000000000000000000000) >> 40) |
    ((v & 0xff00000000000000000000000000000000000000) >> 56) |
    ((v & 0xff0000000000000000000000000000000000000000) >> 72) |
    ((v & 0xff000000000000000000000000000000000000000000) >> 88) |
    ((v & 0xff00000000000000000000000000000000000000000000) >> 104) |
    ((v & 0xff0000000000000000000000000000000000000000000000) >> 120) |
    ((v & 0xff000000000000000000000000000000000000000000000000) >> 136) |
    ((v & 0xff00000000000000000000000000000000000000000000000000) >> 152) |
    ((v & 0xff0000000000000000000000000000000000000000000000000000) >> 168) |
    ((v & 0xff000000000000000000000000000000000000000000000000000000) >> 184) |
    ((v & 0xff00000000000000000000000000000000000000000000000000000000) >> 200) |
    ((v & 0xff0000000000000000000000000000000000000000000000000000000000) >> 216) |
    ((v & 0xff000000000000000000000000000000000000000000000000000000000000) >> 232) |
    ((v & 0xff00000000000000000000000000000000000000000000000000000000000000) >> 248)
  }

  /** Byte i of a word, least significant first. */
  function ByteAt(v: bv256, i: bv8): bv256
    requires i < 32
  {
    (v >> (8 * i)) & 0xff
  }

  /** The byte law: every byte of the integer stands at the opposite place in its encoding. */
  lemma BytesReversed(v: bv256, i: bv8)
    requires i < 32
    ensures ByteAt(ReverseBytes(v), 31 - i) == ByteAt(v, i)
  {
  }

  /** Reversal undoes itself, so no two words share an encoding. */
  lemma ReverseTwice(v: bv256)
    ensures ReverseBytes(ReverseBytes(v)) == v
  {
  }

  method ToLittleEndian(value: bv256) returns (r: Word)
    ensures r == LittleEndian(value)
    ensures forall i: bv8 :: i < 32 ==> ByteAt(r.bits, 31 - i) == ByteAt(value, i)
  {
    hide ReverseBytes, ByteAt;
    var v := SwapBlocks(value);
    r := Word(v);
    forall i: bv8 | i < 32
      ensures ByteAt(v, 31 - i) == ByteAt(value, i)
    {
      BytesReversed(value, i);
    }
  }

  /** Five swaps of neighbouring blocks: bytes, pairs, quads, octets, halves. */
  method SwapBlocks(value: bv256) returns (v: bv256)
    ensures v == ReverseBytes(value)
  {
    v := value;
    v := ((v & 0xFF00FF00FF00FF00FF00FF00FF00FF00FF00FF00FF00FF00FF00FF00FF00FF00) >> 8) |
         ((v & 0x00FF00FF00FF00FF00FF00FF00FF00FF00FF00FF00FF00FF00FF00FF00FF00FF) << 8);
    v := ((v & 0xFFFF0000FFFF0000FFFF0000FFFF0000FFFF0000FFFF0000FFFF0000FFFF0000) >> 16) |
         ((v & 0x0000FFFF0000FFFF0000FFFF0000FFFF0000FFFF0000FFFF0000FFFF0000FFFF) << 16);
    v := ((v & 0xFFFFFFFF00000000FFFFFFFF00000000FFFFFFFF00000000FFFFFFFF00000000) >> 32) |
         ((v & 0x00000000FFFFFFFF00000000FFFFFFFF00000000FFFFFFFF00000000FFFFFFFF) << 32);
    v := ((v & 0xFFFFFFFFFFFFFFFF0000000000000000FFFFFFFFFFFFFFFF0000000000000000) >> 64) |
         ((v & 0x0000000000000000FFFFFFFFFFFFFFFF0000000000000000FFFFFFFFFFFFFFFF) << 64);
    v := (v >> 128) | (v << 128);
  }

  /** An unsigned integer as a chunk: its bytes, least significant first. */
  function LittleEndian(v: bv256): Word {
    Word(ReverseBytes(v))
  }

  /** Byte i of an integer's encoding is its byte 31 - i, counted from the least significant one. */
  lemma LittleEndianBytes(v: bv256, i: bv8)
    requires i < 32
    ensures ByteAt(LittleEndian(v).bits, 31 - i) == ByteAt(v, i)
  {
    hide ReverseBytes, ByteAt;
    BytesReversed(v, i);
  }

  /** Equal encodings come from equal integers. */
  lemma EncodingInjective(v: bv256, w: bv256)
    requires LittleEndian(v) == LittleEndian(w)
    ensures v == w
  {
    hide ReverseBytes;
    ReverseTwice(v);
    ReverseTwice(w);
  }

  function Widen(x: bv64): bv256 {
    x as bv256
  }

  /** A uint64 field as a chunk. */
  function Encode64(x: bv64): Word {
    LittleEndian(Widen(x))
  }

  lemma EncodedAs(x: bv64)
    ensures Encode64(x) == LittleEndian(x as bv256)
  {
  }

  lemma Encode64Injective(x: bv64, y: bv64)
    requires Encode64(x) == Encode64(y)
    ensures x == y
  {
    hide LittleEndian, Widen;
    EncodingInjective(Widen(x), Widen(y));
    WideningInjective(x, y);
  }

  lemma WideningInjective(x: bv64, y: bv64)
    requires Widen(x) == Widen(y)
    ensures x == y
  {
  }

  function BoolToLittleEndian(v: bool): (r: Word)
    ensures r == LittleEndian(if v then 1 else 0)
  {
    Word(if v then 1 << 248 else 0)
  }

  lemma BoolEncodingInjective(b: bool, c: bool)
    requires BoolToLittleEndian(b) == BoolToLittleEndian(c)
    ensures b == c
  {
  }
}
