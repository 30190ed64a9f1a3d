/**
 Big-endian (most-significant byte first) encoding of unsigned 64-bit
 integers into exactly eight bytes, as Go's `binary.BigEndian.PutUint64`
 writes them and `binary.BigEndian.Uint64` reads them back.
 */
module BigEndian {
  import opened UInt64

  type byte = b: int | 0 <= b < 256

  /** The low `n` base-256 digits of `x`, most significant first. */
  function Bytes(x: nat, n: nat): (r: seq<byte>)
    ensures |r| == n
  {
    if n == 0 then [] else Bytes(x / 256, n - 1) + [x % 256]
  }

  /** The number a byte string denotes in base 256, first byte most significant. */
  function Value(b: seq<byte>): nat
  {
    if b == [] then 0 else Value(b[..|b| - 1]) * 256 + b[|b| - 1]
  }

  /** `PutUint64`: the eight bytes of `x`. */
  function Encode(x: u64): (r: seq<byte>)
    ensures |r| == 8
  {
    Bytes(x, 8)
  }

  /** `Uint64`: the number eight bytes denote. */
  function Decode(b: seq<byte>): u64
    requires |b| == 8
  {
    ValueBound(b);
    Pow2Is2To64();
    Value(b)
  }

  lemma Pow2Bytes(n: nat)
    requires n > 0
    ensures Pow2(8 * n) == 256 * Pow2(8 * (n - 1))
  {
    Pow2Add(8, 8 * (n - 1));
    assert Pow2(8) == 256;
  }

  /** `n` bytes denote a number below 2^(8n). */
  lemma {:induction false} ValueBound(b: seq<byte>)
    ensures Value(b) < Pow2(8 * |b|)
  {
    if b != [] {
      var n := |b|;
      ValueBound(b[..n - 1]);
      Pow2Bytes(n);
    }
  }

  /** The bytes of `x` denote `x` reduced to its low `8n` bits. */
  lemma {:induction false} ValueOfBytes(x: nat, n: nat)
    ensures Value(Bytes(x, n)) == x % Pow2(8 * n)
  {
    if n == 0 {
      assert Pow2(0) == 1;
    } else {
      var b := Bytes(x, n);
      assert b[..n - 1] == Bytes(x / 256, n - 1);
      ValueOfBytes(x / 256, n - 1);
      Pow2Bytes(n);
      SplitRemainder(x, 256, Pow2(8 * (n - 1)));
    }
  }

  /** Writing out the number `b` denotes gives back `b`. */
  lemma {:induction false} BytesOfValue(b: seq<byte>)
    ensures Bytes(Value(b), |b|) == b
  {
    if b != [] {
      var n := |b|;
      BytesOfValue(b[..n - 1]);
      DivModUnique(Value(b), 256, Value(b[..n - 1]), b[n - 1]);
      assert b == b[..n - 1] + [b[n - 1]];
    }
  }

  /** Decoding undoes encoding. */
  lemma DecodeEncode(x: u64)
    ensures Decode(Encode(x)) == x
  {
    ValueOfBytes(x, 8);
    Pow2Is2To64();
  }

  /** Encoding undoes decoding: every eight-byte string encodes exactly one number. */
  lemma EncodeDecode(b: seq<byte>)
    requires |b| == 8
    ensures Encode(Decode(b)) == b
  {
    BytesOfValue(b);
  }

  /** Different numbers have different encodings. */
  lemma EncodeInjective(x: u64, y: u64)
    ensures Encode(x) == Encode(y) <==> x == y
  {
    DecodeEncode(x);
    DecodeEncode(y);
  }

  /** Byte `i` of the `n` bytes of `x` is base-256 digit `n - 1 - i`: the most significant comes first. */
  lemma {:induction false} ByteOrder(x: nat, n: nat, i: nat)
    requires i < n
    ensures Bytes(x, n)[i] == (x / Pow2(8 * (n - 1 - i))) % 256
  {
    if i == n - 1 {
      assert Pow2(0) == 1;
    } else {
      var m := n - 1 - i;
      ByteOrder(x / 256, n - 1, i);
      assert Bytes(x, n)[i] == Bytes(x / 256, n - 1)[i];
      Pow2Bytes(m);
      DivDiv(x, 256, Pow2(8 * (m - 1)));
    }
  }

  /** `PutUint64` writes the most significant byte first: byte `i` is `(x >> (8 * (7 - i))) & 0xFF`. */
  lemma EncodeIsBigEndian(x: u64)
    ensures forall i | 0 <= i < 8 :: Encode(x)[i] == (x / Pow2(8 * (7 - i))) % 256
  {
    forall i | 0 <= i < 8
      ensures Encode(x)[i] == (x / Pow2(8 * (7 - i))) % 256
    {
      ByteOrder(x, 8, i);
    }
  }

  /** A worked example of the byte order. */
  lemma EncodeExample()
    ensures Encode(0x0102_0304_0506_0708) == [1, 2, 3, 4, 5, 6, 7, 8]
  {
    assert Bytes(0x01, 1) == [1];
    assert Bytes(0x0102, 2) == [1, 2];
    assert Bytes(0x0102_03, 3) == [1, 2, 3];
    assert Bytes(0x0102_0304, 4) == [1, 2, 3, 4];
    assert Bytes(0x0102_0304_05, 5) == [1, 2, 3, 4, 5];
    assert Bytes(0x0102_0304_0506, 6) == [1, 2, 3, 4, 5, 6];
    assert Bytes(0x0102_0304_0506_07, 7) == [1, 2, 3, 4, 5, 6, 7];
  }
}
