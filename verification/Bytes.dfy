/** Fixed-width integers and their byte encodings, as encoding/binary, shifts and math/big use them. */
module Bytes {
  type byte = n: int | 0 <= n < 0x100
  type uint16 = n: int | 0 <= n < 0x1_0000
  type uint32 = n: int | 0 <= n < 0x1_0000_0000
  type uint48 = n: int | 0 <= n < 0x1_0000_0000_0000

  function Pow256(k: nat): (p: nat)
    ensures p > 0
  {
    if k == 0 then 1 else 0x100 * Pow256(k - 1)
  }

  lemma Pow256Values()
    ensures Pow256(2) == 0x1_0000
    ensures Pow256(4) == 0x1_0000_0000
    ensures Pow256(6) == 0x1_0000_0000_0000
  {
    assert Pow256(1) == 0x100;
    assert Pow256(2) == 0x1_0000;
    assert Pow256(3) == 0x100_0000;
    assert Pow256(4) == 0x1_0000_0000;
    assert Pow256(5) == 0x100_0000_0000;
  }

  // ----- little-endian -----

  function LittleEndian(b: seq<byte>): nat {
    if |b| == 0 then 0 else b[0] as int + 0x100 * LittleEndian(b[1..])
  }

  /** The low `k` bytes of `n`, least significant first. */
  function PutLittleEndian(n: nat, k: nat): (b: seq<byte>)
    ensures |b| == k
  {
    if k == 0 then [] else [n % 0x100] + PutLittleEndian(n / 0x100, k - 1)
  }

  lemma {:induction false} LittleEndianOfBytes(n: nat, k: nat)
    requires n < Pow256(k)
    ensures LittleEndian(PutLittleEndian(n, k)) == n
  {
    if k > 0 {
      LittleEndianOfBytes(n / 0x100, k - 1);
      assert PutLittleEndian(n, k)[1..] == PutLittleEndian(n / 0x100, k - 1);
    }
  }

  lemma {:induction false} BytesOfLittleEndian(b: seq<byte>)
    ensures LittleEndian(b) < Pow256(|b|)
    ensures PutLittleEndian(LittleEndian(b), |b|) == b
  {
    if |b| > 0 {
      BytesOfLittleEndian(b[1..]);
      assert LittleEndian(b) / 0x100 == LittleEndian(b[1..]);
      assert [b[0]] + b[1..] == b;
    }
  }

  /** binary.LittleEndian.Uint16 and PutUint16; the writer truncates like a uint16 conversion. */
  function Uint16LE(b: seq<byte>): uint16
    requires |b| == 2
  {
    BytesOfLittleEndian(b);
    Pow256Values();
    LittleEndian(b)
  }

  function PutUint16LE(v: nat): (b: seq<byte>)
    ensures |b| == 2
  {
    PutLittleEndian(v, 2)
  }

  /** binary.LittleEndian.Uint32 and PutUint32. */
  function Uint32LE(b: seq<byte>): uint32
    requires |b| == 4
  {
    BytesOfLittleEndian(b);
    Pow256Values();
    LittleEndian(b)
  }

  function PutUint32LE(v: nat): (b: seq<byte>)
    ensures |b| == 4
  {
    PutLittleEndian(v, 4)
  }

  /** Two and four bytes by their weights, the least significant first. */
  function Word(b0: nat, b1: nat): nat {
    b0 + 0x100 * b1
  }

  function Quad(b0: nat, b1: nat, b2: nat, b3: nat): nat {
    b0 + 0x100 * b1 + 0x1_0000 * b2 + 0x100_0000 * b3
  }

  lemma Uint16ByBytes(b: seq<byte>)
    requires |b| == 2
    ensures Uint16LE(b) == Word(b[0], b[1])
  {
    assert LittleEndian(b[1..]) == b[1] as int + 0x100 * LittleEndian(b[1..][1..]);
  }

  lemma Uint32ByBytes(b: seq<byte>)
    requires |b| == 4
    ensures Uint32LE(b) == Quad(b[0], b[1], b[2], b[3])
  {
    assert b[2..] == [b[2], b[3]] && b[3..] == [b[3]];
    assert LittleEndian(b[3..]) == b[3] as int + 0x100 * LittleEndian(b[3..][1..]);
    assert LittleEndian(b[2..]) == b[2] as int + 0x100 * LittleEndian(b[2..][1..]);
    assert b[2..][1..] == b[3..] && b[1..][1..] == b[2..];
    assert LittleEndian(b[1..]) == b[1] as int + 0x100 * LittleEndian(b[1..][1..]);
  }

  lemma Uint16OfPut(v: uint16)
    ensures Uint16LE(PutUint16LE(v)) == v
  {
    Pow256Values();
    LittleEndianOfBytes(v, 2);
  }

  lemma PutOfUint16(b: seq<byte>)
    requires |b| == 2
    ensures PutUint16LE(Uint16LE(b)) == b
  {
    BytesOfLittleEndian(b);
  }

  lemma Uint32OfPut(v: uint32)
    ensures Uint32LE(PutUint32LE(v)) == v
  {
    Pow256Values();
    LittleEndianOfBytes(v, 4);
  }

  lemma PutOfUint32(b: seq<byte>)
    requires |b| == 4
    ensures PutUint32LE(Uint32LE(b)) == b
  {
    BytesOfLittleEndian(b);
  }

  // ----- big-endian -----

  /** The unsigned number whose big-endian bytes are `b` (big.Int.SetBytes). */
  function BigEndian(b: seq<byte>): nat {
    if |b| == 0 then 0 else 0x100 * BigEndian(b[..|b| - 1]) + b[|b| - 1]
  }

  lemma BigEndianStep(b: seq<byte>, i: nat, j: nat)
    requires i <= j < |b|
    ensures BigEndian(b[i..j + 1]) == BigEndian(b[i..j]) * 0x100 + b[j] as int
  {
    assert b[i..j + 1][..j - i] == b[i..j];
  }

  /** Six bytes by their weights, the most significant first. */
  function Weights48(b0: nat, b1: nat, b2: nat, b3: nat, b4: nat, b5: nat): nat {
    b0 * 0x100_0000_0000 + b1 * 0x1_0000_0000 + b2 * 0x100_0000 + b3 * 0x1_0000 + b4 * 0x100 + b5
  }

  lemma BigEndianByBytes(b: seq<byte>)
    requires |b| == 6
    ensures BigEndian(b) == Weights48(b[0], b[1], b[2], b[3], b[4], b[5])
  {
    BigEndianStep(b, 0, 0);
    BigEndianStep(b, 0, 1);
    BigEndianStep(b, 0, 2);
    BigEndianStep(b, 0, 3);
    BigEndianStep(b, 0, 4);
    BigEndianStep(b, 0, 5);
    assert b[0..6] == b;
  }

  /** The low `k` bytes of `n`, most significant first. */
  function ToBigEndian(n: nat, k: nat): (b: seq<byte>)
    ensures |b| == k
  {
    if k == 0 then [] else ToBigEndian(n / 0x100, k - 1) + [n % 0x100]
  }

  /** `n >> (8 * k)`. */
  function ShiftRightBytes(n: nat, k: nat): nat {
    if k == 0 then n else ShiftRightBytes(n / 0x100, k - 1)
  }

  lemma {:induction false} ToBigEndianAt(n: nat, k: nat, i: nat)
    requires i < k
    ensures ToBigEndian(n, k)[i] == ShiftRightBytes(n, k - 1 - i) % 0x100
  {
    if i < k - 1 {
      ToBigEndianAt(n / 0x100, k - 1, i);
    }
  }

  lemma {:induction false} BigEndianOfBytes(n: nat, k: nat)
    requires n < Pow256(k)
    ensures BigEndian(ToBigEndian(n, k)) == n
  {
    if k > 0 {
      BigEndianOfBytes(n / 0x100, k - 1);
      var b := ToBigEndian(n, k);
      assert b[..k - 1] == ToBigEndian(n / 0x100, k - 1);
    }
  }

  lemma {:induction false} BytesOfBigEndian(b: seq<byte>)
    ensures BigEndian(b) < Pow256(|b|)
    ensures ToBigEndian(BigEndian(b), |b|) == b
  {
    if |b| > 0 {
      BytesOfBigEndian(b[..|b| - 1]);
      assert BigEndian(b) / 0x100 == BigEndian(b[..|b| - 1]);
      assert b[..|b| - 1] + [b[|b| - 1]] == b;
    }
  }

  /** The shortest big-endian encoding (big.Int.Bytes): empty for zero. */
  function MinimalBytes(n: nat): seq<byte> {
    if n == 0 then [] else MinimalBytes(n / 0x100) + [n % 0x100]
  }

  lemma {:induction false} MinimalBytesValue(n: nat)
    ensures BigEndian(MinimalBytes(n)) == n
    ensures n > 0 ==> |MinimalBytes(n)| > 0 && MinimalBytes(n)[0] > 0
  {
    if n > 0 {
      MinimalBytesValue(n / 0x100);
      var b := MinimalBytes(n);
      assert b[..|b| - 1] == MinimalBytes(n / 0x100);
    }
  }

  lemma MinimalBytesEmpty(n: nat)
    ensures MinimalBytes(n) == [] <==> n == 0
  {
  }

  lemma {:induction false} MinimalBytesLength(n: nat, k: nat)
    requires n < Pow256(k)
    ensures |MinimalBytes(n)| <= k
  {
    if n > 0 {
      MinimalBytesLength(n / 0x100, k - 1);
    }
  }
}
