/** The DER encoding of ECDSA signatures (ITU-T X.690; Ecdsa-Sig-Value of section 2.2.3 of RFC 3279). */
module Der {
  import opened Wrappers
  import opened Bytes

  const P256_COORDINATE_SIZE := 32
  const TAG_SEQUENCE := 0x30
  const TAG_INTEGER := 0x02

  // ----- the encoder -----

  /** The content octets marshalECDSASig gives a positive number. */
  function Content(n: nat): (c: seq<byte>)
    requires n > 0
    ensures |c| > 0
  {
    MinimalBytesValue(n);
    var b := MinimalBytes(n);
    if b[0] >= 0x80 then [0] + b else b
  }

  function SequenceHeader(totalLen: nat): (h: seq<byte>)
    ensures |h| == if totalLen < 128 then 2 else 3
  {
    if totalLen < 128 then [TAG_SEQUENCE, totalLen % 0x100] else [TAG_SEQUENCE, 0x81, totalLen % 0x100]
  }

  function Integer(c: seq<byte>): (b: seq<byte>)
    ensures |b| == 2 + |c|
  {
    [TAG_INTEGER, |c| % 0x100] + c
  }

  function TotalLen(r: nat, s: nat): (n: nat)
    requires r > 0 && s > 0
  {
    2 + |Content(r)| + 2 + |Content(s)|
  }

  function Marshalled(r: nat, s: nat): seq<byte>
    requires r > 0 && s > 0
  {
    SequenceHeader(TotalLen(r, s)) + (Integer(Content(r)) + Integer(Content(s)))
  }

  lemma ConcatAssociates(h: seq<byte>, a: seq<byte>, b: seq<byte>, c: seq<byte>, d: seq<byte>)
    ensures [] + h + a + b + c + d == h + ((a + b) + (c + d))
  {
  }

  /** marshalECDSASig. */
  method MarshalECDSASig(r: nat, s: nat) returns (out: Option<seq<byte>>)
    ensures out == if r == 0 || s == 0 then None else Some(Marshalled(r, s))
  {
    MinimalBytesEmpty(r);
    MinimalBytesEmpty(s);
    hide MinimalBytes;
    var rBytes := MinimalBytes(r);
    var sBytes := MinimalBytes(s);
    if |rBytes| == 0 || |sBytes| == 0 {
      return None;
    }
    if rBytes[0] >= 0x80 {
      rBytes := [0] + rBytes;
    }
    if sBytes[0] >= 0x80 {
      sBytes := [0] + sBytes;
    }
    assert rBytes == Content(r) && sBytes == Content(s);
    hide Content;
    var totalLen := 2 + |rBytes| + 2 + |sBytes|;
    var seqHeader: seq<byte>;
    if totalLen < 128 {
      seqHeader := [TAG_SEQUENCE, totalLen % 0x100];
    } else {
      seqHeader := [TAG_SEQUENCE, 0x81, totalLen % 0x100];
    }
    var buf: seq<byte> := [];
    buf := buf + seqHeader;
    buf := buf + [TAG_INTEGER, |rBytes| % 0x100];
    buf := buf + rBytes;
    buf := buf + [TAG_INTEGER, |sBytes| % 0x100];
    buf := buf + sBytes;
    ConcatAssociates(seqHeader, [TAG_INTEGER, |rBytes| % 0x100], rBytes, [TAG_INTEGER, |sBytes| % 0x100], sBytes);
    return Some(buf);
  }

  // ----- a strict decoder, for contents of at most 255 octets -----

  /** A definite length in its shortest form (section 10.1 of X.690) and the number of octets it takes. */
  function DecodeLength(b: seq<byte>): (r: Option<(nat, nat)>)
    ensures r.Some? ==> r.value.1 <= |b|
  {
    if |b| >= 1 && b[0] < 0x80 then Some((b[0], 1))
    else if |b| >= 2 && b[0] == 0x81 && b[1] >= 0x80 then Some((b[1], 2))
    else None
  }

  /** The content of the element with the given tag at the start of `b`, and what follows it. */
  function DecodeElement(tag: byte, b: seq<byte>): Option<(seq<byte>, seq<byte>)> {
    if |b| == 0 || b[0] != tag then None
    else
      match DecodeLength(b[1..])
      case None => None
      case Some((n, k)) => if 1 + k + n > |b| then None else Some((b[1 + k..1 + k + n], b[1 + k + n..]))
  }

  /** Content octets of a non-negative INTEGER in the fewest octets (section 8.3.2 of X.690). */
  predicate MinimalNonNegative(c: seq<byte>) {
    |c| > 0 && c[0] < 0x80 && !(|c| > 1 && c[0] == 0 && c[1] < 0x80)
  }

  function DecodeInteger(b: seq<byte>): Option<(nat, seq<byte>)> {
    match DecodeElement(TAG_INTEGER, b)
    case None => None
    case Some((c, rest)) => if MinimalNonNegative(c) then Some((BigEndian(c), rest)) else None
  }

  function DecodeSignature(b: seq<byte>): Option<(nat, nat)> {
    match DecodeElement(TAG_SEQUENCE, b)
    case None => None
    case Some((body, rest)) =>
      if rest != [] then None
      else
        match DecodeInteger(body)
        case None => None
        case Some((r, tail)) =>
          match DecodeInteger(tail)
          case None => None
          case Some((s, end)) => if end == [] then Some((r, s)) else None
  }

  // ----- encoder and decoder agree -----

  lemma LeadingZero(b: seq<byte>)
    ensures BigEndian([0] + b) == BigEndian(b)
    decreases |b|
  {
    if b == [] {
      assert ([0] + b)[..0] == [];
    } else {
      LeadingZero(b[..|b| - 1]);
      assert ([0] + b)[..|b|] == [0] + b[..|b| - 1];
    }
  }

  lemma ContentFacts(n: nat)
    requires n > 0
    ensures MinimalNonNegative(Content(n)) && BigEndian(Content(n)) == n
  {
    MinimalBytesValue(n);
    LeadingZero(MinimalBytes(n));
  }

  lemma {:induction false} MinimalBytesOfValue(b: seq<byte>)
    requires |b| > 0 && b[0] > 0
    ensures BigEndian(b) > 0 && MinimalBytes(BigEndian(b)) == b
  {
    var front := b[..|b| - 1];
    if |b| > 1 {
      MinimalBytesOfValue(front);
    }
    assert BigEndian(b) / 0x100 == BigEndian(front);
    assert b == front + [b[|b| - 1]];
  }

  lemma ContentOfValue(c: seq<byte>)
    requires MinimalNonNegative(c) && BigEndian(c) > 0
    ensures Content(BigEndian(c)) == c
  {
    assert BigEndian([]) == 0;
    LeadingZero([]);
    assert [0] + [] == [0];
    if c[0] == 0 {
      assert c != [0];
      assert c == [0] + c[1..];
      LeadingZero(c[1..]);
      MinimalBytesOfValue(c[1..]);
    } else {
      MinimalBytesOfValue(c);
    }
  }

  /** An INTEGER whose content fits the one-octet length is read back; one that does not fit never is. */
  lemma DecodeIntegerExact(n: nat, rest: seq<byte>)
    requires n > 0
    ensures |Content(n)| <= 127 ==> DecodeInteger(Integer(Content(n)) + rest) == Some((n, rest))
    ensures 127 < |Content(n)| < 256 ==> DecodeInteger(Integer(Content(n)) + rest).None?
  {
    var c := Content(n);
    ContentFacts(n);
    hide Content, BigEndian;
    var b := Integer(c) + rest;
    assert b[0] == TAG_INTEGER && b[1] == |c| % 0x100 && b[2] == c[0];
    assert b[1..][0] == b[1] && b[1..][1] == b[2];
    if |c| <= 127 {
      assert b[2..2 + |c|] == c && b[2 + |c|..] == rest;
    }
  }

  ghost predicate Fits(r: nat, s: nat)
    requires r > 0 && s > 0
  {
    |Content(r)| <= 127 && |Content(s)| <= 127 && TotalLen(r, s) <= 255
  }

  lemma DecodeSequence(body: seq<byte>)
    ensures |body| <= 255 ==> DecodeElement(TAG_SEQUENCE, SequenceHeader(|body|) + body) == Some((body, []))
    ensures |body| > 255 ==> DecodeElement(TAG_SEQUENCE, SequenceHeader(|body|) + body) != Some((body, []))
    ensures |body| > 255 ==>
      match DecodeElement(TAG_SEQUENCE, SequenceHeader(|body|) + body)
      case None => true
      case Some((c, rest)) => rest != []
  {
    var h := SequenceHeader(|body|);
    var b := h + body;
    assert b[0] == h[0] && b[1..][0] == h[1];
    if |body| < 128 {
      assert b[2..2 + |body|] == body && b[2 + |body|..] == [];
    } else {
      assert b[1..][1] == h[2];
      if |body| <= 255 {
        assert b[3..3 + |body|] == body && b[3 + |body|..] == [];
      }
    }
  }

  /** The strict decoder returns the pair that was marshalled exactly when the one-octet lengths suffice. */
  lemma MarshalExact(r: nat, s: nat)
    requires r > 0 && s > 0
    ensures DecodeSignature(Marshalled(r, s)) == Some((r, s)) <==> Fits(r, s)
  {
    var body := Integer(Content(r)) + Integer(Content(s));
    DecodeSequence(body);
    DecodeIntegerExact(r, Integer(Content(s)));
    DecodeIntegerExact(s, []);
    assert Integer(Content(s)) + [] == Integer(Content(s));
    assert |body| == TotalLen(r, s);
    hide Content, DecodeElement, DecodeInteger, Integer, SequenceHeader;
  }

  lemma DecodedElement(tag: byte, b: seq<byte>, c: seq<byte>, rest: seq<byte>)
    requires DecodeElement(tag, b) == Some((c, rest))
    ensures |c| < 128 ==> b == [tag, |c|] + c + rest
    ensures |c| >= 128 ==> |c| < 256 && b == [tag, 0x81, |c|] + c + rest
  {
    var n := |c|;
    if b[1] < 0x80 {
      assert b == [b[0], b[1]] + b[2..2 + n] + b[2 + n..];
    } else {
      assert b == [b[0], b[1], b[2]] + b[3..3 + n] + b[3 + n..];
    }
  }

  lemma DecodedInteger(b: seq<byte>, n: nat, rest: seq<byte>)
    requires DecodeInteger(b) == Some((n, rest))
    requires n > 0 && |Content(n)| <= 127
    ensures b == Integer(Content(n)) + rest
  {
    hide DecodeElement, BigEndian, Content;
    var c := DecodeElement(TAG_INTEGER, b).value.0;
    ContentOfValue(c);
    DecodedElement(TAG_INTEGER, b, c, rest);
  }

  /** A positive signature with short contents has only one strict DER encoding: the one marshalled. */
  lemma EncodingIsUnique(b: seq<byte>, r: nat, s: nat)
    requires r > 0 && s > 0 && |Content(r)| <= 127 && |Content(s)| <= 127
    requires DecodeSignature(b) == Some((r, s))
    ensures b == Marshalled(r, s)
  {
    hide DecodeElement, DecodeInteger, Content, SequenceHeader;
    var body := DecodeElement(TAG_SEQUENCE, b).value.0;
    var tail := DecodeInteger(body).value.1;
    DecodedInteger(body, r, tail);
    DecodedInteger(tail, s, []);
    assert Integer(Content(s)) + [] == Integer(Content(s));
    assert |body| == TotalLen(r, s);
    DecodedSequence(b, body);
  }

  lemma DecodedSequence(b: seq<byte>, body: seq<byte>)
    requires DecodeElement(TAG_SEQUENCE, b) == Some((body, []))
    ensures b == SequenceHeader(|body|) + body
  {
    DecodedElement(TAG_SEQUENCE, b, body, []);
    hide DecodeElement;
    assert body + [] == body;
  }

  // ----- P1363 signatures -----

  function HalfR(sig: seq<byte>): nat
    requires |sig| == 2 * P256_COORDINATE_SIZE
  {
    BigEndian(sig[..P256_COORDINATE_SIZE])
  }

  function HalfS(sig: seq<byte>): nat
    requires |sig| == 2 * P256_COORDINATE_SIZE
  {
    BigEndian(sig[P256_COORDINATE_SIZE..])
  }

  predicate Convertible(sig: seq<byte>) {
    |sig| == 2 * P256_COORDINATE_SIZE && HalfR(sig) > 0 && HalfS(sig) > 0
  }

  lemma ContentLength(n: nat)
    requires 0 < n < Pow256(P256_COORDINATE_SIZE)
    ensures 1 <= |Content(n)| <= 33
  {
    MinimalBytesLength(n, P256_COORDINATE_SIZE);
  }

  // ----- the output octet by octet -----

  predicate AllZero(b: seq<byte>) {
    forall i :: 0 <= i < |b| ==> b[i] == 0
  }

  /** `c` is `half` without its leading zeros, and with one zero in front if the first octet left is 128 or more. */
  predicate Stripped(half: seq<byte>, c: seq<byte>) {
    exists k :: 0 <= k < |half| && AllZero(half[..k]) && half[k] != 0
      && c == (if half[k] >= 0x80 then [0] else []) + half[k..]
  }

  /** A SEQUENCE (0x30) of the two INTEGERs (0x02) with one-octet lengths. */
  ghost predicate SignatureOctets(sig: seq<byte>, out: seq<byte>) {
    && |sig| == 64
    && exists r, s :: && Stripped(sig[..32], r) && Stripped(sig[32..], s)
                      && |out| == 6 + |r| + |s| < 128
                      && out == [0x30, |out| - 2, 0x02, |r|] + r + [0x02, |s|] + s
  }

  /** A half is zero as a number exactly when all its octets are; otherwise its content octets are the stripped ones. */
  lemma {:induction false} ContentIsStripped(half: seq<byte>)
    ensures BigEndian(half) == 0 <==> AllZero(half)
    ensures BigEndian(half) > 0 ==> Stripped(half, Content(BigEndian(half)))
  {
    hide BigEndian, MinimalBytes;
    var k := LeadingZeros(half);
    assert AllZero(half[..k]);
    ZerosVanish(half, k);
    if k < |half| {
      MinimalBytesOfValue(half[k..]);
      assert half[k..][0] == half[k];
      assert [] + half[k..] == half[k..];
      assert !AllZero(half);
    } else {
      assert half[..k] == half && half[k..] == [];
      NothingIsZero();
    }
  }

  lemma NothingIsZero()
    ensures BigEndian([]) == 0
  {
  }

  function LeadingZeros(b: seq<byte>): (k: nat)
    ensures k <= |b| && AllZero(b[..k]) && (k < |b| ==> b[k] != 0)
  {
    if b == [] || b[0] != 0 then 0 else
      var k := LeadingZeros(b[1..]);
      assert b[..k + 1] == [b[0]] + b[1..][..k];
      k + 1
  }

  lemma {:induction false} ZerosVanish(b: seq<byte>, k: nat)
    requires k <= |b| && AllZero(b[..k])
    ensures BigEndian(b) == BigEndian(b[k..])
  {
    if k > 0 {
      assert b[..k - 1] == b[..k][..k - 1];
      ZerosVanish(b, k - 1);
      assert b[k - 1] == b[..k][k - 1];
      assert b[k - 1..] == [0] + b[k..];
      LeadingZero(b[k..]);
    }
  }

  lemma ConvertedOctets(sig: seq<byte>)
    ensures Convertible(sig) <==> |sig| == 64 && !AllZero(sig[..32]) && !AllZero(sig[32..])
    ensures Convertible(sig) ==> SignatureOctets(sig, Marshalled(HalfR(sig), HalfS(sig)))
  {
    hide BigEndian, Content, Stripped;
    if |sig| == 64 {
      ContentIsStripped(sig[..32]);
      ContentIsStripped(sig[32..]);
      if Convertible(sig) {
        HalvesFit(sig);
        var r, s, out := Content(HalfR(sig)), Content(HalfS(sig)), Marshalled(HalfR(sig), HalfS(sig));
        assert out == [0x30, |out| - 2, 0x02, |r|] + r + [0x02, |s|] + s;
      }
    }
  }

  /** p1363ToASN1. */
  method P1363ToASN1(sig: seq<byte>) returns (out: Option<seq<byte>>)
    ensures out.Some? <==> Convertible(sig)
    ensures Convertible(sig) ==> out == Some(Marshalled(HalfR(sig), HalfS(sig)))
    ensures Convertible(sig) ==> 8 <= |out.value| <= 72
    ensures Convertible(sig) ==> DecodeSignature(out.value) == Some((HalfR(sig), HalfS(sig)))
    ensures out.Some? <==> |sig| == 64 && !AllZero(sig[..32]) && !AllZero(sig[32..])
    ensures out.Some? ==> SignatureOctets(sig, out.value)
  {
    ConvertedOctets(sig);
    hide SignatureOctets, AllZero;
    if |sig| != 2 * P256_COORDINATE_SIZE {
      return None;
    }
    var r := BigEndian(sig[..P256_COORDINATE_SIZE]);
    var s := BigEndian(sig[P256_COORDINATE_SIZE..]);
    out := MarshalECDSASig(r, s);
    if out.Some? {
      HalvesFit(sig);
      MarshalExact(r, s);
    }
  }

  lemma HalvesFit(sig: seq<byte>)
    requires Convertible(sig)
    ensures Fits(HalfR(sig), HalfS(sig)) && 8 <= |Marshalled(HalfR(sig), HalfS(sig))| <= 72
  {
    BytesOfBigEndian(sig[..P256_COORDINATE_SIZE]);
    BytesOfBigEndian(sig[P256_COORDINATE_SIZE..]);
    ContentLength(HalfR(sig));
    ContentLength(HalfS(sig));
  }

  /** Different P1363 signatures have different DER encodings. */
  lemma ConversionInjective(sig: seq<byte>, other: seq<byte>)
    requires Convertible(sig) && Convertible(other)
    requires Marshalled(HalfR(sig), HalfS(sig)) == Marshalled(HalfR(other), HalfS(other))
    ensures sig == other
  {
    hide Marshalled, DecodeSignature, BigEndian, ToBigEndian, Fits;
    HalvesFit(sig);
    HalvesFit(other);
    MarshalExact(HalfR(sig), HalfS(sig));
    MarshalExact(HalfR(other), HalfS(other));
    BytesOfBigEndian(sig[..P256_COORDINATE_SIZE]);
    BytesOfBigEndian(sig[P256_COORDINATE_SIZE..]);
    BytesOfBigEndian(other[..P256_COORDINATE_SIZE]);
    BytesOfBigEndian(other[P256_COORDINATE_SIZE..]);
    assert sig == sig[..P256_COORDINATE_SIZE] + sig[P256_COORDINATE_SIZE..];
    assert other == other[..P256_COORDINATE_SIZE] + other[P256_COORDINATE_SIZE..];
  }
}
