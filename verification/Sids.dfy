/** Binary and textual security identifiers (section 2.4.2 of [MS-DTYP]). */
module Sids {
  import opened Wrappers
  import opened Bytes
  import Decimal
  import Text

  datatype Sid = Sid(authority: nat, subs: seq<nat>)

  const SID_REVISION := 1
  const SID_MAX_SUB_AUTH := 15

  predicate AllUint32(subs: seq<nat>) {
    forall i :: 0 <= i < |subs| ==> subs[i] < 0x1_0000_0000
  }

  /** The identifiers that have a binary form. */
  predicate ValidSid(sid: Sid) {
    sid.authority < 0x1_0000_0000_0000 && |sid.subs| <= SID_MAX_SUB_AUTH && AllUint32(sid.subs)
  }

  // ----- binary form -----

  function EncodeSubs(subs: seq<nat>): (b: seq<byte>)
    ensures |b| == 4 * |subs|
  {
    if subs == [] then [] else EncodeSubs(subs[..|subs| - 1]) + PutUint32LE(subs[|subs| - 1])
  }

  function EncodeSid(sid: Sid): (b: seq<byte>)
    ensures |b| == 8 + 4 * |sid.subs|
  {
    [SID_REVISION, |sid.subs| % 0x100] + ToBigEndian(sid.authority, 6) + EncodeSubs(sid.subs)
  }

  function DecodeSubs(b: seq<byte>, n: nat): (subs: seq<nat>)
    requires |b| >= 8 + 4 * n
    ensures |subs| == n
  {
    seq(n, i requires 0 <= i < n => Uint32LE(b[8 + 4 * i..12 + 4 * i]))
  }

  /** The identifier at the start of `b`, if there is a well-formed one. */
  function DecodeSid(b: seq<byte>): Option<Sid> {
    if |b| < 8 || b[0] != SID_REVISION || b[1] > SID_MAX_SUB_AUTH || |b| < 8 + 4 * b[1] as int then None
    else Some(Sid(BigEndian(b[2..8]), DecodeSubs(b, b[1])))
  }

  lemma {:induction false} EncodeSubsAt(subs: seq<nat>, i: nat)
    requires i < |subs|
    ensures EncodeSubs(subs)[4 * i..4 * i + 4] == PutUint32LE(subs[i])
  {
    var n := |subs| - 1;
    if i < n {
      EncodeSubsAt(subs[..n], i);
      assert EncodeSubs(subs)[4 * i..4 * i + 4] == EncodeSubs(subs[..n])[4 * i..4 * i + 4];
    }
  }

  lemma {:induction false} EncodeDecodedSubs(b: seq<byte>, n: nat)
    requires |b| >= 8 + 4 * n
    ensures AllUint32(DecodeSubs(b, n))
    ensures EncodeSubs(DecodeSubs(b, n)) == b[8..8 + 4 * n]
  {
    hide Uint32LE, PutUint32LE;
    if n > 0 {
      EncodeDecodedSubs(b, n - 1);
      var front, last := DecodeSubs(b, n - 1), b[4 + 4 * n..8 + 4 * n];
      assert DecodeSubs(b, n) == front + [Uint32LE(last)];
      assert EncodeSubs(DecodeSubs(b, n)) == EncodeSubs(front) + last by {
        assert DecodeSubs(b, n)[..n - 1] == front;
        PutOfUint32(last);
      }
      hide EncodeSubs, DecodeSubs;
      assert b[8..8 + 4 * n] == b[8..4 + 4 * n] + last;
    }
  }

  lemma DecodeEncodedSubs(b: seq<byte>, sid: Sid)
    requires ValidSid(sid) && EncodeSid(sid) <= b
    ensures DecodeSubs(b, |sid.subs|) == sid.subs
  {
    var n := |sid.subs|;
    forall i | 0 <= i < n
      ensures DecodeSubs(b, n)[i] == sid.subs[i]
    {
      EncodeSubsAt(sid.subs, i);
      assert b[8 + 4 * i..12 + 4 * i] == EncodeSubs(sid.subs)[4 * i..4 * i + 4];
      Uint32OfPut(sid.subs[i]);
    }
  }

  lemma DecodedSidIsEncoded(b: seq<byte>, sid: Sid)
    requires DecodeSid(b) == Some(sid)
    ensures ValidSid(sid) && EncodeSid(sid) <= b
  {
    Pow256Values();
    BytesOfBigEndian(b[2..8]);
    EncodeDecodedSubs(b, b[1]);
    var n := 8 + 4 * |sid.subs|;
    assert b[..n] == [b[0], b[1]] + b[2..8] + b[8..n];
  }

  lemma EncodedSidDecodes(b: seq<byte>, sid: Sid)
    requires ValidSid(sid) && EncodeSid(sid) <= b
    ensures DecodeSid(b) == Some(sid)
  {
    Pow256Values();
    var e := EncodeSid(sid);
    assert b[0] == e[0] && b[1] == e[1];
    assert b[2..8] == e[2..8] == ToBigEndian(sid.authority, 6);
    BigEndianOfBytes(sid.authority, 6);
    DecodeEncodedSubs(b, sid);
  }

  /** Decoding is the exact inverse of encoding: it succeeds on precisely the encodings, ignoring what follows. */
  lemma DecodeSidExact(b: seq<byte>, sid: Sid)
    ensures DecodeSid(b) == Some(sid) <==> ValidSid(sid) && EncodeSid(sid) <= b
  {
    if DecodeSid(b) == Some(sid) {
      DecodedSidIsEncoded(b, sid);
    }
    if ValidSid(sid) && EncodeSid(sid) <= b {
      EncodedSidDecodes(b, sid);
    }
  }

  /** The layout of section 2.4.2.2 of [MS-DTYP], byte by byte: `sid` is what stands at the start of `b`. */
  predicate SidBytes(b: seq<byte>, sid: Sid) {
    && |sid.subs| <= 15
    && |b| >= 8 + 4 * |sid.subs|
    && b[0] == 1 && b[1] == |sid.subs|
    && sid.authority == Weights48(b[2], b[3], b[4], b[5], b[6], b[7])
    && forall i :: 0 <= i < |sid.subs| ==>
      sid.subs[i] == Quad(b[8 + 4 * i], b[9 + 4 * i], b[10 + 4 * i], b[11 + 4 * i])
  }

  /** An identifier is read exactly where those bytes stand. */
  lemma SidByBytes(b: seq<byte>, sid: Sid)
    ensures DecodeSid(b) == Some(sid) <==> SidBytes(b, sid)
  {
    hide Uint32LE, BigEndian;
    if |b| >= 8 && |b| >= 8 + 4 * b[1] as int {
      BigEndianByBytes(b[2..8]);
      var n: nat := b[1];
      var subs := DecodeSubs(b, n);
      forall i | 0 <= i < n
        ensures subs[i] == Quad(b[8 + 4 * i], b[9 + 4 * i], b[10 + 4 * i], b[11 + 4 * i])
      {
        Uint32ByBytes(b[8 + 4 * i..12 + 4 * i]);
      }
      if SidBytes(b, sid) {
        assert subs == sid.subs;
      }
    }
  }

  // ----- textual form -----

  function RenderSubs(subs: seq<nat>): string {
    if subs == [] then "" else RenderSubs(subs[..|subs| - 1]) + "-" + Decimal.Render(subs[|subs| - 1])
  }

  function RenderSid(sid: Sid): string {
    "S-1-" + Decimal.Render(sid.authority) + RenderSubs(sid.subs)
  }

  function RenderAll(v: seq<nat>): (parts: seq<string>)
    ensures |parts| == |v|
  {
    seq(|v|, i requires 0 <= i < |v| => Decimal.Render(v[i]))
  }

  lemma {:induction false} JoinSnoc(parts: seq<string>, last: string)
    requires |parts| > 0
    ensures Text.Join(parts + [last], '-') == Text.Join(parts, '-') + "-" + last
  {
    if |parts| == 1 {
      assert (parts + [last])[1..] == [last];
    } else {
      JoinSnoc(parts[1..], last);
      assert (parts + [last])[1..] == parts[1..] + [last];
      assert Text.Join(parts + [last], '-') == parts[0] + "-" + (Text.Join(parts[1..], '-') + "-" + last);
    }
  }

  lemma {:induction false} JoinRendered(head: seq<string>, subs: seq<nat>)
    requires |head| > 0
    ensures Text.Join(head + RenderAll(subs), '-') == Text.Join(head, '-') + RenderSubs(subs)
  {
    hide Text.Join, Decimal.Render;
    if subs == [] {
      assert head + RenderAll(subs) == head;
    } else {
      var front, last := subs[..|subs| - 1], Decimal.Render(subs[|subs| - 1]);
      JoinRendered(head, front);
      assert head + RenderAll(subs) == (head + RenderAll(front)) + [last];
      JoinSnoc(head + RenderAll(front), last);
    }
  }

  lemma RenderSubsIsJoin(v: seq<nat>)
    requires |v| > 0
    ensures RenderSubs(v) == "-" + Text.Join(RenderAll(v), '-')
  {
    JoinRendered([""], v);
    Text.JoinCons("", RenderAll(v), '-');
    assert "" + RenderSubs(v) == RenderSubs(v);
    assert "" + "-" + Text.Join(RenderAll(v), '-') == "-" + Text.Join(RenderAll(v), '-');
  }

  /** Rendered sub-authorities, read from the front: each is preceded by a dash. */
  lemma {:induction false} RenderSubsCons(n: nat, v: seq<nat>)
    ensures RenderSubs([n] + v) == "-" + Decimal.Render(n) + RenderSubs(v)
  {
    hide Decimal.Render;
    if v == [] {
      assert ([n] + v)[..0] == [];
    } else {
      var front, last := v[..|v| - 1], v[|v| - 1];
      RenderSubsCons(n, front);
      assert ([n] + v)[..|v|] == [n] + front;
      assert RenderSubs([n] + v) == RenderSubs([n] + front) + "-" + Decimal.Render(last);
    }
  }

  function SidParts(sid: Sid): seq<string> {
    ["S", "1", Decimal.Render(sid.authority)] + RenderAll(sid.subs)
  }

  /** A rendered identifier is its parts joined by dashes, and splitting it gives the parts back. */
  lemma RenderedSidParts(sid: Sid)
    ensures RenderSid(sid) == Text.Join(SidParts(sid), '-')
    ensures Text.Split(RenderSid(sid), '-') == SidParts(sid)
  {
    var a := Decimal.Render(sid.authority);
    assert ["S", "1", a][1..] == ["1", a];
    assert ["1", a][1..] == [a];
    calc {
      Text.Join(["S", "1", a], '-');
      "S-" + Text.Join(["1", a], '-');
      "S-" + ("1-" + a);
      "S-1-" + a;
    }
    JoinRendered(["S", "1", a], sid.subs);
    forall i | 0 <= i < |SidParts(sid)|
      ensures '-' !in SidParts(sid)[i]
    {
      if i == 2 {
        Decimal.NoDash(sid.authority);
      } else if i > 2 {
        Decimal.NoDash(sid.subs[i - 3]);
      }
    }
    Text.SplitOfJoin(SidParts(sid), '-');
  }

  lemma RenderAllInjective(v: seq<nat>, w: seq<nat>)
    requires RenderAll(v) == RenderAll(w)
    ensures v == w
  {
    forall i | 0 <= i < |v|
      ensures v[i] == w[i]
    {
      assert RenderAll(v)[i] == RenderAll(w)[i];
      Decimal.RenderInjective(v[i], w[i]);
    }
  }

  /** Two identifiers with the same text are the same identifier. */
  lemma RenderSidInjective(a: Sid, b: Sid)
    requires RenderSid(a) == RenderSid(b)
    ensures a == b
  {
    RenderedSidParts(a);
    RenderedSidParts(b);
    var p, q := SidParts(a), SidParts(b);
    assert p[2] == q[2];
    Decimal.RenderInjective(a.authority, b.authority);
    assert RenderAll(a.subs) == p[3..] && RenderAll(b.subs) == q[3..];
    RenderAllInjective(a.subs, b.subs);
  }

  lemma EncodeSidInjective(s: Sid, t: Sid)
    requires ValidSid(s) && ValidSid(t) && EncodeSid(s) == EncodeSid(t)
    ensures s == t
  {
    DecodeSidExact(EncodeSid(s), s);
    DecodeSidExact(EncodeSid(s), t);
  }

  /** Two byte strings that parse give the same text iff the bytes their identifiers occupy are equal. */
  lemma SidTextIffBytes(b: seq<byte>, c: seq<byte>, s: Sid, t: Sid)
    requires DecodeSid(b) == Some(s) && DecodeSid(c) == Some(t)
    requires |EncodeSid(s)| <= |b| && |EncodeSid(t)| <= |c|
    ensures RenderSid(s) == RenderSid(t) <==> b[..|EncodeSid(s)|] == c[..|EncodeSid(t)|]
  {
    DecodeSidExact(b, s);
    DecodeSidExact(c, t);
    ghost var x, y := EncodeSid(s), EncodeSid(t);
    assert b[..|x|] == x && c[..|y|] == y;
    if x == y {
      EncodeSidInjective(s, t);
    }
    if RenderSid(s) == RenderSid(t) {
      RenderSidInjective(s, t);
    }
  }

  lemma RenderSubsStep(b: seq<byte>, i: nat)
    requires |b| >= 8 + 4 * (i + 1)
    ensures RenderSubs(DecodeSubs(b, i + 1))
         == RenderSubs(DecodeSubs(b, i)) + "-" + Decimal.Render(Uint32LE(b[8 + 4 * i..12 + 4 * i]))
  {
    assert DecodeSubs(b, i + 1)[..i] == DecodeSubs(b, i);
  }

  lemma Reassociated(front: string, subs: string, last: string)
    ensures front + subs + "-" + last == front + (subs + "-" + last)
  {
  }

  lemma NoSubs(b: seq<byte>)
    requires |b| >= 8
    ensures RenderSubs(DecodeSubs(b, 0)) == ""
  {
  }

  /** The authority loop of parseSID: shift left by a byte and or in the next one. */
  method ReadAuthority(b: seq<byte>) returns (authority: nat)
    requires |b| >= 8
    ensures authority == BigEndian(b[2..8])
  {
    authority := 0;
    for k := 0 to 6
      invariant authority == BigEndian(b[2..2 + k])
    {
      BigEndianStep(b, 2, 2 + k);
      authority := authority * 0x100 + b[2 + k] as int;
    }
  }

  /** parseSID: the text of the identifier at the start of `b` and the number of bytes it occupies. */
  method ParseSID(b: seq<byte>) returns (r: Option<(string, nat)>)
    ensures r == match DecodeSid(b)
                 case None => None
                 case Some(sid) => Some((RenderSid(sid), |EncodeSid(sid)|))
  {
    if |b| < 8 {
      return None;
    }
    if b[0] != SID_REVISION {
      return None;
    }
    var n: nat := b[1];
    if n > SID_MAX_SUB_AUTH {
      return None;
    }
    var size := 8 + 4 * n;
    if |b| < size {
      return None;
    }
    var authority := ReadAuthority(b);
    hide Decimal.Render, Uint32LE, EncodeSid, EncodeSubs, ToBigEndian, BigEndian, RenderSubs, DecodeSubs;
    var sb := "S-1-";
    sb := sb + Decimal.Render(authority);
    NoSubs(b);
    for i := 0 to n
      invariant sb == "S-1-" + Decimal.Render(authority) + RenderSubs(DecodeSubs(b, i))
    {
      RenderSubsStep(b, i);
      Reassociated("S-1-" + Decimal.Render(authority), RenderSubs(DecodeSubs(b, i)), Decimal.Render(Uint32LE(b[8 + 4 * i..12 + 4 * i])));
      sb := sb + "-";
      sb := sb + Decimal.Render(Uint32LE(b[8 + 4 * i..12 + 4 * i]));
    }
    return Some((sb, size));
  }
}
