/** The descriptor printer of windowscng/sd_test.go, and its round trips through the parser. */
module DescriptorBuilder {
  import opened Wrappers
  import opened Bytes
  import opened Sids
  import opened Descriptor
  import Decimal
  import Text

  const PROTECTED_CONTROL := SE_SELF_RELATIVE + SE_DACL_PRESENT + SE_DACL_PROTECTED

  predicate AllNumerals(parts: seq<string>) {
    forall i :: 0 <= i < |parts| ==> Decimal.ParseUint(parts[i], 0xFFFF_FFFF).Some?
  }

  function Numerals(parts: seq<string>): (v: seq<nat>)
    requires AllNumerals(parts)
    ensures |v| == |parts|
    ensures forall i :: 0 <= i < |v| ==> Decimal.ParseUint(parts[i], 0xFFFF_FFFF) == Some(v[i])
  {
    seq(|parts|, i requires 0 <= i < |parts| => Decimal.ParseUint(parts[i], 0xFFFF_FFFF).value)
  }

  /** The identifier that a text denotes; leading zeros are allowed, unlike in a rendered identifier. */
  function SidOfText(s: string): Option<Sid> {
    var parts := Text.Split(s, '-');
    if |parts| < 3 || parts[0] != "S" || parts[1] != "1" then None
    else if Decimal.ParseUint(parts[2], 0xFFFF_FFFF_FFFF).None? || !AllNumerals(parts[3..]) then None
    else Some(Sid(Decimal.ParseUint(parts[2], 0xFFFF_FFFF_FFFF).value, Numerals(parts[3..])))
  }

  lemma SidOfRenderedText(sid: Sid)
    requires sid.authority < 0x1_0000_0000_0000 && AllUint32(sid.subs)
    ensures SidOfText(RenderSid(sid)) == Some(sid)
  {
    RenderedSidParts(sid);
    var parts := Text.Split(RenderSid(sid), '-');
    Decimal.RenderIsCanonical(sid.authority);
    assert parts[3..] == RenderAll(sid.subs);
    forall i | 0 <= i < |sid.subs|
      ensures Decimal.ParseUint(parts[3..][i], 0xFFFF_FFFF) == Some(sid.subs[i])
    {
      Decimal.RenderIsCanonical(sid.subs[i]);
    }
    assert Numerals(parts[3..]) == sid.subs;
  }

  /** S, 1, a 48-bit number and then 32-bit numbers, all decimal. */
  predicate IdentifierParts(parts: seq<string>) {
    && |parts| >= 3 && parts[0] == "S" && parts[1] == "1"
    && Decimal.ParseUint(parts[2], 0xFFFF_FFFF_FFFF).Some?
    && AllNumerals(parts[3..])
  }

  /** A text denotes an identifier exactly when it is such parts joined by dashes. */
  lemma DenotingTexts(s: string)
    ensures SidOfText(s).Some? <==> exists parts :: IdentifierParts(parts) && s == Text.Join(parts, '-')
  {
    if SidOfText(s).Some? {
      Text.JoinOfSplit(s, '-');
      assert IdentifierParts(Text.Split(s, '-'));
    }
    if exists parts :: IdentifierParts(parts) && s == Text.Join(parts, '-') {
      var parts :| IdentifierParts(parts) && s == Text.Join(parts, '-');
      forall i | 0 <= i < |parts|
        ensures '-' !in parts[i]
      {
        assert i >= 3 ==> Decimal.ParseUint(parts[3..][i - 3], 0xFFFF_FFFF).Some?;
      }
      Text.SplitOfJoin(parts, '-');
    }
  }

  /** Encoding a valid identifier's text and parsing it back gives the same text and the exact byte length. */
  lemma SidTextRoundTrip(sid: Sid)
    requires ValidSid(sid)
    ensures SidOfText(RenderSid(sid)) == Some(sid)
    ensures DecodeSid(EncodeSid(sid)) == Some(sid)
  {
    SidOfRenderedText(sid);
    DecodeSidExact(EncodeSid(sid), sid);
  }

  /** encodeSID. None stands for t.Fatalf. */
  method EncodeSIDText(s: string) returns (r: Option<seq<byte>>)
    ensures r == match SidOfText(s) case None => None case Some(sid) => Some(EncodeSid(sid))
  {
    var parts := Text.Split(s, '-');
    if |parts| < 3 || parts[0] != "S" || parts[1] != "1" {
      return None;
    }
    var auth := Decimal.ParseUint(parts[2], 0xFFFF_FFFF_FFFF);
    if auth.None? {
      return None;
    }
    var subs := parts[3..];
    var b := new byte[8 + 4 * |subs|](i => 0);
    b[0] := SID_REVISION;
    b[1] := |subs| % 0x100;
    FillAuthority(b, auth.value);
    ghost var head := b[..8];
    assert head == [SID_REVISION, |subs| % 0x100] + ToBigEndian(auth.value, 6);
    var ok := FillSubs(b, subs);
    if !ok {
      return None;
    }
    assert b[..] == head + b[8..];
    return Some(b[..]);
  }

  /** The authority loop of encodeSID: byte `2 + i` gets the authority shifted right by `8 * (5 - i)`. */
  method FillAuthority(b: array<byte>, auth: nat)
    requires b.Length >= 8
    modifies b
    ensures b[2..8] == ToBigEndian(auth, 6)
    ensures b[..2] == old(b[..2]) && b[8..] == old(b[8..])
  {
    for i := 0 to 6
      invariant b[..2] == old(b[..2]) && b[8..] == old(b[8..])
      invariant forall k :: 0 <= k < i ==> b[2 + k] == ToBigEndian(auth, 6)[k]
    {
      ToBigEndianAt(auth, 6, i);
      b[2 + i] := ShiftRightBytes(auth, 5 - i) % 0x100;
    }
  }

  /** The sub-authority loop of encodeSID; it stops at the first part that is not a 32-bit numeral. */
  method FillSubs(b: array<byte>, subs: seq<string>) returns (ok: bool)
    requires b.Length == 8 + 4 * |subs|
    modifies b
    ensures ok <==> AllNumerals(subs)
    ensures b[..8] == old(b[..8])
    ensures ok ==> b[8..] == EncodeSubs(Numerals(subs))
  {
    hide Decimal.ParseUint, PutUint32LE;
    for i := 0 to |subs|
      invariant AllNumerals(subs[..i])
      invariant b[..8] == old(b[..8])
      invariant b[8..8 + 4 * i] == EncodeSubs(Numerals(subs[..i]))
    {
      var v := Decimal.ParseUint(subs[i], 0xFFFF_FFFF);
      if v.None? {
        return false;
      }
      var p := PutUint32LE(v.value);
      ghost var before := b[8..8 + 4 * i];
      b[8 + 4 * i], b[9 + 4 * i], b[10 + 4 * i], b[11 + 4 * i] := p[0], p[1], p[2], p[3];
      assert b[8..8 + 4 * (i + 1)] == before + p;
      NumeralsStep(subs, i);
    }
    assert subs[..|subs|] == subs;
    assert b[8..] == b[8..8 + 4 * |subs|];
    return true;
  }

  lemma NumeralsStep(parts: seq<string>, i: nat)
    requires i < |parts| && AllNumerals(parts[..i]) && Decimal.ParseUint(parts[i], 0xFFFF_FFFF).Some?
    ensures AllNumerals(parts[..i + 1])
    ensures EncodeSubs(Numerals(parts[..i + 1]))
         == EncodeSubs(Numerals(parts[..i])) + PutUint32LE(Decimal.ParseUint(parts[i], 0xFFFF_FFFF).value)
  {
    hide Decimal.ParseUint;
    assert Numerals(parts[..i + 1])[..i] == Numerals(parts[..i]);
  }

  // ----- descriptors -----

  predicate AllSidTexts(aces: seq<ParsedAce>) {
    forall i :: 0 <= i < |aces| ==> SidOfText(aces[i].sid).Some?
  }

  /** The structured form of the builder's textual ACEs. */
  function Structured(aces: seq<ParsedAce>): (r: seq<Ace>)
    requires AllSidTexts(aces)
    ensures |r| == |aces|
  {
    seq(|aces|, i requires 0 <= i < |aces| =>
      Ace(aces[i].aceType, aces[i].aceFlags, aces[i].mask, SidOfText(aces[i].sid).value))
  }

  /** The bytes of a descriptor holding only a DACL, with the header fields truncated to their widths. */
  function Built(control: uint16, aces: seq<Ace>): seq<byte> {
    BuiltHeader(control) + BuiltAclHeader(aces) + EncodeAces(aces)
  }

  function BuiltHeader(control: uint16): (b: seq<byte>)
    ensures |b| == SD_HEADER_SIZE
  {
    [1, 0] + PutUint16LE(control) + [0, 0, 0, 0] + [0, 0, 0, 0] + [0, 0, 0, 0] + PutUint32LE(SD_HEADER_SIZE)
  }

  function BuiltAclHeader(aces: seq<Ace>): (b: seq<byte>)
    ensures |b| == ACL_HEADER_SIZE
  {
    [ACL_REVISION, 0] + PutUint16LE(ACL_HEADER_SIZE + |EncodeAces(aces)|) + PutUint16LE(|aces|) + [0, 0]
  }

  lemma BuiltFields(control: uint16, aces: seq<Ace>)
    ensures var sd := Built(control, aces);
      && |sd| >= SD_HEADER_SIZE + ACL_HEADER_SIZE
      && sd[0] == 1
      && sd[2..4] == PutUint16LE(control)
      && sd[16..20] == PutUint32LE(SD_HEADER_SIZE)
      && sd[20..] == BuiltAclHeader(aces) + EncodeAces(aces)
  {
    var h := BuiltHeader(control);
    var sd := Built(control, aces);
    assert sd[0] == h[0];
    assert sd[2..4] == h[2..4] == PutUint16LE(control);
    assert sd[16..20] == h[16..20] == PutUint32LE(SD_HEADER_SIZE);
  }

  /** Parsing a built descriptor returns exactly the list it was built from. */
  lemma DescriptorRoundTrip(control: uint16, aces: seq<Ace>)
    requires ProtectedControl(control) && ValidAces(aces)
    requires ACL_HEADER_SIZE + |EncodeAces(aces)| < 0x1_0000
    ensures DescribesDacl(Built(control, aces), aces)
    ensures Dacl(Built(control, aces)) == Some(aces)
  {
    hide Uint16LE, PutUint16LE, Uint32LE, PutUint32LE, BuiltHeader, EncodeAces, ValidAces;
    var sd, size := Built(control, aces), ACL_HEADER_SIZE + |EncodeAces(aces)|;
    BuiltFields(control, aces);
    EncodeAcesLength(aces);
    Uint16OfPut(control);
    Uint32OfPut(SD_HEADER_SIZE);
    Uint16OfPut(size);
    Uint16OfPut(|aces|);
    var acl := BuiltAclHeader(aces) + EncodeAces(aces);
    assert sd[20] == acl[0] == ACL_REVISION;
    assert sd[22..24] == acl[2..4] == PutUint16LE(size);
    assert HeaderOk(sd);
    assert AclOf(sd) == acl;
    assert acl[4..6] == PutUint16LE(|aces|);
    assert acl[ACL_HEADER_SIZE..] == EncodeAces(aces);
    DaclExact(sd, aces);
  }

  /** buildDescriptor. None stands for t.Fatalf. */
  method BuildDescriptor(control: uint16, aces: seq<ParsedAce>) returns (r: Option<seq<byte>>)
    ensures r == if AllSidTexts(aces) then Some(Built(control, Structured(aces))) else None
  {
    hide SidOfText, PutUint16LE, PutUint32LE;
    var body: seq<byte> := [];
    for i := 0 to |aces|
      invariant AllSidTexts(aces[..i])
      invariant body == EncodeAces(Structured(aces[..i]))
    {
      var a := aces[i];
      var sid := EncodeSIDText(a.sid);
      if sid.None? {
        return None;
      }
      var ace := [a.aceType, a.aceFlags] + PutUint16LE(ACE_FIXED_SIZE + |sid.value|) + PutUint32LE(a.mask);
      StructuredStep(aces, i);
      body := body + (ace + sid.value);
    }
    assert aces[..|aces|] == aces;
    var acl := [ACL_REVISION, 0] + PutUint16LE(ACL_HEADER_SIZE + |body|) + PutUint16LE(|aces|) + [0, 0];
    acl := acl + body;
    var sd := [1, 0] + PutUint16LE(control) + [0, 0, 0, 0] + [0, 0, 0, 0] + [0, 0, 0, 0] + PutUint32LE(SD_HEADER_SIZE);
    assert sd + acl == Built(control, Structured(aces));
    return Some(sd + acl);
  }

  lemma StructuredStep(aces: seq<ParsedAce>, i: nat)
    requires i < |aces| && AllSidTexts(aces[..i]) && SidOfText(aces[i].sid).Some?
    ensures AllSidTexts(aces[..i + 1])
    ensures var a := aces[i];
      EncodeAces(Structured(aces[..i + 1])) == EncodeAces(Structured(aces[..i]))
        + EncodeAce(Ace(a.aceType, a.aceFlags, a.mask, SidOfText(a.sid).value))
  {
    hide SidOfText;
    var last := Ace(aces[i].aceType, aces[i].aceFlags, aces[i].mask, SidOfText(aces[i].sid).value);
    assert Structured(aces[..i + 1]) == Structured(aces[..i]) + [last];
    EncodeAcesSnoc(Structured(aces[..i]), last);
  }
}
