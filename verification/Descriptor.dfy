/** Self-relative security descriptors (sections 2.4.4 to 2.4.6 of [MS-DTYP]) and the parser of their DACL. */
module Descriptor {
  import opened Wrappers
  import opened Bytes
  import opened Sids

  const SE_DACL_PRESENT := 0x0004
  const SE_DACL_PROTECTED := 0x1000
  const SE_SELF_RELATIVE := 0x8000

  const ACL_REVISION := 2
  const ACL_REVISION_DS := 4

  const SD_HEADER_SIZE := 20
  const ACL_HEADER_SIZE := 8
  const ACE_FIXED_SIZE := 8
  const ACE_TYPE_ACCESS_ALLOWED := 0

  /** An ACE with its trustee in structured form. */
  datatype Ace = Ace(aceType: byte, flags: byte, mask: uint32, sid: Sid)

  /** An ACE as the parser reports it, its trustee as text. */
  datatype ParsedAce = ParsedAce(aceType: byte, aceFlags: byte, mask: uint32, sid: string)

  function Printed(a: Ace): ParsedAce {
    ParsedAce(a.aceType, a.flags, a.mask, RenderSid(a.sid))
  }

  function PrintedAll(aces: seq<Ace>): (parsed: seq<ParsedAce>)
    ensures |parsed| == |aces|
    ensures forall i :: 0 <= i < |aces| ==> parsed[i] == Printed(aces[i])
  {
    seq(|aces|, i requires 0 <= i < |aces| => Printed(aces[i]))
  }

  function PrintedResult(r: Option<seq<Ace>>): Option<seq<ParsedAce>> {
    match r
    case None => None
    case Some(aces) => Some(PrintedAll(aces))
  }

  predicate ValidAce(a: Ace) {
    a.aceType == ACE_TYPE_ACCESS_ALLOWED && ValidSid(a.sid)
  }

  predicate ValidAces(aces: seq<Ace>) {
    forall i :: 0 <= i < |aces| ==> ValidAce(aces[i])
  }

  // ----- one ACE -----

  function AceSize(a: Ace): (n: nat)
    ensures n >= 16
  {
    ACE_FIXED_SIZE + 8 + 4 * |a.sid.subs|
  }

  function EncodeAce(a: Ace): (b: seq<byte>)
    ensures |b| == AceSize(a)
  {
    [a.aceType, a.flags] + PutUint16LE(AceSize(a)) + PutUint32LE(a.mask) + EncodeSid(a.sid)
  }

  /** The access-allowed ACE at the start of `b`, if one is there and its identifier fills it exactly. */
  function DecodeAce(b: seq<byte>): (r: Option<Ace>)
    ensures r.Some? ==> AceSize(r.value) <= |b|
  {
    if |b| < ACE_FIXED_SIZE then None
    else
      var size := Uint16LE(b[2..4]);
      if size < ACE_FIXED_SIZE || size % 4 != 0 || size > |b| then None
      else if b[0] != ACE_TYPE_ACCESS_ALLOWED then None
      else
        match DecodeSid(b[ACE_FIXED_SIZE..size])
        case None => None
        case Some(sid) =>
          var a := Ace(b[0], b[1], Uint32LE(b[4..8]), sid);
          if AceSize(a) != size then None else Some(a)
  }

  lemma DecodedAceIsEncoded(b: seq<byte>, a: Ace)
    requires DecodeAce(b) == Some(a)
    ensures ValidAce(a) && EncodeAce(a) <= b
  {
    var size := Uint16LE(b[2..4]);
    DecodeSidExact(b[ACE_FIXED_SIZE..size], a.sid);
    PutOfUint16(b[2..4]);
    PutOfUint32(b[4..8]);
    assert b[..size] == [b[0], b[1]] + b[2..4] + b[4..8] + b[8..size];
  }

  lemma EncodedAceDecodes(b: seq<byte>, a: Ace)
    requires ValidAce(a) && EncodeAce(a) <= b
    ensures DecodeAce(b) == Some(a)
  {
    var e, size := EncodeAce(a), AceSize(a);
    assert b[0] == e[0] && b[1] == e[1];
    assert b[2..4] == e[2..4] == PutUint16LE(size);
    assert b[4..8] == e[4..8] == PutUint32LE(a.mask);
    assert b[8..size] == e[8..size] == EncodeSid(a.sid);
    Uint16OfPut(size);
    Uint32OfPut(a.mask);
    DecodeSidExact(b[8..size], a.sid);
  }

  // ----- a run of ACEs -----

  function EncodeAces(aces: seq<Ace>): seq<byte> {
    if aces == [] then [] else EncodeAce(aces[0]) + EncodeAces(aces[1..])
  }

  function DecodeAces(b: seq<byte>, n: nat): Option<seq<Ace>> {
    if n == 0 then Some([])
    else
      match DecodeAce(b)
      case None => None
      case Some(a) =>
        match DecodeAces(b[AceSize(a)..], n - 1)
        case None => None
        case Some(rest) => Some([a] + rest)
  }

  lemma PrefixSplit(x: seq<byte>, y: seq<byte>, b: seq<byte>)
    ensures x + y <= b <==> x <= b && y <= b[|x|..]
  {
    if x + y <= b {
      assert b[..|x|] == (x + y)[..|x|] == x;
      assert b[|x|..][..|y|] == (x + y)[|x|..] == y;
    }
    if x <= b && y <= b[|x|..] {
      assert b == x + b[|x|..];
    }
  }

  /** Reading `n` ACEs succeeds with exactly the lists of `n` valid ACEs whose encodings `b` starts with. */
  lemma {:induction false} DecodeAcesExact(b: seq<byte>, n: nat, aces: seq<Ace>)
    ensures DecodeAces(b, n) == Some(aces) <==> |aces| == n && ValidAces(aces) && EncodeAces(aces) <= b
  {
    hide DecodeAce, EncodeAce, ValidAce;
    if n > 0 && |aces| > 0 {
      var a, rest := aces[0], aces[1..];
      PrefixSplit(EncodeAce(a), EncodeAces(rest), b);
      assert aces == [a] + rest;
      assert ValidAces(aces) <==> ValidAce(a) && ValidAces(rest);
      if DecodeAce(b) == Some(a) {
        DecodedAceIsEncoded(b, a);
        DecodeAcesExact(b[AceSize(a)..], n - 1, rest);
      } else if ValidAce(a) && EncodeAce(a) <= b {
        EncodedAceDecodes(b, a);
      }
    }
  }

  lemma {:induction false} EncodeAcesLength(aces: seq<Ace>)
    ensures |EncodeAces(aces)| >= 16 * |aces|
  {
    if aces != [] {
      EncodeAcesLength(aces[1..]);
    }
  }

  lemma {:induction false} EncodeAcesSnoc(aces: seq<Ace>, a: Ace)
    ensures EncodeAces(aces + [a]) == EncodeAces(aces) + EncodeAce(a)
  {
    hide EncodeAce;
    if aces == [] {
      assert EncodeAces([a]) == EncodeAce(a) + EncodeAces([]);
    } else {
      EncodeAcesSnoc(aces[1..], a);
      assert (aces + [a])[1..] == aces[1..] + [a];
    }
  }

  // ----- the descriptor -----

  /** `control & flag != 0` for a one-bit flag. */
  predicate HasControl(control: uint16, flag: nat)
    requires flag > 0
  {
    control / flag % 2 == 1
  }

  predicate ProtectedControl(control: uint16) {
    HasControl(control, SE_SELF_RELATIVE) && HasControl(control, SE_DACL_PRESENT)
    && HasControl(control, SE_DACL_PROTECTED)
  }

  /** Every check parseSelfRelativeDACL makes before it looks at the first ACE. */
  predicate HeaderOk(sd: seq<byte>) {
    && |sd| >= SD_HEADER_SIZE
    && sd[0] == 1
    && ProtectedControl(Uint16LE(sd[2..4]))
    && var off := Uint32LE(sd[16..20]);
    && SD_HEADER_SIZE <= off
    && off + ACL_HEADER_SIZE <= |sd|
    && sd[off] in {ACL_REVISION, ACL_REVISION_DS}
    && ACL_HEADER_SIZE <= Uint16LE(sd[off + 2..off + 4]) <= |sd| - off
  }

  /** The ACL, cut to its declared size. */
  function AclOf(sd: seq<byte>): (acl: seq<byte>)
    requires HeaderOk(sd)
    ensures |acl| >= ACL_HEADER_SIZE
  {
    var off := Uint32LE(sd[16..20]);
    sd[off..off + Uint16LE(sd[off + 2..off + 4])]
  }

  /**
   * The descriptor grammar: the header is in order and the ACL body starts with the encodings of
   * exactly the declared number of access-allowed ACEs. Bytes after the last ACE are not constrained.
   */
  predicate DescribesDacl(sd: seq<byte>, aces: seq<Ace>) {
    && HeaderOk(sd)
    && |aces| == Uint16LE(AclOf(sd)[4..6])
    && ValidAces(aces)
    && EncodeAces(aces) <= AclOf(sd)[ACL_HEADER_SIZE..]
  }

  function Dacl(sd: seq<byte>): Option<seq<Ace>> {
    if !HeaderOk(sd) then None
    else DecodeAces(AclOf(sd)[ACL_HEADER_SIZE..], Uint16LE(AclOf(sd)[4..6]))
  }

  /** The parser's result is characterised by the grammar; the list is unique, and each ACE takes 16 bytes or more. */
  lemma DaclExact(sd: seq<byte>, aces: seq<Ace>)
    ensures Dacl(sd) == Some(aces) <==> DescribesDacl(sd, aces)
    ensures DescribesDacl(sd, aces) ==> ACL_HEADER_SIZE + 16 * |aces| <= |AclOf(sd)|
  {
    if HeaderOk(sd) {
      DecodeAcesExact(AclOf(sd)[ACL_HEADER_SIZE..], Uint16LE(AclOf(sd)[4..6]), aces);
      EncodeAcesLength(aces);
    }
  }

  lemma DaclUnique(sd: seq<byte>, aces: seq<Ace>, other: seq<Ace>)
    requires DescribesDacl(sd, aces) && DescribesDacl(sd, other)
    ensures aces == other
  {
    DaclExact(sd, aces);
    DaclExact(sd, other);
  }

  lemma DaclNoneExact(sd: seq<byte>)
    ensures Dacl(sd).None? <==> !exists aces :: DescribesDacl(sd, aces)
  {
    if Dacl(sd).Some? {
      DaclExact(sd, Dacl(sd).value);
    }
    if exists aces :: DescribesDacl(sd, aces) {
      var aces :| DescribesDacl(sd, aces);
      DaclExact(sd, aces);
    }
  }

  // ----- the same, byte by byte -----

  /** An access-allowed ACE at the start of `b`: type 0, flags, 16-bit size, 32-bit mask and the identifier. */
  predicate AceBytes(b: seq<byte>, a: Ace) {
    && a.aceType == 0
    && |b| >= 16 + 4 * |a.sid.subs|
    && b[0] == 0 && b[1] == a.flags
    && Word(b[2], b[3]) == 16 + 4 * |a.sid.subs|
    && a.mask == Quad(b[4], b[5], b[6], b[7])
    && SidBytes(b[8..], a.sid)
  }

  /** `aces` one after the other from the start of `b`. */
  predicate AcesBytes(b: seq<byte>, aces: seq<Ace>) {
    aces == [] || (AceBytes(b, aces[0]) && AcesBytes(b[16 + 4 * |aces[0].sid.subs|..], aces[1..]))
  }

  /** Revision 1, DACL present (0x0004), protected (0x1000) and self-relative (0x8000), and an ACL within bounds. */
  predicate HeaderBytes(sd: seq<byte>) {
    && |sd| >= 20
    && sd[0] == 1
    && sd[2] / 0x04 % 2 == 1 && sd[3] / 0x10 % 2 == 1 && sd[3] / 0x80 == 1
    && var off := DaclOffset(sd);
    && 20 <= off && off + 8 <= |sd|
    && (sd[off] == 2 || sd[off] == 4)
    && var size := Word(sd[off + 2], sd[off + 3]);
    && 8 <= size && off + size <= |sd|
  }

  function DaclOffset(sd: seq<byte>): nat
    requires |sd| >= 20
  {
    Quad(sd[16], sd[17], sd[18], sd[19])
  }

  /** The descriptor holds exactly the list `aces`; bytes after the last ACE of the ACL are not constrained. */
  predicate DescriptorBytes(sd: seq<byte>, aces: seq<Ace>) {
    && HeaderBytes(sd)
    && var off := DaclOffset(sd);
    && |aces| == Word(sd[off + 4], sd[off + 5])
    && AcesBytes(sd[off + 8..off + Word(sd[off + 2], sd[off + 3])], aces)
  }

  lemma ControlByBytes(b: seq<byte>)
    requires |b| == 2
    ensures ProtectedControl(Uint16LE(b)) <==> b[0] / 0x04 % 2 == 1 && b[1] / 0x10 % 2 == 1 && b[1] / 0x80 == 1
  {
    Uint16ByBytes(b);
  }

  lemma HeaderByBytes(sd: seq<byte>)
    ensures HeaderOk(sd) <==> HeaderBytes(sd)
    ensures HeaderOk(sd) ==>
      var off := DaclOffset(sd);
      && AclOf(sd)[ACL_HEADER_SIZE..] == sd[off + 8..off + Word(sd[off + 2], sd[off + 3])]
      && Uint16LE(AclOf(sd)[4..6]) == Word(sd[off + 4], sd[off + 5])
  {
    hide ProtectedControl;
    if |sd| >= 20 {
      ControlByBytes(sd[2..4]);
      Uint32ByBytes(sd[16..20]);
      hide Uint16LE, Uint32LE;
      var off := DaclOffset(sd);
      if off + 8 <= |sd| {
        Uint16ByBytes(sd[off + 2..off + 4]);
        Uint16ByBytes(sd[off + 4..off + 6]);
        if HeaderOk(sd) {
          assert AclOf(sd)[4..6] == sd[off + 4..off + 6];
        }
      }
    }
  }

  lemma AceByBytes(b: seq<byte>, a: Ace)
    ensures DecodeAce(b) == Some(a) <==> AceBytes(b, a)
  {
    if DecodeAce(b) == Some(a) {
      DecodedAceBytes(b, a);
    }
    if AceBytes(b, a) {
      AceBytesDecode(b, a);
    }
  }

  lemma DecodedAceBytes(b: seq<byte>, a: Ace)
    requires DecodeAce(b) == Some(a)
    ensures AceBytes(b, a)
  {
    hide Uint16LE, Uint32LE, DecodeSid, SidBytes, Word, Quad;
    Uint16ByBytes(b[2..4]);
    Uint32ByBytes(b[4..8]);
    SidByBytes(b[8..AceSize(a)], a.sid);
    SidBytesLonger(b[8..], AceSize(a) - 8, a.sid);
    assert b[8..][..AceSize(a) - 8] == b[8..AceSize(a)];
  }

  lemma AceBytesDecode(b: seq<byte>, a: Ace)
    requires AceBytes(b, a)
    ensures DecodeAce(b) == Some(a)
  {
    hide Uint16LE, Uint32LE, DecodeSid, SidBytes, Word, Quad;
    var size := AceSize(a);
    Uint16ByBytes(b[2..4]);
    Uint32ByBytes(b[4..8]);
    SidBytesLonger(b[8..], size - 8, a.sid);
    assert b[8..][..size - 8] == b[8..size];
    SidByBytes(b[8..size], a.sid);
    MultipleOfFour(4 + |a.sid.subs|);
    assert size == 4 * (4 + |a.sid.subs|);
  }

  lemma MultipleOfFour(k: nat)
    ensures 4 * k % 4 == 0
  {
  }

  /** Whether an identifier stands at the start depends on the bytes it takes only. */
  lemma SidBytesLonger(b: seq<byte>, n: nat, sid: Sid)
    requires 8 + 4 * |sid.subs| <= n <= |b|
    ensures SidBytes(b[..n], sid) <==> SidBytes(b, sid)
  {
    hide Weights48, Quad;
    var c := b[..n];
    assert forall i :: 0 <= i < |sid.subs| ==>
      c[8 + 4 * i] == b[8 + 4 * i] && c[9 + 4 * i] == b[9 + 4 * i] && c[10 + 4 * i] == b[10 + 4 * i] && c[11 + 4 * i] == b[11 + 4 * i];
  }

  lemma {:induction false} AcesByBytes(b: seq<byte>, aces: seq<Ace>)
    ensures DecodeAces(b, |aces|) == Some(aces) <==> AcesBytes(b, aces)
  {
    hide DecodeAce, AceBytes;
    if aces != [] {
      AceByBytes(b, aces[0]);
      if DecodeAce(b) == Some(aces[0]) {
        AcesByBytes(b[AceSize(aces[0])..], aces[1..]);
        assert aces == [aces[0]] + aces[1..];
      }
    }
  }

  /** The parser finds the list `aces` exactly in the byte strings that hold it by the layout above. */
  lemma DaclByBytes(sd: seq<byte>, aces: seq<Ace>)
    ensures Dacl(sd) == Some(aces) <==> DescriptorBytes(sd, aces)
  {
    HeaderByBytes(sd);
    hide HeaderOk, HeaderBytes, DecodeAces, AcesBytes;
    if HeaderOk(sd) {
      AcesByBytes(AclOf(sd)[ACL_HEADER_SIZE..], aces);
      if Dacl(sd) == Some(aces) {
        DecodedCount(AclOf(sd)[ACL_HEADER_SIZE..], Uint16LE(AclOf(sd)[4..6]));
      }
    }
  }

  lemma ResultByBytes(sd: seq<byte>)
    ensures Dacl(sd).Some? <==> exists aces :: DescriptorBytes(sd, aces)
    ensures forall aces :: DescriptorBytes(sd, aces) ==> Dacl(sd) == Some(aces)
  {
    hide DescriptorBytes;
    forall aces
      ensures Dacl(sd) == Some(aces) <==> DescriptorBytes(sd, aces)
    {
      DaclByBytes(sd, aces);
    }
  }

  lemma {:induction false} DecodedCount(b: seq<byte>, n: nat)
    ensures DecodeAces(b, n).Some? ==> |DecodeAces(b, n).value| == n
  {
    hide DecodeAce;
    if n > 0 && DecodeAce(b).Some? {
      DecodedCount(b[AceSize(DecodeAce(b).value)..], n - 1);
    }
  }

  /** parseSelfRelativeDACL. None stands for an error wrapping errDescriptorUnrecognized. */
  method ParseSelfRelativeDACL(sd: seq<byte>) returns (r: Option<seq<ParsedAce>>)
    ensures r == PrintedResult(Dacl(sd))
    ensures r.Some? <==> exists aces :: DescriptorBytes(sd, aces)
    ensures forall aces :: DescriptorBytes(sd, aces) ==> r == Some(PrintedAll(aces))
  {
    ResultByBytes(sd);
    hide DescriptorBytes, Uint16LE, Uint32LE, HasControl, DecodeAces;
    if |sd| < SD_HEADER_SIZE {
      return None;
    }
    if sd[0] != 1 {
      return None;
    }
    var control := Uint16LE(sd[2..4]);
    if !HasControl(control, SE_SELF_RELATIVE) {
      return None;
    }
    if !HasControl(control, SE_DACL_PRESENT) {
      return None;
    }
    if !HasControl(control, SE_DACL_PROTECTED) {
      return None;
    }
    var daclOffset := Uint32LE(sd[16..20]);
    if daclOffset == 0 {
      return None;
    }
    if daclOffset < SD_HEADER_SIZE || daclOffset + ACL_HEADER_SIZE > |sd| {
      return None;
    }
    var acl := sd[daclOffset..];
    var rev := acl[0];
    if rev != ACL_REVISION && rev != ACL_REVISION_DS {
      return None;
    }
    assert acl[2..4] == sd[daclOffset + 2..daclOffset + 4];
    var aclSize := Uint16LE(acl[2..4]);
    var aceCount := Uint16LE(acl[4..6]);
    if aclSize < ACL_HEADER_SIZE || aclSize > |acl| {
      return None;
    }
    AclCut(sd, daclOffset, aclSize);
    acl := acl[..aclSize];

    r := ParseAces(acl, aceCount);
  }

  lemma AclCut(sd: seq<byte>, off: nat, size: nat)
    requires HeaderOk(sd) && off == Uint32LE(sd[16..20]) && size == Uint16LE(sd[off + 2..off + 4])
    ensures sd[off..][..size] == AclOf(sd)
    ensures sd[off..][4..6] == AclOf(sd)[4..6]
  {
    hide Uint16LE, Uint32LE, ProtectedControl;
  }

  /** One turn of the ACE loop of parseSelfRelativeDACL: the ACE at `off` and its size. */
  method ParseAce(acl: seq<byte>, off: nat) returns (r: Option<(ParsedAce, nat)>)
    requires off <= |acl|
    ensures r == match DecodeAce(acl[off..])
                 case None => None
                 case Some(a) => Some((Printed(a), AceSize(a)))
  {
    if off + ACE_FIXED_SIZE > |acl| {
      return None;
    }
    var aceType := acl[off];
    var aceFlags := acl[off + 1];
    assert acl[off..][2..4] == acl[off + 2..off + 4];
    var aceSize := Uint16LE(acl[off + 2..off + 4]);
    if aceSize < ACE_FIXED_SIZE || aceSize % 4 != 0 || off + aceSize > |acl| {
      return None;
    }
    if aceType != ACE_TYPE_ACCESS_ALLOWED {
      return None;
    }
    assert acl[off..][4..8] == acl[off + 4..off + 8];
    var mask := Uint32LE(acl[off + 4..off + 8]);
    assert acl[off..][ACE_FIXED_SIZE..aceSize] == acl[off + ACE_FIXED_SIZE..off + aceSize];
    var sid := ParseSID(acl[off + ACE_FIXED_SIZE..off + aceSize]);
    if sid.None? {
      return None;
    }
    var (text, sidLen) := sid.value;
    if ACE_FIXED_SIZE + sidLen != aceSize {
      return None;
    }
    return Some((ParsedAce(aceType, aceFlags, mask, text), aceSize));
  }

  /** The ACE loop of parseSelfRelativeDACL, over an ACL already cut to its size. */
  method ParseAces(acl: seq<byte>, aceCount: nat) returns (r: Option<seq<ParsedAce>>)
    requires |acl| >= ACL_HEADER_SIZE
    ensures r == PrintedResult(DecodeAces(acl[ACL_HEADER_SIZE..], aceCount))
  {
    hide DecodeAce;
    var aces: seq<ParsedAce> := [];
    ghost var read: seq<Ace> := [];
    ghost var all := DecodeAces(acl[ACL_HEADER_SIZE..], aceCount);
    var off := ACL_HEADER_SIZE;
    PrependNothing(all);
    for i := 0 to aceCount
      invariant ACL_HEADER_SIZE + 16 * i <= off <= |acl|
      invariant aces == PrintedAll(read)
      invariant all == Prepend(read, DecodeAces(acl[off..], aceCount - i))
    {
      DecodeAcesStep(read, acl, off, aceCount - i);
      var ace := ParseAce(acl, off);
      if ace.None? {
        return None;
      }
      ghost var a := DecodeAce(acl[off..]).value;
      assert all == Prepend(read + [a], DecodeAces(acl[off + AceSize(a)..], aceCount - (i + 1)));
      PrintedSnoc(read, a);
      read := read + [a];
      aces := aces + [ace.value.0];
      off := off + ace.value.1;
    }
    AllRead(read, acl[off..]);
    return Some(aces);
  }

  lemma PrintedSnoc(aces: seq<Ace>, a: Ace)
    ensures PrintedAll(aces + [a]) == PrintedAll(aces) + [Printed(a)]
  {
  }

  lemma PrependNothing(rest: Option<seq<Ace>>)
    ensures Prepend([], rest) == rest
  {
    if rest.Some? {
      assert [] + rest.value == rest.value;
    }
  }

  lemma AllRead(read: seq<Ace>, b: seq<byte>)
    ensures Prepend(read, DecodeAces(b, 0)) == Some(read)
  {
    assert read + [] == read;
  }

  lemma DecodeAcesStep(read: seq<Ace>, acl: seq<byte>, off: nat, n: nat)
    requires n > 0 && off <= |acl|
    ensures Prepend(read, DecodeAces(acl[off..], n)) ==
            match DecodeAce(acl[off..])
            case None => None
            case Some(a) => Prepend(read + [a], DecodeAces(acl[off + AceSize(a)..], n - 1))
  {
    match DecodeAce(acl[off..])
    case None =>
    case Some(a) =>
      assert acl[off..][AceSize(a)..] == acl[off + AceSize(a)..];
      PrependStep(read, a, DecodeAces(acl[off + AceSize(a)..], n - 1));
  }

  function Prepend(front: seq<Ace>, rest: Option<seq<Ace>>): Option<seq<Ace>> {
    match rest
    case None => None
    case Some(back) => Some(front + back)
  }

  lemma PrependStep(front: seq<Ace>, a: Ace, rest: Option<seq<Ace>>)
    ensures Prepend(front, Prepend([a], rest)) == Prepend(front + [a], rest)
  {
    if rest.Some? {
      assert front + ([a] + rest.value) == (front + [a]) + rest.value;
    }
  }
}
