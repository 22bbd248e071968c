/** Policies, service-SID derivation and the descriptors that policies request. */
module Policies {
  import opened Wrappers
  import opened Bytes
  import opened Sids
  import opened Descriptor
  import opened ServiceSids
  import opened Classifier
  import opened DescriptorBuilder
  import Decimal

  // ----- service SID derivation; SHA-1 is a parameter -----

  type Digest = d: seq<byte> | |d| == 20 witness seq(20, _ => 0)
  type Sha1 = seq<byte> -> Digest

  const MAX_SERVICE_NAME_LEN := 256

  predicate IsLower(c: char) {
    'a' <= c <= 'z'
  }

  predicate AcceptedChar(c: char) {
    IsLower(c) || 'A' <= c <= 'Z' || '0' <= c <= '9' || c == '_' || c == '.' || c == '-'
  }

  function UpperByte(c: char): byte
    requires AcceptedChar(c)
  {
    if IsLower(c) then c as int - ('a' as int - 'A' as int) else c as int
  }

  predicate AllAccepted(name: string) {
    forall i :: 0 <= i < |name| ==> AcceptedChar(name[i])
  }

  predicate AcceptedName(name: string) {
    1 <= |name| <= MAX_SERVICE_NAME_LEN && AllAccepted(name)
  }

  /** The upper-cased name in UTF-16LE. */
  function UpperUtf16(name: string): seq<byte>
    requires AllAccepted(name)
  {
    if name == "" then [] else UpperUtf16(name[..|name| - 1]) + [UpperByte(name[|name| - 1]), 0]
  }

  /** A digest read as five little-endian 32-bit numbers. */
  function Words(d: Digest): (v: seq<nat>)
    ensures FiveUint32(v)
  {
    seq(5, i requires 0 <= i < 5 => Uint32LE(d[4 * i..4 * i + 4]))
  }

  function ServiceSidOf(sha1: Sha1, name: string): Option<string> {
    if AcceptedName(name) then Some(ServiceSidText(Words(sha1(UpperUtf16(name))))) else None
  }

  // ----- the derivation by characters and bytes -----

  /** One to 256 characters, all of them ASCII letters, digits, underscores, dots or dashes. */
  predicate PlainName(name: string) {
    && 1 <= |name| <= 256
    && forall i :: 0 <= i < |name| ==>
      'A' <= name[i] <= 'Z' || 'a' <= name[i] <= 'z' || '0' <= name[i] <= '9' || name[i] in {'_', '.', '-'}
  }

  /** `u` holds each character's code, in upper case, followed by a zero byte. */
  predicate HashedBytes(name: string, u: seq<byte>) {
    && |u| == 2 * |name|
    && forall i :: 0 <= i < |name| ==>
      && u[2 * i] == (if 'a' <= name[i] <= 'z' then name[i] as int - 32 else name[i] as int)
      && u[2 * i + 1] == 0
  }

  /** A digest as an identifier: five numbers of four bytes each, the least significant first. */
  function DigestText(d: Digest): string {
    WrittenOut(Quad(d[0], d[1], d[2], d[3]), Quad(d[4], d[5], d[6], d[7]), Quad(d[8], d[9], d[10], d[11]),
               Quad(d[12], d[13], d[14], d[15]), Quad(d[16], d[17], d[18], d[19]))
  }

  ghost predicate DerivedFrom(sha1: Sha1, name: string, text: string) {
    exists u :: HashedBytes(name, u) && text == DigestText(sha1(u))
  }

  lemma {:induction false} HashedIsUpperUtf16(name: string)
    requires AllAccepted(name)
    ensures HashedBytes(name, UpperUtf16(name))
  {
    if name != "" {
      HashedIsUpperUtf16(name[..|name| - 1]);
    }
  }

  lemma DigestWords(d: Digest)
    ensures ServiceSidText(Words(d)) == DigestText(d)
  {
    hide WrittenOut, Words, ServiceSidText;
    var v := Words(d);
    WordAt(d, 0);
    WordAt(d, 1);
    WordAt(d, 2);
    WordAt(d, 3);
    WordAt(d, 4);
    assert v == [v[0], v[1], v[2], v[3], v[4]];
    TextWrittenOut(v[0], v[1], v[2], v[3], v[4]);
  }

  lemma WordAt(d: Digest, i: nat)
    requires i < 5
    ensures Words(d)[i] == Quad(d[4 * i], d[4 * i + 1], d[4 * i + 2], d[4 * i + 3])
  {
    hide Uint32LE, Quad;
    Uint32ByBytes(d[4 * i..4 * i + 4]);
  }

  /** Which names are accepted, which bytes are hashed for them, and the text made of the digest. */
  lemma DerivationByBytes(sha1: Sha1, name: string)
    ensures ServiceSidOf(sha1, name).Some? <==> PlainName(name)
    ensures ServiceSidOf(sha1, name).Some? ==> DerivedFrom(sha1, name, ServiceSidOf(sha1, name).value)
  {
    assert AcceptedName(name) <==> PlainName(name);
    if AcceptedName(name) {
      HashedIsUpperUtf16(name);
      hide UpperUtf16, Words, ServiceSidText, DigestText;
      DigestWords(sha1(UpperUtf16(name)));
    }
  }

  /** At most one text is derived from a name. */
  lemma DerivedFromOne(sha1: Sha1, name: string, t: string, t': string)
    requires DerivedFrom(sha1, name, t) && DerivedFrom(sha1, name, t')
    ensures t == t'
  {
    hide DigestText;
    var u :| HashedBytes(name, u) && t == DigestText(sha1(u));
    var u' :| HashedBytes(name, u') && t' == DigestText(sha1(u'));
    forall k | 0 <= k < |u|
      ensures u[k] == u'[k]
    {
      assert k == 2 * (k / 2) || k == 2 * (k / 2) + 1;
    }
    assert u == u';
  }

  /** ServiceSID. */
  method DeriveServiceSID(sha1: Sha1, serviceName: string) returns (r: Option<string>)
    ensures r == ServiceSidOf(sha1, serviceName)
    ensures r.Some? <==> PlainName(serviceName)
    ensures r.Some? ==> DerivedFrom(sha1, serviceName, r.value)
  {
    DerivationByBytes(sha1, serviceName);
    hide DerivedFrom, PlainName;
    hide UpperUtf16, RenderSubs;
    if serviceName == "" || |serviceName| > MAX_SERVICE_NAME_LEN {
      return None;
    }
    var name := EncodeName(serviceName);
    if name.None? {
      return None;
    }
    var sum := sha1(name.value);
    var sb := RenderWords(sum);
    return Some(sb);
  }

  /** The first loop of ServiceSID: upper-case and encode, or stop at the first unsupported character. */
  method EncodeName(serviceName: string) returns (r: Option<seq<byte>>)
    ensures r == if AllAccepted(serviceName) then Some(UpperUtf16(serviceName)) else None
  {
    var b: seq<byte> := [];
    for i := 0 to |serviceName|
      invariant AllAccepted(serviceName[..i])
      invariant b == UpperUtf16(serviceName[..i])
    {
      var c := serviceName[i];
      var x: byte;
      if 'a' <= c <= 'z' {
        x := c as int - ('a' as int - 'A' as int);
      } else if 'A' <= c <= 'Z' || '0' <= c <= '9' || c == '_' || c == '.' || c == '-' {
        x := c as int;
      } else {
        return None;
      }
      assert serviceName[..i + 1][..i] == serviceName[..i];
      b := b + [x, 0];
    }
    assert serviceName[..|serviceName|] == serviceName;
    return Some(b);
  }

  /** The second loop of ServiceSID: the digest's five words in decimal. */
  method RenderWords(sum: Digest) returns (sb: string)
    ensures sb == ServiceSidText(Words(sum))
  {
    hide Decimal.Render, Uint32LE;
    sb := "S-1-5-80";
    for i := 0 to 5
      invariant sb == "S-1-5-80" + RenderSubs(Words(sum)[..i])
    {
      assert Words(sum)[..i + 1][..i] == Words(sum)[..i];
      sb := sb + "-";
      sb := sb + Decimal.Render(Uint32LE(sum[4 * i..4 * i + 4]));
    }
    assert Words(sum)[..5] == Words(sum);
    ServicePrefix(Words(sum));
  }

  /** Every derived identifier is recognised as a service SID. */
  lemma DerivedSidRecognised(sha1: Sha1, name: string)
    requires ServiceSidOf(sha1, name).Some?
    ensures IsServiceSid(ServiceSidOf(sha1, name).value)
  {
    assert FiveUint32(Words(sha1(UpperUtf16(name))));
  }

  /** The upper-case form of a character, for ASCII letters only. */
  function Folded(c: char): char {
    if IsLower(c) then (c as int - 32) as char else c
  }

  predicate EqualFold(a: string, b: string) {
    |a| == |b| && forall i :: 0 <= i < |a| ==> Folded(a[i]) == Folded(b[i])
  }

  lemma {:induction false} FoldedBytes(a: string, b: string)
    requires EqualFold(a, b) && AllAccepted(a) && AllAccepted(b)
    ensures UpperUtf16(a) == UpperUtf16(b)
  {
    if a != "" {
      FoldedBytes(a[..|a| - 1], b[..|b| - 1]);
      assert Folded(a[|a| - 1]) == Folded(b[|b| - 1]);
    }
  }

  /** Names that differ only in ASCII case are accepted alike and have the same service SID. */
  lemma DerivationIgnoresCase(sha1: Sha1, a: string, b: string)
    requires EqualFold(a, b)
    ensures ServiceSidOf(sha1, a) == ServiceSidOf(sha1, b)
  {
    assert forall i :: 0 <= i < |a| ==> Folded(a[i]) == Folded(b[i]);
    assert AllAccepted(a) <==> AllAccepted(b);
    if AllAccepted(a) {
      FoldedBytes(a, b);
    }
  }

  // ----- policies -----

  const KEY_SECURITY_SDDL := "D:P(A;;GA;;;SY)(A;;GA;;;BA)(A;;GRGX;;;LS)"
  const PRIVILEGED_ONLY_SDDL := "D:P(A;;GA;;;SY)(A;;GA;;;BA)"
  const SERVICE_SDDL_PREFIX := "D:P(A;;GA;;;SY)(A;;GA;;;BA)(A;;GRGX;;;"

  /** Policy is an integer type in the source; only two of its values are defined. */
  datatype Policy = Policy(code: int)

  const POLICY_SERVICE_SIGNER := Policy(1)
  const POLICY_PRIVILEGED_ONLY := Policy(2)

  datatype ServicePolicy = ServicePolicy(name: string, sid: string)

  /** The engine's form of a Policy or a ServicePolicy; the label only appears in messages and is dropped. */
  datatype PolicySpec = PolicySpec(state: DaclState, serviceSID: string, sddl: string, privilegedOpen: bool)

  predicate PolicyValid(p: Policy) {
    p == POLICY_SERVICE_SIGNER || p == POLICY_PRIVILEGED_ONLY
  }

  function PolicyState(p: Policy): DaclState {
    if p == POLICY_SERVICE_SIGNER then ServiceSigner
    else if p == POLICY_PRIVILEGED_ONLY then PrivilegedOnly
    else Unknown
  }

  function PolicySddl(p: Policy): string {
    if p == POLICY_PRIVILEGED_ONLY then PRIVILEGED_ONLY_SDDL else KEY_SECURITY_SDDL
  }

  function SpecOfPolicy(p: Policy): PolicySpec {
    PolicySpec(PolicyState(p), "", PolicySddl(p), p == POLICY_PRIVILEGED_ONLY)
  }

  function NewServicePolicy(sha1: Sha1, serviceName: string): Option<ServicePolicy> {
    match ServiceSidOf(sha1, serviceName)
    case None => None
    case Some(sid) => Some(ServicePolicy(serviceName, sid))
  }

  predicate ServicePolicyValid(sha1: Sha1, p: ServicePolicy) {
    ServiceSidOf(sha1, p.name) == Some(p.sid)
  }

  function ServiceSddl(sid: string): string {
    SERVICE_SDDL_PREFIX + sid + ")"
  }

  function SpecOfServicePolicy(p: ServicePolicy): PolicySpec {
    PolicySpec(ServiceSID, p.sid, ServiceSddl(p.sid), false)
  }

  /** The specs of the two policies and of a service policy, written out; the other codes are invalid. */
  lemma SpecsByValue(p: Policy, q: ServicePolicy)
    ensures PolicyValid(p) <==> p.code == 1 || p.code == 2
    ensures p.code == 1 ==>
      SpecOfPolicy(p) == PolicySpec(ServiceSigner, "", "D:P(A;;GA;;;SY)(A;;GA;;;BA)(A;;GRGX;;;LS)", false)
    ensures p.code == 2 ==> SpecOfPolicy(p) == PolicySpec(PrivilegedOnly, "", "D:P(A;;GA;;;SY)(A;;GA;;;BA)", true)
    ensures SpecOfServicePolicy(q)
         == PolicySpec(ServiceSID, q.sid, "D:P(A;;GA;;;SY)(A;;GA;;;BA)(A;;GRGX;;;" + q.sid + ")", false)
  {
  }

  /** validate accepts exactly the values that NewServicePolicy returns. */
  lemma ValidateAcceptsExactlyNew(sha1: Sha1, p: ServicePolicy)
    ensures ServicePolicyValid(sha1, p) <==> exists name :: NewServicePolicy(sha1, name) == Some(p)
  {
    if ServicePolicyValid(sha1, p) {
      assert NewServicePolicy(sha1, p.name) == Some(p);
    }
  }

  // ----- what an SDDL string requests -----

  /** The ACEs that an SDDL string of this package names: GA for SY and BA, and GR and GX for the third trustee. */
  function RequestedAces(sddl: string): Option<seq<ParsedAce>> {
    var admins := [Allow(GENERIC_ALL, SID_SYSTEM), Allow(GENERIC_ALL, SID_ADMINISTRATORS)];
    if sddl == KEY_SECURITY_SDDL then Some(admins + [Allow(MASK_LOCAL_SERVICE_REQUESTED, SID_LOCAL_SERVICE)])
    else if sddl == PRIVILEGED_ONLY_SDDL then Some(admins)
    else if SERVICE_SDDL_PREFIX <= sddl && |sddl| > |SERVICE_SDDL_PREFIX| && sddl[|sddl| - 1] == ')' then
      Some(admins + [Allow(MASK_SERVICE_REQUESTED, sddl[|SERVICE_SDDL_PREFIX|..|sddl| - 1])])
    else None
  }

  /** The descriptor the platform builds from an SDDL string of this package. */
  function DescriptorFor(sddl: string): Option<seq<byte>> {
    match RequestedAces(sddl)
    case None => None
    case Some(aces) => if AllSidTexts(aces) then Some(Built(PROTECTED_CONTROL, Structured(aces))) else None
  }

  /** The specs that valid policies give rise to. */
  ghost predicate ValidSpec(s: PolicySpec) {
    match s.state
    case PrivilegedOnly => s == SpecOfPolicy(POLICY_PRIVILEGED_ONLY)
    case ServiceSigner => s == SpecOfPolicy(POLICY_SERVICE_SIGNER)
    case ServiceSID => IsServiceSid(s.serviceSID) && s == SpecOfServicePolicy(ServicePolicy("", s.serviceSID))
    case Unknown => false
  }

  lemma PolicySpecsAreValid(sha1: Sha1, p: Policy, q: ServicePolicy)
    ensures PolicyValid(p) ==> ValidSpec(SpecOfPolicy(p))
    ensures ServicePolicyValid(sha1, q) ==> ValidSpec(SpecOfServicePolicy(q))
  {
    if ServicePolicyValid(sha1, q) {
      DerivedSidRecognised(sha1, q.name);
    }
  }

  function WellKnownSid(subs: seq<nat>): Sid {
    Sid(5, subs)
  }

  lemma WellKnownTexts()
    ensures RenderSid(WellKnownSid([18])) == SID_SYSTEM
    ensures RenderSid(WellKnownSid([32, 544])) == SID_ADMINISTRATORS
    ensures RenderSid(WellKnownSid([19])) == SID_LOCAL_SERVICE
  {
    TwoDigits(18);
    TwoDigits(19);
    TwoDigits(32);
    TwoDigits(54);
    assert Decimal.Render(5) == "5";
    assert Decimal.Render(544) == Decimal.Render(54) + "4";
    hide Decimal.Render;
    RenderOne(18);
    RenderOne(19);
    RenderOne(32);
    assert RenderSubs([32, 544]) == "-32-544" by {
      assert [32, 544][..1] == [32];
    }
  }

  lemma TwoDigits(n: nat)
    requires 10 <= n < 100
    ensures Decimal.Render(n) == [Decimal.DigitChar(n / 10), Decimal.DigitChar(n % 10)]
  {
    assert Decimal.Render(n / 10) == [Decimal.DigitChar(n / 10)];
  }

  lemma RenderOne(n: nat)
    ensures RenderSubs([n]) == "-" + Decimal.Render(n)
  {
    assert [n][..0] == [];
    assert RenderSubs([]) == "";
  }

  /** The admin ACEs and possibly a third one, in structured form. */
  function AdminsAnd(third: seq<Ace>): seq<Ace> {
    [Ace(0, 0, GENERIC_ALL, WellKnownSid([18])), Ace(0, 0, GENERIC_ALL, WellKnownSid([32, 544]))] + third
  }

  lemma PrintedStructured(aces: seq<Ace>)
    requires ValidAces(aces)
    ensures AllSidTexts(PrintedAll(aces)) && Structured(PrintedAll(aces)) == aces
  {
    hide SidOfText, RenderSid;
    forall i | 0 <= i < |aces|
      ensures SidOfText(PrintedAll(aces)[i].sid) == Some(aces[i].sid)
    {
      SidOfRenderedText(aces[i].sid);
    }
  }

  /** Building a short list of valid ACEs and parsing it back. */
  lemma BuiltParses(third: seq<Ace>)
    requires |third| <= 1 && ValidAces(third)
    ensures ValidAces(AdminsAnd(third))
    ensures Dacl(Built(PROTECTED_CONTROL, AdminsAnd(third))) == Some(AdminsAnd(third))
  {
    var aces := AdminsAnd(third);
    EncodedShort(third);
    DescriptorRoundTrip(PROTECTED_CONTROL, aces);
  }

  lemma EncodedShort(third: seq<Ace>)
    requires |third| <= 1 && ValidAces(third)
    ensures |EncodeAces(AdminsAnd(third))| <= 300
  {
    hide EncodeAce;
    var aces := AdminsAnd(third);
    assert aces[1..][1..] == third;
    assert |EncodeAces(third)| <= 76 by {
      if |third| == 1 {
        assert third[1..] == [];
        assert EncodeAces(third) == EncodeAce(third[0]) + EncodeAces([]);
      }
    }
    assert EncodeAces(aces) == EncodeAce(aces[0]) + (EncodeAce(aces[1]) + EncodeAces(third));
  }

  /** A descriptor requested by a valid spec parses to the requested ACEs and classifies as the spec's state and SID. */
  lemma RequestedDescriptorClassifies(s: PolicySpec)
    requires ValidSpec(s)
    ensures DescriptorFor(s.sddl).Some?
    ensures Classify(DescriptorFor(s.sddl).value) == Classified(s.state, s.serviceSID)
  {
    hide RequestedAces, AllSidTexts, Structured, Built, Dacl, AdminsAnd, ClassifyAces, Admissible;
    hide PrivilegedOnlyForm, ServiceSignerForm, ServiceSidForm, ThirdRequested;
    var third := ThirdAce(s);
    var aces := AdminsAnd(third);
    RequestedIsPrinted(s, third);
    BuiltParses(third);
    PrintedStructured(aces);
    ClassifyExact(PrintedAll(aces));
    RequestedForm(s, third);
  }

  /** The ACE a valid spec requests besides the administrative ones, if any. */
  function ThirdRequested(s: PolicySpec): seq<ParsedAce> {
    if s.state == PrivilegedOnly then []
    else if s.state == ServiceSigner then [Allow(MASK_LOCAL_SERVICE_REQUESTED, SID_LOCAL_SERVICE)]
    else [Allow(MASK_SERVICE_REQUESTED, s.serviceSID)]
  }

  lemma ThirdAce(s: PolicySpec) returns (third: seq<Ace>)
    requires ValidSpec(s)
    ensures |third| <= 1 && ValidAces(third)
    ensures PrintedAll(third) == ThirdRequested(s)
  {
    WellKnownTexts();
    hide RenderSid;
    if s.state == PrivilegedOnly {
      third := [];
    } else if s.state == ServiceSigner {
      third := [Ace(0, 0, MASK_LOCAL_SERVICE_REQUESTED, WellKnownSid([19]))];
    } else {
      var v :| FiveUint32(v) && s.serviceSID == ServiceSidText(v);
      third := [Ace(0, 0, MASK_SERVICE_REQUESTED, Sid(5, [80] + v))];
    }
  }

  lemma RequestedIsPrinted(s: PolicySpec, third: seq<Ace>)
    requires ValidSpec(s) && |third| <= 1
    requires PrintedAll(third) == ThirdRequested(s)
    ensures RequestedAces(s.sddl) == Some(PrintedAll(AdminsAnd(third)))
  {
    WellKnownTexts();
    hide RenderSid, SID_SYSTEM, SID_ADMINISTRATORS, SID_LOCAL_SERVICE;
    var admins := [Allow(GENERIC_ALL, SID_SYSTEM), Allow(GENERIC_ALL, SID_ADMINISTRATORS)];
    assert PrintedAll(AdminsAnd(third)) == admins + PrintedAll(third);
    assert admins + [] == admins;
    if s.state == ServiceSID {
      ServiceSddlDistinct(s.serviceSID);
      assert s.sddl[|SERVICE_SDDL_PREFIX|..|s.sddl| - 1] == s.serviceSID;
    } else {
      assert |KEY_SECURITY_SDDL| != |PRIVILEGED_ONLY_SDDL|;
    }
  }

  lemma ServiceSddlDistinct(sid: string)
    requires IsServiceSid(sid)
    ensures ServiceSddl(sid) != KEY_SECURITY_SDDL && ServiceSddl(sid) != PRIVILEGED_ONLY_SDDL
    ensures SERVICE_SDDL_PREFIX <= ServiceSddl(sid)
  {
    ServiceSidParts(sid);
    assert |sid| >= |SERVICE_PREFIX| == 9;
    assert |SERVICE_SDDL_PREFIX| + 3 == |KEY_SECURITY_SDDL|;
    assert |PRIVILEGED_ONLY_SDDL| < |SERVICE_SDDL_PREFIX|;
  }

  lemma RequestedForm(s: PolicySpec, third: seq<Ace>)
    requires ValidSpec(s) && |third| <= 1
    requires PrintedAll(third) == ThirdRequested(s)
    ensures s.state == PrivilegedOnly ==> PrivilegedOnlyForm(PrintedAll(AdminsAnd(third)))
    ensures s.state == ServiceSigner ==> ServiceSignerForm(PrintedAll(AdminsAnd(third)))
    ensures s.state == ServiceSID ==> ServiceSidForm(PrintedAll(AdminsAnd(third)), s.serviceSID)
  {
    WellKnownTexts();
    hide RenderSid, SID_SYSTEM, SID_ADMINISTRATORS, SID_LOCAL_SERVICE;
    var aces := PrintedAll(AdminsAnd(third));
    var sy, ba := Allow(GENERIC_ALL, SID_SYSTEM), Allow(GENERIC_ALL, SID_ADMINISTRATORS);
    assert AdminMask(GENERIC_ALL);
    assert aces == [sy, ba] + PrintedAll(third);
    if |third| == 0 {
      assert multiset(aces) == multiset{sy, ba};
    } else {
      var t := PrintedAll(third)[0];
      assert aces == [sy, ba, t];
      assert multiset(aces) == multiset{sy, ba, t};
    }
  }
}
