/** The exact-match allow-list over parsed DACLs. */
module Classifier {
  import opened Wrappers
  import opened Bytes
  import opened Sids
  import opened Descriptor
  import opened ServiceSids

  const GENERIC_ALL: uint32 := 0x1000_0000
  const GENERIC_READ: uint32 := 0x8000_0000
  const GENERIC_WRITE: uint32 := 0x4000_0000
  const GENERIC_EXECUTE: uint32 := 0x2000_0000

  const SID_SYSTEM := "S-1-5-18"
  const SID_ADMINISTRATORS := "S-1-5-32-544"
  const SID_LOCAL_SERVICE := "S-1-5-19"

  const MASK_ADMINISTRATIVE: uint32 := GENERIC_ALL
  const MASK_ADMINISTRATIVE_KSP: uint32 := 0xD01F_01FF
  const MASK_LOCAL_SERVICE_REQUESTED: uint32 := 0xA000_0000 // GENERIC_READ | GENERIC_EXECUTE
  const MASK_LOCAL_SERVICE_CANONICAL: uint32 := GENERIC_READ
  const MASK_LOCAL_SERVICE_KSP: uint32 := 0x8012_00A9
  const MASK_SERVICE_REQUESTED: uint32 := 0xA000_0000 // GENERIC_READ | GENERIC_EXECUTE
  const MASK_SERVICE_KSP: uint32 := 0x8012_00A9

  datatype DaclState = Unknown | ServiceSigner | PrivilegedOnly | ServiceSID

  /** What the classifier reports; the state is Unknown exactly when it also reports an error. */
  datatype Classification = Classified(state: DaclState, sid: string)

  predicate AdminMask(mask: uint32) {
    mask == MASK_ADMINISTRATIVE || mask == MASK_ADMINISTRATIVE_KSP
  }

  predicate LocalServiceMask(mask: uint32) {
    mask == MASK_LOCAL_SERVICE_REQUESTED || mask == MASK_LOCAL_SERVICE_CANONICAL || mask == MASK_LOCAL_SERVICE_KSP
  }

  predicate ServiceMask(mask: uint32) {
    mask == MASK_SERVICE_REQUESTED || mask == MASK_SERVICE_KSP
  }

  /** An explicit access-allowed ACE: no inheritance flags. */
  function Allow(mask: uint32, sid: string): ParsedAce {
    ParsedAce(ACE_TYPE_ACCESS_ALLOWED, 0, mask, sid)
  }

  // ----- the allow-list, as permutations of fixed ACEs -----

  ghost predicate PrivilegedOnlyForm(aces: seq<ParsedAce>) {
    exists sy, ba :: AdminMask(sy) && AdminMask(ba)
      && multiset(aces) == multiset{Allow(sy, SID_SYSTEM), Allow(ba, SID_ADMINISTRATORS)}
  }

  /** The two administrative ACEs and one more, for `sid` with a mask that `allowed` admits, in any order. */
  ghost predicate ThreeAceForm(aces: seq<ParsedAce>, sid: string, allowed: uint32 -> bool) {
    exists sy, ba, m :: AdminMask(sy) && AdminMask(ba) && allowed(m)
      && multiset(aces) == multiset{Allow(sy, SID_SYSTEM), Allow(ba, SID_ADMINISTRATORS), Allow(m, sid)}
  }

  ghost predicate ServiceSignerForm(aces: seq<ParsedAce>) {
    ThreeAceForm(aces, SID_LOCAL_SERVICE, LocalServiceMask)
  }

  ghost predicate ServiceSidForm(aces: seq<ParsedAce>, sid: string) {
    IsServiceSid(sid) && ThreeAceForm(aces, sid, ServiceMask)
  }

  ghost function ClassifyAces(aces: seq<ParsedAce>): Classification {
    if PrivilegedOnlyForm(aces) then Classified(PrivilegedOnly, "")
    else if ServiceSignerForm(aces) then Classified(ServiceSigner, "")
    else if exists sid :: ServiceSidForm(aces, sid) then
      var sid :| ServiceSidForm(aces, sid);
      Classified(ServiceSID, sid)
    else Classified(Unknown, "")
  }

  /** What classifyDescriptorSID reports for the bytes of a descriptor. */
  ghost function Classify(sd: seq<byte>): Classification {
    match Dacl(sd)
    case None => Classified(Unknown, "")
    case Some(aces) => ClassifyAces(PrintedAll(aces))
  }

  // ----- facts about well-known identifiers -----

  lemma WellKnownSids()
    ensures SID_SYSTEM != SID_ADMINISTRATORS && SID_ADMINISTRATORS != SID_LOCAL_SERVICE && SID_LOCAL_SERVICE != SID_SYSTEM
    ensures !IsServiceSid(SID_SYSTEM) && !IsServiceSid(SID_ADMINISTRATORS) && !IsServiceSid(SID_LOCAL_SERVICE)
    ensures !IsServiceSid("")
  {
    ServiceSidParts(SID_SYSTEM);
    ServiceSidParts(SID_ADMINISTRATORS);
    ServiceSidParts(SID_LOCAL_SERVICE);
    assert SID_SYSTEM[6] != SERVICE_PREFIX[6] && SID_ADMINISTRATORS[6] != SERVICE_PREFIX[6];
    assert SID_LOCAL_SERVICE[6] != SERVICE_PREFIX[6];
    ServiceSidParts("");
    assert |SID_ADMINISTRATORS| != |SID_SYSTEM| == |SID_LOCAL_SERVICE| && SID_SYSTEM[7] != SID_LOCAL_SERVICE[7];
  }

  // ----- one ACE at a time -----

  /** The test the loop makes of a single ACE, leaving duplicates aside. */
  ghost predicate AceAccepted(a: ParsedAce) {
    && a.aceFlags == 0
    && if a.sid == SID_SYSTEM || a.sid == SID_ADMINISTRATORS then AdminMask(a.mask)
       else if a.sid == SID_LOCAL_SERVICE then LocalServiceMask(a.mask)
       else IsServiceSid(a.sid) && ServiceMask(a.mask)
  }

  ghost predicate DistinctSids(aces: seq<ParsedAce>) {
    forall i, j :: 0 <= i < j < |aces| ==> aces[i].sid != aces[j].sid
  }

  ghost predicate AtMostOneService(aces: seq<ParsedAce>) {
    forall i, j :: 0 <= i < j < |aces| ==> !(IsServiceSid(aces[i].sid) && IsServiceSid(aces[j].sid))
  }

  ghost predicate Grants(aces: seq<ParsedAce>, sid: string) {
    exists i :: 0 <= i < |aces| && aces[i].sid == sid
  }

  ghost predicate AllAllow(aces: seq<ParsedAce>) {
    forall i :: 0 <= i < |aces| ==> aces[i].aceType == ACE_TYPE_ACCESS_ALLOWED
  }

  /** The loop's view of the allow-list: every ACE passes, no principal repeats, and the right ones are there. */
  ghost predicate Admissible(aces: seq<ParsedAce>) {
    && AllAllow(aces)
    && (forall i :: 0 <= i < |aces| ==> AceAccepted(aces[i]))
    && DistinctSids(aces)
    && AtMostOneService(aces)
    && Grants(aces, SID_SYSTEM)
    && Grants(aces, SID_ADMINISTRATORS)
    && !(Grants(aces, SID_LOCAL_SERVICE) && exists i :: 0 <= i < |aces| && IsServiceSid(aces[i].sid))
  }

  // ----- permutations -----

  lemma PairPermutations(aces: seq<ParsedAce>, a: ParsedAce, b: ParsedAce)
    requires multiset(aces) == multiset{a, b}
    ensures aces == [a, b] || aces == [b, a]
  {
    assert |aces| == |multiset(aces)| == 2;
    var x, y := aces[0], aces[1];
    assert aces == [x, y];
    assert x in multiset(aces) && y in multiset(aces);
    if x == y {
      assert multiset(aces)[x] == 2;
    }
  }

  lemma TriplePermutations(aces: seq<ParsedAce>, a: ParsedAce, b: ParsedAce, c: ParsedAce)
    returns (i: nat, j: nat, k: nat)
    requires a != b && b != c && a != c
    requires multiset(aces) == multiset{a, b, c}
    ensures |aces| == 3 && i < 3 && j < 3 && k < 3 && i != j && j != k && i != k
    ensures aces[i] == a && aces[j] == b && aces[k] == c
  {
    assert |aces| == |multiset(aces)| == 3;
    var x, y, z := aces[0], aces[1], aces[2];
    assert aces == [x, y, z];
    var m := multiset(aces);
    assert a in m && b in m && c in m;
    i := if x == a then 0 else if y == a then 1 else 2;
    j := if x == b then 0 else if y == b then 1 else 2;
    k := if x == c then 0 else if y == c then 1 else 2;
  }

  /** Three ACEs that are `a`, `b` and `c` in some order. */
  lemma TripleMultiset(aces: seq<ParsedAce>, i: nat, j: nat, k: nat)
    requires |aces| == 3 && i < 3 && j < 3 && k < 3 && i != j && j != k && i != k
    ensures multiset(aces) == multiset{aces[i], aces[j], aces[k]}
  {
    assert aces == [aces[0], aces[1], aces[2]];
  }

  // ----- the loop's test accepts exactly the allow-list -----

  ghost predicate ThreeAces(aces: seq<ParsedAce>, sid: string, allowed: uint32 -> bool) {
    && |aces| == 3
    && forall x :: 0 <= x < 3 ==>
      && aces[x].aceType == ACE_TYPE_ACCESS_ALLOWED && aces[x].aceFlags == 0
      && aces[x].sid in {SID_SYSTEM, SID_ADMINISTRATORS, sid}
      && (aces[x].sid != sid ==> AdminMask(aces[x].mask))
      && (aces[x].sid == sid ==> allowed(aces[x].mask))
  }

  lemma PermutedTriple(aces: seq<ParsedAce>, i: nat, j: nat, k: nat, sid: string, allowed: uint32 -> bool)
    requires |aces| == 3 && i < 3 && j < 3 && k < 3 && i != j && j != k && i != k
    requires aces[i] == Allow(aces[i].mask, SID_SYSTEM) && AdminMask(aces[i].mask)
    requires aces[j] == Allow(aces[j].mask, SID_ADMINISTRATORS) && AdminMask(aces[j].mask)
    requires aces[k] == Allow(aces[k].mask, sid) && allowed(aces[k].mask)
    requires sid != SID_SYSTEM && sid != SID_ADMINISTRATORS
    ensures ThreeAces(aces, sid, allowed) && DistinctSids(aces)
    ensures Grants(aces, SID_SYSTEM) && Grants(aces, SID_ADMINISTRATORS) && Grants(aces, sid)
  {
    WellKnownSids();
    hide SID_SYSTEM, SID_ADMINISTRATORS, SID_LOCAL_SERVICE;
  }

  lemma ThreeAceFacts(aces: seq<ParsedAce>, sid: string, allowed: uint32 -> bool)
    requires ThreeAceForm(aces, sid, allowed)
    requires sid != SID_SYSTEM && sid != SID_ADMINISTRATORS
    ensures ThreeAces(aces, sid, allowed) && DistinctSids(aces) && AllAllow(aces)
    ensures Grants(aces, SID_SYSTEM) && Grants(aces, SID_ADMINISTRATORS) && Grants(aces, sid)
  {
    WellKnownSids();
    hide SID_SYSTEM, SID_ADMINISTRATORS, SID_LOCAL_SERVICE, DistinctSids, Grants;
    var sy, ba, m :| AdminMask(sy) && AdminMask(ba) && allowed(m)
      && multiset(aces) == multiset{Allow(sy, SID_SYSTEM), Allow(ba, SID_ADMINISTRATORS), Allow(m, sid)};
    var i, j, k := TriplePermutations(aces, Allow(sy, SID_SYSTEM), Allow(ba, SID_ADMINISTRATORS), Allow(m, sid));
    PermutedTriple(aces, i, j, k, sid, allowed);
  }

  lemma PrivilegedOnlyFacts(aces: seq<ParsedAce>)
    requires PrivilegedOnlyForm(aces)
    ensures |aces| == 2 && Admissible(aces)
  {
    var sy, ba :| AdminMask(sy) && AdminMask(ba)
      && multiset(aces) == multiset{Allow(sy, SID_SYSTEM), Allow(ba, SID_ADMINISTRATORS)};
    PairPermutations(aces, Allow(sy, SID_SYSTEM), Allow(ba, SID_ADMINISTRATORS));
    WellKnownSids();
    hide SID_SYSTEM, SID_ADMINISTRATORS, SID_LOCAL_SERVICE, IsServiceSid;
    assert aces[0].sid == SID_SYSTEM || aces[1].sid == SID_SYSTEM;
    assert aces[0].sid == SID_ADMINISTRATORS || aces[1].sid == SID_ADMINISTRATORS;
  }

  lemma ServiceSignerFacts(aces: seq<ParsedAce>)
    requires ServiceSignerForm(aces)
    ensures |aces| == 3 && Admissible(aces) && Grants(aces, SID_LOCAL_SERVICE)
  {
    ThreeAceFacts(aces, SID_LOCAL_SERVICE, LocalServiceMask);
    WellKnownSids();
  }

  lemma ServiceSidFacts(aces: seq<ParsedAce>, sid: string)
    requires ServiceSidForm(aces, sid)
    ensures |aces| == 3 && Admissible(aces)
    ensures !Grants(aces, SID_LOCAL_SERVICE) && Grants(aces, sid)
    ensures forall i :: 0 <= i < 3 && IsServiceSid(aces[i].sid) ==> aces[i].sid == sid
  {
    WellKnownSids();
    ThreeAceFacts(aces, sid, ServiceMask);
  }

  ghost function Kind(a: ParsedAce): nat {
    if a.sid == SID_SYSTEM then 0 else if a.sid == SID_ADMINISTRATORS then 1
    else if a.sid == SID_LOCAL_SERVICE then 2 else 3
  }

  lemma KindsAreDistinct(aces: seq<ParsedAce>)
    requires Admissible(aces)
    ensures forall i, j :: 0 <= i < j < |aces| ==> Kind(aces[i]) != Kind(aces[j])
    ensures forall i, j :: 0 <= i < |aces| && 0 <= j < |aces| ==> !(Kind(aces[i]) == 2 && Kind(aces[j]) == 3)
    ensures exists i :: 0 <= i < |aces| && Kind(aces[i]) == 0
    ensures exists i :: 0 <= i < |aces| && Kind(aces[i]) == 1
  {
    var i :| 0 <= i < |aces| && aces[i].sid == SID_SYSTEM;
    assert Kind(aces[i]) == 0;
    var j :| 0 <= j < |aces| && aces[j].sid == SID_ADMINISTRATORS;
    assert Kind(aces[j]) == 1;
    forall p, q | 0 <= p < |aces| && 0 <= q < |aces| && Kind(aces[p]) == 2
      ensures Kind(aces[q]) != 3
    {
      assert Grants(aces, SID_LOCAL_SERVICE);
      assert AceAccepted(aces[q]);
    }
  }

  lemma FourKinds(aces: seq<ParsedAce>)
    requires |aces| > 3
    requires forall i, j :: 0 <= i < j < |aces| ==> Kind(aces[i]) != Kind(aces[j])
    ensures exists p, q :: 0 <= p < |aces| && 0 <= q < |aces| && Kind(aces[p]) == 2 && Kind(aces[q]) == 3
  {
    var k0, k1, k2, k3 := Kind(aces[0]), Kind(aces[1]), Kind(aces[2]), Kind(aces[3]);
    assert k0 != k1 && k0 != k2 && k0 != k3 && k1 != k2 && k1 != k3 && k2 != k3;
    var p: nat, q: nat := if k0 == 2 then 0 else if k1 == 2 then 1 else if k2 == 2 then 2 else 3,
                          if k0 == 3 then 0 else if k1 == 3 then 1 else if k2 == 3 then 2 else 3;
    assert Kind(aces[p]) == 2 && Kind(aces[q]) == 3;
  }

  lemma AdmissibleLength(aces: seq<ParsedAce>)
    requires Admissible(aces)
    ensures |aces| == 2 || |aces| == 3
  {
    KindsAreDistinct(aces);
    if |aces| > 3 {
      FourKinds(aces);
    }
  }

  lemma AdmissiblePair(aces: seq<ParsedAce>)
    requires Admissible(aces) && |aces| == 2
    ensures PrivilegedOnlyForm(aces)
  {
    KindsAreDistinct(aces);
    assert aces == [aces[0], aces[1]];
    var s, a := if Kind(aces[0]) == 0 then 0 else 1, if Kind(aces[0]) == 0 then 1 else 0;
    assert aces[s] == Allow(aces[s].mask, SID_SYSTEM) && aces[a] == Allow(aces[a].mask, SID_ADMINISTRATORS);
    assert multiset(aces) == multiset{Allow(aces[s].mask, SID_SYSTEM), Allow(aces[a].mask, SID_ADMINISTRATORS)};
  }

  lemma AdmissibleTriple(aces: seq<ParsedAce>) returns (s: nat, a: nat, t: nat)
    requires Admissible(aces) && |aces| == 3
    ensures s < 3 && a < 3 && t < 3 && s != a && a != t && s != t
    ensures aces[s] == Allow(aces[s].mask, SID_SYSTEM) && AdminMask(aces[s].mask)
    ensures aces[a] == Allow(aces[a].mask, SID_ADMINISTRATORS) && AdminMask(aces[a].mask)
    ensures aces[t] == Allow(aces[t].mask, aces[t].sid) && Kind(aces[t]) in {2, 3}
  {
    KindsAreDistinct(aces);
    s :| 0 <= s < |aces| && Kind(aces[s]) == 0;
    a :| 0 <= a < |aces| && Kind(aces[a]) == 1;
    t := 3 - s - a;
    assert AceAccepted(aces[s]) && AceAccepted(aces[a]) && AceAccepted(aces[t]);
  }

  lemma AdmissibleSigner(aces: seq<ParsedAce>)
    requires Admissible(aces) && |aces| == 3 && Grants(aces, SID_LOCAL_SERVICE)
    ensures ServiceSignerForm(aces)
  {
    var s, a, t := AdmissibleTriple(aces);
    TripleMultiset(aces, s, a, t);
    assert aces[t].sid == SID_LOCAL_SERVICE;
    assert AceAccepted(aces[t]);
    assert multiset(aces) == multiset{Allow(aces[s].mask, SID_SYSTEM), Allow(aces[a].mask, SID_ADMINISTRATORS),
        Allow(aces[t].mask, SID_LOCAL_SERVICE)};
  }

  lemma AdmissibleService(aces: seq<ParsedAce>, i: nat)
    requires Admissible(aces) && |aces| == 3 && i < 3 && IsServiceSid(aces[i].sid)
    ensures ServiceSidForm(aces, aces[i].sid)
  {
    WellKnownSids();
    var s, a, t := AdmissibleTriple(aces);
    TripleMultiset(aces, s, a, t);
    assert i == t;
    assert AceAccepted(aces[t]);
    assert multiset(aces) == multiset{Allow(aces[s].mask, SID_SYSTEM), Allow(aces[a].mask, SID_ADMINISTRATORS),
        Allow(aces[t].mask, aces[t].sid)};
  }

  /** The three forms exclude each other, and a service-sid list names one service. */
  lemma FormsExclusive(aces: seq<ParsedAce>, sid: string, other: string)
    ensures !(PrivilegedOnlyForm(aces) && ServiceSignerForm(aces))
    ensures !(PrivilegedOnlyForm(aces) && ServiceSidForm(aces, sid))
    ensures !(ServiceSignerForm(aces) && ServiceSidForm(aces, sid))
    ensures ServiceSidForm(aces, sid) && ServiceSidForm(aces, other) ==> sid == other
  {
    if PrivilegedOnlyForm(aces) {
      PrivilegedOnlyFacts(aces);
    }
    if ServiceSignerForm(aces) {
      ServiceSignerFacts(aces);
    }
    if ServiceSidForm(aces, sid) {
      ServiceSidFacts(aces, sid);
    }
    if ServiceSidForm(aces, other) {
      ServiceSidFacts(aces, other);
    }
  }

  /** The classification in closed form: each recognised state holds exactly of the permutations of its ACEs. */
  lemma ClassifyExact(aces: seq<ParsedAce>)
    ensures ClassifyAces(aces).state == PrivilegedOnly <==> PrivilegedOnlyForm(aces)
    ensures ClassifyAces(aces).state == ServiceSigner <==> ServiceSignerForm(aces)
    ensures forall sid :: ClassifyAces(aces) == Classified(ServiceSID, sid) <==> ServiceSidForm(aces, sid)
    ensures ClassifyAces(aces).state != ServiceSID ==> ClassifyAces(aces).sid == ""
    ensures ClassifyAces(aces).state == Unknown <==> !Admissible(aces)
  {
    hide SID_SYSTEM, SID_ADMINISTRATORS, SID_LOCAL_SERVICE;
    hide IsServiceSid, PrivilegedOnlyForm, ServiceSignerForm, ServiceSidForm, Admissible;
    forall sid, other
      ensures !(PrivilegedOnlyForm(aces) && ServiceSignerForm(aces))
      ensures !(PrivilegedOnlyForm(aces) && ServiceSidForm(aces, sid))
      ensures !(ServiceSignerForm(aces) && ServiceSidForm(aces, sid))
      ensures ServiceSidForm(aces, sid) && ServiceSidForm(aces, other) ==> sid == other
    {
      FormsExclusive(aces, sid, other);
    }
    FormsExclusive(aces, "", "");
    AdmissibleExact(aces);
  }

  /** Explicit allow ACEs for `system` and `admins` with one of the two administrative masks, and `rest`, in any order. */
  ghost predicate PairWith(aces: seq<ParsedAce>, system: string, admins: string, rest: multiset<ParsedAce>) {
    exists sy, ba :: sy in {0x1000_0000, 0xD01F_01FF} && ba in {0x1000_0000, 0xD01F_01FF}
      && multiset(aces) == multiset{ParsedAce(0, 0, sy, system), ParsedAce(0, 0, ba, admins)} + rest
  }

  ghost predicate AdminsWith(aces: seq<ParsedAce>, rest: multiset<ParsedAce>) {
    PairWith(aces, "S-1-5-18", "S-1-5-32-544", rest)
  }

  /** The classification by the values of types, flags, masks and identifiers. */
  lemma ClassifyByValue(aces: seq<ParsedAce>)
    ensures ClassifyAces(aces) == Classified(PrivilegedOnly, "") <==> AdminsWith(aces, multiset{})
    ensures ClassifyAces(aces) == Classified(ServiceSigner, "") <==>
      exists m :: m in {0xA000_0000, 0x8000_0000, 0x8012_00A9}
        && AdminsWith(aces, multiset{ParsedAce(0, 0, m, "S-1-5-19")})
    ensures forall sid :: ClassifyAces(aces) == Classified(ServiceSID, sid) <==>
      IsServiceSid(sid) && exists m :: m in {0xA000_0000, 0x8012_00A9} && AdminsWith(aces, multiset{ParsedAce(0, 0, m, sid)})
  {
    ClassifyExact(aces);
    hide ClassifyAces, Admissible, IsServiceSid, PrivilegedOnlyForm, ServiceSignerForm, ServiceSidForm, AdminsWith;
    PairByValue(aces);
    SignerByValue(aces);
    forall sid
      ensures ServiceSidForm(aces, sid) <==>
        IsServiceSid(sid) && exists m :: m in {0xA000_0000, 0x8012_00A9} && AdminsWith(aces, multiset{ParsedAce(0, 0, m, sid)})
    {
      ServiceByValue(aces, sid);
    }
  }

  lemma SignerByValue(aces: seq<ParsedAce>)
    ensures ServiceSignerForm(aces) <==>
      exists m :: m in {0xA000_0000, 0x8000_0000, 0x8012_00A9}
        && AdminsWith(aces, multiset{ParsedAce(0, 0, m, "S-1-5-19")})
  {
    TripleByValue(aces, SID_LOCAL_SERVICE, LocalServiceMask);
    hide AdminsWith, ThreeAceForm;
  }

  lemma ServiceByValue(aces: seq<ParsedAce>, sid: string)
    ensures ServiceSidForm(aces, sid) <==>
      IsServiceSid(sid) && exists m :: m in {0xA000_0000, 0x8012_00A9} && AdminsWith(aces, multiset{ParsedAce(0, 0, m, sid)})
  {
    TripleByValue(aces, sid, ServiceMask);
    hide AdminsWith, ThreeAceForm, IsServiceSid;
  }

  lemma PairByValue(aces: seq<ParsedAce>)
    ensures PrivilegedOnlyForm(aces) <==> AdminsWith(aces, multiset{})
  {
    WellKnownValues();
    hide SID_SYSTEM, SID_ADMINISTRATORS, PairWith;
    if PrivilegedOnlyForm(aces) {
      var sy, ba :| AdminMask(sy) && AdminMask(ba)
        && multiset(aces) == multiset{Allow(sy, SID_SYSTEM), Allow(ba, SID_ADMINISTRATORS)};
      PairAlone(aces, SID_SYSTEM, SID_ADMINISTRATORS, sy, ba);
    }
    if AdminsWith(aces, multiset{}) {
      var sy, ba := AloneOf(aces, SID_SYSTEM, SID_ADMINISTRATORS);
    }
  }

  lemma AloneOf(aces: seq<ParsedAce>, system: string, admins: string) returns (sy: uint32, ba: uint32)
    requires PairWith(aces, system, admins, multiset{})
    ensures AdminMask(sy) && AdminMask(ba) && multiset(aces) == multiset{Allow(sy, system), Allow(ba, admins)}
  {
    sy, ba :| sy in {0x1000_0000, 0xD01F_01FF} && ba in {0x1000_0000, 0xD01F_01FF}
      && multiset(aces) == multiset{ParsedAce(0, 0, sy, system), ParsedAce(0, 0, ba, admins)} + multiset{};
    NothingAdded(Allow(sy, system), Allow(ba, admins));
  }

  lemma NothingAdded(a: ParsedAce, b: ParsedAce)
    ensures multiset{a, b} + multiset{} == multiset{a, b}
  {
  }

  lemma PairAlone(aces: seq<ParsedAce>, system: string, admins: string, sy: uint32, ba: uint32)
    requires AdminMask(sy) && AdminMask(ba) && multiset(aces) == multiset{Allow(sy, system), Allow(ba, admins)}
    ensures PairWith(aces, system, admins, multiset{})
  {
    NothingAdded(Allow(sy, system), Allow(ba, admins));
  }

  lemma TripleByValue(aces: seq<ParsedAce>, sid: string, allowed: uint32 -> bool)
    ensures ThreeAceForm(aces, sid, allowed) <==>
      exists m :: allowed(m) && AdminsWith(aces, multiset{ParsedAce(0, 0, m, sid)})
  {
    WellKnownValues();
    hide SID_SYSTEM, SID_ADMINISTRATORS, PairWith;
    if ThreeAceForm(aces, sid, allowed) {
      var sy, ba, m :| AdminMask(sy) && AdminMask(ba) && allowed(m)
        && multiset(aces) == multiset{Allow(sy, SID_SYSTEM), Allow(ba, SID_ADMINISTRATORS), Allow(m, sid)};
      PairWithOne(aces, SID_SYSTEM, SID_ADMINISTRATORS, sy, ba, Allow(m, sid));
      assert AdminsWith(aces, multiset{ParsedAce(0, 0, m, sid)});
    }
    if exists m :: allowed(m) && AdminsWith(aces, multiset{ParsedAce(0, 0, m, sid)}) {
      var m :| allowed(m) && AdminsWith(aces, multiset{ParsedAce(0, 0, m, sid)});
      var sy, ba := PairOf(aces, SID_SYSTEM, SID_ADMINISTRATORS, Allow(m, sid));
    }
  }

  lemma PairWithOne(aces: seq<ParsedAce>, system: string, admins: string, sy: uint32, ba: uint32, a: ParsedAce)
    requires AdminMask(sy) && AdminMask(ba) && multiset(aces) == multiset{Allow(sy, system), Allow(ba, admins), a}
    ensures PairWith(aces, system, admins, multiset{a})
  {
    TripleIsSum(Allow(sy, system), Allow(ba, admins), a);
  }

  lemma PairOf(aces: seq<ParsedAce>, system: string, admins: string, a: ParsedAce) returns (sy: uint32, ba: uint32)
    requires PairWith(aces, system, admins, multiset{a})
    ensures AdminMask(sy) && AdminMask(ba) && multiset(aces) == multiset{Allow(sy, system), Allow(ba, admins), a}
  {
    sy, ba :| sy in {0x1000_0000, 0xD01F_01FF} && ba in {0x1000_0000, 0xD01F_01FF}
      && multiset(aces) == multiset{ParsedAce(0, 0, sy, system), ParsedAce(0, 0, ba, admins)} + multiset{a};
    TripleIsSum(Allow(sy, system), Allow(ba, admins), a);
  }

  lemma WellKnownValues()
    ensures SID_SYSTEM == "S-1-5-18" && SID_ADMINISTRATORS == "S-1-5-32-544"
  {
  }

  lemma TripleIsSum(a: ParsedAce, b: ParsedAce, c: ParsedAce)
    ensures multiset{a, b, c} == multiset{a, b} + multiset{c}
  {
  }

  lemma NarrowMask(m: uint32)
    requires LocalServiceMask(m) || ServiceMask(m)
    ensures m / 0x8000_0000 == 1 && m / 0x1000_0000 % 2 == 0 && m / 0x4000_0000 % 2 == 0
    ensures m / 0x1_0000 % 2 == 0 && m / 0x4_0000 % 2 == 0 && m / 0x8_0000 % 2 == 0
  {
  }

  /**
   * In a recognised list the trustees other than SYSTEM and Administrators may read (GENERIC_READ), and have
   * none of GENERIC_ALL, GENERIC_WRITE, DELETE, WRITE_DAC and WRITE_OWNER.
   */
  lemma ServiceRightsAreNarrow(aces: seq<ParsedAce>, i: nat)
    requires ClassifyAces(aces).state != Unknown && i < |aces|
    requires aces[i].sid != "S-1-5-18" && aces[i].sid != "S-1-5-32-544"
    ensures aces[i].mask / 0x8000_0000 == 1
    ensures aces[i].mask / 0x1000_0000 % 2 == 0 && aces[i].mask / 0x4000_0000 % 2 == 0
    ensures aces[i].mask / 0x1_0000 % 2 == 0 && aces[i].mask / 0x4_0000 % 2 == 0 && aces[i].mask / 0x8_0000 % 2 == 0
  {
    ClassifyExact(aces);
    hide ClassifyAces, IsServiceSid, LocalServiceMask, ServiceMask;
    assert AceAccepted(aces[i]);
    NarrowMask(aces[i].mask);
  }

  lemma AdmissibleExact(aces: seq<ParsedAce>)
    ensures Admissible(aces) <==>
            PrivilegedOnlyForm(aces) || ServiceSignerForm(aces) || exists sid :: ServiceSidForm(aces, sid)
  {
    if PrivilegedOnlyForm(aces) {
      PrivilegedOnlyFacts(aces);
    }
    if ServiceSignerForm(aces) {
      ServiceSignerFacts(aces);
    }
    if exists sid :: ServiceSidForm(aces, sid) {
      var sid :| ServiceSidForm(aces, sid);
      ServiceSidFacts(aces, sid);
    }
    if Admissible(aces) {
      AdmissibleLength(aces);
      if |aces| == 2 {
        AdmissiblePair(aces);
      } else {
        var s, a, t := AdmissibleTriple(aces);
        if aces[t].sid == SID_LOCAL_SERVICE {
          AdmissibleSigner(aces);
        } else {
          assert AceAccepted(aces[t]);
          AdmissibleService(aces, t);
        }
      }
    }
  }

  /** No text repeats among the parsed ACEs exactly when no binary identifier does. */
  lemma DistinctTextsIffDistinctSids(aces: seq<Ace>)
    ensures DistinctSids(PrintedAll(aces)) <==> forall i, j :: 0 <= i < j < |aces| ==> aces[i].sid != aces[j].sid
  {
    hide RenderSid;
    var parsed := PrintedAll(aces);
    forall i, j | 0 <= i < j < |aces|
      ensures parsed[i].sid == parsed[j].sid <==> aces[i].sid == aces[j].sid
    {
      if parsed[i].sid == parsed[j].sid {
        RenderSidInjective(aces[i].sid, aces[j].sid);
      }
    }
  }

  // ----- whom a recognised list grants -----

  lemma SignerGranted(aces: seq<ParsedAce>)
    requires ServiceSignerForm(aces)
    ensures forall x :: Grants(aces, x) <==> x in {SID_SYSTEM, SID_ADMINISTRATORS, SID_LOCAL_SERVICE}
  {
    WellKnownSids();
    hide SID_SYSTEM, SID_ADMINISTRATORS, SID_LOCAL_SERVICE, ThreeAceForm, Grants, ThreeAces, DistinctSids;
    ThreeAceFacts(aces, SID_LOCAL_SERVICE, LocalServiceMask);
    ThreeGranted(aces, SID_LOCAL_SERVICE, LocalServiceMask);
  }

  lemma ServiceGranted(aces: seq<ParsedAce>, sid: string)
    requires ServiceSidForm(aces, sid)
    ensures forall x :: Grants(aces, x) <==> x in {SID_SYSTEM, SID_ADMINISTRATORS, sid}
  {
    WellKnownSids();
    hide SID_SYSTEM, SID_ADMINISTRATORS, SID_LOCAL_SERVICE, ThreeAceForm, Grants, ThreeAces, DistinctSids, IsServiceSid;
    ThreeAceFacts(aces, sid, ServiceMask);
    ThreeGranted(aces, sid, ServiceMask);
  }

  lemma TwoGranted(aces: seq<ParsedAce>)
    requires Admissible(aces) && |aces| == 2
    ensures forall x :: Grants(aces, x) <==> x in {SID_SYSTEM, SID_ADMINISTRATORS}
  {
    KindsAreDistinct(aces);
    hide SID_SYSTEM, SID_ADMINISTRATORS, SID_LOCAL_SERVICE, AceAccepted, AtMostOneService;
    var s :| 0 <= s < 2 && Kind(aces[s]) == 0;
    var a :| 0 <= a < 2 && Kind(aces[a]) == 1;
    assert aces[s].sid == SID_SYSTEM && aces[a].sid == SID_ADMINISTRATORS;
    assert s + a == 1;
  }

  lemma ThreeGranted(aces: seq<ParsedAce>, sid: string, allowed: uint32 -> bool)
    requires ThreeAces(aces, sid, allowed)
    requires Grants(aces, SID_SYSTEM) && Grants(aces, SID_ADMINISTRATORS) && Grants(aces, sid)
    ensures forall x :: Grants(aces, x) <==> x in {SID_SYSTEM, SID_ADMINISTRATORS, sid}
  {
    hide SID_SYSTEM, SID_ADMINISTRATORS, AdminMask;
  }

  // ----- the classifier -----

  /** classifyDescriptorSID; `err` tells whether it returned an error. */
  method ClassifyDescriptorSID(sd: seq<byte>) returns (state: DaclState, sid: string, err: bool)
    ensures Classified(state, sid) == Classify(sd)
    ensures err <==> state == Unknown
  {
    var parsed := ParseSelfRelativeDACL(sd);
    if parsed.None? {
      return Unknown, "", true;
    }
    DaclExact(sd, Dacl(sd).value);
    state, sid, err := ClassifyList(parsed.value);
  }

  /** Every ACE passes on its own, no identifier repeats and at most one names a service. */
  ghost predicate LoopAccepts(aces: seq<ParsedAce>) {
    (forall k :: 0 <= k < |aces| ==> AceAccepted(aces[k])) && DistinctSids(aces) && AtMostOneService(aces)
  }

  /** The loop of classifyDescriptorSID: false stands for one of its early error returns. */
  method ScanAces(aces: seq<ParsedAce>) returns (ok: bool, seen: set<string>, serviceSID: string)
    ensures ok <==> LoopAccepts(aces)
    ensures ok ==> forall s :: s in seen <==> Grants(aces, s)
    ensures ok && serviceSID == "" ==> forall k :: 0 <= k < |aces| ==> !IsServiceSid(aces[k].sid)
    ensures ok && serviceSID != "" ==> Grants(aces, serviceSID) && IsServiceSid(serviceSID)
  {
    WellKnownSids();
    hide SID_SYSTEM, SID_ADMINISTRATORS, SID_LOCAL_SERVICE, IsServiceSid;
    ok, seen, serviceSID := false, {}, "";
    for i := 0 to |aces|
      invariant !ok
      invariant LoopAccepts(aces[..i])
      invariant forall s :: s in seen <==> Grants(aces[..i], s)
      invariant serviceSID == "" ==> forall k :: 0 <= k < i ==> !IsServiceSid(aces[k].sid)
      invariant serviceSID != "" ==> Grants(aces[..i], serviceSID) && IsServiceSid(serviceSID)
    {
      var ace := aces[i];
      LoopStep(aces, i);
      if ace.aceFlags != 0 {
        return;
      }
      if ace.sid in seen {
        return;
      }
      seen := seen + {ace.sid};
      var isService := CheckServiceSID(ace.sid);
      if ace.sid == SID_SYSTEM || ace.sid == SID_ADMINISTRATORS {
        if ace.mask != MASK_ADMINISTRATIVE && ace.mask != MASK_ADMINISTRATIVE_KSP {
          return;
        }
      } else if ace.sid == SID_LOCAL_SERVICE {
        if ace.mask != MASK_LOCAL_SERVICE_REQUESTED && ace.mask != MASK_LOCAL_SERVICE_CANONICAL
           && ace.mask != MASK_LOCAL_SERVICE_KSP {
          return;
        }
      } else if isService {
        if serviceSID != "" {
          return;
        }
        if ace.mask != MASK_SERVICE_REQUESTED && ace.mask != MASK_SERVICE_KSP {
          return;
        }
        serviceSID := ace.sid;
      } else {
        return;
      }
    }
    assert aces[..|aces|] == aces;
    ok := true;
  }

  /** Looking at one more ACE: what must hold for the longer prefix to pass, and whom it grants. */
  lemma LoopStep(aces: seq<ParsedAce>, i: nat)
    requires i < |aces| && LoopAccepts(aces[..i])
    ensures LoopAccepts(aces[..i + 1]) <==>
            && AceAccepted(aces[i])
            && !Grants(aces[..i], aces[i].sid)
            && (IsServiceSid(aces[i].sid) ==> forall k :: 0 <= k < i ==> !IsServiceSid(aces[k].sid))
    ensures forall s :: Grants(aces[..i + 1], s) <==> Grants(aces[..i], s) || s == aces[i].sid
    ensures LoopAccepts(aces) ==> LoopAccepts(aces[..i + 1])
  {
    hide AceAccepted, IsServiceSid;
    var shorter, longer := aces[..i], aces[..i + 1];
    forall k | 0 <= k < i
      ensures longer[k] == shorter[k] == aces[k]
    {
    }
    forall s
      ensures Grants(longer, s) <==> Grants(shorter, s) || s == aces[i].sid
    {
      if s == aces[i].sid {
        assert longer[i].sid == s;
      }
      if Grants(shorter, s) {
        var k :| 0 <= k < i && shorter[k].sid == s;
        assert longer[k].sid == s;
      }
      if Grants(longer, s) {
        var k :| 0 <= k < i + 1 && longer[k].sid == s;
        assert k < i ==> shorter[k].sid == s;
      }
    }
  }

  /** The loop and the final decision of classifyDescriptorSID, over the ACEs the parser returned. */
  method ClassifyList(aces: seq<ParsedAce>) returns (state: DaclState, sid: string, err: bool)
    requires AllAllow(aces)
    ensures Classified(state, sid) == ClassifyAces(aces)
    ensures err <==> state == Unknown
  {
    ClassifyExact(aces);
    hide IsServiceSid, ClassifyAces, PrivilegedOnlyForm, ServiceSignerForm, ServiceSidForm, AceAccepted;
    var ok, seen, serviceSID := ScanAces(aces);
    if !ok {
      return Unknown, "", true;
    }
    if SID_SYSTEM !in seen || SID_ADMINISTRATORS !in seen {
      return Unknown, "", true;
    }
    if SID_LOCAL_SERVICE in seen && serviceSID != "" {
      return Unknown, "", true;
    }
    assert Admissible(aces);
    AdmissibleLength(aces);
    err := false;
    if |aces| == 2 {
      AdmissiblePair(aces);
      state, sid := PrivilegedOnly, "";
    } else if |aces| == 3 && SID_LOCAL_SERVICE in seen {
      AdmissibleSigner(aces);
      state, sid := ServiceSigner, "";
    } else if |aces| == 3 && serviceSID != "" {
      ghost var k :| 0 <= k < |aces| && aces[k].sid == serviceSID;
      AdmissibleService(aces, k);
      state, sid := ServiceSID, serviceSID;
    } else {
      // The source falls through to an error here; no list of ACEs gets this far.
      ThirdPrincipal(aces);
      assert false;
    }
  }

  lemma ThirdPrincipal(aces: seq<ParsedAce>)
    requires Admissible(aces) && |aces| == 3
    ensures Grants(aces, SID_LOCAL_SERVICE) || exists k :: 0 <= k < 3 && IsServiceSid(aces[k].sid)
  {
    var s, a, t := AdmissibleTriple(aces);
    assert AceAccepted(aces[t]);
  }
}
