/** The legacy DACL walk of verifyDACL, and how the exact allow-list refines it. */
module LegacyDacl {
  import opened Bytes
  import opened Descriptor
  import opened Classifier
  import opened ServiceSids

  const SID_EVERYONE := "S-1-1-0"
  const SID_AUTH_USERS := "S-1-5-11"
  const SID_BUILTIN_USERS := "S-1-5-32-545"
  const SID_INTERACTIVE := "S-1-5-4"
  const SID_SERVICE := "S-1-5-6"
  const SID_ANONYMOUS := "S-1-5-7"

  const ALL_BIT: bv32 := 0x1000_0000
  const READ_BIT: bv32 := 0x8000_0000
  const WRITE_BIT: bv32 := 0x4000_0000
  const GENERIC_RIGHTS: bv32 := 0xF000_0000

  predicate Forbidden(sid: string) {
    sid in {SID_EVERYONE, SID_AUTH_USERS, SID_BUILTIN_USERS, SID_INTERACTIVE, SID_SERVICE, SID_ANONYMOUS}
  }

  predicate HasRight(mask: uint32, right: bv32) {
    (mask as bv32) & right != 0
  }

  predicate HasGenericAll(mask: uint32) {
    HasRight(mask, ALL_BIT)
  }

  predicate ReadsWithoutWriting(mask: uint32) {
    HasRight(mask, READ_BIT) && !HasRight(mask, WRITE_BIT) && !HasRight(mask, ALL_BIT)
  }

  predicate AllowsFor(a: ParsedAce, sid: string) {
    a.aceType == ACE_TYPE_ACCESS_ALLOWED && a.sid == sid
  }

  /** Exactly one allow ACE for `sid`, and its mask passes. */
  ghost predicate ExactlyOne(aces: seq<ParsedAce>, sid: string, ok: uint32 -> bool) {
    exists i :: && 0 <= i < |aces| && AllowsFor(aces[i], sid) && ok(aces[i].mask)
                && forall j :: 0 <= j < |aces| && AllowsFor(aces[j], sid) ==> j == i
  }

  ghost predicate NoneForbidden(aces: seq<ParsedAce>) {
    forall i :: 0 <= i < |aces| && aces[i].aceType == ACE_TYPE_ACCESS_ALLOWED ==> !Forbidden(aces[i].sid)
  }

  ghost predicate LegacyAccepts(aces: seq<ParsedAce>) {
    && NoneForbidden(aces)
    && ExactlyOne(aces, SID_SYSTEM, HasGenericAll)
    && ExactlyOne(aces, SID_ADMINISTRATORS, HasGenericAll)
    && ExactlyOne(aces, SID_LOCAL_SERVICE, ReadsWithoutWriting)
  }

  /** Reducing a mask to its generic rights first does not change a test of one generic right. */
  lemma GenericPart(m: bv32)
    ensures (m & GENERIC_RIGHTS) & ALL_BIT == m & ALL_BIT
    ensures (m & GENERIC_RIGHTS) & READ_BIT == m & READ_BIT
    ensures (m & GENERIC_RIGHTS) & WRITE_BIT == m & WRITE_BIT
  {
  }

  /** What the walk knows of one principal after a prefix: not met, or met once with a mask that passed. */
  ghost predicate Met(aces: seq<ParsedAce>, i: nat, found: bool, sid: string, ok: uint32 -> bool)
    requires i <= |aces|
  {
    if found then ExactlyOne(aces[..i], sid, ok)
    else forall k :: 0 <= k < i ==> !AllowsFor(aces[k], sid)
  }

  lemma MetStep(aces: seq<ParsedAce>, i: nat, found: bool, sid: string, ok: uint32 -> bool)
    requires i < |aces| && Met(aces, i, found, sid, ok)
    ensures !AllowsFor(aces[i], sid) ==> Met(aces, i + 1, found, sid, ok)
    ensures AllowsFor(aces[i], sid) && !found && ok(aces[i].mask) ==> Met(aces, i + 1, true, sid, ok)
    ensures AllowsFor(aces[i], sid) && (found || !ok(aces[i].mask)) ==> !ExactlyOne(aces, sid, ok)
  {
    var shorter, longer := aces[..i], aces[..i + 1];
    assert forall k :: 0 <= k < i ==> longer[k] == aces[k] && shorter[k] == aces[k];
    assert longer[i] == aces[i];
    if found {
      var f :| 0 <= f < i && AllowsFor(shorter[f], sid) && ok(shorter[f].mask)
        && forall j :: 0 <= j < |shorter| && AllowsFor(shorter[j], sid) ==> j == f;
      assert AllowsFor(longer[f], sid) && AllowsFor(aces[f], sid);
    }
  }

  lemma MetAtEnd(aces: seq<ParsedAce>, found: bool, sid: string, ok: uint32 -> bool)
    requires Met(aces, |aces|, found, sid, ok)
    ensures found <==> ExactlyOne(aces, sid, ok)
  {
    assert aces[..|aces|] == aces;
  }

  /** The walk of verifyDACL over the ACEs of a present DACL; EqualSid is equality of the printed identifiers. */
  method WalkDACL(aces: seq<ParsedAce>) returns (ok: bool)
    ensures ok <==> LegacyAccepts(aces)
  {
    WellKnownSids();
    hide SID_SYSTEM, SID_ADMINISTRATORS, SID_LOCAL_SERVICE, ExactlyOne, HasGenericAll, ReadsWithoutWriting;
    if |aces| == 0 {
      assert !ExactlyOne(aces, SID_SYSTEM, HasGenericAll) by {
        MetAtEnd(aces, false, SID_SYSTEM, HasGenericAll);
      }
      return false;
    }
    var foundSys, foundAdm, foundLS := false, false, false;
    for i := 0 to |aces|
      invariant forall k :: 0 <= k < i && aces[k].aceType == ACE_TYPE_ACCESS_ALLOWED ==> !Forbidden(aces[k].sid)
      invariant Met(aces, i, foundSys, SID_SYSTEM, HasGenericAll)
      invariant Met(aces, i, foundAdm, SID_ADMINISTRATORS, HasGenericAll)
      invariant Met(aces, i, foundLS, SID_LOCAL_SERVICE, ReadsWithoutWriting)
    {
      var ace := aces[i];
      MetStep(aces, i, foundSys, SID_SYSTEM, HasGenericAll);
      MetStep(aces, i, foundAdm, SID_ADMINISTRATORS, HasGenericAll);
      MetStep(aces, i, foundLS, SID_LOCAL_SERVICE, ReadsWithoutWriting);
      if ace.aceType != ACE_TYPE_ACCESS_ALLOWED {
        continue;
      }
      if Forbidden(ace.sid) {
        return false;
      }
      var generic := MaskTests(ace.mask);
      if ace.sid == SID_SYSTEM {
        if foundSys {
          return false;
        }
        foundSys := true;
        if generic & ALL_BIT == 0 {
          return false;
        }
      }
      if ace.sid == SID_ADMINISTRATORS {
        if foundAdm {
          return false;
        }
        foundAdm := true;
        if generic & ALL_BIT == 0 {
          return false;
        }
      }
      if ace.sid == SID_LOCAL_SERVICE {
        if foundLS {
          return false;
        }
        foundLS := true;
        if generic & READ_BIT == 0 {
          return false;
        }
        if generic & WRITE_BIT != 0 || generic & ALL_BIT != 0 {
          return false;
        }
      }
    }
    MetAtEnd(aces, foundSys, SID_SYSTEM, HasGenericAll);
    MetAtEnd(aces, foundAdm, SID_ADMINISTRATORS, HasGenericAll);
    MetAtEnd(aces, foundLS, SID_LOCAL_SERVICE, ReadsWithoutWriting);
    return foundSys && foundAdm && foundLS;
  }

  /** `ace.Mask & genericRights`, with what the three tests of it mean. */
  method MaskTests(mask: uint32) returns (generic: bv32)
    ensures generic == mask as bv32 & GENERIC_RIGHTS
    ensures generic & ALL_BIT != 0 <==> HasGenericAll(mask)
    ensures generic & READ_BIT != 0 && generic & WRITE_BIT == 0 && generic & ALL_BIT == 0 <==> ReadsWithoutWriting(mask)
  {
    GenericPart(mask as bv32);
    generic := mask as bv32 & GENERIC_RIGHTS;
  }

  // ----- the walk by the values of masks and identifiers -----

  /** ACE `i` is the only access-allowed ACE for `sid`. */
  ghost predicate SoleAllow(aces: seq<ParsedAce>, i: int, sid: string) {
    && 0 <= i < |aces| && aces[i].aceType == 0 && aces[i].sid == sid
    && forall j :: 0 <= j < |aces| && aces[j].aceType == 0 && aces[j].sid == sid ==> j == i
  }

  /** None of the six excluded principals is allowed, and the three required ones are, once each, with these generic bits. */
  lemma WalkByValue(aces: seq<ParsedAce>)
    ensures LegacyAccepts(aces) <==>
      && (forall i :: 0 <= i < |aces| && aces[i].aceType == 0 ==>
            && aces[i].sid != "S-1-1-0" && aces[i].sid != "S-1-5-11" && aces[i].sid != "S-1-5-32-545"
            && aces[i].sid != "S-1-5-4" && aces[i].sid != "S-1-5-6" && aces[i].sid != "S-1-5-7")
      && (exists s :: SoleAllow(aces, s, "S-1-5-18") && aces[s].mask as bv32 & 0x1000_0000 != 0)
      && (exists a :: SoleAllow(aces, a, "S-1-5-32-544") && aces[a].mask as bv32 & 0x1000_0000 != 0)
      && (exists l :: SoleAllow(aces, l, "S-1-5-19") && aces[l].mask as bv32 & 0x8000_0000 != 0
            && aces[l].mask as bv32 & 0x4000_0000 == 0 && aces[l].mask as bv32 & 0x1000_0000 == 0)
  {
    SoleIsExactlyOne(aces, "S-1-5-18", HasGenericAll);
    SoleIsExactlyOne(aces, "S-1-5-32-544", HasGenericAll);
    SoleIsExactlyOne(aces, "S-1-5-19", ReadsWithoutWriting);
    hide ExactlyOne, SoleAllow;
  }

  lemma SoleIsExactlyOne(aces: seq<ParsedAce>, sid: string, ok: uint32 -> bool)
    ensures ExactlyOne(aces, sid, ok) <==> exists i :: SoleAllow(aces, i, sid) && ok(aces[i].mask)
  {
    if ExactlyOne(aces, sid, ok) {
      var i :| && 0 <= i < |aces| && AllowsFor(aces[i], sid) && ok(aces[i].mask)
               && forall j :: 0 <= j < |aces| && AllowsFor(aces[j], sid) ==> j == i;
      forall j | 0 <= j < |aces| && aces[j].aceType == 0 && aces[j].sid == sid
        ensures j == i
      {
        assert AllowsFor(aces[j], sid);
      }
      assert SoleAllow(aces, i, sid);
    }
    if exists i :: SoleAllow(aces, i, sid) && ok(aces[i].mask) {
      var i :| SoleAllow(aces, i, sid) && ok(aces[i].mask);
      assert AllowsFor(aces[i], sid);
    }
  }

  // ----- the exact allow-list refines the walk -----

  lemma AllowedMaskValues()
    ensures HasGenericAll(MASK_ADMINISTRATIVE) && HasGenericAll(MASK_ADMINISTRATIVE_KSP)
    ensures ReadsWithoutWriting(MASK_LOCAL_SERVICE_REQUESTED) && ReadsWithoutWriting(MASK_LOCAL_SERVICE_CANONICAL)
    ensures ReadsWithoutWriting(MASK_LOCAL_SERVICE_KSP)
  {
    assert (0x1000_0000 as uint32) as bv32 == 0x1000_0000;
    assert (0xD01F_01FF as uint32) as bv32 == 0xD01F_01FF;
    assert (0xA000_0000 as uint32) as bv32 == 0xA000_0000;
    assert (0x8000_0000 as uint32) as bv32 == 0x8000_0000;
    assert (0x8012_00A9 as uint32) as bv32 == 0x8012_00A9;
  }

  lemma AllowedMasks(mask: uint32)
    ensures AdminMask(mask) ==> HasGenericAll(mask)
    ensures LocalServiceMask(mask) ==> ReadsWithoutWriting(mask)
  {
    AllowedMaskValues();
    hide HasGenericAll, ReadsWithoutWriting;
  }

  lemma ServicesAreNotForbidden(sid: string)
    requires IsServiceSid(sid)
    ensures !Forbidden(sid)
  {
    ServiceSidParts(sid);
    assert SERVICE_PREFIX <= sid;
    assert sid[6] == SERVICE_PREFIX[6];
    assert |sid| >= 9 && sid[8] == '-' && sid[4] == '5';
  }

  lemma GrantedOnce(aces: seq<ParsedAce>, sid: string, ok: uint32 -> bool)
    requires Admissible(aces) && Grants(aces, sid)
    requires forall i :: 0 <= i < |aces| && aces[i].sid == sid ==> ok(aces[i].mask)
    ensures ExactlyOne(aces, sid, ok)
  {
    hide AceAccepted, AtMostOneService;
    var i :| 0 <= i < |aces| && aces[i].sid == sid;
    assert AllowsFor(aces[i], sid) && ok(aces[i].mask);
    forall j | 0 <= j < |aces| && AllowsFor(aces[j], sid)
      ensures j == i
    {
      assert DistinctSids(aces);
    }
  }

  /** Of the lists the classifier recognises, the legacy walk accepts exactly the service-signer ones. */
  lemma LegacyAcceptsExactlySigners(aces: seq<ParsedAce>)
    requires ClassifyAces(aces).state != Unknown
    ensures LegacyAccepts(aces) <==> ClassifyAces(aces).state == ServiceSigner
  {
    ClassifyExact(aces);
    WellKnownSids();
    WellKnownAreAllowed();
    hide ClassifyAces, SID_SYSTEM, SID_ADMINISTRATORS, SID_LOCAL_SERVICE, IsServiceSid, Forbidden;
    forall i | 0 <= i < |aces|
      ensures !Forbidden(aces[i].sid)
      ensures AdminMask(aces[i].mask) ==> HasGenericAll(aces[i].mask)
      ensures LocalServiceMask(aces[i].mask) ==> ReadsWithoutWriting(aces[i].mask)
    {
      assert AceAccepted(aces[i]);
      AllowedMasks(aces[i].mask);
      if IsServiceSid(aces[i].sid) {
        ServicesAreNotForbidden(aces[i].sid);
      }
    }
    GrantedOnce(aces, SID_SYSTEM, HasGenericAll);
    GrantedOnce(aces, SID_ADMINISTRATORS, HasGenericAll);
    if Grants(aces, SID_LOCAL_SERVICE) {
      GrantedOnce(aces, SID_LOCAL_SERVICE, ReadsWithoutWriting);
      AdmissibleLength(aces);
      SignerIffLocalService(aces);
    } else {
      SignerIffLocalService(aces);
    }
  }

  lemma WellKnownAreAllowed()
    ensures !Forbidden(SID_SYSTEM) && !Forbidden(SID_ADMINISTRATORS) && !Forbidden(SID_LOCAL_SERVICE)
  {
  }

  lemma SignerIffLocalService(aces: seq<ParsedAce>)
    requires Admissible(aces)
    ensures ServiceSignerForm(aces) <==> Grants(aces, SID_LOCAL_SERVICE)
  {
    WellKnownSids();
    hide SID_SYSTEM, SID_ADMINISTRATORS, SID_LOCAL_SERVICE, Grants, ServiceSignerForm, AceAccepted, IsServiceSid;
    if ServiceSignerForm(aces) {
      ServiceSignerFacts(aces);
    }
    AdmissibleLength(aces);
    if |aces| == 2 {
      TwoGranted(aces);
    } else if Grants(aces, SID_LOCAL_SERVICE) {
      AdmissibleSigner(aces);
    }
  }

  /** The refinement is strict: the walk also accepts a list with a further trustee, which the classifier rejects. */
  lemma WalkIsWeaker()
    ensures exists aces :: AllAllow(aces) && LegacyAccepts(aces) && ClassifyAces(aces).state == Unknown
  {
    var extra := "S-1-5-20";
    var aces := [Allow(GENERIC_ALL, SID_SYSTEM), Allow(GENERIC_ALL, SID_ADMINISTRATORS),
                 Allow(GENERIC_READ, SID_LOCAL_SERVICE), Allow(GENERIC_ALL, extra)];
    AllowedMasks(GENERIC_ALL);
    AllowedMasks(GENERIC_READ);
    hide HasGenericAll, ReadsWithoutWriting, IsServiceSid, AceAccepted, ClassifyAces;
    assert AllowsFor(aces[0], SID_SYSTEM) && AllowsFor(aces[1], SID_ADMINISTRATORS);
    assert AllowsFor(aces[2], SID_LOCAL_SERVICE);
    ClassifyExact(aces);
    assert !Admissible(aces) by {
      if Admissible(aces) {
        AdmissibleLength(aces);
      }
    }
  }
}
