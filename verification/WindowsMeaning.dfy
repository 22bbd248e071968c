/** The meaning that the engine is run with: the classifier of this package and the descriptors its SDDL strings request. */
module WindowsMeaning {
  import opened Bytes
  import opened Descriptor
  import opened ServiceSids
  import opened Classifier
  import opened Policies
  import opened EngineRuns

  ghost function Requested(sddl: string): Classification {
    match DescriptorFor(sddl)
    case None => Classified(Unknown, "")
    case Some(sd) => Classify(sd)
  }

  ghost function Windows(): Meaning {
    Meaning(Classify, Requested)
  }

  /** Every valid spec is understood: its SDDL string requests a descriptor that classifies as the spec says. */
  lemma ValidSpecsUnderstood(s: PolicySpec)
    requires ValidSpec(s)
    ensures Understood(Windows(), s)
  {
    hide Classify, DescriptorFor;
    RequestedDescriptorClassifies(s);
  }

  /** The trustees a spec provides for. */
  function Principals(s: PolicySpec): set<string> {
    {SID_SYSTEM, SID_ADMINISTRATORS}
    + if s.state == ServiceSigner then {SID_LOCAL_SERVICE} else if s.state == ServiceSID then {s.serviceSID} else {}
  }

  /** Opening asks for a privileged caller exactly when nobody but SYSTEM and Administrators is provided for. */
  lemma PrivilegedOpenExact(s: PolicySpec)
    requires ValidSpec(s)
    ensures s.privilegedOpen <==> Principals(s) == {"S-1-5-18", "S-1-5-32-544"}
  {
    WellKnownSids();
    assert SID_SYSTEM == "S-1-5-18" && SID_ADMINISTRATORS == "S-1-5-32-544";
    hide SID_SYSTEM, SID_ADMINISTRATORS, SID_LOCAL_SERVICE, IsServiceSid;
    if s.state == ServiceSigner {
      assert SID_LOCAL_SERVICE in Principals(s);
    } else if s.state == ServiceSID {
      assert s.serviceSID in Principals(s);
    }
  }

  /** A descriptor in a spec's state parses, and its explicit allow ACEs name exactly the spec's principals, once each. */
  lemma InStateGrantsExactly(sd: seq<byte>, s: PolicySpec)
    requires InState(Windows(), sd, s)
    ensures Dacl(sd).Some?
    ensures var aces := PrintedAll(Dacl(sd).value);
      && AllAllow(aces) && DistinctSids(aces)
      && (forall i :: 0 <= i < |aces| ==> aces[i].aceFlags == 0)
      && forall x :: Grants(aces, x) <==> x in Principals(s)
  {
    var aces := PrintedAll(Dacl(sd).value);
    assert Windows().classify(sd) == Classify(sd) == ClassifyAces(aces);
    ClassifyExact(aces);
    hide Classify, ClassifyAces;
    PrincipalsGranted(aces, s);
  }

  lemma PrincipalsGranted(aces: seq<ParsedAce>, s: PolicySpec)
    requires Admissible(aces)
    requires s.state == PrivilegedOnly ==> PrivilegedOnlyForm(aces)
    requires s.state == ServiceSigner ==> ServiceSignerForm(aces)
    requires s.state == ServiceSID ==> ServiceSidForm(aces, s.serviceSID)
    requires s.state != Unknown
    ensures forall i :: 0 <= i < |aces| ==> aces[i].aceFlags == 0
    ensures forall x :: Grants(aces, x) <==> x in Principals(s)
  {
    assert forall i :: 0 <= i < |aces| ==> AceAccepted(aces[i]) && aces[i].aceFlags == 0;
    hide IsServiceSid, SID_SYSTEM, SID_ADMINISTRATORS, SID_LOCAL_SERVICE, Grants, AceAccepted, ThreeAceForm;
    if s.state == PrivilegedOnly {
      PrivilegedOnlyFacts(aces);
      TwoGranted(aces);
    } else if s.state == ServiceSigner {
      SignerGranted(aces);
    } else {
      ServiceGranted(aces, s.serviceSID);
    }
  }
}
