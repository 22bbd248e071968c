/** Recognition of per-service identifiers, S-1-5-80 followed by five 32-bit numbers. */
module ServiceSids {
  import opened Wrappers
  import opened Sids
  import Decimal
  import Text

  const SERVICE_PREFIX := "S-1-5-80-"

  predicate FiveUint32(v: seq<nat>) {
    |v| == 5 && AllUint32(v)
  }

  /** The text of the per-service identifier with the five given sub-authorities. */
  function ServiceSidText(v: seq<nat>): string {
    RenderSid(Sid(5, [80] + v))
  }

  ghost predicate IsServiceSid(s: string) {
    exists v :: FiveUint32(v) && s == ServiceSidText(v)
  }

  lemma ServiceSidTextShape(v: seq<nat>)
    requires |v| > 0
    ensures ServiceSidText(v) == SERVICE_PREFIX + Text.Join(RenderAll(v), '-')
  {
    RenderSubsCons(80, v);
    RenderSubsIsJoin(v);
    assert Decimal.Render(5) == "5";
    assert Decimal.Render(8) == "8";
    assert Decimal.Render(80) == "80";
    var tail := Text.Join(RenderAll(v), '-');
    assert "S-1-" + "5" + ("-" + "80" + ("-" + tail)) == SERVICE_PREFIX + tail;
  }

  /** The identifier of five numbers written out, each number in decimal. */
  function WrittenOut(a: nat, b: nat, c: nat, d: nat, e: nat): string {
    "S-1-5-80" + ("-" + Decimal.Render(a) + "-" + Decimal.Render(b) + "-" + Decimal.Render(c)
                  + "-" + Decimal.Render(d) + "-" + Decimal.Render(e))
  }

  lemma FiveRendered(a: nat, b: nat, c: nat, d: nat, e: nat)
    ensures RenderSubs([a, b, c, d, e]) == "-" + Decimal.Render(a) + "-" + Decimal.Render(b) + "-" + Decimal.Render(c)
                                           + "-" + Decimal.Render(d) + "-" + Decimal.Render(e)
  {
    hide RenderSubs, Decimal.Render;
    assert RenderSubs([]) == "" by {
      EmptyRendered();
    }
    RenderSubsSnoc([], a);
    RenderSubsSnoc([a], b);
    RenderSubsSnoc([a, b], c);
    RenderSubsSnoc([a, b, c], d);
    RenderSubsSnoc([a, b, c, d], e);
    assert [] + [a] == [a] && [a] + [b] == [a, b] && [a, b] + [c] == [a, b, c];
    assert [a, b, c] + [d] == [a, b, c, d] && [a, b, c, d] + [e] == [a, b, c, d, e];
    assert "" + "-" == "-";
  }

  lemma EmptyRendered()
    ensures RenderSubs([]) == ""
  {
  }

  lemma RenderSubsSnoc(v: seq<nat>, n: nat)
    ensures RenderSubs(v + [n]) == RenderSubs(v) + "-" + Decimal.Render(n)
  {
    assert (v + [n])[..|v|] == v;
  }

  lemma ServicePrefix(v: seq<nat>)
    ensures ServiceSidText(v) == "S-1-5-80" + RenderSubs(v)
  {
    assert Decimal.Render(5) == "5";
    assert Decimal.Render(8) == "8";
    assert Decimal.Render(80) == "80";
    hide Decimal.Render, RenderSubs;
    RenderSubsCons(80, v);
    var rest := RenderSubs(v);
    assert ServiceSidText(v) == "S-1-" + "5" + ("-" + "80" + rest);
    assert "S-1-" + "5" + ("-" + "80" + rest) == "S-1-5-80" + rest;
  }

  /** The recognised texts are the ones of five 32-bit numbers written out. */
  lemma ServiceSidByValue(s: string)
    ensures IsServiceSid(s) <==> exists a, b, c, d, e :: AllUint32([a, b, c, d, e]) && s == WrittenOut(a, b, c, d, e)
  {
    hide ServiceSidText, WrittenOut;
    if IsServiceSid(s) {
      var v :| FiveUint32(v) && s == ServiceSidText(v);
      TextWrittenOut(v[0], v[1], v[2], v[3], v[4]);
      assert [v[0], v[1], v[2], v[3], v[4]] == v;
    }
    if exists a, b, c, d, e :: AllUint32([a, b, c, d, e]) && s == WrittenOut(a, b, c, d, e) {
      var a, b, c, d, e :| AllUint32([a, b, c, d, e]) && s == WrittenOut(a, b, c, d, e);
      TextWrittenOut(a, b, c, d, e);
      assert FiveUint32([a, b, c, d, e]);
    }
  }

  lemma TextWrittenOut(a: nat, b: nat, c: nat, d: nat, e: nat)
    ensures ServiceSidText([a, b, c, d, e]) == WrittenOut(a, b, c, d, e)
  {
    hide ServiceSidText, RenderSubs, Decimal.Render;
    ServicePrefix([a, b, c, d, e]);
    FiveRendered(a, b, c, d, e);
  }

  lemma SplitServiceSid(v: seq<nat>)
    requires |v| > 0
    ensures SERVICE_PREFIX <= ServiceSidText(v)
    ensures Text.Split(ServiceSidText(v)[|SERVICE_PREFIX|..], '-') == RenderAll(v)
  {
    ServiceSidTextShape(v);
    assert ServiceSidText(v)[|SERVICE_PREFIX|..] == Text.Join(RenderAll(v), '-');
    forall i | 0 <= i < |v|
      ensures '-' !in RenderAll(v)[i]
    {
      Decimal.NoDash(v[i]);
    }
    Text.SplitOfJoin(RenderAll(v), '-');
  }

  /** Among the identifiers parseSID can print, exactly those with authority 5 and six sub-authorities, the first 80. */
  lemma ServiceSidOfParsed(sid: Sid)
    requires ValidSid(sid)
    ensures IsServiceSid(RenderSid(sid)) <==> sid.authority == 5 && |sid.subs| == 6 && sid.subs[0] == 80
  {
    if IsServiceSid(RenderSid(sid)) {
      var v :| FiveUint32(v) && RenderSid(sid) == ServiceSidText(v);
      RenderSidInjective(sid, Sid(5, [80] + v));
    }
    if sid.authority == 5 && |sid.subs| == 6 && sid.subs[0] == 80 {
      var v := sid.subs[1..];
      assert [80] + v == sid.subs;
      assert FiveUint32(v) && RenderSid(sid) == ServiceSidText(v);
    }
  }

  /** One dash-separated part that isServiceSID lets through. */
  predicate PartAccepted(p: string) {
    p != "" && |p| <= 10 && (|p| > 1 ==> p[0] != '0') && Decimal.ParseUint(p, 0xFFFF_FFFF).Some?
  }

  lemma PartAcceptedExact(p: string)
    ensures PartAccepted(p) <==> exists n :: n < 0x1_0000_0000 && p == Decimal.Render(n)
  {
    if PartAccepted(p) {
      AcceptedPart(p);
      assert Decimal.Value(p) < 0x1_0000_0000 && p == Decimal.Render(Decimal.Value(p));
    }
    if exists n :: n < 0x1_0000_0000 && p == Decimal.Render(n) {
      var n :| n < 0x1_0000_0000 && p == Decimal.Render(n);
      RenderedPart(n);
    }
  }

  lemma AcceptedPart(p: string)
    requires PartAccepted(p)
    ensures Decimal.AllDigits(p) && Decimal.Value(p) < 0x1_0000_0000 && Decimal.Render(Decimal.Value(p)) == p
  {
    Decimal.CanonicalIsRendered(p);
  }

  lemma AcceptedPartsAreRendered(parts: seq<string>) returns (v: seq<nat>)
    requires forall i :: 0 <= i < |parts| ==> PartAccepted(parts[i])
    ensures |v| == |parts| && AllUint32(v) && RenderAll(v) == parts
  {
    hide PartAccepted, Decimal.AllDigits, Decimal.Value, Decimal.Render;
    forall i | 0 <= i < |parts|
      ensures Decimal.AllDigits(parts[i]) && Decimal.Value(parts[i]) < 0x1_0000_0000
      ensures Decimal.Render(Decimal.Value(parts[i])) == parts[i]
    {
      AcceptedPart(parts[i]);
    }
    v := seq(|parts|, i requires 0 <= i < |parts| && Decimal.AllDigits(parts[i]) => Decimal.Value(parts[i]));
  }

  lemma RenderedParts(v: seq<nat>)
    requires AllUint32(v)
    ensures forall i :: 0 <= i < |v| ==> PartAccepted(RenderAll(v)[i])
  {
    hide PartAccepted, Decimal.Render;
    forall i | 0 <= i < |v|
      ensures PartAccepted(RenderAll(v)[i])
    {
      RenderedPart(v[i]);
    }
  }

  lemma RenderedPart(n: nat)
    requires n < 0x1_0000_0000
    ensures PartAccepted(Decimal.Render(n))
  {
    Decimal.RenderIsCanonical(n);
    Decimal.RenderLength32(n);
  }

  lemma ServiceSidParts(s: string)
    ensures IsServiceSid(s) <==>
            && SERVICE_PREFIX <= s
            && |Text.Split(s[|SERVICE_PREFIX|..], '-')| == 5
            && forall i :: 0 <= i < 5 ==> PartAccepted(Text.Split(s[|SERVICE_PREFIX|..], '-')[i])
  {
    hide PartAccepted, Text.Split, Text.Join, ServiceSidText, RenderAll;
    if IsServiceSid(s) {
      var v :| FiveUint32(v) && s == ServiceSidText(v);
      ServiceSidTextShape(v);
      SplitServiceSid(v);
      RenderedParts(v);
    }
    if SERVICE_PREFIX <= s {
      var rest := s[|SERVICE_PREFIX|..];
      var parts := Text.Split(rest, '-');
      if |parts| == 5 && forall i :: 0 <= i < 5 ==> PartAccepted(parts[i]) {
        var v := AcceptedPartsAreRendered(parts);
        Text.JoinOfSplit(rest, '-');
        ServiceSidTextShape(v);
        assert s == SERVICE_PREFIX + rest;
        assert FiveUint32(v) && s == ServiceSidText(v);
      }
    }
  }

  /** isServiceSID. */
  method CheckServiceSID(s: string) returns (ok: bool)
    ensures ok <==> IsServiceSid(s)
  {
    ServiceSidParts(s);
    if !(SERVICE_PREFIX <= s) {
      return false;
    }
    var parts := Text.Split(s[|SERVICE_PREFIX|..], '-');
    if |parts| != 5 {
      return false;
    }
    for i := 0 to 5
      invariant forall k :: 0 <= k < i ==> PartAccepted(parts[k])
    {
      var p := parts[i];
      if p == "" || |p| > 10 || (|p| > 1 && p[0] == '0') {
        return false;
      }
      if Decimal.ParseUint(p, 0xFFFF_FFFF).None? {
        return false;
      }
    }
    return true;
  }
}
