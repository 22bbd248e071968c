/** The policy engine's three operations over the native key store. */
module PolicyEngine {
  import opened Bytes
  import opened Classifier
  import opened Policies
  import opened Seam
  import opened EngineRuns
  import opened EngineProperties
  import opened WindowsMeaning
  import opened Ncrypt
  import opened NativeKeys
  import opened NativeAnswers
  import opened NativeStore

  // ----- runs on a trace that grows -----

  lemma CheckRunGrows(mean: Meaning, evs: seq<Event>, longer: seq<Event>, i: nat, j: nat, h: Handle, s: PolicySpec)
    requires evs <= longer && CheckRun(evs, i, j, h)
    ensures CheckRun(longer, i, j, h) && CheckError(mean, longer, i, j, h, s) == CheckError(mean, evs, i, j, h, s)
    ensures CheckEnd(longer, i) == CheckEnd(evs, i)
  {
    hide InState;
  }

  /** checkDACLState. */
  method CheckDACLState(k: NativeKey, want: PolicySpec) returns (err: Error)
    requires k.Held()
    modifies k.store`trace, k.store.nc`calls
    ensures old(k.store.nc.calls) <= k.store.nc.calls
    ensures err.Ok? ==> |k.store.nc.calls| == |old(k.store.nc.calls)| + 2
    ensures err.Ok? ==> DescriptorAt(k.store.nc.calls, |old(k.store.nc.calls)|, k.key) && EndsInState(k.store.nc.calls, want)
    ensures |k.store.trace| == |old(k.store.trace)| + 1 && old(k.store.trace) <= k.store.trace
    ensures var e := k.store.trace[|old(k.store.trace)|];
      e.ReadDescriptor? && e.h == k.handle && CleanError(e) && err == DaclStateError(Windows(), e, want)
  {
    var sd, readErr := k.SecurityDescriptor();
    if readErr.Failed? {
      return readErr;
    }
    var got, sid, classErr := ClassifyDescriptorSID(sd);
    if classErr {
      return Failed({ErrPolicyMismatch});
    }
    if got != want.state || sid != want.serviceSID {
      return Failed({ErrPolicyMismatch});
    }
    return Ok;
  }

  /** checkKeyPolicy. */
  method CheckKeyPolicy(k: NativeKey, s: PolicySpec) returns (err: Error)
    requires k.Held()
    modifies k.store`trace, k.store.nc`calls
    ensures old(k.store.nc.calls) <= k.store.nc.calls
    ensures err.Ok? ==> |k.store.nc.calls| == |old(k.store.nc.calls)| + 4
    ensures err.Ok? ==> CheckedAt(k.store.nc.calls, |old(k.store.nc.calls)|, k.key, s)
    ensures old(k.store.trace) <= k.store.trace
    ensures CheckRun(k.store.trace, |old(k.store.trace)|, |k.store.trace|, k.handle)
    ensures CheckEnd(k.store.trace, |old(k.store.trace)|) == |k.store.trace|
    ensures err == CheckError(Windows(), k.store.trace, |old(k.store.trace)|, |k.store.trace|, k.handle, s)
    ensures CleanErrors(k.store.trace, |old(k.store.trace)|, |k.store.trace|)
  {
    hide InState, Classify, ForbidsExport;
    var exportErr := k.VerifyNonExportable();
    if exportErr.Failed? {
      return exportErr;
    }
    var pubErr := k.PublicKey();
    if pubErr.Failed? {
      return Failed({ErrPolicyMismatch});
    }
    err := CheckDACLState(k, s);
  }

  /** The returned values and the outcome that the run predicates speak of are the same thing. */
  ghost predicate Reports(signer: CngSigner?, err: Error, r: Outcome) {
    && (err.Ok? <==> signer != null)
    && (r.Signed? <==> signer != null)
    && (r.Refused? ==> err == Failed(r.wraps))
  }

  lemma SignRunAfter(mean: Meaning, evs: seq<Event>, i: nat, m: nat, j: nat, h: Handle, s: PolicySpec, r: Outcome)
    requires CheckEnd(evs, i) == m && CheckRun(evs, i, m, h) && CheckError(mean, evs, i, m, h, s).Ok?
    requires SignRun(evs, m, j, h, r)
    ensures SignerRun(mean, evs, i, j, h, s, r)
  {
    hide InState;
  }

  lemma CleanExtends(evs: seq<Event>, longer: seq<Event>, i: nat)
    requires evs <= longer && CleanErrors(evs, i, |evs|) && CleanErrors(longer, |evs|, |longer|)
    ensures CleanErrors(longer, i, |longer|)
  {
    hide CleanError;
    forall k | i <= k < |longer|
      ensures CleanError(longer[k])
    {
      if k < |evs| {
        assert longer[k] == evs[k];
      }
    }
  }

  /** signerWithPolicy: the key's handles go to the signer, or are freed. */
  method SignerWithPolicy(k: NativeKey, s: PolicySpec) returns (signer: CngSigner?, err: Error, ghost r: Outcome)
    requires k.Held()
    modifies k, k.store`trace, k.store.nc`live, k.store.nc`calls
    ensures old(k.store.nc.calls) <= k.store.nc.calls
    ensures signer != null ==> EndsSigned(k.store.nc.calls, signer.key, s)
    ensures old(k.store.trace) <= k.store.trace && k.store.nc.Valid() && k.Ended()
    ensures SignerRun(Windows(), k.store.trace, |old(k.store.trace)|, |k.store.trace|, k.handle, s, r)
    ensures CleanErrors(k.store.trace, |old(k.store.trace)|, |k.store.trace|)
    ensures Reports(signer, err, r)
    ensures signer != null ==>
      && fresh(signer) && signer.nc == k.store.nc && signer.name == k.name
      && signer.provider == old(k.provider) && signer.key == old(k.key)
      && k.store.nc.live == old(k.store.nc.live)
    ensures signer == null ==> k.store.nc.live == old(k.store.nc.live) - {old(k.provider), old(k.key)}
  {
    hide InState, CleanError, CheckRun, CheckError, CheckEnd, SignerRun, CheckedAt;
    ghost var i := |k.store.trace|;
    ghost var n, handle := |k.store.nc.calls|, k.key;
    var checkErr := CheckKeyPolicy(k, s);
    ghost var checked, answered := k.store.trace, k.store.nc.calls;
    if checkErr.Failed? {
      k.Close();
      CheckRunGrows(Windows(), checked, k.store.trace, i, |checked|, k.handle, s);
      signer, err, r := null, checkErr, Refused(checkErr.wraps);
      RefusedRun(Windows(), k.store.trace, i, |checked|, k.handle, s);
      CloseIsClean(k.store.trace, |checked|);
    } else {
      signer, err := k.Signer();
      if err.Failed? {
        k.Close();
        r := Refused(err.wraps);
      } else {
        r := Signed(k.handle);
      }
      CheckedGrows(answered, k.store.nc.calls, n, handle, s);
      CheckRunGrows(Windows(), checked, k.store.trace, i, |checked|, k.handle, s);
      SignRunAfter(Windows(), k.store.trace, i, |checked|, |k.store.trace|, k.handle, s, r);
      CloseIsClean(k.store.trace, |checked| + 1);
    }
    CleanExtends(checked, k.store.trace, i);
  }

  lemma RefusedRun(mean: Meaning, evs: seq<Event>, i: nat, m: nat, h: Handle, s: PolicySpec)
    requires CheckEnd(evs, i) == m && CheckRun(evs, i, m, h) && CheckError(mean, evs, i, m, h, s).Failed?
    requires m + 1 == |evs| && evs[m] == Close(h)
    ensures SignerRun(mean, evs, i, |evs|, h, s, Refused(CheckError(mean, evs, i, m, h, s).wraps))
  {
    hide InState;
  }

  lemma CloseIsClean(evs: seq<Event>, k: nat)
    ensures k < |evs| && evs[k].Close? ==> CleanError(evs[k])
  {
  }

  /**
   * openSpec. The calls made are an open run; a returned signer alone owns the two handles opened, and
   * otherwise no handle is left open.
   */
  method OpenSpec(ks: NativeKeyStore, name: string, s: PolicySpec)
    returns (signer: CngSigner?, err: Error, ghost r: Outcome)
    requires ks.nc.Valid()
    modifies ks`trace, ks.nc`live, ks.nc`calls
    ensures old(ks.nc.calls) <= ks.nc.calls
    ensures signer != null ==> EndsSigned(ks.nc.calls, signer.key, s)
    ensures s.privilegedOpen && !MembershipAt(ks.nc.calls, |old(ks.nc.calls)|) ==>
      err == Failed({ErrPrivilegeRequired}) && OnlyMemberships(ks.nc.calls, |old(ks.nc.calls)|)
    ensures old(ks.trace) <= ks.trace && ks.nc.Valid()
    ensures OpenRun(Windows(), ks.trace, |old(ks.trace)|, |ks.trace|, name, s, r)
    ensures r.Signed? ==> Validated(Windows(), ks.trace, |old(ks.trace)|, |ks.trace|, name, s, r.handle)
    ensures CleanErrors(ks.trace, |old(ks.trace)|, |ks.trace|)
    ensures Reports(signer, err, r)
    ensures signer != null ==>
      fresh(signer) && signer.nc == ks.nc && signer.name == name && OwnsAllNew(old(ks.nc.live), ks.nc.live, signer)
    ensures signer == null ==> ks.nc.live == old(ks.nc.live)
  {
    hide InState, CleanError, SignerRun, MembershipAt, EndsSigned, EndsRefused, EndsNotFound, NameConvertible, Validated;
    ghost var asked := ks.nc.calls;
    if s.privilegedOpen {
      var member, privErr := ks.CallerPrivileged();
      if privErr.Failed? || !member {
        return null, Failed({ErrPrivilegeRequired}), Refused({ErrPrivilegeRequired});
      }
      asked := ks.nc.calls;
    }
    ghost var before := ks.trace;
    var k, openErr := ks.Open(name);
    if s.privilegedOpen {
      MembershipGrows(asked, ks.nc.calls, |old(ks.nc.calls)|);
    }
    ghost var tried := ks.nc.calls;
    if k == null {
      return null, openErr, Refused(openErr.wraps);
    }
    ghost var afterOpen := ks.trace;
    signer, err, r := SignerWithPolicy(k, s);
    if s.privilegedOpen {
      MembershipGrows(tried, ks.nc.calls, |old(ks.nc.calls)|);
    }
    assert ks.trace[|before|] == afterOpen[|before|];
    CleanExtends(afterOpen, ks.trace, |old(ks.trace)|);
    if r.Signed? {
      SignerImpliesValidation(Windows(), ks.trace, |old(ks.trace)|, |ks.trace|, name, s, r.handle);
    }
  }

  /** The last steps were a failed signer construction and a close. */
  ghost predicate EndsUnsigned(evs: seq<Event>) {
    |evs| >= 2 && evs[|evs| - 2].MakeSigner? && evs[|evs| - 2].err.Failed? && evs[|evs| - 1].Close?
  }

  /**
   * At most the absent key `name` was added; a failed call that did so says ErrCleanupFailed, or its last
   * steps were a failed signer construction and a close.
   */
  ghost predicate PersistedAccounted(before: set<string>, after: set<string>, name: string,
                                     signer: CngSigner?, err: Error, evs: seq<Event>)
  {
    || after == before
    || (&& name !in before && after == before + {name}
        && (signer == null ==>
              || (err.Failed? && ErrCleanupFailed in err.wraps)
              || EndsUnsigned(evs)))
  }

  /** loadOrCreateSpec, with the same guarantees on handles, and the persisted names accounted for. */
  method LoadOrCreateSpec(ks: NativeKeyStore, name: string, s: PolicySpec)
    returns (signer: CngSigner?, err: Error, ghost r: Outcome)
    requires ks.nc.Valid()
    modifies ks`trace, ks.nc
    ensures old(ks.trace) <= ks.trace && ks.nc.Valid()
    ensures old(ks.nc.calls) <= ks.nc.calls
    ensures signer != null ==> EndsSigned(ks.nc.calls, signer.key, s)
    ensures s.privilegedOpen && !MembershipAt(ks.nc.calls, |old(ks.nc.calls)|) ==>
      err == Failed({ErrPrivilegeRequired}) && OnlyMemberships(ks.nc.calls, |old(ks.nc.calls)|)
    ensures ks.nc.persisted != old(ks.nc.persisted) ==>
      && MembershipAt(ks.nc.calls, |old(ks.nc.calls)|)
      && PreparedSince(ks.nc.calls, |old(ks.nc.calls)|, name, s.sddl)
    ensures LoadRun(Windows(), ks.trace, |old(ks.trace)|, |ks.trace|, name, s, r)
    ensures r.Signed? ==> Validated(Windows(), ks.trace, |old(ks.trace)|, |ks.trace|, name, s, r.handle)
    ensures CleanErrors(ks.trace, |old(ks.trace)|, |ks.trace|)
    ensures Reports(signer, err, r)
    ensures signer != null ==>
      fresh(signer) && signer.nc == ks.nc && signer.name == name && OwnsAllNew(old(ks.nc.live), ks.nc.live, signer)
    ensures signer == null ==> ks.nc.live == old(ks.nc.live)
    ensures PersistedAccounted(old(ks.nc.persisted), ks.nc.persisted, name, signer, err, ks.trace)
  {
    hide InState, CleanError, SignerRun, CreateRun, MembershipAt, EndsSigned, PreparedSince, EndsRefused, EndsNotFound;
    hide NameConvertible, Validated, EndsUnsigned;
    var privileged, privErr := ks.CallerPrivileged();
    if privErr.Failed? {
      privileged := false;
    }
    ghost var asked := ks.nc.calls;
    if s.privilegedOpen && !privileged {
      return null, Failed({ErrPrivilegeRequired}), Refused({ErrPrivilegeRequired});
    }
    ghost var before := ks.trace;
    var k, openErr := ks.Open(name);
    ghost var afterOpen := ks.trace;
    if k != null {
      signer, err, r := SignerWithPolicy(k, s);
      if privileged {
        MembershipGrows(asked, ks.nc.calls, |old(ks.nc.calls)|);
      }
      assert ks.trace[|before|] == afterOpen[|before|] && ks.trace[|before| - 1] == afterOpen[|before| - 1];
      CleanExtends(afterOpen, ks.trace, |old(ks.trace)|);
      if r.Signed? {
        SignerImpliesValidation(Windows(), ks.trace, |old(ks.trace)|, |ks.trace|, name, s, r.handle);
      }
      return;
    }
    if privileged {
      MembershipGrows(asked, ks.nc.calls, |old(ks.nc.calls)|);
    }
    if ErrKeyNotFound !in openErr.wraps {
      return null, openErr, Refused(openErr.wraps);
    }
    if !privileged {
      return null, Failed({ErrPrivilegeRequired}), Refused({ErrPrivilegeRequired});
    }
    ghost var tried := ks.nc.calls;
    signer, err, r := CreateChecked(ks, name, s);
    MembershipGrows(tried, ks.nc.calls, |old(ks.nc.calls)|);
    if ks.nc.persisted != old(ks.nc.persisted) {
      PreparedGrows(ks.nc.calls, ks.nc.calls, |tried|, |old(ks.nc.calls)|, name, s.sddl);
    }
    assert ks.trace[|before|] == afterOpen[|before|] && ks.trace[|before| - 1] == afterOpen[|before| - 1];
    CleanExtends(afterOpen, ks.trace, |old(ks.trace)|);
    if r.Signed? {
      SignerImpliesValidation(Windows(), ks.trace, |old(ks.trace)|, |ks.trace|, name, s, r.handle);
    }
  }

  /** What a key just created leads to: its checks, and then its deletion or a signer. */
  ghost predicate CreatedRun(mean: Meaning, evs: seq<Event>, i: nat, j: nat, h: Handle, s: PolicySpec, r: Outcome) {
    var m := CheckEnd(evs, i);
    && CheckRun(evs, i, m, h)
    && var err := CheckError(mean, evs, i, m, h, s);
    if err.Failed? then
      && m < |evs| && j == m + 1
      && evs[m].DeleteCreated? && evs[m].h == h
      && r == Refused(CleanupWraps(err.wraps, evs[m].err))
    else SignRun(evs, m, j, h, r)
  }

  /** The creating half of loadOrCreateSpec from the checks on. */
  method CheckCreated(ks: NativeKeyStore, k: NativeKey, s: PolicySpec)
    returns (signer: CngSigner?, err: Error, ghost r: Outcome)
    requires k.Held() && k.store == ks
    modifies k, ks`trace, ks.nc
    ensures old(ks.trace) <= ks.trace && ks.nc.Valid()
    ensures old(ks.nc.calls) <= ks.nc.calls
    ensures signer != null ==> EndsSigned(ks.nc.calls, signer.key, s)
    ensures CreatedRun(Windows(), ks.trace, |old(ks.trace)|, |ks.trace|, k.handle, s, r)
    ensures CleanErrors(ks.trace, |old(ks.trace)|, |ks.trace|)
    ensures Reports(signer, err, r)
    ensures signer != null ==>
      && fresh(signer) && signer.nc == ks.nc && signer.name == k.name
      && signer.provider == old(k.provider) && signer.key == old(k.key)
      && ks.nc.live == old(ks.nc.live) && ks.nc.persisted == old(ks.nc.persisted)
    ensures signer == null ==> ks.nc.live == old(ks.nc.live) - {old(k.provider), old(k.key)}
    ensures signer == null ==>
      || ks.nc.persisted == old(ks.nc.persisted) - {k.name}
      || (&& ks.nc.persisted == old(ks.nc.persisted)
          && ((err.Failed? && ErrCleanupFailed in err.wraps) || EndsUnsigned(ks.trace)))
  {
    hide InState, CleanError, CheckRun, CheckError, CheckEnd, CheckedAt;
    ghost var i := |ks.trace|;
    ghost var n, key := |ks.nc.calls|, k.key;
    var checkErr := CheckKeyPolicy(k, s);
    ghost var checked, answered := ks.trace, ks.nc.calls;
    if checkErr.Failed? {
      var deleted := k.DeleteCreated();
      signer, err := null, Failed(CleanupWraps(checkErr.wraps, deleted));
      r := Refused(err.wraps);
    } else {
      signer, err := k.Signer();
      if err.Failed? {
        k.Close();
        r := Refused(err.wraps);
      } else {
        r := Signed(k.handle);
      }
      CheckedGrows(answered, ks.nc.calls, n, key, s);
      CloseIsClean(ks.trace, |checked| + 1);
    }
    CheckRunGrows(Windows(), checked, ks.trace, i, |checked|, k.handle, s);
    CleanExtends(checked, ks.trace, i);
  }

  /** The creating half of loadOrCreateSpec. */
  method CreateChecked(ks: NativeKeyStore, name: string, s: PolicySpec)
    returns (signer: CngSigner?, err: Error, ghost r: Outcome)
    requires ks.nc.Valid()
    modifies ks`trace, ks.nc
    ensures old(ks.trace) <= ks.trace && ks.nc.Valid()
    ensures old(ks.nc.calls) <= ks.nc.calls
    ensures signer != null ==> EndsSigned(ks.nc.calls, signer.key, s)
    ensures ks.nc.persisted != old(ks.nc.persisted) ==> PreparedSince(ks.nc.calls, |old(ks.nc.calls)|, name, s.sddl)
    ensures CreateRun(Windows(), ks.trace, |old(ks.trace)|, |ks.trace|, name, s, r)
    ensures CleanErrors(ks.trace, |old(ks.trace)|, |ks.trace|)
    ensures Reports(signer, err, r)
    ensures signer != null ==>
      fresh(signer) && signer.nc == ks.nc && signer.name == name && OwnsAllNew(old(ks.nc.live), ks.nc.live, signer)
    ensures signer == null ==> ks.nc.live == old(ks.nc.live)
    ensures PersistedAccounted(old(ks.nc.persisted), ks.nc.persisted, name, signer, err, ks.trace)
  {
    hide InState, CleanError, CheckRun, CheckError, CheckEnd, EndsSigned, PreparedSince, CreatedAt, SignRun;
    ghost var i := |ks.trace|;
    var k, createErr := ks.Create(name, s.sddl);
    if k == null {
      return null, createErr, Refused(createErr.wraps);
    }
    ghost var created, prepared := ks.trace, ks.nc.calls;
    signer, err, r := CheckCreated(ks, k, s);
    PreparedGrows(prepared, ks.nc.calls, |old(ks.nc.calls)|, |old(ks.nc.calls)|, name, s.sddl);
    assert ks.trace[i] == created[i];
    CleanExtends(created, ks.trace, i);
  }

  // ----- apply -----

  /** The read-back of applySpec from a freshly opened key. */
  ghost predicate FreshRun(mean: Meaning, evs: seq<Event>, i: nat, j: nat, name: string, want: PolicySpec, err: Error) {
    && i < j <= |evs|
    && evs[i].Open? && evs[i].name == name
    && match evs[i].res
       case NotOpened(_) => j == i + 1 && err == Failed({ErrPostWriteVerification})
       case Opened(again) =>
         && j == i + 3 && evs[i + 1].ReadDescriptor? && evs[i + 1].h == again
         && evs[i + 2] == Close(again)
         && err == if DaclStateError(mean, evs[i + 1], want).Failed? then Failed({ErrPostWriteVerification}) else Ok
  }

  method ConfirmFresh(ks: NativeKeyStore, name: string, want: PolicySpec) returns (err: Error)
    requires ks.nc.Valid()
    modifies ks`trace, ks.nc`live, ks.nc`calls
    ensures old(ks.nc.calls) <= ks.nc.calls
    ensures err.Ok? ==> EndsInState(ks.nc.calls, want)
    ensures old(ks.trace) <= ks.trace && ks.nc.Valid() && ks.nc.live == old(ks.nc.live)
    ensures FreshRun(Windows(), ks.trace, |old(ks.trace)|, |ks.trace|, name, want, err)
    ensures CleanErrors(ks.trace, |old(ks.trace)|, |ks.trace|)
  {
    hide InState, CleanError, EndsInState;
    ghost var i := |ks.trace|;
    var again, reopenErr := ks.Open(name);
    if again == null {
      return Failed({ErrPostWriteVerification});
    }
    var freshErr := CheckDACLState(again, want);
    again.Close();
    CloseIsClean(ks.trace, i + 2);
    err := if freshErr.Failed? then Failed({ErrPostWriteVerification}) else Ok;
  }

  /** The part of applySpec from the write on; `k` stays open. */
  method WriteAndConfirm(ks: NativeKeyStore, k: NativeKey, name: string, want: PolicySpec) returns (err: Error)
    requires k.Held() && k.store == ks
    modifies ks`trace, ks.nc`live, ks.nc`calls
    ensures old(ks.nc.calls) <= ks.nc.calls
    ensures err.Ok? ==> EndsInState(ks.nc.calls, want)
    ensures old(ks.trace) <= ks.trace && k.Held() && ks.nc.live == old(ks.nc.live)
    ensures WriteRun(Windows(), ks.trace, |old(ks.trace)|, |ks.trace|, k.handle, name, want, err)
    ensures CleanErrors(ks.trace, |old(ks.trace)|, |ks.trace|)
  {
    hide InState, CleanError, EndsInState;
    ghost var i := |ks.trace|;
    var writeErr := k.SetSecurityDescriptor(want.sddl);
    if writeErr.Failed? {
      return writeErr;
    }
    var sameErr := CheckDACLState(k, want);
    if sameErr.Failed? {
      return Failed({ErrPostWriteVerification});
    }
    ghost var same := ks.trace;
    err := ConfirmFresh(ks, name, want);
    assert ks.trace[i] == same[i] && ks.trace[i + 1] == same[i + 1];
    CleanExtends(same, ks.trace, i);
  }

  /** applySpec with its key open. */
  method ApplyOpened(ks: NativeKeyStore, k: NativeKey, name: string, want: PolicySpec) returns (err: Error)
    requires k.Held() && k.store == ks
    modifies ks`trace, ks.nc`live, ks.nc`calls
    ensures old(ks.nc.calls) <= ks.nc.calls
    ensures err.Ok? ==> EndsInState(ks.nc.calls, want)
    ensures old(ks.trace) <= ks.trace && k.Held() && ks.nc.live == old(ks.nc.live)
    ensures ApplyOpenRun(Windows(), ks.trace, |old(ks.trace)|, |ks.trace|, k.handle, name, want, err)
    ensures CleanErrors(ks.trace, |old(ks.trace)|, |ks.trace|)
  {
    hide Classify, CleanError, WriteRun, ForbidsExport, Refusing;
    ghost var i := |ks.trace|;
    var exportErr := k.VerifyNonExportable();
    if exportErr.Failed? {
      return exportErr;
    }
    var pubErr := k.PublicKey();
    if pubErr.Failed? {
      return Failed({ErrPolicyMismatch});
    }
    var sd, readErr := k.SecurityDescriptor();
    if readErr.Failed? {
      return readErr;
    }
    ghost var read := ks.trace;
    var current, currentSID, classErr := ClassifyDescriptorSID(sd);
    if classErr {
      return Failed({ErrPolicyMismatch});
    }
    if current == want.state && currentSID == want.serviceSID {
      return Ok;
    }
    if !TransitionAllowed(current, want) {
      return Failed({ErrPolicyMismatch});
    }
    err := WriteAndConfirm(ks, k, name, want);
    assert ks.trace[i] == read[i] && ks.trace[i + 1] == read[i + 1] && ks.trace[i + 2] == read[i + 2];
    CleanExtends(read, ks.trace, i);
  }

  /** applySpec: the calls made are an apply run, no handle is left open and no key is created or deleted. */
  method ApplySpec(ks: NativeKeyStore, name: string, want: PolicySpec) returns (err: Error)
    requires ks.nc.Valid()
    modifies ks`trace, ks.nc`live, ks.nc`calls
    ensures old(ks.nc.calls) <= ks.nc.calls
    ensures err.Ok? ==> EndsInState(ks.nc.calls, want)
    ensures old(ks.trace) <= ks.trace && ks.nc.Valid() && ks.nc.live == old(ks.nc.live)
    ensures err == Failed({ErrPrivilegeRequired}) <==> !MembershipAt(ks.nc.calls, |old(ks.nc.calls)|)
    ensures err == Failed({ErrPrivilegeRequired}) ==> OnlyMemberships(ks.nc.calls, |old(ks.nc.calls)|)
    ensures ApplyRun(Windows(), ks.trace, |old(ks.trace)|, |ks.trace|, name, want, err)
    ensures CleanErrors(ks.trace, |old(ks.trace)|, |ks.trace|)
    ensures err.Failed? ==> ApplyErrorExplained(ks.trace, |old(ks.trace)|, |ks.trace|, err.wraps)
  {
    hide InState, CleanError, ApplyOpenRun, ApplyErrorExplained, EndsInState, MembershipAt;
    ghost var i := |ks.trace|;
    var member, privErr := ks.CallerPrivileged();
    if privErr.Failed? || !member {
      err := Failed({ErrPrivilegeRequired});
      ApplyErrorMeaning(Windows(), ks.trace, i, |ks.trace|, name, want, err);
      return;
    }
    ghost var asked := ks.nc.calls;
    var k, openErr := ks.Open(name);
    MembershipGrows(asked, ks.nc.calls, |old(ks.nc.calls)|);
    ghost var tried := ks.nc.calls;
    if k == null {
      err := openErr;
      ApplyErrorMeaning(Windows(), ks.trace, i, |ks.trace|, name, want, err);
      GrantedIsNotRefused(ks.trace, i, |ks.trace|, err.wraps);
      return;
    }
    ghost var afterOpen := ks.trace;
    err := ApplyOpened(ks, k, name, want);
    ghost var applied := ks.trace;
    MembershipGrows(tried, ks.nc.calls, |old(ks.nc.calls)|);
    CleanExtends(afterOpen, applied, i);
    k.Close();
    CloseIsClean(ks.trace, |applied|);
    CleanExtends(applied, ks.trace, i);
    assert ks.trace[i] == afterOpen[i] && ks.trace[i + 1] == afterOpen[i + 1];
    ApplyOpenRunGrows(Windows(), applied, ks.trace, i + 2, |applied|, k.handle, name, want, err);
    if err.Failed? {
      ApplyErrorMeaning(Windows(), ks.trace, i, |ks.trace|, name, want, err);
      GrantedIsNotRefused(ks.trace, i, |ks.trace|, err.wraps);
    }
  }

  lemma GrantedIsNotRefused(evs: seq<Event>, i: nat, j: nat, wraps: set<Sentinel>)
    requires ApplyErrorExplained(evs, i, j, wraps) && Granted(evs[i])
    ensures ErrPrivilegeRequired !in wraps
  {
  }

  lemma ApplyOpenRunGrows(mean: Meaning, evs: seq<Event>, longer: seq<Event>, i: nat, j: nat, h: Handle, name: string,
                          want: PolicySpec, err: Error)
    requires evs <= longer && j == |evs| && ApplyOpenRun(mean, evs, i, j, h, name, want, err)
    ensures ApplyOpenRun(mean, longer, i, j, h, name, want, err)
  {
    hide TransitionAllowed;
    CheckRunGrows(mean, evs, longer, i, CheckEnd(evs, i), h, want);
  }
}
