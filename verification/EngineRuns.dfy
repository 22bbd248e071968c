/**
 * The calls that openSpec, loadOrCreateSpec and applySpec make through the seam, for any answers the
 * store may give. A predicate `XRun(evs, i, j, ...)` says that the events from `i` up to `j` are one
 * complete run of X with the stated result.
 */
module EngineRuns {
  import opened Bytes
  import opened Seam
  import opened Classifier
  import opened Policies

  /** What descriptors and SDDL strings mean. The theorems about runs hold for every meaning. */
  datatype Meaning = Meaning(classify: seq<byte> -> Classification, requested: string -> Classification)

  /** The spec names a recognised state, and its SDDL string requests a descriptor in that state. */
  predicate Understood(mean: Meaning, s: PolicySpec) {
    s.state != Unknown && mean.requested(s.sddl) == Classified(s.state, s.serviceSID)
  }

  /** transitionAllowed. */
  predicate TransitionAllowed(current: DaclState, want: PolicySpec) {
    match want.state
    case PrivilegedOnly => current == ServiceSigner || current == ServiceSID
    case ServiceSID => current == ServiceSigner
    case _ => false
  }

  ghost predicate InState(mean: Meaning, sd: seq<byte>, s: PolicySpec) {
    mean.classify(sd).state != Unknown && mean.classify(sd) == Classified(s.state, s.serviceSID)
  }

  predicate Granted(e: Event) {
    e.Privilege? && e.err.Ok? && e.member
  }

  /** checkDACLState on handle `h`, given its one read. */
  ghost function DaclStateError(mean: Meaning, e: Event, s: PolicySpec): Error
    requires e.ReadDescriptor?
  {
    if e.err.Failed? then e.err
    else if InState(mean, e.sd, s) then Ok
    else Failed({ErrPolicyMismatch})
  }

  // ----- checkKeyPolicy: export policy, public key, DACL, stopping at the first failure -----

  predicate CheckRun(evs: seq<Event>, i: nat, j: nat, h: Handle) {
    && i < j <= |evs|
    && evs[i].VerifyExport? && evs[i].h == h
    && if evs[i].err.Failed? then j == i + 1
       else
         && i + 1 < j && evs[i + 1].PublicKey? && evs[i + 1].h == h
         && if evs[i + 1].err.Failed? then j == i + 2
            else j == i + 3 && evs[i + 2].ReadDescriptor? && evs[i + 2].h == h
  }

  /** The error of a checkKeyPolicy run. */
  ghost function CheckError(mean: Meaning, evs: seq<Event>, i: nat, j: nat, h: Handle, s: PolicySpec): Error
    requires CheckRun(evs, i, j, h)
  {
    if j == i + 1 then evs[i].err
    else if j == i + 2 then Failed({ErrPolicyMismatch})
    else DaclStateError(mean, evs[i + 2], s)
  }

  /** Where a checkKeyPolicy run that starts at `i` ends. */
  function CheckEnd(evs: seq<Event>, i: nat): nat {
    if i < |evs| && evs[i].VerifyExport? && evs[i].err.Failed? then i + 1
    else if i + 1 < |evs| && evs[i + 1].PublicKey? && evs[i + 1].err.Failed? then i + 2
    else i + 3
  }

  // ----- openSpec -----

  /** After the checks passed: signer, closing the key if that fails. */
  predicate SignRun(evs: seq<Event>, i: nat, j: nat, h: Handle, r: Outcome) {
    && i < j <= |evs|
    && evs[i].MakeSigner? && evs[i].h == h
    && if evs[i].err.Ok? then j == i + 1 && r == Signed(h)
       else j == i + 2 && evs[i + 1] == Close(h) && r == Refused(evs[i].err.wraps)
  }

  /** signerWithPolicy. */
  ghost predicate SignerRun(mean: Meaning, evs: seq<Event>, i: nat, j: nat, h: Handle, s: PolicySpec, r: Outcome) {
    var m := CheckEnd(evs, i);
    && CheckRun(evs, i, m, h)
    && var err := CheckError(mean, evs, i, m, h, s);
    if err.Failed? then m < |evs| && j == m + 1 && evs[m] == Close(h) && r == Refused(err.wraps)
    else SignRun(evs, m, j, h, r)
  }

  ghost predicate OpenedRun(mean: Meaning, evs: seq<Event>, i: nat, j: nat, name: string, s: PolicySpec, r: Outcome) {
    && i < j <= |evs|
    && evs[i].Open? && evs[i].name == name
    && match evs[i].res
       case NotOpened(w) => j == i + 1 && r == Refused(w)
       case Opened(h) => SignerRun(mean, evs, i + 1, j, h, s, r)
  }

  ghost predicate OpenRun(mean: Meaning, evs: seq<Event>, i: nat, j: nat, name: string, s: PolicySpec, r: Outcome) {
    if !s.privilegedOpen then OpenedRun(mean, evs, i, j, name, s, r)
    else
      && i < j <= |evs| && evs[i].Privilege?
      && if Granted(evs[i]) then OpenedRun(mean, evs, i + 1, j, name, s, r)
         else j == i + 1 && r == Refused({ErrPrivilegeRequired})
  }

  // ----- loadOrCreateSpec -----

  /** The creating half: create, check, and delete the created key if the checks fail. */
  ghost predicate CreateRun(mean: Meaning, evs: seq<Event>, i: nat, j: nat, name: string, s: PolicySpec, r: Outcome) {
    && i < j <= |evs|
    && evs[i].Create? && evs[i].name == name && evs[i].sddl == s.sddl
    && match evs[i].res
       case NotOpened(w) => j == i + 1 && r == Refused(w)
       case Opened(h) =>
         var m := CheckEnd(evs, i + 1);
         && CheckRun(evs, i + 1, m, h)
         && var err := CheckError(mean, evs, i + 1, m, h, s);
         if err.Failed? then
           && m < |evs| && j == m + 1
           && evs[m].DeleteCreated? && evs[m].h == h
           && r == Refused(CleanupWraps(err.wraps, evs[m].err))
         else SignRun(evs, m, j, h, r)
  }

  ghost predicate LoadRun(mean: Meaning, evs: seq<Event>, i: nat, j: nat, name: string, s: PolicySpec, r: Outcome) {
    && i < j <= |evs| && evs[i].Privilege?
    && if s.privilegedOpen && !Granted(evs[i]) then j == i + 1 && r == Refused({ErrPrivilegeRequired})
       else
         && i + 1 < j && evs[i + 1].Open? && evs[i + 1].name == name
         && match evs[i + 1].res
            case Opened(h) => SignerRun(mean, evs, i + 2, j, h, s, r)
            case NotOpened(w) =>
              if ErrKeyNotFound !in w then j == i + 2 && r == Refused(w)
              else if !Granted(evs[i]) then j == i + 2 && r == Refused({ErrPrivilegeRequired})
              else CreateRun(mean, evs, i + 2, j, name, s, r)
  }

  // ----- applySpec -----

  /** From the write on: the write, the read-back, a fresh open and its read-back and close. */
  ghost predicate WriteRun(mean: Meaning, evs: seq<Event>, i: nat, j: nat, h: Handle, name: string, want: PolicySpec, err: Error) {
    && i < j <= |evs|
    && evs[i].WriteDescriptor? && evs[i].h == h && evs[i].sddl == want.sddl
    && if evs[i].err.Failed? then j == i + 1 && err == evs[i].err
       else
         && i + 1 < j && evs[i + 1].ReadDescriptor? && evs[i + 1].h == h
         && if DaclStateError(mean, evs[i + 1], want).Failed? then j == i + 2 && err == Failed({ErrPostWriteVerification})
            else
              && i + 2 < j && evs[i + 2].Open? && evs[i + 2].name == name
              && match evs[i + 2].res
                 case NotOpened(_) => j == i + 3 && err == Failed({ErrPostWriteVerification})
                 case Opened(again) =>
                   && j == i + 5 && evs[i + 3].ReadDescriptor? && evs[i + 3].h == again
                   && evs[i + 4] == Close(again)
                   && err == if DaclStateError(mean, evs[i + 3], want).Failed?
                             then Failed({ErrPostWriteVerification}) else Ok
  }

  /** With the key open, up to but without the deferred close. */
  ghost predicate ApplyOpenRun(mean: Meaning, evs: seq<Event>, i: nat, j: nat, h: Handle, name: string, want: PolicySpec, err: Error) {
    && CheckRun(evs, i, CheckEnd(evs, i), h)
    && var m := CheckEnd(evs, i);
    if m == i + 1 then j == m && err == evs[i].err
    else if m == i + 2 then j == m && err == Failed({ErrPolicyMismatch})
    else if evs[i + 2].err.Failed? then j == m && err == evs[i + 2].err
    else
      var current := mean.classify(evs[i + 2].sd);
      if current.state == Unknown then j == m && err == Failed({ErrPolicyMismatch})
      else if current == Classified(want.state, want.serviceSID) then j == m && err == Ok
      else if !TransitionAllowed(current.state, want) then j == m && err == Failed({ErrPolicyMismatch})
      else WriteRun(mean, evs, m, j, h, name, want, err)
  }

  ghost predicate ApplyRun(mean: Meaning, evs: seq<Event>, i: nat, j: nat, name: string, want: PolicySpec, err: Error) {
    && i < j <= |evs| && evs[i].Privilege?
    && if !Granted(evs[i]) then j == i + 1 && err == Failed({ErrPrivilegeRequired})
       else
         && i + 1 < j && evs[i + 1].Open? && evs[i + 1].name == name
         && match evs[i + 1].res
            case NotOpened(w) => j == i + 2 && err == Failed(w)
            case Opened(h) => i + 2 < j && evs[j - 1] == Close(h) && ApplyOpenRun(mean, evs, i + 2, j - 1, h, name, want, err)
  }
}
