/** What every run of the policy engine keeps, whatever the store answers. */
module EngineProperties {
  import opened Bytes
  import opened Seam
  import opened Classifier
  import opened Policies
  import opened EngineRuns

  /** An event that can change what the store persists. */
  predicate Mutating(e: Event) {
    e.Create? || e.WriteDescriptor? || e.DeleteCreated?
  }

  ghost predicate NoMutation(evs: seq<Event>, i: nat, j: nat)
    requires j <= |evs|
  {
    forall k :: i <= k < j ==> !Mutating(evs[k])
  }

  /** A successful read on `h` at `k` whose bytes classify as the spec wants. */
  ghost predicate ReadInState(mean: Meaning, evs: seq<Event>, k: nat, h: Handle, s: PolicySpec) {
    k < |evs| && evs[k].ReadDescriptor? && evs[k].h == h && evs[k].err.Ok? && InState(mean, evs[k].sd, s)
  }

  predicate OpenedAs(evs: seq<Event>, k: nat, name: string, h: Handle) {
    k < |evs| && (evs[k].Open? || evs[k].Create?) && evs[k].name == name && evs[k].res == Opened(h)
  }

  // ----- apply -----

  /** Where a run of applySpec that got as far as writing wrote. */
  ghost predicate WroteAt(evs: seq<Event>, i: nat, j: nat, w: nat) {
    i <= w < j <= |evs| && evs[w].WriteDescriptor?
  }

  /** applySpec writes at most once, never creates or deletes, and writes only what the transition rules allow. */
  lemma ApplyWritesAtMostOnce(mean: Meaning, evs: seq<Event>, i: nat, j: nat, name: string, want: PolicySpec, err: Error)
    requires ApplyRun(mean, evs, i, j, name, want, err)
    ensures forall k :: i <= k < j ==> !evs[k].Create? && !evs[k].DeleteCreated? && !evs[k].MakeSigner?
    ensures forall w: nat, v: nat :: WroteAt(evs, i, j, w) && WroteAt(evs, i, j, v) ==> w == v
    ensures forall w: nat :: WroteAt(evs, i, j, w) ==>
      && w == i + 5 && evs[w].sddl == want.sddl
      && Granted(evs[i]) && OpenedAs(evs, i + 1, name, evs[w].h)
      && evs[i + 2] == VerifyExport(evs[w].h, Ok) && evs[i + 3] == PublicKey(evs[w].h, Ok)
      && evs[i + 4].ReadDescriptor? && evs[i + 4].h == evs[w].h && evs[i + 4].err.Ok?
      && TransitionAllowed(mean.classify(evs[i + 4].sd).state, want)
  {
    hide InState;
  }

  /** The transitions that applySpec makes. */
  predicate Migrates(current: DaclState, wanted: DaclState) {
    || (current == ServiceSigner && wanted == PrivilegedOnly)
    || (current == ServiceSigner && wanted == ServiceSID)
    || (current == ServiceSID && wanted == PrivilegedOnly)
  }

  /** A key that was opened for a privileged caller, passed the checks and was read as `current`. */
  ghost predicate ReadAs(mean: Meaning, evs: seq<Event>, i: nat, j: nat, name: string, current: Classification) {
    && i + 5 < j <= |evs|
    && evs[i] == Privilege(true, Ok)
    && evs[i + 1].Open? && evs[i + 1].name == name && evs[i + 1].res.Opened?
    && var h := evs[i + 1].res.handle;
    && evs[i + 2] == VerifyExport(h, Ok) && evs[i + 3] == PublicKey(h, Ok)
    && evs[i + 4].ReadDescriptor? && evs[i + 4].h == h && evs[i + 4].err.Ok?
    && mean.classify(evs[i + 4].sd) == current
  }

  /** applySpec writes exactly when the key it opened and checked is in a state that migrates to the wanted one. */
  lemma ApplyWritesExactly(mean: Meaning, evs: seq<Event>, i: nat, j: nat, name: string, want: PolicySpec, err: Error)
    requires ApplyRun(mean, evs, i, j, name, want, err)
    ensures (exists w: nat :: WroteAt(evs, i, j, w)) <==>
      exists current :: ReadAs(mean, evs, i, j, name, current) && Migrates(current.state, want.state)
  {
    hide InState;
    if i + 5 < j && evs[i + 5].WriteDescriptor? {
      assert WroteAt(evs, i, j, i + 5);
      assert ReadAs(mean, evs, i, j, name, mean.classify(evs[i + 4].sd));
    }
    ApplyWritesAtMostOnce(mean, evs, i, j, name, want, err);
  }

  /** Success means: already in the wanted state and nothing written, or written once and read back twice. */
  lemma ApplySuccess(mean: Meaning, evs: seq<Event>, i: nat, j: nat, name: string, want: PolicySpec)
    requires ApplyRun(mean, evs, i, j, name, want, Ok)
    requires want.state != Unknown
    ensures ApplyConfirmed(mean, evs, i, j, name, want)
  {
  }

  ghost predicate ApplyConfirmed(mean: Meaning, evs: seq<Event>, i: nat, j: nat, name: string, want: PolicySpec) {
    && i + 5 < j <= |evs|
    && evs[i + 1].Open? && evs[i + 1].name == name && evs[i + 1].res.Opened?
    && var h := evs[i + 1].res.handle;
    || (j == i + 6 && NoMutation(evs, i, j) && ReadInState(mean, evs, i + 4, h, want))
    || (&& j == i + 11
        && evs[i + 5] == WriteDescriptor(h, want.sddl, Ok) && ReadInState(mean, evs, i + 6, h, want)
        && evs[i + 7].Open? && evs[i + 7].name == name && evs[i + 7].res.Opened?
        && ReadInState(mean, evs, i + 8, evs[i + 7].res.handle, want)
        && NoMutation(evs, i + 6, j))
  }

  // ----- open and load-or-create -----

  /** openSpec never changes the store. */
  lemma OpenNeverMutates(mean: Meaning, evs: seq<Event>, i: nat, j: nat, name: string, s: PolicySpec, r: Outcome)
    requires OpenRun(mean, evs, i, j, name, s, r)
    ensures i < j <= |evs| && NoMutation(evs, i, j)
  {
    hide InState;
  }

  /** Creation happens at most once, for a privileged caller whose open in this call reported the key as not found. */
  ghost predicate CreationJustified(evs: seq<Event>, i: nat, k: nat, name: string, s: PolicySpec)
    requires i + 2 == k < |evs|
  {
    && Granted(evs[i])
    && evs[i + 1].Open? && evs[i + 1].name == name
    && evs[i + 1].res.NotOpened? && ErrKeyNotFound in evs[i + 1].res.wraps
    && evs[k].Create? && evs[k].name == name && evs[k].sddl == s.sddl
  }

  lemma CreationDiscipline(mean: Meaning, evs: seq<Event>, i: nat, j: nat, name: string, s: PolicySpec, r: Outcome)
    requires LoadRun(mean, evs, i, j, name, s, r)
    ensures forall k :: i <= k < j ==> !evs[k].WriteDescriptor?
    ensures forall k :: i <= k < j && evs[k].Create? ==> k == i + 2 && CreationJustified(evs, i, k, name, s)
    ensures forall k :: i <= k < j && evs[k].DeleteCreated? ==>
      k == j - 1 && i + 2 < k && evs[i + 2].Create? && evs[i + 2].res == Opened(evs[k].h)
  {
    hide InState;
  }

  /** The checks a signer on `h` implies, made on that same handle in this call, after it was opened or created. */
  ghost predicate Validated(mean: Meaning, evs: seq<Event>, i: nat, j: nat, name: string, s: PolicySpec, h: Handle) {
    && i + 5 <= j <= |evs|
    && OpenedAs(evs, j - 5, name, h)
    && evs[j - 4] == VerifyExport(h, Ok)
    && evs[j - 3] == PublicKey(h, Ok)
    && ReadInState(mean, evs, j - 2, h, s)
    && evs[j - 1] == MakeSigner(h, Ok)
  }

  lemma SignerImpliesValidation(mean: Meaning, evs: seq<Event>, i: nat, j: nat, name: string, s: PolicySpec, h: Handle)
    ensures OpenRun(mean, evs, i, j, name, s, Signed(h)) ==> Validated(mean, evs, i, j, name, s, h)
    ensures LoadRun(mean, evs, i, j, name, s, Signed(h)) ==> Validated(mean, evs, i, j, name, s, h)
  {
    hide InState;
  }

  // ----- the privilege gate -----

  /**
   * Privilege is asked for at most once, and first. A call that needs it and is not granted it makes no
   * other call and is refused; load-or-create always asks, and needs it to open a privileged-only key.
   */
  lemma PrivilegeGate(mean: Meaning, evs: seq<Event>, i: nat, j: nat, name: string, s: PolicySpec, r: Outcome)
    requires OpenRun(mean, evs, i, j, name, s, r) || LoadRun(mean, evs, i, j, name, s, r)
    ensures i < j <= |evs|
    ensures forall k :: i < k < j ==> !evs[k].Privilege?
    ensures LoadRun(mean, evs, i, j, name, s, r) || s.privilegedOpen ==> evs[i].Privilege?
    ensures s.privilegedOpen && evs[i] != Privilege(true, Ok) ==> j == i + 1 && r == Refused({ErrPrivilegeRequired})
    ensures s.privilegedOpen && (exists k :: i <= k < j && !evs[k].Privilege?) ==> evs[i] == Privilege(true, Ok)
    ensures evs[i] == Privilege(true, Ok) || !s.privilegedOpen ==>
      var o := if evs[i].Privilege? then i + 1 else i;
      o < j && evs[o].Open? && evs[o].name == name
  {
    hide InState;
  }

  /** applySpec always needs privilege. */
  lemma ApplyGate(mean: Meaning, evs: seq<Event>, i: nat, j: nat, name: string, want: PolicySpec, err: Error)
    requires ApplyRun(mean, evs, i, j, name, want, err)
    ensures i < j <= |evs| && evs[i].Privilege?
    ensures forall k :: i < k < j ==> !evs[k].Privilege?
    ensures evs[i] == Privilege(true, Ok) <==> i + 1 < j
    ensures evs[i] != Privilege(true, Ok) ==> err == Failed({ErrPrivilegeRequired})
  {
    hide InState;
  }

  // ----- what an error means -----

  /** Store errors wrap no package sentinel but ErrKeyNotFound from open and ErrCleanupFailed from create. */
  ghost predicate CleanError(e: Event) {
    match e
    case Open(_, res) => res.NotOpened? ==> res.wraps <= {ErrKeyNotFound}
    case Create(_, _, res) => res.NotOpened? ==> res.wraps <= {ErrCleanupFailed}
    case Close(_) => true
    case _ => e.err.Failed? ==> e.err.wraps == {}
  }

  ghost predicate CleanErrors(evs: seq<Event>, i: nat, j: nat)
    requires j <= |evs|
  {
    forall k :: i <= k < j ==> CleanError(evs[k])
  }

  /** A failure after a successful write is reported as such and as nothing else; no assumption on the store. */
  lemma FailureAfterWrite(mean: Meaning, evs: seq<Event>, i: nat, j: nat, name: string, want: PolicySpec, err: Error, w: nat)
    requires ApplyRun(mean, evs, i, j, name, want, err)
    requires WroteAt(evs, i, j, w) && evs[w].err.Ok?
    ensures err.Failed? ==> err.wraps == {ErrPostWriteVerification}
  {
    hide InState;
  }

  /** What each sentinel in an error of applySpec says about the events of the call. */
  ghost predicate ApplyErrorExplained(evs: seq<Event>, i: nat, j: nat, wraps: set<Sentinel>) {
    && i < j <= |evs|
    && wraps in {{}, {ErrKeyNotFound}, {ErrPolicyMismatch}, {ErrPrivilegeRequired}, {ErrPostWriteVerification}}
    && (ErrPolicyMismatch in wraps ==> NoMutation(evs, i, j))
    && (ErrKeyNotFound in wraps ==> NoMutation(evs, i, j) && j == i + 2 && evs[i + 1].Open?)
    && (ErrPrivilegeRequired in wraps <==> !Granted(evs[i]))
    && (ErrPrivilegeRequired in wraps ==> j == i + 1)
    && (ErrPostWriteVerification in wraps <==> i + 5 < j && evs[i + 5].WriteDescriptor? && evs[i + 5].err.Ok?)
  }

  lemma SubsetOfOne(w: set<Sentinel>, x: Sentinel)
    requires w <= {x}
    ensures w == {} || w == {x}
  {
    if x in w {
      assert w == {x};
    }
  }

  lemma ApplyErrorMeaning(mean: Meaning, evs: seq<Event>, i: nat, j: nat, name: string, want: PolicySpec, err: Error)
    requires ApplyRun(mean, evs, i, j, name, want, err) && err.Failed?
    requires j <= |evs| && CleanErrors(evs, i, j)
    ensures ApplyErrorExplained(evs, i, j, err.wraps)
  {
    hide InState;
    assert CleanError(evs[i]);
    assert i + 1 < j ==> CleanError(evs[i + 1]);
    if Granted(evs[i]) && evs[i + 1].res.NotOpened? {
      SubsetOfOne(evs[i + 1].res.wraps, ErrKeyNotFound);
    }
    assert i + 2 < j ==> CleanError(evs[i + 2]);
    assert i + 3 < j ==> CleanError(evs[i + 3]);
    assert i + 4 < j ==> CleanError(evs[i + 4]);
    assert i + 5 < j ==> CleanError(evs[i + 5]);
  }

  /** A failure other than that of the public key, whose error the engine wraps in its own. */
  predicate CauseOf(e: Event, w: set<Sentinel>) {
    match e
    case VerifyExport(_, err) => err == Failed(w)
    case ReadDescriptor(_, _, err) => err == Failed(w)
    case WriteDescriptor(_, _, err) => err == Failed(w)
    case MakeSigner(_, err) => err == Failed(w)
    case Create(_, _, res) => res == NotOpened(w)
    case _ => false
  }

  /** Whatever the store's errors wrap, openSpec and loadOrCreateSpec fail on each failure and keep all its sentinels. */
  lemma CausesAreKept(mean: Meaning, evs: seq<Event>, i: nat, j: nat, name: string, s: PolicySpec, r: Outcome, k: nat, w: set<Sentinel>)
    requires OpenRun(mean, evs, i, j, name, s, r) || LoadRun(mean, evs, i, j, name, s, r)
    requires i <= k < j <= |evs|
    ensures CauseOf(evs[k], w) ==> r.Refused? && w <= r.wraps
    ensures CauseOf(evs[k], w) && !evs[j - 1].DeleteCreated? ==> r == Refused(w)
    ensures evs[k].Open? && evs[k].res == NotOpened(w) && (OpenRun(mean, evs, i, j, name, s, r) || ErrKeyNotFound !in w) ==>
      r == Refused(w)
  {
    hide InState;
  }

  /** applySpec passes on the errors up to and including the write, and reports what fails after it in its own terms. */
  lemma ApplyCausesAreKept(mean: Meaning, evs: seq<Event>, i: nat, j: nat, name: string, want: PolicySpec, err: Error, k: nat, w: set<Sentinel>)
    requires ApplyRun(mean, evs, i, j, name, want, err)
    requires i <= k < j <= |evs|
    ensures CauseOf(evs[k], w) && k <= i + 5 ==> err == Failed(w)
    ensures evs[k].Open? && evs[k].res == NotOpened(w) && k <= i + 5 ==> err == Failed(w)
    ensures (CauseOf(evs[k], w) || (evs[k].Open? && evs[k].res == NotOpened(w))) && k > i + 5 ==>
      err == Failed({ErrPostWriteVerification})
  {
    hide InState;
  }

  /** The public key could not be read, or the descriptor was read and is not in the wanted state. */
  ghost predicate MismatchSeen(mean: Meaning, e: Event, s: PolicySpec) {
    || (e.PublicKey? && e.err.Failed?)
    || (e.ReadDescriptor? && e.err.Ok? && mean.classify(e.sd) != Classified(s.state, s.serviceSID))
    || (e.ReadDescriptor? && e.err.Ok? && mean.classify(e.sd).state == Unknown)
  }

  ghost predicate CleanupFailureSeen(e: Event) {
    || (e.DeleteCreated? && e.err.Failed?)
    || (e.Create? && e.res.NotOpened? && ErrCleanupFailed in e.res.wraps)
  }

  predicate NotFoundSeen(e: Event) {
    e.Open? && e.res.NotOpened? && ErrKeyNotFound in e.res.wraps
  }

  lemma CheckMismatch(mean: Meaning, evs: seq<Event>, i: nat, m: nat, h: Handle, s: PolicySpec)
    requires CheckRun(evs, i, m, h) && CleanErrors(evs, i, m) && CheckError(mean, evs, i, m, h, s).Failed?
    ensures ErrPolicyMismatch in CheckError(mean, evs, i, m, h, s).wraps <==> MismatchSeen(mean, evs[m - 1], s)
    ensures forall k :: i <= k < m - 1 ==> !MismatchSeen(mean, evs[k], s)
  {
    assert CleanError(evs[m - 1]);
  }

  /** Each sentinel in an error of openSpec or loadOrCreateSpec is there for exactly one reason. */
  lemma RefusalExact(mean: Meaning, evs: seq<Event>, i: nat, j: nat, name: string, s: PolicySpec, w: set<Sentinel>)
    requires j <= |evs| && CleanErrors(evs, i, j)
    requires OpenRun(mean, evs, i, j, name, s, Refused(w)) || LoadRun(mean, evs, i, j, name, s, Refused(w))
    ensures ErrPolicyMismatch in w <==> exists k :: i <= k < j && MismatchSeen(mean, evs[k], s)
    ensures ErrCleanupFailed in w <==> exists k :: i <= k < j && CleanupFailureSeen(evs[k])
    ensures ErrPrivilegeRequired in w <==>
      i < j && evs[i].Privilege? && evs[i] != Privilege(true, Ok)
      && (s.privilegedOpen || exists k :: i <= k < j && NotFoundSeen(evs[k]))
    ensures ErrKeyNotFound in w <==> i < j && evs[j - 1].Open? && NotFoundSeen(evs[j - 1]) && ErrPrivilegeRequired !in w
    ensures ErrPostWriteVerification !in w
  {
    hide OpenRun, LoadRun, MismatchSeen, CleanupFailureSeen, NotFoundSeen, CleanError;
    RefusalMismatch(mean, evs, i, j, name, s, w);
    RefusalOther(mean, evs, i, j, name, s, w);
  }

  lemma RefusalOther(mean: Meaning, evs: seq<Event>, i: nat, j: nat, name: string, s: PolicySpec, w: set<Sentinel>)
    requires j <= |evs| && CleanErrors(evs, i, j)
    requires OpenRun(mean, evs, i, j, name, s, Refused(w)) || LoadRun(mean, evs, i, j, name, s, Refused(w))
    ensures ErrCleanupFailed in w <==> exists k :: i <= k < j && CleanupFailureSeen(evs[k])
    ensures ErrPrivilegeRequired in w <==>
      i < j && evs[i].Privilege? && evs[i] != Privilege(true, Ok)
      && (s.privilegedOpen || exists k :: i <= k < j && NotFoundSeen(evs[k]))
    ensures ErrKeyNotFound in w <==> i < j && evs[j - 1].Open? && NotFoundSeen(evs[j - 1]) && ErrPrivilegeRequired !in w
    ensures ErrPostWriteVerification !in w
  {
    if OpenRun(mean, evs, i, j, name, s, Refused(w)) {
      OpenRefusal(mean, evs, i, j, name, s, w);
    } else {
      LoadRefusal(mean, evs, i, j, name, s, w);
    }
    hide OpenRun, LoadRun, CleanError, CleanupFailureSeen, NotFoundSeen;
  }

  lemma OpenRefusal(mean: Meaning, evs: seq<Event>, i: nat, j: nat, name: string, s: PolicySpec, w: set<Sentinel>)
    requires j <= |evs| && CleanErrors(evs, i, j) && OpenRun(mean, evs, i, j, name, s, Refused(w))
    ensures ErrCleanupFailed in w <==> exists k :: i <= k < j && CleanupFailureSeen(evs[k])
    ensures ErrPrivilegeRequired in w <==> i < j && evs[i].Privilege? && evs[i] != Privilege(true, Ok)
    ensures i < j && (evs[i].Privilege? <==> s.privilegedOpen)
    ensures ErrKeyNotFound in w <==> i < j && evs[j - 1].Open? && NotFoundSeen(evs[j - 1]) && ErrPrivilegeRequired !in w
    ensures ErrPostWriteVerification !in w
  {
    hide InState;
  }

  lemma LoadRefusal(mean: Meaning, evs: seq<Event>, i: nat, j: nat, name: string, s: PolicySpec, w: set<Sentinel>)
    requires j <= |evs| && CleanErrors(evs, i, j) && LoadRun(mean, evs, i, j, name, s, Refused(w))
    ensures ErrCleanupFailed in w <==> exists k :: i <= k < j && CleanupFailureSeen(evs[k])
    ensures ErrPrivilegeRequired in w <==>
      i < j && evs[i].Privilege? && evs[i] != Privilege(true, Ok)
      && (s.privilegedOpen || exists k :: i <= k < j && NotFoundSeen(evs[k]))
    ensures ErrKeyNotFound in w <==> i < j && evs[j - 1].Open? && NotFoundSeen(evs[j - 1]) && ErrPrivilegeRequired !in w
    ensures ErrPostWriteVerification !in w
  {
    hide InState;
  }

  lemma RefusalMismatch(mean: Meaning, evs: seq<Event>, i: nat, j: nat, name: string, s: PolicySpec, w: set<Sentinel>)
    requires j <= |evs| && CleanErrors(evs, i, j)
    requires OpenRun(mean, evs, i, j, name, s, Refused(w)) || LoadRun(mean, evs, i, j, name, s, Refused(w))
    ensures ErrPolicyMismatch in w <==> exists k :: i <= k < j && MismatchSeen(mean, evs[k], s)
  {
    hide MismatchSeen, InState;
    if OpenRun(mean, evs, i, j, name, s, Refused(w)) {
      OpenMismatch(mean, evs, i, j, name, s, w);
    } else {
      LoadMismatch(mean, evs, i, j, name, s, w);
    }
  }

  lemma OpenMismatch(mean: Meaning, evs: seq<Event>, i: nat, j: nat, name: string, s: PolicySpec, w: set<Sentinel>)
    requires j <= |evs| && CleanErrors(evs, i, j) && OpenRun(mean, evs, i, j, name, s, Refused(w))
    ensures ErrPolicyMismatch in w <==> exists k :: i <= k < j && MismatchSeen(mean, evs[k], s)
  {
    var o := if evs[i].Privilege? then i + 1 else i;
    if o < j && evs[o].res.Opened? {
      ChecksMismatch(mean, evs, o + 1, j, s);
    }
  }

  lemma LoadMismatch(mean: Meaning, evs: seq<Event>, i: nat, j: nat, name: string, s: PolicySpec, w: set<Sentinel>)
    requires j <= |evs| && CleanErrors(evs, i, j) && LoadRun(mean, evs, i, j, name, s, Refused(w))
    ensures ErrPolicyMismatch in w <==> exists k :: i <= k < j && MismatchSeen(mean, evs[k], s)
  {
    var o := i + 1;
    if o < j {
      ChecksMismatch(mean, evs, if evs[o].res.Opened? then o + 1 else o + 2, j, s);
    }
  }

  lemma ChecksMismatch(mean: Meaning, evs: seq<Event>, c: nat, j: nat, s: PolicySpec)
    requires j <= |evs|
    ensures var m := CheckEnd(evs, c);
      c < m <= j && evs[c].VerifyExport? && CheckRun(evs, c, m, evs[c].h) && CleanErrors(evs, c, m)
      && CheckError(mean, evs, c, m, evs[c].h, s).Failed? ==>
        && (ErrPolicyMismatch in CheckError(mean, evs, c, m, evs[c].h, s).wraps <==> MismatchSeen(mean, evs[m - 1], s))
        && forall k :: c <= k < m - 1 ==> !MismatchSeen(mean, evs[k], s)
  {
    hide CheckRun, CheckError, MismatchSeen;
    var m := CheckEnd(evs, c);
    if c < m <= j && evs[c].VerifyExport? && CheckRun(evs, c, m, evs[c].h) && CleanErrors(evs, c, m) {
      if CheckError(mean, evs, c, m, evs[c].h, s).Failed? {
        CheckMismatch(mean, evs, c, m, evs[c].h, s);
      }
    }
  }

  /** applySpec reports a mismatch exactly for a bad public key, or a state that neither is nor migrates to the wanted one. */
  lemma ApplyMismatchExact(mean: Meaning, evs: seq<Event>, i: nat, j: nat, name: string, want: PolicySpec, err: Error)
    requires ApplyRun(mean, evs, i, j, name, want, err)
    requires j <= |evs| && CleanErrors(evs, i, j)
    ensures err.Failed? && ErrPolicyMismatch in err.wraps <==>
      || (i + 4 < j && evs[i + 3].PublicKey? && evs[i + 3].err.Failed?)
      || exists current :: ReadAs(mean, evs, i, j, name, current)
           && (current.state == Unknown
               || (current != Classified(want.state, want.serviceSID) && !Migrates(current.state, want.state)))
  {
    hide InState;
  }

  /** No key was opened or created by a call that reports missing privilege. */
  lemma PrivilegeErrorMeaning(mean: Meaning, evs: seq<Event>, i: nat, j: nat, name: string, s: PolicySpec, w: set<Sentinel>)
    requires j <= |evs|
    requires OpenRun(mean, evs, i, j, name, s, Refused(w)) || LoadRun(mean, evs, i, j, name, s, Refused(w))
    requires CleanErrors(evs, i, j) && ErrPrivilegeRequired in w
    ensures i < j && evs[i].Privilege? && !Granted(evs[i])
    ensures forall k :: i <= k < j && (evs[k].Open? || evs[k].Create?) ==> evs[k].res.NotOpened?
    ensures NoMutation(evs, i, j) && ErrKeyNotFound !in w
  {
    hide InState;
  }
}
