/** Provisioning a key and then using it, on a faithful store whose calls do not fail. */
module ProvisionUse {
  import opened Bytes
  import opened Classifier
  import opened Policies
  import opened Seam
  import opened EngineRuns
  import opened EngineProperties
  import opened FaithfulStore

  /** A call answered without failure to a privileged caller; only opening an absent key is refused, as not found. */
  ghost predicate Answers(mean: Meaning, m: Store, e: Event, m': Store) {
    && StoreStep(mean, m, e, m')
    && match e
       case Privilege(member, err) => member && err.Ok?
       case Open(name, res) => if name in m then res.Opened? else res.NotOpened? && ErrKeyNotFound in res.wraps
       case Create(name, sddl, res) => name !in m ==> res.Opened? && name in m' && Persists(mean, m'[name], sddl)
       case Close(_) => true
       case _ => e.err.Ok?
  }

  ghost predicate Serving(mean: Meaning, evs: seq<Event>, st: seq<Store>, i: nat, j: nat) {
    && i <= j <= |evs| && |st| == |evs| + 1
    && forall k :: i <= k < j ==> Answers(mean, st[k], evs[k], st[k + 1])
  }

  lemma ServingIsFaithful(mean: Meaning, evs: seq<Event>, st: seq<Store>, i: nat, j: nat)
    requires Serving(mean, evs, st, i, j)
    ensures Faithful(mean, evs, st, i, j)
  {
  }

  /** The checks on a key handle pass exactly when its persisted descriptor is in the wanted state. */
  lemma ServedCheck(mean: Meaning, evs: seq<Event>, st: seq<Store>, i: nat, j: nat, h: Handle, s: PolicySpec)
    requires CheckEnd(evs, i) < j && Serving(mean, evs, st, i, j) && CheckRun(evs, i, CheckEnd(evs, i), h)
    ensures CheckEnd(evs, i) == i + 3 && st[i + 3] == st[i] && NoMutation(evs, i, i + 3)
    ensures evs[i + 2].ReadDescriptor? && evs[i + 2].err.Ok? && h.name in st[i] && evs[i + 2].sd == st[i][h.name]
    ensures CheckError(mean, evs, i, i + 3, h, s) == if InState(mean, st[i][h.name], s) then Ok else Failed({ErrPolicyMismatch})
  {
    hide InState;
    assert Answers(mean, st[i], evs[i], st[i + 1]);
    assert Answers(mean, st[i + 1], evs[i + 1], st[i + 2]);
    assert Answers(mean, st[i + 2], evs[i + 2], st[i + 3]);
  }

  /** Checking and signing on an open key: a signer iff the descriptor is in the wanted state, otherwise a mismatch. */
  ghost predicate SignedIff(inState: bool, r: Outcome) {
    if inState then r.Signed? else r == Refused({ErrPolicyMismatch})
  }

  lemma ServedSigner(mean: Meaning, evs: seq<Event>, st: seq<Store>, i: nat, j: nat, h: Handle, s: PolicySpec, r: Outcome)
    requires Serving(mean, evs, st, i, j) && SignerRun(mean, evs, i, j, h, s, r)
    ensures h.name in st[i] && SignedIff(InState(mean, st[i][h.name], s), r)
    ensures st[j] == st[i]
  {
    hide InState, StoreStep, CheckRun, CheckError;
    ServedCheck(mean, evs, st, i, j, h, s);
    assert Answers(mean, st[i + 3], evs[i + 3], st[i + 4]);
    ServingIsFaithful(mean, evs, st, i, j);
    Unchanged(mean, evs, st, i, j);
  }

  /** openSpec with a failure-free store and a privileged caller. */
  lemma ServedOpen(mean: Meaning, evs: seq<Event>, st: seq<Store>, i: nat, j: nat, name: string, s: PolicySpec, r: Outcome)
    requires Serving(mean, evs, st, i, j) && OpenRun(mean, evs, i, j, name, s, r)
    ensures st[j] == st[i]
    ensures name in st[i] ==> SignedIff(InState(mean, st[i][name], s), r)
    ensures name !in st[i] ==> r.Refused? && ErrKeyNotFound in r.wraps
  {
    hide InState, SignerRun;
    var o := if s.privilegedOpen then i + 1 else i;
    assert Answers(mean, st[i], evs[i], st[i + 1]);
    assert Answers(mean, st[o], evs[o], st[o + 1]);
    if evs[o].res.Opened? {
      ServedSigner(mean, evs, st, o + 1, j, evs[o].res.handle, s, r);
    }
  }

  lemma ServedLoadExisting(mean: Meaning, evs: seq<Event>, st: seq<Store>, i: nat, j: nat, name: string, s: PolicySpec, r: Outcome)
    requires Serving(mean, evs, st, i, j) && LoadRun(mean, evs, i, j, name, s, r) && name in st[i]
    ensures st[j] == st[i]
    ensures SignedIff(InState(mean, st[i][name], s), r)
  {
    hide InState, SignerRun, CreateRun;
    assert Answers(mean, st[i], evs[i], st[i + 1]);
    assert Answers(mean, st[i + 1], evs[i + 1], st[i + 2]);
    ServedSigner(mean, evs, st, i + 2, j, evs[i + 1].res.handle, s, r);
  }

  /** Load-or-create of an absent name succeeds for every valid policy, leaving the key in that policy's state. */
  lemma ProvisionSucceeds(mean: Meaning, evs: seq<Event>, st: seq<Store>, i: nat, j: nat, name: string, s: PolicySpec, r: Outcome)
    requires Serving(mean, evs, st, i, j) && LoadRun(mean, evs, i, j, name, s, r) && name !in st[i] && Understood(mean, s)
    ensures r.Signed? && Added(st[i], st[j], name) && InState(mean, st[j][name], s)
  {
    hide InState, SignerRun, CheckRun, CheckError, Understood, Persists;
    var c := i + 2;
    assert Answers(mean, st[i], evs[i], st[i + 1]);
    assert Answers(mean, st[i + 1], evs[i + 1], st[c]);
    assert Answers(mean, st[c], evs[c], st[c + 1]);
    assert Added(st[i], st[c + 1], name) && evs[c].res.Opened?;
    var h := evs[c].res.handle;
    RequestedInState(mean, st[c + 1][name], s);
    ServedCheck(mean, evs, st, c + 1, j, h, s);
    assert Answers(mean, st[c + 4], evs[c + 4], st[c + 5]);
  }

  lemma RequestedInState(mean: Meaning, sd: seq<byte>, s: PolicySpec)
    requires Understood(mean, s) && Persists(mean, sd, s.sddl)
    ensures InState(mean, sd, s)
  {
    PersistedAsRequested(mean, sd, s);
  }

  /** applySpec: idempotent in the wanted state, one confirmed write to a lower rank, otherwise refused untouched. */
  ghost predicate ApplyEffect(mean: Meaning, m: Store, m': Store, name: string, want: PolicySpec, err: Error)
    requires name in m
  {
    if InState(mean, m[name], want) then err == Ok && m' == m
    else if Recognised(mean, m[name]) && StateRank(want.state) < Rank(mean, m[name]) then
      err == Ok && name in m' && m' == m[name := m'[name]] && InState(mean, m'[name], want)
    else err == Failed({ErrPolicyMismatch}) && m' == m
  }

  lemma ServedApply(mean: Meaning, evs: seq<Event>, st: seq<Store>, i: nat, j: nat, name: string, want: PolicySpec, err: Error)
    requires Serving(mean, evs, st, i, j) && ApplyRun(mean, evs, i, j, name, want, err) && Understood(mean, want) && name in st[i]
    ensures ApplyEffect(mean, st[i], st[j], name, want, err)
  {
    if Recognised(mean, st[i][name]) {
      MigratesByRank(mean.classify(st[i][name]).state, want);
    }
    hide Understood, StoreStep, Persists, CheckRun, WriteRun, TransitionAllowed, StateRank, Migrates;
    assert Answers(mean, st[i], evs[i], st[i + 1]);
    assert Answers(mean, st[i + 1], evs[i + 1], st[i + 2]);
    ServedOpenStep(mean, st[i], evs[i], st[i + 1]);
    ServedOpenStep(mean, st[i + 1], evs[i + 1], st[i + 2]);
    ApplyShape(mean, evs, i, j, name, want, err);
    var h := evs[i + 1].res.handle;
    ServedCheck(mean, evs, st, i + 2, j, h, want);
    ServingIsFaithful(mean, evs, st, i, j);
    assert st[i + 5] == st[i] && evs[i + 4].sd == st[i][name];
    if j == i + 6 {
      assert Answers(mean, st[i + 5], evs[i + 5], st[i + 6]);
      ServedOpenStep(mean, st[i + 5], evs[i + 5], st[i + 6]);
    } else {
      ServedWrite(mean, evs, st, i + 5, j - 1, h, name, want, err);
      assert Answers(mean, st[j - 1], evs[j - 1], st[j]);
      ServedOpenStep(mean, st[j - 1], evs[j - 1], st[j]);
    }
  }

  /**
   * On a store that does not fail, apply leaves the key in the wanted state exactly when it is there already
   * or the transition is one of three; otherwise it reports a mismatch and leaves the store as it was.
   */
  lemma ApplyTransitions(mean: Meaning, evs: seq<Event>, st: seq<Store>, i: nat, j: nat, name: string, want: PolicySpec, err: Error)
    requires Serving(mean, evs, st, i, j) && ApplyRun(mean, evs, i, j, name, want, err) && Understood(mean, want) && name in st[i]
    ensures var current := mean.classify(st[i][name]);
      var changes := Migrates(current.state, want.state);
      && (err.Ok? <==> changes || current == Classified(want.state, want.serviceSID))
      && (err.Ok? ==> name in st[j] && mean.classify(st[j][name]) == Classified(want.state, want.serviceSID))
      && (err.Failed? ==> err.wraps == {ErrPolicyMismatch})
      && (!changes ==> st[j] == st[i])
      && (changes ==> st[j].Keys == st[i].Keys && forall n :: n in st[i] && n != name ==> st[j][n] == st[i][n])
  {
    hide ApplyRun, Answers;
    ServedApply(mean, evs, st, i, j, name, want, err);
    if Recognised(mean, st[i][name]) {
      MigratesByRank(mean.classify(st[i][name]).state, want);
    }
    hide StateRank;
  }

  /** A privilege check, open or close changes nothing, and the open of an existing key gives a handle of that name. */
  lemma ServedOpenStep(mean: Meaning, m: Store, e: Event, m': Store)
    requires Answers(mean, m, e, m')
    ensures e.Privilege? ==> Granted(e)
    ensures e.Privilege? || e.Open? || e.Close? ==> m' == m
    ensures e.Open? && e.name in m ==> e.res.Opened? && e.res.handle.name == e.name
  {
  }

  /** The parts of an applySpec run on a key that opens and passes the checks. */
  lemma ApplyShape(mean: Meaning, evs: seq<Event>, i: nat, j: nat, name: string, want: PolicySpec, err: Error)
    requires ApplyRun(mean, evs, i, j, name, want, err) && Granted(evs[i]) && i + 1 < j && evs[i + 1].res.Opened?
    ensures i + 2 < j <= |evs| && evs[i + 1].Open? && evs[i + 1].name == name
    ensures var h := evs[i + 1].res.handle;
      && evs[j - 1] == Close(h) && CheckEnd(evs, i + 2) < j && CheckRun(evs, i + 2, CheckEnd(evs, i + 2), h)
      && (CheckEnd(evs, i + 2) == i + 5 && evs[i + 4].err.Ok? ==>
        var current := mean.classify(evs[i + 4].sd);
        if current.state != Unknown && current == Classified(want.state, want.serviceSID) then
          j == i + 6 && err == Ok
        else if current.state != Unknown && TransitionAllowed(current.state, want) then
          i + 6 < j && WriteRun(mean, evs, i + 5, j - 1, h, name, want, err)
        else j == i + 6 && err == Failed({ErrPolicyMismatch}))
  {
    hide TransitionAllowed;
  }

  lemma ServedWrite(mean: Meaning, evs: seq<Event>, st: seq<Store>, i: nat, j: nat, h: Handle, name: string, want: PolicySpec, err: Error)
    requires Serving(mean, evs, st, i, j) && WriteRun(mean, evs, i, j, h, name, want, err) && Understood(mean, want)
    requires h.name == name && name in st[i]
    ensures err == Ok && name in st[j] && st[j] == st[i][name := st[j][name]] && InState(mean, st[j][name], want)
  {
    hide Understood, Persists, InState;
    assert Answers(mean, st[i], evs[i], st[i + 1]);
    RequestedInState(mean, st[i + 1][name], want);
    assert Answers(mean, st[i + 1], evs[i + 1], st[i + 2]);
    assert Answers(mean, st[i + 2], evs[i + 2], st[i + 3]);
    assert Answers(mean, st[i + 3], evs[i + 3], st[i + 4]);
    assert Answers(mean, st[i + 4], evs[i + 4], st[i + 5]);
  }

  predicate SameTarget(s: PolicySpec, t: PolicySpec) {
    s.state == t.state && s.serviceSID == t.serviceSID
  }

  /** How a call with policy `t` must end, on a key provisioned for `s`. */
  ghost predicate UsedAsProvisioned(mean: Meaning, s: PolicySpec, c: Call, m: Store, m': Store) {
    match c
    case OpenCall(_, t, r) => SignedIff(SameTarget(s, t), r) && m' == m
    case LoadCall(_, t, r) => SignedIff(SameTarget(s, t), r) && m' == m
    case ApplyCall(name, t, err) =>
      if SameTarget(s, t) then err == Ok && m' == m
      else if StateRank(t.state) < StateRank(s.state) then
        err == Ok && name in m' && m' == m[name := m'[name]] && InState(mean, m'[name], t)
      else err == Failed({ErrPolicyMismatch}) && m' == m
  }

  /**
   * Provisioning an absent key succeeds; a following call with the same policy succeeds and changes
   * nothing; an open or load with a different one is refused as a mismatch; and apply with a different
   * one succeeds exactly when that narrows access.
   */
  lemma ProvisionThenUse(mean: Meaning, evs: seq<Event>, st: seq<Store>, i: nat, m: nat, j: nat, name: string, s: PolicySpec,
                         r: Outcome, c: Call)
    requires Serving(mean, evs, st, i, m) && Serving(mean, evs, st, m, j)
    requires LoadRun(mean, evs, i, m, name, s, r) && name !in st[i] && Understood(mean, s)
    requires CallRun(mean, evs, m, j, c) && c.name == name && Understood(mean, c.spec)
    ensures r.Signed? && Added(st[i], st[m], name)
    ensures UsedAsProvisioned(mean, s, c, st[m], st[j])
  {
    hide LoadRun, OpenRun, ApplyRun, Serving, Understood, Persists;
    ProvisionSucceeds(mean, evs, st, i, m, name, s, r);
    match c {
      case OpenCall(n, t, outcome) =>
        ServedOpen(mean, evs, st, m, j, n, t, outcome);
      case LoadCall(n, t, outcome) =>
        ServedLoadExisting(mean, evs, st, m, j, n, t, outcome);
      case ApplyCall(n, t, err) =>
        ServedApply(mean, evs, st, m, j, n, t, err);
    }
  }
}
