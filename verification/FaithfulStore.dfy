/** Runs over a store that persists what is written: tightening over whole runs, creation accounted for, provision and use. */
module FaithfulStore {
  import opened Bytes
  import opened Classifier
  import opened Policies
  import opened Seam
  import opened EngineRuns
  import opened EngineProperties

  /** What is persisted: key names and their descriptors. */
  type Store = map<string, seq<byte>>

  /** Bytes that may be persisted for an SDDL string: any representation that classifies as what it requests. */
  predicate Persists(mean: Meaning, sd: seq<byte>, sddl: string) {
    mean.classify(sd) == mean.requested(sddl)
  }

  /**
   * One call on a faithful store. Every call may fail. A failed write or delete may or may not have
   * taken effect; a failed create either left nothing or says ErrCleanupFailed; a created key may have
   * any descriptor; an open may report any failure even for a key that exists.
   */
  ghost predicate StoreStep(mean: Meaning, m: Store, e: Event, m': Store) {
    match e
    case Open(name, res) => m' == m && (res.Opened? ==> res.handle.name == name && name in m)
    case Create(name, _, res) =>
      if res.Opened? then
        res.handle.name == name && name !in m && name in m' && m' == m[name := m'[name]]
      else
        m' == m || (ErrCleanupFailed in res.wraps && name !in m && name in m' && m' == m[name := m'[name]])
    case ReadDescriptor(h, sd, err) => m' == m && (err.Ok? ==> h.name in m && sd == m[h.name])
    case WriteDescriptor(h, sddl, err) =>
      || (m' == m && (err.Failed? || h.name !in m))
      || (h.name in m && h.name in m' && m' == m[h.name := m'[h.name]] && Persists(mean, m'[h.name], sddl))
    case DeleteCreated(h, err) => m' == m - {h.name} || (err.Failed? && m' == m)
    case _ => m' == m
  }

  /** `st[k]` is what is persisted just before event `k`. */
  ghost predicate Faithful(mean: Meaning, evs: seq<Event>, st: seq<Store>, i: nat, j: nat) {
    && i <= j <= |evs| && |st| == |evs| + 1
    && forall k :: i <= k < j ==> StoreStep(mean, st[k], evs[k], st[k + 1])
  }

  lemma {:induction false} Unchanged(mean: Meaning, evs: seq<Event>, st: seq<Store>, i: nat, j: nat)
    requires Faithful(mean, evs, st, i, j) && NoMutation(evs, i, j)
    ensures st[j] == st[i]
    decreases j - i
  {
    if i < j {
      assert StoreStep(mean, st[i], evs[i], st[i + 1]);
      Unchanged(mean, evs, st, i + 1, j);
    }
  }

  // ----- counting writes and ranking states -----

  predicate WritesTo(e: Event, name: string) {
    e.WriteDescriptor? && e.h.name == name && e.err.Ok?
  }

  /** The number of successful DACL writes to `name` among the events from `i` up to `j`. */
  function WriteCount(evs: seq<Event>, name: string, i: nat, j: nat): nat
    requires i <= j <= |evs|
    decreases j - i
  {
    if i == j then 0 else (if WritesTo(evs[i], name) then 1 else 0) + WriteCount(evs, name, i + 1, j)
  }

  lemma {:induction false} WriteCountSplit(evs: seq<Event>, name: string, i: nat, m: nat, j: nat)
    requires i <= m <= j <= |evs|
    ensures WriteCount(evs, name, i, j) == WriteCount(evs, name, i, m) + WriteCount(evs, name, m, j)
    decreases m - i
  {
    if i < m {
      WriteCountSplit(evs, name, i + 1, m, j);
    }
  }

  lemma {:induction false} NoWrites(evs: seq<Event>, name: string, i: nat, j: nat)
    requires i <= j <= |evs|
    requires forall k :: i <= k < j ==> !WritesTo(evs[k], name)
    ensures WriteCount(evs, name, i, j) == 0
    decreases j - i
  {
    if i < j {
      NoWrites(evs, name, i + 1, j);
    }
  }

  function StateRank(s: DaclState): int {
    match s
    case ServiceSigner => 2
    case ServiceSID => 1
    case PrivilegedOnly => 0
    case Unknown => -1
  }

  /** The transitions that are made are those to a lower rank: from service-signer down, and from service-sid to privileged-only. */
  lemma MigratesByRank(current: DaclState, want: PolicySpec)
    requires current != Unknown && want.state != Unknown
    ensures Migrates(current, want.state) <==> StateRank(want.state) < StateRank(current)
    ensures TransitionAllowed(current, want) <==> Migrates(current, want.state)
  {
  }

  ghost function Rank(mean: Meaning, sd: seq<byte>): int {
    StateRank(mean.classify(sd).state)
  }

  ghost predicate Recognised(mean: Meaning, sd: seq<byte>) {
    mean.classify(sd).state != Unknown
  }

  /**
   * How a key's descriptor may develop over `writes` successful writes: not at all without one, and
   * otherwise from one recognised state to a strictly lower one, by at least one rank for each write.
   */
  ghost predicate Tightened(mean: Meaning, before: seq<byte>, after: seq<byte>, writes: nat) {
    || (after == before && writes == 0)
    || (Recognised(mean, before) && Recognised(mean, after) && Rank(mean, after) < Rank(mean, before) && Rank(mean, after) + writes <= Rank(mean, before))
  }

  lemma TightenedTransitive(mean: Meaning, a: seq<byte>, b: seq<byte>, c: seq<byte>, v: nat, w: nat)
    requires Tightened(mean, a, b, v) && Tightened(mean, b, c, w)
    ensures Tightened(mean, a, c, v + w)
  {
  }

  /** Every key of `m` is still there, and only tightened. */
  ghost predicate StoreTightened(mean: Meaning, evs: seq<Event>, i: nat, j: nat, m: Store, m': Store) {
    && i <= j <= |evs|
    && forall n :: n in m ==> n in m' && Tightened(mean, m[n], m'[n], WriteCount(evs, n, i, j))
  }

  // ----- one call -----

  lemma UnchangedTightened(mean: Meaning, evs: seq<Event>, st: seq<Store>, i: nat, j: nat)
    requires Faithful(mean, evs, st, i, j) && NoMutation(evs, i, j)
    ensures StoreTightened(mean, evs, i, j, st[i], st[j])
  {
    Unchanged(mean, evs, st, i, j);
    forall n | n in st[i]
      ensures WriteCount(evs, n, i, j) == 0
    {
      NoWrites(evs, n, i, j);
    }
  }

  /** Event `w` is a write that takes `name` from a recognised state to the strictly lower one of `want`. */
  ghost predicate LoweringWrite(mean: Meaning, evs: seq<Event>, st: seq<Store>, w: nat, name: string, want: PolicySpec) {
    && w < |evs| && |st| == |evs| + 1
    && evs[w].WriteDescriptor? && evs[w].h.name == name && evs[w].sddl == want.sddl
    && name in st[w] && Recognised(mean, st[w][name]) && StateRank(want.state) < Rank(mean, st[w][name])
  }

  /** The write of an applySpec run, if it gets there, is a lowering one, and the only mutation of the run. */
  lemma WriteLowers(mean: Meaning, evs: seq<Event>, st: seq<Store>, i: nat, j: nat, name: string, want: PolicySpec, err: Error)
    requires Faithful(mean, evs, st, i, j) && ApplyRun(mean, evs, i, j, name, want, err) && Understood(mean, want)
    ensures forall k :: i <= k < j && k != i + 5 ==> !Mutating(evs[k])
    ensures i + 5 < j && Mutating(evs[i + 5]) ==> LoweringWrite(mean, evs, st, i + 5, name, want)
  {
    hide ApplyRun, Understood, StoreStep;
    ApplyWritesAtMostOnce(mean, evs, i, j, name, want, err);
    forall k | i <= k < j && k != i + 5
      ensures !Mutating(evs[k])
    {
      assert !WroteAt(evs, i, j, k);
    }
    if i + 5 < j && Mutating(evs[i + 5]) {
      assert WroteAt(evs, i, j, i + 5);
      ReadBeforeWrite(mean, evs, st, i, j, name);
    }
  }

  /** The bytes read through the handle opened for `name` are the ones persisted under that name at the write. */
  lemma ReadBeforeWrite(mean: Meaning, evs: seq<Event>, st: seq<Store>, i: nat, j: nat, name: string)
    requires Faithful(mean, evs, st, i, j) && i + 5 < j
    requires evs[i + 5].WriteDescriptor?
    requires OpenedAs(evs, i + 1, name, evs[i + 5].h) && evs[i + 1].Open?
    requires evs[i + 4].ReadDescriptor? && evs[i + 4].h == evs[i + 5].h && evs[i + 4].err.Ok?
    ensures evs[i + 5].h.name == name && name in st[i + 5] && st[i + 5][name] == evs[i + 4].sd
  {
    assert StoreStep(mean, st[i + 1], evs[i + 1], st[i + 2]);
    assert StoreStep(mean, st[i + 4], evs[i + 4], st[i + 5]);
  }

  lemma PersistedAsRequested(mean: Meaning, sd: seq<byte>, want: PolicySpec)
    requires Understood(mean, want) && Persists(mean, sd, want.sddl)
    ensures mean.classify(sd) == Classified(want.state, want.serviceSID)
    ensures Recognised(mean, sd) && Rank(mean, sd) == StateRank(want.state)
  {
  }

  /** A write touches the descriptor of its own key only. */
  lemma WriteFrame(mean: Meaning, m: Store, e: Event, m': Store)
    requires StoreStep(mean, m, e, m') && e.WriteDescriptor? && e.h.name in m
    ensures m'.Keys == m.Keys
    ensures forall n :: n in m && n != e.h.name ==> m'[n] == m[n]
    ensures (e.err.Failed? && m' == m) || Persists(mean, m'[e.h.name], e.sddl)
  {
    hide Persists;
  }

  /** A stretch of events whose only mutation is a lowering write. */
  lemma LoweringStretch(mean: Meaning, evs: seq<Event>, st: seq<Store>, i: nat, w: nat, j: nat, name: string, want: PolicySpec)
    requires Faithful(mean, evs, st, i, j) && i <= w < j && Understood(mean, want)
    requires forall k :: i <= k < j && k != w ==> !Mutating(evs[k])
    requires LoweringWrite(mean, evs, st, w, name, want)
    ensures StoreTightened(mean, evs, i, j, st[i], st[j]) && st[j].Keys == st[i].Keys
  {
    hide Understood;
    Unchanged(mean, evs, st, i, w);
    assert StoreStep(mean, st[w], evs[w], st[w + 1]);
    WriteFrame(mean, st[w], evs[w], st[w + 1]);
    Unchanged(mean, evs, st, w + 1, j);
    if Persists(mean, st[j][name], want.sddl) {
      PersistedAsRequested(mean, st[j][name], want);
    }
    hide StoreStep, Persists, StateRank, Faithful;
    forall n | n in st[i]
      ensures n in st[j] && Tightened(mean, st[i][n], st[j][n], WriteCount(evs, n, i, j))
    {
      OneWrite(evs, n, i, w, j);
    }
  }

  lemma ApplyTightens(mean: Meaning, evs: seq<Event>, st: seq<Store>, i: nat, j: nat, name: string, want: PolicySpec, err: Error)
    requires Faithful(mean, evs, st, i, j) && ApplyRun(mean, evs, i, j, name, want, err) && Understood(mean, want)
    ensures StoreTightened(mean, evs, i, j, st[i], st[j])
  {
    hide ApplyRun, Understood, StoreStep, Recognised;
    WriteLowers(mean, evs, st, i, j, name, want, err);
    if i + 5 < j && Mutating(evs[i + 5]) {
      LoweringStretch(mean, evs, st, i, i + 5, j, name, want);
    } else {
      UnchangedTightened(mean, evs, st, i, j);
    }
  }

  lemma OneWrite(evs: seq<Event>, name: string, i: nat, w: nat, j: nat)
    requires i <= w < j <= |evs|
    requires forall k :: i <= k < j && k != w ==> !evs[k].WriteDescriptor?
    ensures WriteCount(evs, name, i, j) == if WritesTo(evs[w], name) then 1 else 0
  {
    WriteCountSplit(evs, name, i, w, j);
    NoWrites(evs, name, i, w);
    NoWrites(evs, name, w + 1, j);
  }

  // ----- load-or-create: a failed creation is accounted for -----

  /** The checks passed on the key handle just opened or created, but the signer could not be made. */
  ghost predicate SignerFailed(mean: Meaning, evs: seq<Event>, j: nat, s: PolicySpec, wraps: set<Sentinel>) {
    && 5 <= j <= |evs|
    && evs[j - 1].Close?
    && var h := evs[j - 1].h;
    && evs[j - 5] == VerifyExport(h, Ok) && evs[j - 4] == PublicKey(h, Ok) && ReadInState(mean, evs, j - 3, h, s)
    && evs[j - 2] == MakeSigner(h, Failed(wraps))
  }

  /** The key `name` was absent, and is the only difference. */
  predicate Added(m: Store, m': Store, name: string) {
    name !in m && name in m' && m' == m[name := m'[name]]
  }

  lemma CreatedThenDeleted(mean: Meaning, m: Store, c: Event, m1: Store, d: Event, m2: Store)
    requires StoreStep(mean, m, c, m1) && StoreStep(mean, m1, d, m2)
    requires c.Create? && d.DeleteCreated? && c.res == Opened(d.h)
    ensures m2 == m || (d.err.Failed? && Added(m, m2, c.name))
  {
    assert m1 - {c.name} == m;
  }

  lemma CreateStep(mean: Meaning, m: Store, c: Event, m1: Store)
    requires StoreStep(mean, m, c, m1) && c.Create?
    ensures c.res.Opened? ==> Added(m, m1, c.name)
    ensures c.res.NotOpened? ==> m1 == m || (ErrCleanupFailed in c.res.wraps && Added(m, m1, c.name))
  {
  }

  /** The store after load-or-create is the one before, or has the absent key added for a stated reason. */
  ghost predicate LoadAccounted(mean: Meaning, evs: seq<Event>, j: nat, m: Store, m': Store, name: string, s: PolicySpec, r: Outcome) {
    || m' == m
    || (&& Added(m, m', name)
        && (r.Refused? ==> ErrCleanupFailed in r.wraps || SignerFailed(mean, evs, j, s, r.wraps)))
  }

  /** Where the mutations of a load-or-create run are, and what the outcome says about the last events. */
  lemma LoadShape(mean: Meaning, evs: seq<Event>, i: nat, j: nat, name: string, s: PolicySpec, r: Outcome)
    requires LoadRun(mean, evs, i, j, name, s, r)
    ensures i < j <= |evs|
    ensures forall k :: i <= k < j && k != i + 2 && k != j - 1 ==> !Mutating(evs[k])
    ensures i + 2 < j && Mutating(evs[i + 2]) ==> evs[i + 2].Create? && evs[i + 2].name == name && !evs[i].Create?
    ensures !Mutating(evs[j - 1]) || j - 1 == i + 2 || i + 2 < j - 1
    ensures j - 1 != i + 2 && Mutating(evs[j - 1]) ==>
      && i + 2 < j - 1 && evs[j - 1].DeleteCreated? && evs[i + 2].Create? && evs[i + 2].res == Opened(evs[j - 1].h)
      && (evs[j - 1].err.Failed? ==> r.Refused? && ErrCleanupFailed in r.wraps)
    ensures i + 2 == j - 1 && evs[i + 2].Create? ==> evs[i + 2].res.NotOpened? && r == Refused(evs[i + 2].res.wraps)
    ensures i + 2 < j - 1 && evs[i + 2].Create? ==> evs[i + 2].res.Opened?
    ensures i + 2 < j - 1 && evs[i + 2].Create? && !Mutating(evs[j - 1]) && r.Refused? ==> SignerFailed(mean, evs, j, s, r.wraps)
  {
    hide InState;
  }

  lemma LoadIsAccounted(mean: Meaning, evs: seq<Event>, st: seq<Store>, i: nat, j: nat, name: string, s: PolicySpec, r: Outcome)
    requires Faithful(mean, evs, st, i, j) && LoadRun(mean, evs, i, j, name, s, r)
    ensures LoadAccounted(mean, evs, j, st[i], st[j], name, s, r)
  {
    hide LoadRun, SignerFailed, StoreStep, Added;
    LoadShape(mean, evs, i, j, name, s, r);
    if i + 2 < j && evs[i + 2].Create? {
      var c := i + 2;
      Unchanged(mean, evs, st, i, c);
      assert StoreStep(mean, st[c], evs[c], st[c + 1]);
      CreateStep(mean, st[c], evs[c], st[c + 1]);
      if c < j - 1 {
        Unchanged(mean, evs, st, c + 1, j - 1);
        assert StoreStep(mean, st[j - 1], evs[j - 1], st[j]);
        if evs[j - 1].DeleteCreated? {
          CreatedThenDeleted(mean, st[c], evs[c], st[c + 1], evs[j - 1], st[j]);
        } else {
          Unchanged(mean, evs, st, j - 1, j);
        }
      }
    } else {
      Unchanged(mean, evs, st, i, j);
    }
  }

  /** When the checks on a created key fail, their sentinels are all reported; a failed delete adds ErrCleanupFailed. */
  lemma CauseIsKept(mean: Meaning, evs: seq<Event>, i: nat, j: nat, name: string, s: PolicySpec, w: set<Sentinel>)
    requires LoadRun(mean, evs, i, j, name, s, Refused(w))
    requires i + 3 < j && evs[i + 2].Create? && evs[j - 1].DeleteCreated?
    ensures var h := evs[j - 1].h;
      && CheckRun(evs, i + 3, j - 1, h)
      && CheckError(mean, evs, i + 3, j - 1, h, s).Failed?
      && CheckError(mean, evs, i + 3, j - 1, h, s).wraps <= w
      && (evs[j - 1].err.Failed? ==> ErrCleanupFailed in w)
      && (evs[j - 1].err.Ok? ==> w == CheckError(mean, evs, i + 3, j - 1, h, s).wraps)
  {
    hide InState;
  }

  // ----- success means the persisted descriptor is in the wanted state -----

  lemma SignedMeansPersisted(mean: Meaning, evs: seq<Event>, st: seq<Store>, i: nat, j: nat, name: string, s: PolicySpec, h: Handle)
    requires Faithful(mean, evs, st, i, j)
    requires OpenRun(mean, evs, i, j, name, s, Signed(h)) || LoadRun(mean, evs, i, j, name, s, Signed(h))
    ensures name in st[j] && InState(mean, st[j][name], s)
  {
    hide OpenRun, LoadRun, InState;
    SignerImpliesValidation(mean, evs, i, j, name, s, h);
    assert StoreStep(mean, st[j - 5], evs[j - 5], st[j - 4]);
    assert StoreStep(mean, st[j - 2], evs[j - 2], st[j - 1]);
    Unchanged(mean, evs, st, j - 4, j);
  }

  lemma AppliedMeansPersisted(mean: Meaning, evs: seq<Event>, st: seq<Store>, i: nat, j: nat, name: string, want: PolicySpec)
    requires Faithful(mean, evs, st, i, j) && ApplyRun(mean, evs, i, j, name, want, Ok) && want.state != Unknown
    ensures name in st[j] && InState(mean, st[j][name], want)
  {
    hide ApplyRun, InState, StoreStep;
    ApplySuccess(mean, evs, i, j, name, want);
    if j == i + 6 {
      ReadAfterOpen(mean, evs, st, i + 1, i + 4, j, name, want);
    } else {
      ReadAfterOpen(mean, evs, st, i + 7, i + 8, j, name, want);
    }
  }

  lemma ReadAfterOpen(mean: Meaning, evs: seq<Event>, st: seq<Store>, o: nat, k: nat, j: nat, name: string, s: PolicySpec)
    requires o < k < j && Faithful(mean, evs, st, o, j) && NoMutation(evs, o, j)
    requires evs[o].Open? && evs[o].name == name && evs[o].res.Opened? && ReadInState(mean, evs, k, evs[o].res.handle, s)
    ensures name in st[j] && InState(mean, st[j][name], s)
  {
    hide InState;
    assert StoreStep(mean, st[o], evs[o], st[o + 1]);
    assert StoreStep(mean, st[k], evs[k], st[k + 1]);
    Unchanged(mean, evs, st, k + 1, j);
  }

  // ----- whole runs -----

  /** A finished call to the engine with its result. */
  datatype Call =
    | OpenCall(name: string, spec: PolicySpec, outcome: Outcome)
    | LoadCall(name: string, spec: PolicySpec, outcome: Outcome)
    | ApplyCall(name: string, spec: PolicySpec, err: Error)

  ghost predicate CallRun(mean: Meaning, evs: seq<Event>, i: nat, j: nat, c: Call) {
    match c
    case OpenCall(name, s, r) => OpenRun(mean, evs, i, j, name, s, r)
    case LoadCall(name, s, r) => LoadRun(mean, evs, i, j, name, s, r)
    case ApplyCall(name, s, err) => ApplyRun(mean, evs, i, j, name, s, err)
  }

  /** Calls made one after the other: call `k` makes the events from `at[k]` up to `at[k + 1]`. */
  ghost predicate SequentialRun(mean: Meaning, evs: seq<Event>, calls: seq<Call>, at: seq<nat>) {
    && |at| == |calls| + 1
    && forall k :: 0 <= k < |calls| ==> Understood(mean, calls[k].spec) && CallRun(mean, evs, at[k], at[k + 1], calls[k])
  }

  lemma CallTightens(mean: Meaning, evs: seq<Event>, st: seq<Store>, i: nat, j: nat, c: Call)
    requires Faithful(mean, evs, st, i, j) && Understood(mean, c.spec) && CallRun(mean, evs, i, j, c)
    ensures StoreTightened(mean, evs, i, j, st[i], st[j])
  {
    hide OpenRun, LoadRun, ApplyRun, Tightened, Understood;
    match c {
      case OpenCall(name, s, r) =>
        OpenNeverMutates(mean, evs, i, j, name, s, r);
        UnchangedTightened(mean, evs, st, i, j);
      case LoadCall(name, s, r) =>
        LoadTightens(mean, evs, st, i, j, name, s, r);
      case ApplyCall(name, s, err) =>
        ApplyTightens(mean, evs, st, i, j, name, s, err);
    }
  }

  lemma LoadTightens(mean: Meaning, evs: seq<Event>, st: seq<Store>, i: nat, j: nat, name: string, s: PolicySpec, r: Outcome)
    requires Faithful(mean, evs, st, i, j) && LoadRun(mean, evs, i, j, name, s, r)
    ensures StoreTightened(mean, evs, i, j, st[i], st[j])
  {
    hide LoadRun, SignerFailed, StoreStep;
    LoadIsAccounted(mean, evs, st, i, j, name, s, r);
    CreationDiscipline(mean, evs, i, j, name, s, r);
    forall n | n in st[i]
      ensures n in st[j] && st[j][n] == st[i][n] && WriteCount(evs, n, i, j) == 0
    {
      NoWrites(evs, n, i, j);
    }
  }

  /** Over any sequence of engine calls on a faithful store, every key stays and is only tightened. */
  lemma {:induction false} RunTightens(mean: Meaning, evs: seq<Event>, st: seq<Store>, calls: seq<Call>, at: seq<nat>)
    requires SequentialRun(mean, evs, calls, at)
    requires forall k :: 0 <= k < |calls| ==> Faithful(mean, evs, st, at[k], at[k + 1])
    requires at[0] <= |evs| && |st| == |evs| + 1
    ensures at[0] <= at[|calls|] <= |evs|
    ensures StoreTightened(mean, evs, at[0], at[|calls|], st[at[0]], st[at[|calls|]])
    decreases |calls|
  {
    hide CallRun, Understood, StoreStep, Tightened;
    var n := |calls|;
    if n == 0 {
      Stays(mean, evs, at[0], st[at[0]]);
    } else {
      RunTightens(mean, evs, st, calls[..n - 1], at[..n]);
      CallTightens(mean, evs, st, at[n - 1], at[n], calls[n - 1]);
      TightenedInTurn(mean, evs, at[0], at[n - 1], at[n], st[at[0]], st[at[n - 1]], st[at[n]]);
    }
  }

  lemma Stays(mean: Meaning, evs: seq<Event>, i: nat, m: Store)
    requires i <= |evs|
    ensures StoreTightened(mean, evs, i, i, m, m)
  {
  }

  lemma TightenedInTurn(mean: Meaning, evs: seq<Event>, i: nat, m: nat, j: nat, a: Store, b: Store, c: Store)
    requires StoreTightened(mean, evs, i, m, a, b) && StoreTightened(mean, evs, m, j, b, c)
    ensures StoreTightened(mean, evs, i, j, a, c)
  {
    hide Tightened;
    forall n | n in a
      ensures n in c && Tightened(mean, a[n], c[n], WriteCount(evs, n, i, j))
    {
      TightenedTransitive(mean, a[n], b[n], c[n], WriteCount(evs, n, i, m), WriteCount(evs, n, m, j));
      WriteCountSplit(evs, n, i, m, j);
    }
  }

  /**
   * What tightening means for one key over any run: it still exists, its rank never rises, at most two
   * writes succeed, an unrecognised descriptor is never touched, and a key bound to a service stays
   * bound to it unless it becomes privileged-only.
   */
  lemma KeyLifetime(mean: Meaning, evs: seq<Event>, st: seq<Store>, calls: seq<Call>, at: seq<nat>, name: string)
    requires SequentialRun(mean, evs, calls, at)
    requires forall k :: 0 <= k < |calls| ==> Faithful(mean, evs, st, at[k], at[k + 1])
    requires at[0] <= |evs| && |st| == |evs| + 1
    requires name in st[at[0]]
    ensures at[0] <= at[|calls|] <= |evs| && name in st[at[|calls|]]
    ensures var before, after := st[at[0]][name], st[at[|calls|]][name];
      var writes := WriteCount(evs, name, at[0], at[|calls|]);
      && (after == before || Rank(mean, after) < Rank(mean, before))
      && (Recognised(mean, before) ==> writes <= Rank(mean, before) - Rank(mean, after) && writes <= 2)
      && (!Recognised(mean, before) ==> after == before && writes == 0)
      && (mean.classify(before).state == ServiceSID ==> after == before || mean.classify(after).state == PrivilegedOnly)
  {
    hide SequentialRun, StoreStep;
    RunTightens(mean, evs, st, calls, at);
  }
}
