/** What the recorded native calls and their answers must have been for a call of the package to end as it did. */
module NativeAnswers {
  import opened Bytes
  import opened Descriptor
  import opened Classifier
  import opened LegacyDacl
  import opened Policies
  import opened Ncrypt

  /** None of the flags 1, 2, 4 and 8: export, plaintext export, archiving and plaintext archiving. */
  predicate ForbidsExport(policy: uint32) {
    var bits := policy as bv32;
    bits & 1 == 0 && bits & 2 == 0 && bits & 4 == 0 && bits & 8 == 0
  }

  /** The four flags are tested at once. */
  lemma ForbidsExportExact(policy: uint32)
    ensures ForbidsExport(policy) <==> policy as bv32 & 0xF == 0
  {
    FourFlags(policy as bv32);
  }

  lemma FourFlags(bits: bv32)
    ensures bits & 0xF == 0 <==> bits & 1 == 0 && bits & 2 == 0 && bits & 4 == 0 && bits & 8 == 0
  {
  }

  predicate NonExportable(c: NativeCall, h: nat) {
    c.ExportPolicyRead? && c.h == h && c.r == 0 && ForbidsExport(c.policy)
  }

  /** Calls `n` and `n + 1` read the descriptor of `h`: first its size, which is not zero, then its bytes. */
  predicate DescriptorAt(calls: seq<NativeCall>, n: nat, h: nat) {
    && n + 2 <= |calls|
    && calls[n].DescriptorSizeRead? && calls[n].h == h && calls[n].r == 0 && calls[n].size != 0
    && calls[n + 1].DescriptorRead? && calls[n + 1].h == h && calls[n + 1].r == 0
  }

  /** The four calls of validatePersistedKey on `h`; `walked` are the ACEs of the descriptor read in them. */
  ghost predicate ValidatedAt(calls: seq<NativeCall>, n: nat, h: nat, walked: seq<ParsedAce>) {
    && n + 4 <= |calls|
    && NonExportable(calls[n], h)
    && DescriptorAt(calls, n + 1, h)
    && calls[n + 3] == AcesRead(calls[n + 2].sd, true, walked)
    && LegacyAccepts(walked)
  }

  /** Four calls that create `h` under `name`, forbid its export and give it the DACL of `sddl`. */
  predicate PreparedAt(calls: seq<NativeCall>, n: nat, name: string, sddl: string, h: nat) {
    && n + 4 <= |calls|
    && calls[n] == KeyCreated(name, 0, h)
    && calls[n + 1] == ExportPolicySet(h, 0, 0)
    && calls[n + 2].SddlConverted? && calls[n + 2].sddl == sddl && calls[n + 2].ok
    && calls[n + 3] == DescriptorSet(h, calls[n + 2].sd, 0)
  }

  /** The same, and the key finalized after that. */
  predicate CreatedAt(calls: seq<NativeCall>, n: nat, name: string, sddl: string, h: nat) {
    && n + 5 <= |calls|
    && PreparedAt(calls, n, name, sddl, h)
    && calls[n + 4] == KeyFinalized(h, 0)
  }

  lemma ValidatedGrows(calls: seq<NativeCall>, longer: seq<NativeCall>, n: nat, h: nat, walked: seq<ParsedAce>)
    requires calls <= longer && ValidatedAt(calls, n, h, walked)
    ensures ValidatedAt(longer, n, h, walked)
  {
    hide LegacyAccepts, ForbidsExport;
  }

  lemma PreparedStays(calls: seq<NativeCall>, longer: seq<NativeCall>, n: nat, name: string, sddl: string, h: nat)
    requires calls <= longer && PreparedAt(calls, n, name, sddl, h)
    ensures PreparedAt(longer, n, name, sddl, h)
  {
  }

  lemma CreatedGrows(calls: seq<NativeCall>, longer: seq<NativeCall>, n: nat, name: string, sddl: string, h: nat)
    requires calls <= longer && CreatedAt(calls, n, name, sddl, h)
    ensures CreatedAt(longer, n, name, sddl, h)
  {
  }

  /** An answer on which the package gives up. */
  ghost predicate Refusing(c: NativeCall) {
    match c
    case ProviderOpened(r, _) => r != 0
    case KeyOpened(_, r, _) => r != 0
    case KeyCreated(_, r, _) => r != 0
    case ExportPolicySet(_, _, r) => r != 0
    case DescriptorSet(_, _, r) => r != 0
    case KeyFinalized(_, r) => r != 0
    case ExportPolicyRead(_, r, policy) => r != 0 || !ForbidsExport(policy)
    case DescriptorSizeRead(_, r, size) => r != 0 || size == 0
    case DescriptorRead(_, r, _) => r != 0
    case AcesRead(_, ok, aces) => !ok || !LegacyAccepts(aces)
    case PublicKeyExported(_, ok) => !ok
    case SddlConverted(_, ok, _) => !ok
    case MembershipChecked(_, ok, _) => !ok
  }

  /** Further calls were made, and the last one was refused. */
  ghost predicate EndsRefused(before: seq<NativeCall>, after: seq<NativeCall>) {
    before < after && Refusing(after[|after| - 1])
  }

  /** The same, and the last call is not the open of a key. */
  ghost predicate EndsRefusedLater(before: seq<NativeCall>, after: seq<NativeCall>) {
    EndsRefused(before, after) && !after[|after| - 1].KeyOpened?
  }

  /** The native open reported NTE_NOT_FOUND or NTE_BAD_KEYSET in the low 32 bits of its status. */
  predicate NotFoundAnswer(c: NativeCall) {
    c.KeyOpened? && (c.r % 0x1_0000_0000 == 0x8009_000D || c.r % 0x1_0000_0000 == 0x8009_0016)
  }

  /** The last call since `before` was an open answered as not found. */
  predicate EndsNotFound(before: seq<NativeCall>, after: seq<NativeCall>) {
    before < after && NotFoundAnswer(after[|after| - 1])
  }

  /** The calls of openKey that end with a signer. */
  ghost predicate OpenedSigner(calls: seq<NativeCall>, n: nat, name: string, provider: nat, key: nat, walked: seq<ParsedAce>) {
    && |calls| == n + 7
    && calls[n] == ProviderOpened(0, provider) && calls[n + 1] == KeyOpened(name, 0, key)
    && ValidatedAt(calls, n + 2, key, walked)
    && calls[n + 6] == PublicKeyExported(key, true)
  }

  /** The calls of loadOrCreateKey that end with a signer for a key it created after the open had failed. */
  ghost predicate CreatedSigner(calls: seq<NativeCall>, n: nat, name: string, provider: nat, key: nat, walked: seq<ParsedAce>) {
    && |calls| == n + 12
    && calls[n] == ProviderOpened(0, provider) && calls[n + 1].KeyOpened? && calls[n + 1].r != 0
    && CreatedAt(calls, n + 2, name, "D:P(A;;GA;;;SY)(A;;GA;;;BA)(A;;GRGX;;;LS)", key)
    && ValidatedAt(calls, n + 7, key, walked)
    && calls[n + 11] == PublicKeyExported(key, true)
  }

  /** The caller is a member of SYSTEM, or not of SYSTEM but of Administrators, in the calls from `n` on. */
  predicate MembershipAt(calls: seq<NativeCall>, n: nat) {
    && n < |calls|
    && (|| calls[n] == MembershipChecked("S-1-5-18", true, true)
        || (&& calls[n] == MembershipChecked("S-1-5-18", true, false)
            && n + 1 < |calls| && calls[n + 1] == MembershipChecked("S-1-5-32-544", true, true)))
  }

  lemma MembershipGrows(calls: seq<NativeCall>, longer: seq<NativeCall>, n: nat)
    requires calls <= longer && MembershipAt(calls, n)
    ensures MembershipAt(longer, n)
  {
  }

  /** From `n` on, the caller was only asked for its memberships. */
  predicate OnlyMemberships(calls: seq<NativeCall>, n: nat) {
    forall k :: n <= k < |calls| ==> calls[k].MembershipChecked?
  }

  // ----- the policy engine -----

  /** The four calls of a passed checkKeyPolicy on `h`; the descriptor read classifies as the spec says. */
  ghost predicate CheckedAt(calls: seq<NativeCall>, n: nat, h: nat, s: PolicySpec) {
    && n + 4 <= |calls|
    && NonExportable(calls[n], h)
    && calls[n + 1] == PublicKeyExported(h, true)
    && DescriptorAt(calls, n + 2, h)
    && s.state != Unknown && Classify(calls[n + 3].sd) == Classified(s.state, s.serviceSID)
  }

  lemma CheckedGrows(calls: seq<NativeCall>, longer: seq<NativeCall>, n: nat, h: nat, s: PolicySpec)
    requires calls <= longer && CheckedAt(calls, n, h, s)
    ensures CheckedAt(longer, n, h, s)
  {
    hide Classify, ForbidsExport;
  }

  /** The last five calls are passed checks on `h` and the export of its public key for a signer. */
  ghost predicate EndsSigned(calls: seq<NativeCall>, h: nat, s: PolicySpec) {
    && |calls| >= 5
    && CheckedAt(calls, |calls| - 5, h, s)
    && calls[|calls| - 1] == PublicKeyExported(h, true)
  }

  /** The last call read a descriptor that classifies as the spec says. */
  ghost predicate EndsInState(calls: seq<NativeCall>, s: PolicySpec) {
    && |calls| > 0
    && calls[|calls| - 1].DescriptorRead? && calls[|calls| - 1].r == 0
    && s.state != Unknown && Classify(calls[|calls| - 1].sd) == Classified(s.state, s.serviceSID)
  }

  /** From `n` on, a key was created under `name`, its export forbidden and the DACL of `sddl` set, in that order. */
  ghost predicate PreparedSince(calls: seq<NativeCall>, n: nat, name: string, sddl: string) {
    exists m: nat, h: nat :: n <= m && PreparedAt(calls, m, name, sddl, h)
  }

  lemma PreparedGrows(calls: seq<NativeCall>, longer: seq<NativeCall>, n: nat, n': nat, name: string, sddl: string)
    requires calls <= longer && n' <= n && PreparedSince(calls, n, name, sddl)
    ensures PreparedSince(longer, n', name, sddl)
  {
    var m: nat, h: nat :| n <= m && PreparedAt(calls, m, name, sddl, h);
    assert PreparedAt(longer, m, name, sddl, h);
  }
}
