# Verified model of windowscng

`windowscng` keeps machine-scoped signing keys in the Windows key storage provider and decides, from the
bytes of a key's security descriptor, whether a key may be used, changed or refused. This project models
that decision and everything it rests on in Dafny 4.11, and proves it correct:

- the parser of self-relative security descriptors, the printer of security identifiers, the recogniser
  of per-service identifiers and the exact-match classifier (`Bytes`, `Decimal`, `Text`, `Sids`,
  `ServiceSids`, `Descriptor`, `Classifier`), with the descriptor printer of the package's own test
  helpers as its inverse (`DescriptorBuilder`);
- the legacy DACL walk and how the exact classifier refines it (`LegacyDacl`);
- policies, service-SID derivation and the descriptors that policies request (`Policies`);
- the policy engine: the calls open, load-or-create and apply make through the key-store seam (`Seam`,
  `EngineRuns`), what every such run keeps whatever the store answers (`EngineProperties`), what whole
  runs keep on a store that persists what is written (`FaithfulStore`, `ProvisionUse`), what the classifier
  makes these results say about descriptor bytes (`WindowsMeaning`), and the engine itself over the native
  store (`PolicyEngine`, `NativeStore`);
- ownership of native handles, the cleanup of created keys, and what the native calls must have answered for
  a call to end as it did (`Ncrypt`, `NativeAnswers`, `NativeKeys`);
- the DER encoding of signatures (`Der`).

## How to read it

A Go error is the set of package sentinels it wraps, because `%w` against `%v` is what the properties turn
on; `None`, or `err`, stands for an error where only its presence matters. A platform call has an arbitrary
outcome. `Ncrypt.Platform` keeps the ledger of open handles: its preconditions forbid using or freeing a
handle that is not open, so a double free or a use after free would not verify, and the postconditions on
the ledger rule out leaks.

`Ncrypt.Platform` also records every answering native call. The contracts of the native methods say which
recorded answers a result rests on: a signer means that the last calls read an export policy with none of the
four flags set, read the descriptor that was accepted, and exported the public key, all on the signer's own
key; a failure means that the last call was answered with a refusal, which `NativeAnswers.Refusing` lists.

Results stated through named constants and definitions of the model have a companion that states them by value,
on literal bytes, masks, identifiers, SDDL strings and characters: `Sids.SidByBytes`, `Descriptor.DaclByBytes`,
`ServiceSids.ServiceSidByValue`, `Classifier.ClassifyByValue`, `LegacyDacl.WalkByValue`,
`Policies.DerivationByBytes`, `Policies.SpecsByValue` and `Der.ConvertedOctets`.

Some source functions are split: the checks on a created key, the read-back from a fresh handle, and the steps
that openKey and loadOrCreateKey repeat are methods of their own.

The engine methods of `PolicyEngine` record every call through the seam, with its answer, in a ghost trace
and ensure that the trace is a run in the sense of `EngineRuns` (`OpenRun`, `LoadRun`, `ApplyRun`). The
theorems about runs quantify over every sequence of events that is a run, so over every answer a store can
give. "Faithful" adds only that reads return what is persisted and that a successful write persists some
descriptor that classifies like the requested one: every call may still fail, a failed write may have
taken effect, and a created key may carry any descriptor.

The theorems about runs hold for every `Meaning`: every reading of descriptor bytes and of SDDL strings as a
state and a service SID. Where they need the two readings to agree they require the policy's spec to be
`Understood`, that is, the descriptor its SDDL string requests is read as the spec's own state and SID.
`WindowsMeaning.Windows` is the reading of the package, the exact classifier applied to the parsed DACL, and
`WindowsMeaning.ValidSpecsUnderstood` discharges the requirement for every valid policy. The engine methods
of `PolicyEngine` are proved with that reading.

The rank of a state is 2 for service-signer, 1 for service-sid and 0 for privileged-only.

Where the code and its comments differ, the code is followed: `transitionAllowed`
(windowscng/policy_windows.go:182-191) also lets a service-sid key become privileged-only, which the comment
on `ApplyPolicy` (windowscng/policy_windows.go:53-58) does not list. The authority of an identifier is
always printed in decimal, as the code does, and not in the hexadecimal form that section 2.4.2.1 of
[MS-DTYP] gives for large authorities.

## Model

| member | source | states |
|---|---|---|
| Descriptor.ParseSelfRelativeDACL | windowscng/sd.go:120-183 | for every byte string, without reading out of bounds: the printed ACEs of the one list that the bytes hold by `DescriptorBytes`, and an error exactly when they hold none |
| Descriptor.DaclByBytes | windowscng/sd.go:120-183 | list L is found iff, byte by byte: 20 bytes or more, revision 1, the self-relative, present and protected bits, an ACL of revision 2 or 4 within bounds, and its ACEs are L, each of type 0 with its size, mask and identifier at their places |
| Descriptor.DaclExact | windowscng/sd.go:120-183 | list L is found iff the header checks hold and the ACL body starts with the encodings of exactly the declared number of valid access-allowed ACEs, which are L; each takes at least 16 bytes |
| Descriptor.DaclUnique | windowscng/sd.go:156-182 | a descriptor describes at most one list of ACEs |
| Descriptor.DaclNoneExact | windowscng/sd.go:120-183 | the parser rejects exactly the byte strings that describe no DACL |
| Descriptor.DecodeAcesExact | windowscng/sd.go:158-181 | reading n ACEs succeeds iff the bytes start with n encoded valid ACEs; what follows them is not constrained |
| Descriptor.ParseAces | windowscng/sd.go:156-182 | the ACE loop returns what the recursive reader returns, in order |
| Sids.ParseSID | windowscng/sd.go:187-214 | the text and the exact byte length of the identifier at the start, or an error when there is none |
| Sids.DecodeSidExact | windowscng/sd.go:187-201 | an identifier is found iff it is valid and the bytes start with its encoding |
| Sids.SidByBytes | windowscng/sd.go:187-205 | an identifier is found iff revision 1, a count of at most 15, a big-endian 48-bit authority and that many little-endian 32-bit numbers stand there |
| Sids.RenderSidInjective | windowscng/sd.go:206-213 | identifiers with the same text are equal |
| Sids.SidTextIffBytes | windowscng/sd.go:187-214 | two parsed byte strings print alike iff the bytes their identifiers occupy are equal |
| Classifier.DistinctTextsIffDistinctSids | windowscng/sd.go:249-258 | the text-keyed duplicate check is a duplicate check on binary identifiers |
| ServiceSids.CheckServiceSID | windowscng/sd.go:303-321 | true iff the text is S-1-5-80- and the canonical decimals of five 32-bit numbers joined by dashes |
| ServiceSids.ServiceSidByValue | windowscng/sd.go:303-321 | the recognised texts are S-1-5-80 with five dashes and 32-bit decimals written out |
| ServiceSids.ServiceSidOfParsed | windowscng/sd.go:202-213 | of the texts the parser prints, exactly those with authority 5 and six sub-authorities, the first 80, are recognised |
| Text.SplitOfJoin | windowscng/sd.go:308 | splitting undoes joining when no part contains the separator |
| Text.JoinOfSplit | windowscng/sd.go:308 | joining undoes splitting for every string |
| Decimal.CanonicalIsRendered | windowscng/sd.go:312-318 | a digit string without superfluous leading zeros is the rendering of its value |
| Classifier.ClassifyDescriptorSID | windowscng/sd.go:244-298 | for every byte string: the state and service SID that the permutation forms give, and an error exactly for unknown; the fall-through after the length switch is unreachable |
| Classifier.ClassifyExact | windowscng/sd.go:228-243 | each state holds exactly of the permutations of SYSTEM and Administrators with an admin mask plus nothing, one LOCAL SERVICE ACE or one service SID ACE with an allowed mask |
| Classifier.ClassifyByValue | windowscng/sd.go:244-298 | the same with the identifiers and every admitted mask as literal values |
| Classifier.ServiceRightsAreNarrow | windowscng/sd.go:60-78 | in a recognised list every trustee but SYSTEM and Administrators has GENERIC_READ and none of GENERIC_ALL, GENERIC_WRITE, DELETE, WRITE_DAC and WRITE_OWNER |
| Classifier.AdmissibleExact | windowscng/sd.go:251-297 | the loop's conditions accept exactly the lists of one of the three forms |
| Classifier.FormsExclusive | windowscng/sd.go:286-296 | no list has two forms, and a service-sid list names one service: no descriptor satisfies two different states or SIDs |
| DescriptorBuilder.EncodeSIDText | windowscng/sd_test.go:24-49 | the encoding of the identifier a text denotes, filled in place, or failure when the text denotes none |
| DescriptorBuilder.BuildDescriptor | windowscng/sd_test.go:53-76 | the bytes of the descriptor for the structured ACEs, with header fields truncated to their widths |
| DescriptorBuilder.DescriptorRoundTrip | windowscng/sd_test.go:53-76 | parsing a built descriptor returns exactly the list it was built from, for every list that fits the 16-bit sizes and every control word with the three required bits |
| DescriptorBuilder.DenotingTexts | windowscng/sd_test.go:24-36 | the texts that denote an identifier are S, 1, a 48-bit and any number of 32-bit decimals joined by dashes |
| DescriptorBuilder.SidTextRoundTrip | windowscng/sd_test.go:93-103 | encoding the text of a valid identifier and parsing it returns that identifier |
| LegacyDacl.WalkDACL | windowscng/cng_windows.go:375-461 | accepts iff no allow ACE names one of six forbidden principals and SYSTEM, Administrators and LOCAL SERVICE each have exactly one, with the required generic rights |
| LegacyDacl.WalkByValue | windowscng/cng_windows.go:375-461 | the condition of the walk with the nine identifiers and the generic bits as literal values |
| LegacyDacl.LegacyAcceptsExactlySigners | windowscng/cng_windows.go:375-461 | of the lists the classifier recognises, the walk accepts exactly the service-signer ones |
| LegacyDacl.WalkIsWeaker | windowscng/policy_windows.go:28-29 | the walk also accepts a list that the classifier rejects |
| Policies.DeriveServiceSID | windowscng/policy.go:147-171 | a SID iff the name has 1 to 256 characters of A-Z, a-z, 0-9, `_`, `.` and `-`; it is the digest, in five little-endian numbers, of each upper-case character followed by a zero byte |
| Policies.DerivationByBytes | windowscng/policy.go:147-171 | the same of the specification function: accepted names, hashed bytes and resulting text, character by character and byte by byte |
| Policies.DerivedFromOne | windowscng/policy.go:147-171 | that description determines the SID |
| Policies.DerivedSidRecognised | windowscng/policy.go:139-171 | every derived SID is recognised as a service SID |
| Policies.DerivationIgnoresCase | windowscng/policy.go:151-162 | names that differ only in ASCII case are accepted alike and have the same SID |
| Policies.ValidateAcceptsExactlyNew | windowscng/policy.go:104-129 | validate accepts exactly the values NewServicePolicy returns |
| Policies.SpecsByValue | windowscng/policy_windows.go:105-169 | the states, SDDL strings and privilege flags of the policies' specs as literal values; only codes 1 and 2 are valid |
| Policies.PolicySpecsAreValid | windowscng/policy_windows.go:163-169 | every valid policy's spec is one the engine theorems cover |
| Policies.RequestedDescriptorClassifies | windowscng/policy_windows_test.go:98-110 | the descriptor a valid policy's SDDL requests parses and classifies as that policy's state and SID |
| WindowsMeaning.ValidSpecsUnderstood | windowscng/policy_windows.go:163-169 | the descriptor each valid policy requests is read back as that policy's state and SID, so the theorems about runs apply to every valid policy |
| WindowsMeaning.PrivilegedOpenExact | windowscng/policy_windows.go:163-169 | opening needs a privileged caller iff the policy provides for SYSTEM and Administrators only |
| EngineProperties.ApplyWritesAtMostOnce | windowscng/policy_windows.go:355-407 | under any answers: no create, delete or signer, at most one write, of the wanted SDDL, after a positive privilege check and passed checks on that handle, and only on an allowed transition |
| EngineProperties.ApplyWritesExactly | windowscng/policy_windows.go:182-191 | a write is made iff the key opened, passed the checks and was read in a state from which one of the three transitions leads to the wanted one |
| EngineProperties.ApplySuccess | windowscng/policy_windows.go:376-406 | nil means nothing was written and the descriptor read was in the wanted state, or one write was confirmed on the same and on a freshly opened handle |
| EngineProperties.OpenNeverMutates | windowscng/policy_windows.go:269-280 | open never creates, writes or deletes |
| EngineProperties.CreationDiscipline | windowscng/policy_windows.go:296-339 | at most one create, only for a privileged caller whose open in this call wrapped ErrKeyNotFound; only the handle that create returned is deleted; nothing is written |
| EngineProperties.PrivilegeGate | windowscng/policy_windows.go:269-305 | privilege is asked for at most once and first; a call that needs it and is not granted it does nothing else and is refused for that; otherwise the named key is opened |
| EngineProperties.ApplyGate | windowscng/policy_windows.go:355-358 | apply goes on iff privilege is granted, and is refused for that otherwise |
| EngineProperties.SignerImpliesValidation | windowscng/policy_windows.go:207-253 | a signer is returned only after the export, public-key and DACL checks passed on that same handle |
| WindowsMeaning.InStateGrantsExactly | windowscng/policy_windows.go:217-230 | a descriptor that passes grants exactly the spec's principals, once each and without flags |
| EngineProperties.FailureAfterWrite | windowscng/policy_windows.go:393-405 | after a successful write a failure wraps errPostWriteVerification and nothing else, whatever the store's errors wrap |
| EngineProperties.ApplyErrorMeaning | windowscng/policy_windows.go:355-407 | what each sentinel says about the call: in particular a mismatch means nothing was written |
| EngineProperties.PrivilegeErrorMeaning | windowscng/policy.go:55-59 | an open or load that reports missing privilege opened and created no key |
| EngineProperties.RefusalExact | windowscng/policy_windows.go:207-339 | each sentinel in an error of open or load-or-create is there iff a given event happened in the call |
| EngineProperties.ApplyMismatchExact | windowscng/policy_windows.go:366-387 | apply reports a mismatch iff the public key was bad, or the state read neither is the wanted one nor leads to it |
| EngineProperties.CausesAreKept | windowscng/policy_windows.go:207-339 | with no assumption on the store: every failure fails the call, and all its sentinels are reported |
| EngineProperties.ApplyCausesAreKept | windowscng/policy_windows.go:355-407 | up to the write a failure is passed on as it is, after it as a post-write failure only |
| FaithfulStore.ApplyTightens | windowscng/policy_windows.go:182-191 | one apply only tightens keys, whatever fails |
| FaithfulStore.WriteLowers | windowscng/policy_windows.go:384-391 | every write takes a recognised descriptor to a strictly lower rank |
| FaithfulStore.MigratesByRank | windowscng/policy_windows.go:182-191 | the three transitions made are exactly those to a lower rank |
| FaithfulStore.RunTightens | windowscng/policy_windows.go:355-407 | over any sequence of open, load-or-create and apply calls every key stays and is only tightened |
| FaithfulStore.KeyLifetime | windowscng/policy_windows.go:182-191 | for each key over any run: rank never rises, at most two writes, an unrecognised descriptor is never touched, a service-sid key is never retargeted |
| FaithfulStore.LoadIsAccounted | windowscng/policy_windows.go:320-338 | after a failed load-or-create the store is as before, or the error wraps ErrCleanupFailed, or the signer could not be made after validation |
| FaithfulStore.CauseIsKept | windowscng/cng_windows.go:572-577 | the sentinels of the failed check are all reported, and ErrCleanupFailed is added when the delete fails |
| FaithfulStore.SignedMeansPersisted | windowscng/policy_windows.go:242-253 | a returned signer means the persisted descriptor is in the spec's state |
| FaithfulStore.AppliedMeansPersisted | windowscng/policy_windows.go:393-406 | a successful apply means the persisted descriptor is in the wanted state |
| ProvisionUse.ProvisionSucceeds | windowscng/policy_windows.go:296-339 | on a store that does not fail, a privileged load-or-create of an absent name succeeds for every valid policy |
| ProvisionUse.ServedApply | windowscng/policy_windows.go:355-407 | the exact effect of apply there: idempotent, one confirmed write to a strictly lower rank, otherwise a mismatch and no change |
| ProvisionUse.ApplyTransitions | windowscng/policy_windows.go:355-407 | apply succeeds, and leaves the wanted state, iff the key is in it already or the transition is service-signer to privileged-only or service-sid, or service-sid to privileged-only; otherwise a mismatch and an unchanged store |
| ProvisionUse.ProvisionThenUse | windowscng/policy_windows.go:269-407 | after provisioning, the same policy succeeds with no mutation, another one is a mismatch for open and load, and apply succeeds exactly when it leads to a lower rank |
| PolicyEngine.CheckDACLState | windowscng/policy_windows.go:217-230 | one read on the handle, and the error its bytes call for |
| PolicyEngine.CheckKeyPolicy | windowscng/policy_windows.go:207-215 | the checks in order, stopping at the first failure; success rests on the native answers for this key: export forbidden, public key exported, and a descriptor that classifies as the spec says |
| PolicyEngine.SignerWithPolicy | windowscng/policy_windows.go:242-253 | the key's two handles go to the signer or are freed |
| PolicyEngine.OpenSpec | windowscng/policy_windows.go:269-280 | an open run; a returned signer alone owns the two handles opened and its key's native answers passed the checks, and otherwise none is left open; a caller without membership gets no further where privilege is needed |
| PolicyEngine.LoadOrCreateSpec | windowscng/policy_windows.go:296-339 | a load run, with the same guarantees, and the persisted names accounted for: a key is only added for a member of SYSTEM or Administrators, after its export was forbidden and the spec's DACL set |
| PolicyEngine.ApplySpec | windowscng/policy_windows.go:355-407 | an apply run that leaves no handle open; privilege is reported missing iff the native membership answers say so; success means the last descriptor read natively is in the wanted state |
| NativeStore.NativeKeyStore.CallerPrivileged | windowscng/policy_windows.go:412-423 | positive iff the caller is a member of S-1-5-18, or not of it but of S-1-5-32-544; an error iff a check fails |
| NativeStore.NativeKeyStore.Open | windowscng/policy_windows.go:446-472 | the key owns two new handles or none is left open; the error wraps ErrKeyNotFound iff the native open answered 0x8009000D or 0x80090016 in its low 32 bits |
| NativeStore.NativeKeyStore.Create | windowscng/policy_windows.go:474-490 | as open; a key is finalized only after its export was forbidden and the DACL set; a failure left nothing persisted or wraps ErrCleanupFailed |
| NativeStore.NativeKey.Signer | windowscng/policy_windows.go:513-520 | both handles move to the signer, or the key keeps them |
| NativeStore.NativeKey.DeleteCreated | windowscng/policy_windows.go:522-530 | both handles end, and the key is gone iff nil is returned |
| NativeStore.NativeKey.Close | windowscng/policy_windows.go:532-541 | both handles are freed and zeroed |
| NativeKeys.DeleteKeyHandle | windowscng/cng_windows.go:208-217 | the handle is consumed by a successful delete and freed after a failed one, never both |
| NativeKeys.VerifyExportPolicy | windowscng/cng_windows.go:514-533 | passes iff the policy read on this key succeeded with none of the flags 1, 2, 4 and 8 |
| NativeStore.NativeKey.VerifyNonExportable | windowscng/policy_windows.go:499 | the recorded check passes iff that native read did |
| NativeKeys.ValidatePersistedKey | windowscng/cng_windows.go:535-544 | passes only on a key with such a policy whose descriptor has the ACEs the walk accepted; otherwise the last native answer was a refusal |
| NativeKeys.DeleteKey | windowscng/cng_windows.go:586-617 | no handle is left open, and the named key is removed iff nil is returned |
| NativeKeys.CreatePersistedKey | windowscng/cng_windows.go:733-784 | success owns one new handle and persists the absent name after forbidding export and setting the DACL; failure leaves no handle and nothing persisted unless it wraps ErrCleanupFailed |
| NativeKeys.OpenKey | windowscng/cng_windows.go:621-664 | a signer iff the name is usable and no native answer was a refusal; it owns both handles and the seven answers are those of its key, with the DACL walked; otherwise none is left open |
| NativeKeys.LoadOrCreateKey | windowscng/cng_windows.go:668-724 | the same for a key opened or created, the latter with the literal DACL; a failed call's effect on the persisted keys is accounted for |
| NativeKeys.NewCNGSigner | windowscng/cng_windows.go:794-800 | the signer owns the two handles, or the caller keeps them |
| NativeKeys.CngSigner.Close | windowscng/cng_windows.go:838-848 | frees both handles of an open signer and nothing on a closed one, so any number of calls frees each once |
| Der.MarshalECDSASig | windowscng/cng_windows.go:914-942 | the marshalled pair, or an error iff a component is zero |
| Der.MarshalExact | windowscng/cng_windows.go:914-942 | the strict decoder returns the pair iff both contents are at most 127 bytes and the body at most 255 |
| Der.EncodingIsUnique | windowscng/cng_windows.go:914-942 | what is marshalled is the only strict DER encoding of the pair |
| Der.P1363ToASN1 | windowscng/cng_windows.go:901-912 | succeeds iff 64 bytes with nonzero halves; 8 to 72 bytes that decode to exactly the two halves and are, octet by octet, 0x30 and two 0x02 elements of the halves without leading zeros |
| Der.ConvertedOctets | windowscng/cng_windows.go:901-942 | the same of the specification function: a zero half is one of zero octets, and the output octet by octet |
| Der.ConversionInjective | windowscng/cng_windows.go:901-912 | different signatures have different encodings |

## Left out

- The exported wrappers (OpenWithPolicy, OpenForService and the like): each validates its policy and calls one of the three operations modelled.
- Error message text, the hexadecimal descriptor diagnostic and policy labels: only the sentinels an error wraps are kept.
- The native calls themselves, SDDL conversion and token membership: arbitrary outcomes; an SDDL string stands for the descriptor it requests.
- The effect of a descriptor write on the native platform: stated for the faithful store of `FaithfulStore`, not for `Ncrypt.Platform`, which tracks handles and key names only.
- Interleaved callers on one key: the package asks callers to coordinate, so tightening is claimed for sequential runs.
- Keys removed with Delete or created with the legacy LoadOrCreate in the middle of a run of policy calls.
- SHA-1, ECDSA signing and P-256 arithmetic: SHA-1 is a function parameter with 20-byte results, and reading the public key succeeds or fails arbitrarily.
- Service names as Go byte strings: names are sequences of characters; one with a non-ASCII character is rejected either way.
- The unmarshalling of ACEs by GetAce and EqualSid in verifyDACL: the walk takes the ACE list, compares identifiers by their text, and stops the call when the list is unavailable.
- Der.MarshalExact: the strict decoder reads lengths up to 255, since the encoder writes no longer ones.
- windowscng/dll_windows.go, windowscng/cng_other.go and the example programs: module loading, stubs and demonstrations.
- Windows effective access, owner and SACL: the code disclaims them.
