/** Key handles and their owners: opening, creating and deleting keys, signers, and the native key store. */
module NativeKeys {
  import opened Bytes
  import opened Descriptor
  import opened Classifier
  import opened LegacyDacl
  import opened Policies
  import opened Seam
  import opened Ncrypt
  import opened NativeAnswers

  predicate NameConvertible(name: string) {
    '\0' !in name
  }

  // ----- signers -----

  /** cngSigner: it owns its provider and key handles until it is closed. */
  class CngSigner {
    const nc: Platform
    const name: string
    var provider: nat
    var key: nat

    constructor (nc: Platform, provider: nat, key: nat, name: string)
      ensures this.nc == nc && this.provider == provider && this.key == key && this.name == name
    {
      this.nc, this.provider, this.key, this.name := nc, provider, key, name;
    }

    ghost predicate Owns()
      reads this, nc
    {
      && nc.Valid()
      && provider != key && nc.IsProvider(provider) && nc.IsKey(key, name)
    }

    ghost predicate Closed()
      reads this
    {
      provider == 0 && key == 0
    }

    /** Close frees both handles of an open signer, and does nothing on a closed one. */
    method Close()
      requires nc.Valid() && (Owns() || Closed())
      modifies this, nc`live
      ensures Closed() && nc.Valid()
      ensures nc.live == old(nc.live) - {old(provider), old(key)}
      ensures old(Closed()) ==> nc.live == old(nc.live)
    {
      if key != 0 {
        nc.FreeObject(key);
        key := 0;
      }
      if provider != 0 {
        nc.FreeObject(provider);
        provider := 0;
      }
    }
  }

  /** newCNGSigner: the caller keeps the handles if it fails. */
  method NewCNGSigner(nc: Platform, provider: nat, key: nat, name: string) returns (s: CngSigner?, err: Error)
    requires nc.Valid() && provider != key && nc.IsProvider(provider) && nc.IsKey(key, name)
    modifies nc`calls
    ensures nc.calls == old(nc.calls) + [PublicKeyExported(key, s != null)]
    ensures err.Ok? <==> s != null
    ensures err.Failed? ==> err.wraps == {}
    ensures s != null ==> fresh(s) && s.nc == nc && s.Owns() && s.provider == provider && s.key == key && s.name == name
  {
    var ok := nc.ExportPublicKey(key);
    if !ok {
      return null, Failed({});
    }
    s := new CngSigner(nc, provider, key, name);
    err := Ok;
  }

  // ----- deletion -----

  /** deleteCNGKeyHandle and deletePersistedKey: the handle is consumed by a successful delete and freed after a failed one. */
  method DeleteKeyHandle(nc: Platform, h: nat, ghost name: string) returns (err: Error)
    requires nc.Valid() && (h == 0 || nc.IsKey(h, name))
    modifies nc`live, nc`persisted
    ensures nc.Valid() && nc.live == old(nc.live) - {h}
    ensures err.Ok? ==> nc.persisted == if h == 0 then old(nc.persisted) else old(nc.persisted) - {name}
    ensures err.Failed? ==> h != 0 && err.wraps == {} && nc.persisted == old(nc.persisted)
  {
    if h == 0 {
      return Ok;
    }
    var r := nc.DeleteKey(h, name);
    if r != 0 {
      nc.FreeObject(h);
      return Failed({});
    }
    return Ok;
  }

  /** deleteKey. Nothing is deleted unless nil is returned, and no handle is left open. */
  method DeleteKey(nc: Platform, name: string) returns (err: Error)
    requires nc.Valid()
    modifies nc
    ensures nc.Valid() && nc.live == old(nc.live)
    ensures nc.persisted == if err.Ok? then old(nc.persisted) - {name} else old(nc.persisted)
    ensures err.Failed? ==> err.wraps <= {ErrKeyNotFound}
    ensures err.Failed? && ErrKeyNotFound in err.wraps <==> EndsNotFound(old(nc.calls), nc.calls)
  {
    var r, provider := nc.OpenStorageProvider();
    if r != 0 {
      return Failed({});
    }
    if !NameConvertible(name) {
      nc.FreeObject(provider);
      return Failed({});
    }
    var status, key := nc.OpenKey(provider, name);
    if status != 0 {
      nc.FreeObject(provider);
      if IsKeyNotFound(status) {
        return Failed({ErrKeyNotFound});
      }
      return Failed({});
    }
    err := DeleteKeyHandle(nc, key, name);
    nc.FreeObject(provider);
  }

  // ----- validation -----

  const FORBIDDEN_EXPORT: bv32 := 0x1 | 0x2 | 0x4 | 0x8

  /** verifyExportPolicy: none of the four export and archiving flags may be set. */
  method VerifyExportPolicy(nc: Platform, h: nat) returns (err: Error)
    requires h in nc.live
    modifies nc`calls
    ensures |nc.calls| == |old(nc.calls)| + 1 && old(nc.calls) <= nc.calls
    ensures var c := nc.calls[|old(nc.calls)|]; c.ExportPolicyRead? && c.h == h && (err.Ok? <==> NonExportable(c, h))
    ensures err.Failed? ==> err.wraps == {} && EndsRefusedLater(old(nc.calls), nc.calls)
  {
    var r, policy := nc.GetExportPolicy(h);
    ForbidsExportExact(policy);
    hide ForbidsExport;
    assert FORBIDDEN_EXPORT == 0xF;
    if r != 0 || policy as bv32 & FORBIDDEN_EXPORT != 0 {
      return Failed({});
    }
    return Ok;
  }

  /** getSecurityDescriptor: query the size, then read. */
  method GetSecurityDescriptor(nc: Platform, h: nat) returns (sd: seq<byte>, err: Error)
    requires h in nc.live
    modifies nc`calls
    ensures err.Ok? ==> |nc.calls| == |old(nc.calls)| + 2 && old(nc.calls) <= nc.calls
    ensures err.Ok? ==> DescriptorAt(nc.calls, |old(nc.calls)|, h) && nc.calls[|old(nc.calls)| + 1].sd == sd
    ensures err.Failed? ==> err.wraps == {} && sd == [] && EndsRefusedLater(old(nc.calls), nc.calls)
  {
    var r, size := nc.GetDescriptorSize(h);
    if r != 0 || size == 0 {
      return [], Failed({});
    }
    var buf;
    r, buf := nc.GetDescriptor(h);
    if r != 0 {
      return [], Failed({});
    }
    return buf, Ok;
  }

  /** validatePersistedKey: the export policy, then the legacy walk over the persisted DACL, `walked`. */
  method ValidatePersistedKey(nc: Platform, h: nat) returns (err: Error, ghost walked: seq<ParsedAce>)
    requires h in nc.live
    modifies nc`calls
    ensures err.Ok? ==> |nc.calls| == |old(nc.calls)| + 4 && old(nc.calls) <= nc.calls
    ensures err.Ok? ==> ValidatedAt(nc.calls, |old(nc.calls)|, h, walked)
    ensures err.Failed? ==> err.wraps == {} && EndsRefusedLater(old(nc.calls), nc.calls)
  {
    hide LegacyAccepts, ForbidsExport;
    walked := [];
    err := VerifyExportPolicy(nc, h);
    if err.Failed? {
      return;
    }
    var sd, readErr := GetSecurityDescriptor(nc, h);
    if readErr.Failed? {
      return readErr, walked;
    }
    var ok, aces := nc.GetAces(sd);
    if !ok {
      return Failed({}), walked;
    }
    walked := aces;
    var accepted := WalkDACL(aces);
    err := if accepted then Ok else Failed({});
  }

  // ----- creation -----

  /**
   * createPersistedKey: on success the caller owns the one new handle and the absent name is persisted;
   * on failure no handle is left and nothing is persisted, unless the error wraps ErrCleanupFailed.
   */
  method CreatePersistedKey(nc: Platform, provider: nat, name: string, sddl: string) returns (key: nat, err: Error)
    requires nc.Valid() && nc.IsProvider(provider)
    modifies nc
    ensures nc.Valid()
    ensures err.Ok? ==> key != 0 && key !in old(nc.live) && nc.live == old(nc.live)[key := Key(name)]
    ensures err.Ok? ==> name !in old(nc.persisted) && nc.persisted == old(nc.persisted) + {name}
    ensures err.Failed? ==> key == 0 && nc.live == old(nc.live) && err.wraps <= {ErrCleanupFailed}
    ensures err.Failed? ==>
      || nc.persisted == old(nc.persisted)
      || (ErrCleanupFailed in err.wraps && name !in old(nc.persisted) && nc.persisted == old(nc.persisted) + {name})
    ensures err.Ok? ==> |nc.calls| == |old(nc.calls)| + 5 && old(nc.calls) <= nc.calls
    ensures err.Ok? ==> CreatedAt(nc.calls, |old(nc.calls)|, name, sddl, key)
    ensures err.Failed? ==> EndsRefusedLater(old(nc.calls), nc.calls)
    ensures nc.persisted != old(nc.persisted) ==> exists h :: PreparedAt(nc.calls, |old(nc.calls)|, name, sddl, h)
  {
    hide PreparedAt, LegacyAccepts, ForbidsExport;
    var r, h := nc.CreatePersistedKey(provider, name);
    if r != 0 {
      return 0, Failed({});
    }
    err := PrepareKey(nc, h, name, sddl);
    if err.Failed? {
      nc.FreeObject(h);
      return 0, err;
    }
    ghost var prepared := nc.calls;
    r := nc.FinalizeKey(h, name);
    PreparedStays(prepared, nc.calls, |old(nc.calls)|, name, sddl, h);
    if r != 0 {
      var deleted := DeleteKeyHandle(nc, h, name);
      return 0, Failed(CleanupWraps({}, deleted));
    }
    return h, Ok;
  }

  /** The part of createPersistedKey between the creation of `h` and its finalization: forbid export, then set the DACL. */
  method PrepareKey(nc: Platform, h: nat, ghost name: string, sddl: string) returns (err: Error)
    requires h in nc.live && |nc.calls| > 0 && nc.calls[|nc.calls| - 1] == KeyCreated(name, 0, h)
    modifies nc`calls
    ensures err.Ok? ==> |nc.calls| == |old(nc.calls)| + 3 && old(nc.calls) <= nc.calls
    ensures err.Ok? ==> PreparedAt(nc.calls, |old(nc.calls)| - 1, name, sddl, h)
    ensures err.Failed? ==> err.wraps == {} && EndsRefusedLater(old(nc.calls), nc.calls)
  {
    hide LegacyAccepts, ForbidsExport;
    var r := nc.SetExportPolicy(h, 0);
    if r != 0 {
      return Failed({});
    }
    var ok, sd := nc.ConvertSddl(sddl);
    if !ok {
      return Failed({});
    }
    r := nc.SetDescriptor(h, sd);
    if r != 0 {
      return Failed({});
    }
    return Ok;
  }

  // ----- the legacy open and load-or-create -----

  /** What a returned signer owns: two handles that were not open before, and nothing else was opened or freed. */
  ghost predicate OwnsAllNew(before: Ledger, after: Ledger, s: CngSigner)
    reads s
  {
    && s.provider !in before && s.key !in before && s.provider != s.key && s.provider != 0 && s.key != 0
    && after == before[s.provider := Provider][s.key := Key(s.name)]
  }

  /** What openKey and loadOrCreateKey do with an open key: validate it and give both handles to a signer, or free them. */
  method ValidatedSigner(nc: Platform, provider: nat, key: nat, name: string)
    returns (s: CngSigner?, err: Error, ghost walked: seq<ParsedAce>)
    requires nc.Valid() && provider != key && nc.IsProvider(provider) && nc.IsKey(key, name)
    modifies nc`live, nc`calls
    ensures nc.Valid() && (err.Ok? <==> s != null)
    ensures s != null ==> fresh(s) && s.nc == nc && s.name == name && s.provider == provider && s.key == key
    ensures s != null ==> nc.live == old(nc.live)
    ensures s != null ==> |nc.calls| == |old(nc.calls)| + 5 && old(nc.calls) <= nc.calls
    ensures s != null ==> ValidatedAt(nc.calls, |old(nc.calls)|, key, walked)
    ensures s != null ==> nc.calls[|old(nc.calls)| + 4] == PublicKeyExported(key, true)
    ensures s == null ==> nc.live == old(nc.live) - {provider, key}
    ensures s == null ==> err.wraps == {} && EndsRefusedLater(old(nc.calls), nc.calls)
  {
    hide ValidatedAt, LegacyAccepts;
    s := null;
    err, walked := ValidatePersistedKey(nc, key);
    if err.Failed? {
      nc.FreeObject(key);
      nc.FreeObject(provider);
      return;
    }
    ghost var checked := nc.calls;
    s, err := NewCNGSigner(nc, provider, key, name);
    ValidatedGrows(checked, nc.calls, |old(nc.calls)|, key, walked);
    if err.Failed? {
      nc.FreeObject(key);
      nc.FreeObject(provider);
    }
  }

  /** openKey: the signer owns both handles, or none is left open; `walked` is the DACL the legacy walk accepted. */
  method OpenKey(nc: Platform, name: string) returns (s: CngSigner?, err: Error, ghost walked: seq<ParsedAce>)
    requires nc.Valid()
    modifies nc`live, nc`calls
    ensures nc.Valid() && (err.Ok? <==> s != null)
    ensures s != null ==> fresh(s) && s.nc == nc && s.name == name && OwnsAllNew(old(nc.live), nc.live, s)
    ensures s != null ==> old(nc.calls) <= nc.calls
    ensures s != null ==> OpenedSigner(nc.calls, |old(nc.calls)|, name, s.provider, s.key, walked)
    ensures s == null ==> nc.live == old(nc.live) && err.wraps <= {ErrKeyNotFound}
    ensures s != null <==> NameConvertible(name) && !EndsRefused(old(nc.calls), nc.calls)
    ensures s == null ==> (ErrKeyNotFound in err.wraps <==> EndsNotFound(old(nc.calls), nc.calls))
  {
    hide ValidatedAt, LegacyAccepts, ForbidsExport, NameConvertible;
    s, walked := null, [];
    var r, provider := nc.OpenStorageProvider();
    if r != 0 {
      err := Failed({});
      return;
    }
    if !NameConvertible(name) {
      nc.FreeObject(provider);
      err := Failed({});
      return;
    }
    var status, key := nc.OpenKey(provider, name);
    if status != 0 {
      nc.FreeObject(provider);
      err := Failed(if IsKeyNotFound(status) then {ErrKeyNotFound} else {});
      return;
    }
    s, err, walked := ValidatedSigner(nc, provider, key, name);
  }

  /** The creating half of loadOrCreateKey; the provider handle is used up either way. */
  method CreateLegacyKey(nc: Platform, provider: nat, name: string)
    returns (s: CngSigner?, err: Error, ghost walked: seq<ParsedAce>, ghost validated: bool)
    requires nc.Valid() && nc.IsProvider(provider)
    modifies nc
    ensures nc.Valid() && (err.Ok? <==> s != null)
    ensures s != null ==> fresh(s) && s.nc == nc && s.name == name && s.provider == provider
    ensures s != null ==> s.key != 0 && s.key !in old(nc.live) && nc.live == old(nc.live)[s.key := Key(name)]
    ensures s != null ==> |nc.calls| == |old(nc.calls)| + 10 && old(nc.calls) <= nc.calls
    ensures s != null ==> CreatedAt(nc.calls, |old(nc.calls)|, name, KEY_SECURITY_SDDL, s.key)
    ensures s != null ==> ValidatedAt(nc.calls, |old(nc.calls)| + 5, s.key, walked)
    ensures s != null ==> nc.calls[|old(nc.calls)| + 9] == PublicKeyExported(s.key, true)
    ensures s == null ==> nc.live == old(nc.live) - {provider} && err.wraps <= {ErrCleanupFailed}
    ensures s == null ==> EndsRefusedLater(old(nc.calls), nc.calls)
    ensures validated ==> LegacyAccepts(walked)
    ensures nc.persisted == old(nc.persisted) || (name !in old(nc.persisted) && nc.persisted == old(nc.persisted) + {name})
    ensures s == null && nc.persisted != old(nc.persisted) ==> ErrCleanupFailed in err.wraps || validated
  {
    hide LegacyAccepts, CreatedAt, PreparedAt, ForbidsExport, DescriptorAt;
    s, walked, validated := null, [], false;
    var key;
    key, err := CreatePersistedKey(nc, provider, name, KEY_SECURITY_SDDL);
    if err.Failed? {
      nc.FreeObject(provider);
      return;
    }
    ghost var created := nc.calls;
    err, walked := ValidatePersistedKey(nc, key);
    if err.Failed? {
      var deleted := DeleteKeyHandle(nc, key, name);
      err := Failed(CleanupWraps(err.wraps, deleted));
      nc.FreeObject(provider);
      return;
    }
    validated := true;
    ghost var checked := nc.calls;
    s, err := NewCNGSigner(nc, provider, key, name);
    CreatedGrows(created, nc.calls, |old(nc.calls)|, name, KEY_SECURITY_SDDL, key);
    ValidatedGrows(checked, nc.calls, |created|, key, walked);
    if err.Failed? {
      nc.FreeObject(key);
      nc.FreeObject(provider);
    }
  }

  /**
   * loadOrCreateKey: as openKey for the handles. A failed call leaves the persisted keys as they were,
   * unless it says ErrCleanupFailed or a created and validated key could not be turned into a signer.
   */
  method LoadOrCreateKey(nc: Platform, name: string)
    returns (s: CngSigner?, err: Error, ghost walked: seq<ParsedAce>, ghost validated: bool)
    requires nc.Valid()
    modifies nc
    ensures nc.Valid() && (err.Ok? <==> s != null)
    ensures s != null ==> fresh(s) && s.nc == nc && s.name == name && OwnsAllNew(old(nc.live), nc.live, s)
    ensures s != null ==> old(nc.calls) <= nc.calls
    ensures s != null ==>
      || OpenedSigner(nc.calls, |old(nc.calls)|, name, s.provider, s.key, walked)
      || CreatedSigner(nc.calls, |old(nc.calls)|, name, s.provider, s.key, walked)
    ensures s != null <==> NameConvertible(name) && !EndsRefused(old(nc.calls), nc.calls)
    ensures s == null && NameConvertible(name) ==> EndsRefusedLater(old(nc.calls), nc.calls)
    ensures s == null ==> nc.live == old(nc.live) && err.wraps <= {ErrCleanupFailed}
    ensures validated ==> LegacyAccepts(walked)
    ensures nc.persisted == old(nc.persisted) || (name !in old(nc.persisted) && nc.persisted == old(nc.persisted) + {name})
    ensures s == null && nc.persisted != old(nc.persisted) ==> ErrCleanupFailed in err.wraps || validated
  {
    hide LegacyAccepts, NameConvertible, IsKeyNotFound, CreatedAt, PreparedAt, ValidatedAt;
    s, walked, validated := null, [], false;
    var r, provider := nc.OpenStorageProvider();
    if r != 0 {
      err := Failed({});
      return;
    }
    if !NameConvertible(name) {
      nc.FreeObject(provider);
      err := Failed({});
      return;
    }
    var status, key := nc.OpenKey(provider, name);
    if status == 0 {
      s, err, walked := ValidatedSigner(nc, provider, key, name);
      return;
    }
    s, err, walked, validated := CreateLegacyKey(nc, provider, name);
  }
}
