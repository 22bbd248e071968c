/** nativeKeyStore and nativeKey: the seam's calls made with native calls, each recorded with its answer. */
module NativeStore {
  import opened Bytes
  import opened Classifier
  import opened Seam
  import opened EngineProperties
  import opened Ncrypt
  import opened NativeKeys
  import opened NativeAnswers

  class NativeKeyStore {
    const nc: Platform
    ghost var trace: seq<Event>

    constructor (nc: Platform)
      ensures this.nc == nc && trace == []
    {
      this.nc := nc;
      trace := [];
    }

    /**
     * callerPrivileged: a member of SYSTEM (S-1-5-18) or Administrators (S-1-5-32-544); the first failing
     * check is reported, and no other native call is made.
     */
    method CallerPrivileged() returns (member: bool, err: Error)
      modifies `trace, nc`calls
      ensures trace == old(trace) + [Privilege(member, err)] && CleanError(Privilege(member, err))
      ensures err.Failed? ==> !member
      ensures old(nc.calls) < nc.calls && |nc.calls| <= |old(nc.calls)| + 2
      ensures OnlyMemberships(nc.calls, |old(nc.calls)|)
      ensures member <==> MembershipAt(nc.calls, |old(nc.calls)|)
      ensures err.Failed? <==> EndsRefused(old(nc.calls), nc.calls)
    {
      member, err := false, Ok;
      var sids := [SID_SYSTEM, SID_ADMINISTRATORS];
      for i := 0 to 2
        invariant trace == old(trace) && err.Ok? && !member
        invariant nc.calls == old(nc.calls) + if i == 0 then [] else
          if i == 1 then [MembershipChecked(SID_SYSTEM, true, false)] else
          [MembershipChecked(SID_SYSTEM, true, false), MembershipChecked(SID_ADMINISTRATORS, true, false)]
      {
        var ok, isMember := nc.CheckTokenMembership(sids[i]);
        if !ok {
          err := Failed({});
          break;
        }
        if isMember {
          member := true;
          break;
        }
      }
      trace := trace + [Privilege(member, err)];
    }

    /** open: the key object owns two new handles, or none is left open. */
    method Open(name: string) returns (k: NativeKey?, err: Error)
      requires nc.Valid()
      modifies `trace, nc`live, nc`calls
      ensures nc.Valid() && (err.Ok? <==> k != null)
      ensures k != null ==> fresh(k) && k.store == this && k.name == name && k.OwnsNew(old(nc.live))
      ensures k == null ==> nc.live == old(nc.live)
      ensures old(nc.calls) <= nc.calls
      ensures k != null ==> nc.calls == old(nc.calls) + [ProviderOpened(0, k.provider), KeyOpened(name, 0, k.key)]
      ensures k == null <==> !NameConvertible(name) || EndsRefused(old(nc.calls), nc.calls)
      ensures k == null ==> (ErrKeyNotFound in err.wraps <==> EndsNotFound(old(nc.calls), nc.calls))
      ensures trace == old(trace) + [Event.Open(name, if k != null then Opened(k.handle) else NotOpened(err.wraps))]
      ensures CleanError(trace[|old(trace)|])
    {
      ghost var id := |trace|;
      k, err := null, Failed({});
      var r, provider := nc.OpenStorageProvider();
      if r == 0 {
        if !NameConvertible(name) {
          nc.FreeObject(provider);
        } else {
          var status, key := nc.OpenKey(provider, name);
          if status != 0 {
            nc.FreeObject(provider);
            err := Failed(if IsKeyNotFound(status) then {ErrKeyNotFound} else {});
          } else {
            k := new NativeKey(this, provider, key, name, Handle(id, name));
            err := Ok;
          }
        }
      }
      trace := trace + [Event.Open(name, if k != null then Opened(k.handle) else NotOpened(err.wraps))];
    }

    /** create: as open for the handles; a failure leaves nothing persisted or wraps ErrCleanupFailed. */
    method Create(name: string, sddl: string) returns (k: NativeKey?, err: Error)
      requires nc.Valid()
      modifies `trace, nc
      ensures nc.Valid() && (err.Ok? <==> k != null)
      ensures k != null ==> fresh(k) && k.store == this && k.name == name && k.OwnsNew(old(nc.live))
      ensures k != null ==> name !in old(nc.persisted) && nc.persisted == old(nc.persisted) + {name}
      ensures k == null ==> nc.live == old(nc.live)
      ensures k == null ==>
        || nc.persisted == old(nc.persisted)
        || (ErrCleanupFailed in err.wraps && name !in old(nc.persisted) && nc.persisted == old(nc.persisted) + {name})
      ensures old(nc.calls) <= nc.calls
      ensures k != null ==>
        && |nc.calls| == |old(nc.calls)| + 6
        && nc.calls[|old(nc.calls)|] == ProviderOpened(0, k.provider)
        && CreatedAt(nc.calls, |old(nc.calls)| + 1, name, sddl, k.key)
      ensures k == null ==> !NameConvertible(name) || EndsRefusedLater(old(nc.calls), nc.calls)
      ensures nc.persisted != old(nc.persisted) ==> PreparedSince(nc.calls, |old(nc.calls)|, name, sddl)
      ensures trace == old(trace) + [Event.Create(name, sddl, if k != null then Opened(k.handle) else NotOpened(err.wraps))]
      ensures CleanError(trace[|old(trace)|])
    {
      ghost var id := |trace|;
      k, err := null, Failed({});
      var r, provider := nc.OpenStorageProvider();
      if r == 0 {
        if !NameConvertible(name) {
          nc.FreeObject(provider);
        } else {
          var key;
          key, err := CreatePersistedKey(nc, provider, name, sddl);
          if nc.persisted != old(nc.persisted) {
            ghost var h :| PreparedAt(nc.calls, |old(nc.calls)| + 1, name, sddl, h);
          }
          if err.Failed? {
            nc.FreeObject(provider);
          } else {
            k := new NativeKey(this, provider, key, name, Handle(id, name));
          }
        }
      }
      trace := trace + [Event.Create(name, sddl, if k != null then Opened(k.handle) else NotOpened(err.wraps))];
    }
  }

  /** An open key; its lifetime ends with Close, DeleteCreated or a successful Signer, which zero its handles. */
  class NativeKey {
    const store: NativeKeyStore
    const name: string
    ghost const handle: Handle
    var provider: nat
    var key: nat

    constructor (store: NativeKeyStore, provider: nat, key: nat, name: string, ghost handle: Handle)
      ensures this.store == store && this.provider == provider && this.key == key
      ensures this.name == name && this.handle == handle
    {
      this.store, this.provider, this.key, this.name, this.handle := store, provider, key, name, handle;
    }

    /** The object holds two open handles. */
    ghost predicate Held()
      reads this, store, store.nc
    {
      && store.nc.Valid()
      && provider != key && store.nc.IsProvider(provider) && store.nc.IsKey(key, name)
    }

    ghost predicate Ended()
      reads this
    {
      provider == 0 && key == 0
    }

    /** The open handles are those of `before` and this object's two. */
    ghost predicate OwnsNew(before: Ledger)
      reads this, store, store.nc
    {
      && provider !in before && key !in before && provider != key && provider != 0 && key != 0
      && store.nc.live == before[provider := Provider][key := Key(name)]
    }

    method VerifyNonExportable() returns (err: Error)
      requires Held()
      modifies store`trace, store.nc`calls
      ensures store.trace == old(store.trace) + [VerifyExport(handle, err)] && CleanError(VerifyExport(handle, err))
      ensures |store.nc.calls| == |old(store.nc.calls)| + 1 && old(store.nc.calls) <= store.nc.calls
      ensures var c := store.nc.calls[|old(store.nc.calls)|];
        c.ExportPolicyRead? && c.h == key && (err.Ok? <==> NonExportable(c, key))
    {
      err := VerifyExportPolicy(store.nc, key);
      store.trace := store.trace + [VerifyExport(handle, err)];
    }

    method PublicKey() returns (err: Error)
      requires Held()
      modifies store`trace, store.nc`calls
      ensures store.nc.calls == old(store.nc.calls) + [PublicKeyExported(key, err.Ok?)]
      ensures store.trace == old(store.trace) + [Event.PublicKey(handle, err)] && CleanError(Event.PublicKey(handle, err))
    {
      var ok := store.nc.ExportPublicKey(key);
      err := if ok then Ok else Failed({});
      store.trace := store.trace + [Event.PublicKey(handle, err)];
    }

    method SecurityDescriptor() returns (sd: seq<byte>, err: Error)
      requires Held()
      modifies store`trace, store.nc`calls
      ensures err.Ok? ==> |store.nc.calls| == |old(store.nc.calls)| + 2 && old(store.nc.calls) <= store.nc.calls
      ensures err.Ok? ==>
        DescriptorAt(store.nc.calls, |old(store.nc.calls)|, key) && store.nc.calls[|old(store.nc.calls)| + 1].sd == sd
      ensures err.Failed? ==> EndsRefusedLater(old(store.nc.calls), store.nc.calls)
      ensures store.trace == old(store.trace) + [ReadDescriptor(handle, sd, err)]
      ensures CleanError(ReadDescriptor(handle, sd, err))
    {
      sd, err := GetSecurityDescriptor(store.nc, key);
      store.trace := store.trace + [ReadDescriptor(handle, sd, err)];
    }

    method SetSecurityDescriptor(sddl: string) returns (err: Error)
      requires Held()
      modifies store`trace, store.nc`calls
      ensures err.Ok? ==>
        exists sd :: store.nc.calls == old(store.nc.calls) + [SddlConverted(sddl, true, sd), DescriptorSet(key, sd, 0)]
      ensures err.Failed? ==> EndsRefusedLater(old(store.nc.calls), store.nc.calls)
      ensures store.trace == old(store.trace) + [WriteDescriptor(handle, sddl, err)]
      ensures CleanError(WriteDescriptor(handle, sddl, err))
    {
      var ok, sd := store.nc.ConvertSddl(sddl);
      err := Failed({});
      if ok {
        var r := store.nc.SetDescriptor(key, sd);
        err := if r == 0 then Ok else Failed({});
      }
      store.trace := store.trace + [WriteDescriptor(handle, sddl, err)];
    }

    /** signer: on success both handles move to the signer. */
    method Signer() returns (s: CngSigner?, err: Error)
      requires Held()
      modifies this, store`trace, store.nc`calls
      ensures store.nc.calls == old(store.nc.calls) + [PublicKeyExported(old(key), s != null)]
      ensures err.Ok? <==> s != null
      ensures s != null ==> fresh(s) && s.nc == store.nc && s.Owns() && Ended()
      ensures s != null ==> s.provider == old(provider) && s.key == old(key) && s.name == name
      ensures s == null ==> provider == old(provider) && key == old(key)
      ensures store.trace == old(store.trace) + [MakeSigner(handle, err)] && CleanError(MakeSigner(handle, err))
    {
      s, err := NewCNGSigner(store.nc, provider, key, name);
      if s != null {
        provider, key := 0, 0;
      }
      store.trace := store.trace + [MakeSigner(handle, err)];
    }

    /** deleteCreated: the delete error is returned, and both handles are released either way. */
    method DeleteCreated() returns (err: Error)
      requires Held()
      modifies this, store`trace, store.nc`live, store.nc`persisted
      ensures Ended() && store.nc.Valid()
      ensures store.nc.live == old(store.nc.live) - {old(provider), old(key)}
      ensures store.nc.persisted == if err.Ok? then old(store.nc.persisted) - {name} else old(store.nc.persisted)
      ensures store.trace == old(store.trace) + [Event.DeleteCreated(handle, err)]
      ensures CleanError(Event.DeleteCreated(handle, err))
    {
      err := Ok;
      if key != 0 {
        err := DeleteKeyHandle(store.nc, key, name);
        key := 0;
      }
      Release();
      store.trace := store.trace + [Event.DeleteCreated(handle, err)];
    }

    /** close: frees what the object still holds. */
    method Close()
      requires Held()
      modifies this, store`trace, store.nc`live
      ensures Ended() && store.nc.Valid()
      ensures store.nc.live == old(store.nc.live) - {old(provider), old(key)}
      ensures store.trace == old(store.trace) + [Event.Close(handle)]
    {
      Release();
      store.trace := store.trace + [Event.Close(handle)];
    }

    /** The body of close, which deleteCreated shares; it skips handles that are already zero. */
    method Release()
      requires store.nc.Valid() && provider != key
      requires key == 0 || key in store.nc.live
      requires provider == 0 || provider in store.nc.live
      modifies this, store.nc`live
      ensures Ended() && store.nc.Valid()
      ensures store.nc.live == old(store.nc.live) - {old(provider), old(key)}
    {
      if key != 0 {
        store.nc.FreeObject(key);
        key := 0;
      }
      if provider != 0 {
        store.nc.FreeObject(provider);
        provider := 0;
      }
    }
  }
}
