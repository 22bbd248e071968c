/** The native key storage calls: arbitrary outcomes over a ledger of open handles and a set of persisted keys. */
module Ncrypt {
  import opened Bytes
  import opened Descriptor

  datatype HandleKind = Provider | Key(name: string)

  type Ledger = map<nat, HandleKind>

  /** One native call that answers something, with its answer; `r` is a status, and zero is success. */
  datatype NativeCall =
    | ProviderOpened(r: nat, h: nat)
    | KeyOpened(name: string, r: nat, h: nat)
    | KeyCreated(name: string, r: nat, h: nat)
    | ExportPolicySet(h: nat, policy: uint32, r: nat)
    | DescriptorSet(h: nat, sd: seq<byte>, r: nat)
    | KeyFinalized(h: nat, r: nat)
    | ExportPolicyRead(h: nat, r: nat, policy: uint32)
    | DescriptorSizeRead(h: nat, r: nat, size: uint32)
    | DescriptorRead(h: nat, r: nat, sd: seq<byte>)
    | AcesRead(sd: seq<byte>, ok: bool, aces: seq<ParsedAce>)
    | PublicKeyExported(h: nat, ok: bool)
    | SddlConverted(sddl: string, ok: bool, sd: seq<byte>)
    | MembershipChecked(sid: string, ok: bool, member: bool)

  const NTE_NOT_FOUND := 0x8009_000D
  const NTE_BAD_KEYSET := 0x8009_0016
  const NTE_EXISTS := 0x8009_000F

  /** IsKeyNotFound: the low 32 bits of the status. */
  predicate IsKeyNotFound(r: nat) {
    var hr := r % 0x1_0000_0000;
    hr == NTE_NOT_FOUND || hr == NTE_BAD_KEYSET
  }

  lemma {:induction false} Bounded(s: set<nat>) returns (b: nat)
    ensures forall x :: x in s ==> x < b
  {
    if s == {} {
      b := 0;
    } else {
      var x :| x in s;
      var c := Bounded(s - {x});
      b := if c > x then c else x + 1;
      assert forall y :: y in s ==> y == x || y in s - {x};
    }
  }

  /**
   * A handle in `live` is open; `persisted` holds the names of the finalized keys. A precondition
   * `h in live` is the platform's rule that a handle may not be used, or freed, after its end.
   * `calls` lists the calls made so far with their answers; frees and deletions show in the other two.
   */
  class Platform {
    var live: Ledger
    var persisted: set<string>
    ghost var calls: seq<NativeCall>

    ghost predicate Valid()
      reads this
    {
      0 !in live
    }

    ghost predicate IsKey(h: nat, name: string)
      reads this
    {
      h in live && live[h] == Key(name)
    }

    ghost predicate IsProvider(h: nat)
      reads this
    {
      h in live && live[h] == Provider
    }

    /** A handle value that is not in use. */
    method NewHandle() returns (h: nat)
      ensures h != 0 && h !in live
    {
      ghost var b := Bounded(live.Keys);
      assert b + 1 !in live;
      h :| h != 0 && h !in live;
    }

    method OpenStorageProvider() returns (r: nat, h: nat)
      requires Valid()
      modifies `live, `calls
      ensures Valid() && calls == old(calls) + [ProviderOpened(r, h)]
      ensures r == 0 ==> h != 0 && h !in old(live) && live == old(live)[h := Provider]
      ensures r != 0 ==> h == 0 && live == old(live)
    {
      h := 0;
      r := *;
      if r == 0 {
        h := NewHandle();
        live := live[h := Provider];
      }
      calls := calls + [ProviderOpened(r, h)];
    }

    /** NCryptOpenKey: it never creates a key. */
    method OpenKey(provider: nat, name: string) returns (r: nat, h: nat)
      requires Valid() && IsProvider(provider)
      modifies `live, `calls
      ensures Valid() && calls == old(calls) + [KeyOpened(name, r, h)]
      ensures r == 0 ==> h != 0 && h !in old(live) && live == old(live)[h := Key(name)]
      ensures r != 0 ==> h == 0 && live == old(live)
    {
      h := 0;
      r := *;
      if r == 0 {
        h := NewHandle();
        live := live[h := Key(name)];
      }
      calls := calls + [KeyOpened(name, r, h)];
    }

    /** NCryptCreatePersistedKey without the overwrite flag: refused for a name that is persisted. */
    method CreatePersistedKey(provider: nat, name: string) returns (r: nat, h: nat)
      requires Valid() && IsProvider(provider)
      modifies `live, `calls
      ensures Valid() && calls == old(calls) + [KeyCreated(name, r, h)]
      ensures r == 0 ==> name !in persisted && h != 0 && h !in old(live) && live == old(live)[h := Key(name)]
      ensures r != 0 ==> h == 0 && live == old(live)
    {
      h := 0;
      r := *;
      if name in persisted && r == 0 {
        r := NTE_EXISTS;
      }
      if r == 0 {
        h := NewHandle();
        live := live[h := Key(name)];
      }
      calls := calls + [KeyCreated(name, r, h)];
    }

    /** NCryptFinalizeKey: success persists the key; a failure may or may not have. */
    method FinalizeKey(h: nat, ghost name: string) returns (r: nat)
      requires IsKey(h, name)
      modifies `persisted, `calls
      ensures calls == old(calls) + [KeyFinalized(h, r)]
      ensures r == 0 ==> persisted == old(persisted) + {name}
      ensures r != 0 ==> persisted == old(persisted) || persisted == old(persisted) + {name}
    {
      r := *;
      var written: bool := *;
      if r == 0 || written {
        persisted := persisted + {live[h].name};
      }
      calls := calls + [KeyFinalized(h, r)];
    }

    /** NCryptDeleteKey: success removes the key and consumes the handle; on failure the handle stays open. */
    method DeleteKey(h: nat, ghost name: string) returns (r: nat)
      requires Valid() && IsKey(h, name)
      modifies `live, `persisted
      ensures Valid()
      ensures r == 0 ==> live == old(live) - {h} && persisted == old(persisted) - {name}
      ensures r != 0 ==> live == old(live) && persisted == old(persisted)
    {
      r := *;
      if r == 0 {
        persisted := persisted - {live[h].name};
        live := live - {h};
      }
    }

    /** NCryptFreeObject: the handle must be open, and is not afterwards. */
    method FreeObject(h: nat)
      requires Valid() && h in live
      modifies `live
      ensures Valid() && live == old(live) - {h}
    {
      live := live - {h};
    }

    /** NCryptSetProperty for the export policy and for the security descriptor. */
    method SetExportPolicy(h: nat, policy: uint32) returns (r: nat)
      requires h in live
      modifies `calls
      ensures calls == old(calls) + [ExportPolicySet(h, policy, r)]
    {
      r := *;
      calls := calls + [ExportPolicySet(h, policy, r)];
    }

    method SetDescriptor(h: nat, sd: seq<byte>) returns (r: nat)
      requires h in live
      modifies `calls
      ensures calls == old(calls) + [DescriptorSet(h, sd, r)]
    {
      r := *;
      calls := calls + [DescriptorSet(h, sd, r)];
    }

    /** NCryptGetProperty for the same two, the descriptor after its size. */
    method GetExportPolicy(h: nat) returns (r: nat, policy: uint32)
      requires h in live
      modifies `calls
      ensures calls == old(calls) + [ExportPolicyRead(h, r, policy)]
    {
      r, policy := *, *;
      calls := calls + [ExportPolicyRead(h, r, policy)];
    }

    method GetDescriptorSize(h: nat) returns (r: nat, size: uint32)
      requires h in live
      modifies `calls
      ensures calls == old(calls) + [DescriptorSizeRead(h, r, size)]
    {
      r, size := *, *;
      calls := calls + [DescriptorSizeRead(h, r, size)];
    }

    method GetDescriptor(h: nat) returns (r: nat, sd: seq<byte>)
      requires h in live
      modifies `calls
      ensures calls == old(calls) + [DescriptorRead(h, r, sd)]
    {
      r, sd := *, *;
      calls := calls + [DescriptorRead(h, r, sd)];
    }

    /** GetSecurityDescriptorDacl, GetAclInformation and GetAce over a descriptor: the ACEs of a present DACL, if any. */
    method GetAces(sd: seq<byte>) returns (ok: bool, aces: seq<ParsedAce>)
      modifies `calls
      ensures calls == old(calls) + [AcesRead(sd, ok, aces)]
    {
      ok, aces := *, *;
      calls := calls + [AcesRead(sd, ok, aces)];
    }

    /** NCryptExportKey and the parsing of the public blob. */
    method ExportPublicKey(h: nat) returns (ok: bool)
      requires h in live
      modifies `calls
      ensures calls == old(calls) + [PublicKeyExported(h, ok)]
    {
      ok := *;
      calls := calls + [PublicKeyExported(h, ok)];
    }

    /** ConvertStringSecurityDescriptorToSecurityDescriptor. */
    method ConvertSddl(sddl: string) returns (ok: bool, sd: seq<byte>)
      modifies `calls
      ensures calls == old(calls) + [SddlConverted(sddl, ok, sd)]
    {
      ok, sd := *, *;
      calls := calls + [SddlConverted(sddl, ok, sd)];
    }

    /** CheckTokenMembership for one well-known group. */
    method CheckTokenMembership(sid: string) returns (ok: bool, member: bool)
      modifies `calls
      ensures calls == old(calls) + [MembershipChecked(sid, ok, member)]
    {
      ok, member := *, *;
      calls := calls + [MembershipChecked(sid, ok, member)];
    }
  }
}
