/** The keyStore/storedKey seam: errors, and the calls the policy engine makes with the answers it gets. */
module Seam {
  import opened Bytes

  /** The sentinel errors an error value can wrap. Message text is not modelled. */
  datatype Sentinel =
    | ErrKeyNotFound
    | ErrCleanupFailed
    | ErrPolicyMismatch
    | ErrPrivilegeRequired
    | ErrPostWriteVerification

  /** nil, or an error with the sentinels that errors.Is finds in it. */
  datatype Error = Ok | Failed(wraps: set<Sentinel>)

  /** One opened key; two opens of the same name give different handles. */
  datatype Handle = Handle(id: nat, name: string)

  datatype Opened = Opened(handle: Handle) | NotOpened(wraps: set<Sentinel>)

  /** One call through the seam together with its result. */
  datatype Event =
    | Privilege(member: bool, err: Error)
    | Open(name: string, res: Opened)
    | Create(name: string, sddl: string, res: Opened)
    | VerifyExport(h: Handle, err: Error)
    | PublicKey(h: Handle, err: Error)
    | ReadDescriptor(h: Handle, sd: seq<byte>, err: Error)
    | WriteDescriptor(h: Handle, sddl: string, err: Error)
    | MakeSigner(h: Handle, err: Error)
    | DeleteCreated(h: Handle, err: Error)
    | Close(h: Handle)

  /** The result of an operation that returns a signer. */
  datatype Outcome = Signed(handle: Handle) | Refused(wraps: set<Sentinel>)

  /** cleanupCreatedKey: the cause stays wrapped, and a failed delete adds ErrCleanupFailed; its own text is dropped. */
  function CleanupWraps(cause: set<Sentinel>, deleted: Error): set<Sentinel> {
    if deleted.Failed? then cause + {ErrCleanupFailed} else cause
  }
}
