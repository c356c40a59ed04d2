/**
 * Shared vocabulary: the firmware's status codes, an optional value, and
 * the ranges of its fixed-width integers.
 */
module Efi {
  const U8: nat := 0x100
  const U16: nat := 0x1_0000
  const U32: nat := 0x1_0000_0000
  const U64: nat := 0x1_0000_0000_0000_0000

  /** UINT8 */
  type Byte = x: nat | x < 0x100

  /**
   * The EFI_STATUS values the modelled code returns. Statuses produced by
   * collaborators outside the model (protocol calls, port accesses) are
   * carried as `OtherError` with an opaque code.
   */
  datatype Status =
    | Success
    | InvalidParameter
    | Unsupported
    | NotReady
    | NotFound
    | BufferTooSmall
    | OutOfResources
    | Timeout
    | DeviceError
    | OtherError(code: nat)
  {
    /** EFI_ERROR(): every status except EFI_SUCCESS is an error. */
    predicate IsError()
    {
      !this.Success?
    }
  }

  datatype Option<+T> = None | Some(value: T)
  {
    function UnwrapOr(default: T): T
    {
      match this
      case None => default
      case Some(v) => v
    }
  }
}
