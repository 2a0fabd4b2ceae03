/** Machine integers, error codes, decode limits and the fallible-result type
    shared by every part of the model. */
module Basics {

  const TWO32: nat := 0x1_0000_0000
  const TWO64: nat := 0x1_0000_0000_0000_0000

  type Byte = b: int | 0 <= b < 0x100
  type U16 = n: int | 0 <= n < 0x1_0000
  type U32 = n: int | 0 <= n < 0x1_0000_0000
  type U64 = n: int | 0 <= n < 0x1_0000_0000_0000_0000
  type I64 = n: int | -0x8000_0000_0000_0000 <= n < 0x8000_0000_0000_0000

  // A std::string: its bytes, with no encoding attached.
  type Text = seq<Byte>

  // "No atom" and "no kind" are the largest 32-bit values on the wire.
  const INVALID_ATOM: U32 := 0xFFFF_FFFF
  const INVALID_KIND: U32 := 0xFFFF_FFFF
  const INVALID_NODE: U32 := 0xFFFF_FFFF

  datatype Option<+T> = None | Some(value: T)

  /** The source's error codes, and last the exception `std::out_of_range`. */
  datatype Code =
    | Truncated | BadMagic | UnsupportedVersion | BadSectionTable
    | DuplicateSection | BadAtomPool | BadSchema | BadHeap | BadXref
    | BadValue | BadOpcode | NodeOutOfRange | AtomOutOfRange | KindOutOfRange
    | FieldOutOfRange | TypeMismatch | GroupUnderflow | GroupOverflow
    | UnresolvedRef | InvariantViolation | LimitExceeded | BadChecksum
    | NotFound | OutOfRange

  /** Either a value or the code of the first failure. */
  datatype Result<+T> = Ok(value: T) | Err(code: Code) {
    predicate IsFailure() {
      Err?
    }

    function PropagateFailure<U>(): Result<U>
      requires Err?
    {
      Err(code)
    }

    function Extract(): T
      requires Ok?
    {
      value
    }
  }

  /** The decode limits a caller may choose; Defaults gives the stock ones. */
  datatype Limits = Limits(
    maxSections: nat,
    maxAtoms: nat,
    maxAtomLen: nat,
    maxKinds: nat,
    maxFieldsPerKind: nat,
    maxNodes: nat,
    maxJournalOps: nat,
    maxListLen: nat,
    maxGroupDepth: nat)

  const DEFAULT_LIMITS: Limits :=
    Limits(64, 0x10_0000, 0x1_0000, 0x1_0000, 0x1000, 0x40_0000, 0x40_0000, 0x10_0000, 256)
}
