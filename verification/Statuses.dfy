/**
 The four-valued revocation status and its priorities (src/ltv/status.rs).
 */
module Statuses {
  import opened Der

  datatype Source = FromCrl | FromOcsp

  /** A status; instants are integers of some fixed unit, revocation reasons their code. */
  datatype ValidationStatus =
    | Valid(source: Source, checkedAt: int)
    | Revoked(source: Source, reason: Byte, time: int)
    | Invalid(why: Why)
    | Unknown(why: Why)

  /** Why a status is not definite, in place of the message. */
  datatype Why =
    | NoUrl(source: Source)
    | TimedOut(source: Source)
    | NotFetched(source: Source)
    | ResponderUnavailable
    | NotCovered
    | ReportedUnknown
    | FailedValidation
    | ResponderUnchecked
    | ResponderRefused
    | NonceDisabled
    | Unestablished(cause: Why)

  function Priority(s: ValidationStatus): nat {
    match s
    case Revoked(_, _, _) => 3
    case Valid(_, _) => 2
    case Invalid(_) => 1
    case Unknown(_) => 0
  }

  /** The status with the higher priority, the first one on a tie. */
  function ResolvePriority(a: ValidationStatus, b: ValidationStatus): ValidationStatus {
    if Priority(a) >= Priority(b) then a else b
  }

  datatype Kind = IsValid | IsRevoked | IsInvalid | IsUnknown

  function KindOf(s: ValidationStatus): Kind {
    match s
    case Revoked(_, _, _) => IsRevoked
    case Valid(_, _) => IsValid
    case Invalid(_) => IsInvalid
    case Unknown(_) => IsUnknown
  }

  /** Resolution picks one of its arguments, and its kind does not depend on their order. */
  lemma {:induction false} ResolutionIsASymmetricChoice(a: ValidationStatus, b: ValidationStatus, c: ValidationStatus)
    ensures ResolvePriority(a, b) == a || ResolvePriority(a, b) == b
    ensures KindOf(ResolvePriority(a, b)) == KindOf(ResolvePriority(b, a))
    ensures ResolvePriority(ResolvePriority(a, b), c) == ResolvePriority(a, ResolvePriority(b, c))
  {
  }
}
