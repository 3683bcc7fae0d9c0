/** The puzzle error kinds and their two textual views (src/npuzzle/status.rs). */
module Status {
  import opened Wrappers

  datatype ErrorKind =
    | InvalidInput
    | InvalidNoSize
    | InvalidChar
    | InvalidValue
    | InvalidNoZero
    | InvalidMode
    | InvalidMove
    | OutOfBounds
    | InvalidPoint
    | EmptyInput
    | Unsolvable

  /** Errors caused by a malformed puzzle description or program mode. */
  predicate IsInputKind(k: ErrorKind) {
    k in {InvalidInput, InvalidNoSize, InvalidChar, InvalidValue, InvalidNoZero, InvalidMode}
  }

  /** Errors caused by a bad argument to a grid operation. */
  predicate IsParameterKind(k: ErrorKind) {
    k in {InvalidMove, OutOfBounds, InvalidPoint, EmptyInput}
  }

  /** The human-readable message of each kind; `KindOf` reads the kind
      back from it. */
  function AsStr(k: ErrorKind): (r: string)
    ensures KindOf(r) == Some(k)
  {
    match k
    case InvalidInput => "Invalid N-puzzle state: General Error"
    case InvalidNoSize => "Invalid N-puzzle state: No size given"
    case InvalidChar => "Invalid N-puzzle state: Invalid character"
    case InvalidValue => "Invalid N-puzzle state: Invalid value - too high or duplicate"
    case InvalidNoZero => "Invalid N-puzzle state: Invalid value - zero not found"
    case InvalidMode => "Invalid program mode"
    case InvalidMove => "Attempted move is invalid"
    case OutOfBounds => "Position out of bounds"
    case InvalidPoint => "Position is invalid"
    case EmptyInput => "Input is not expected to be empty"
    case Unsolvable => "Given state is unsolvable"
  }

  /** The class name each kind is reported under: every kind lands in exactly
      one of three classes, input errors, parameter errors or unsolvable. */
  function ErrName(k: ErrorKind): (r: string)
    ensures r in {"InvalidInput", "InvalidParameter", "Unsolvable"}
    ensures r == "InvalidInput" <==> IsInputKind(k)
    ensures r == "InvalidParameter" <==> IsParameterKind(k)
    ensures r == "Unsolvable" <==> k == Unsolvable
  {
    match k
    case InvalidNoSize | InvalidInput | InvalidChar | InvalidValue | InvalidNoZero | InvalidMode =>
      "InvalidInput"
    case InvalidMove | OutOfBounds | InvalidPoint | EmptyInput =>
      "InvalidParameter"
    case Unsolvable => "Unsolvable"
  }

  /** The length and last character of a message; no two kinds' messages
      agree on both. `KindOf` reads a kind back from this pair rather than
      comparing whole messages: matching a string against the eleven
      literals character by character makes the round trip in `AsStr`
      far more expensive to prove, while these two facts already tell the
      messages apart. */
  function Fingerprint(message: string): (nat, char) {
    (|message|, if |message| > 0 then message[|message| - 1] else ' ')
  }

  /** Recognises a kind from its message's fingerprint: the inverse of
      `AsStr`. */
  function KindOf(message: string): Option<ErrorKind> {
    match Fingerprint(message)
    case (37, 'r') => Some(InvalidInput)
    case (37, 'n') => Some(InvalidNoSize)
    case (41, _) => Some(InvalidChar)
    case (61, _) => Some(InvalidValue)
    case (54, _) => Some(InvalidNoZero)
    case (20, _) => Some(InvalidMode)
    case (25, 'd') => Some(InvalidMove)
    case (22, _) => Some(OutOfBounds)
    case (19, _) => Some(InvalidPoint)
    case (33, _) => Some(EmptyInput)
    case (25, 'e') => Some(Unsolvable)
    case _ => None
  }

  /** No two kinds share a message, so the message identifies the kind. */
  lemma AsStrInjective(a: ErrorKind, b: ErrorKind)
    ensures AsStr(a) == AsStr(b) <==> a == b
  {
  }
}
