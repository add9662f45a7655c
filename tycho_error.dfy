/** The outcomes of the byte-prefixed format (src/error.rs), and the shapes a read or
    a fallible conversion returns. */
module TychoErrors {
  import opened Bytes

  /** `TychoError`. Io stands for every failure of the underlying stream, which for an
      in-memory stream is running out of bytes or seeking before its start; `found` and
      `expecting` are the byte and the kind of ident being read. `Other` and
      `OutdatedPointer` are the variants src/into/compression.rs and
      src/partial/container.rs construct. The last five constructors are not errors
      the source returns but the panics it raises (an overflowing shift, an unwrap of
      nothing, an unexpected tag, and u64/i64 arithmetic that a debug build checks),
      kept as outcomes so that the model can state when they happen. */
  datatype TychoError =
    | Io
    | InvalidIdent(found: byte, expecting: string)
    | StringError
    | Other(message: string)
    | OutdatedPointer
    | ShiftOverflowPanic
    | EmptyCharPanic
    | CompressionTagPanic
    | SubtractOverflowPanic
    | AddOverflowPanic

  predicate IsPanic(e: TychoError)
  {
    e.ShiftOverflowPanic? || e.EmptyCharPanic? || e.CompressionTagPanic? || e.SubtractOverflowPanic? ||
    e.AddOverflowPanic?
  }

  /** `TychoResult<T>`. */
  datatype Result<T> = Ok(value: T) | Err(error: TychoError)

  /** What reading a T from position `pos` of a byte sequence gives: the value and the
      position just after it, or an error. */
  datatype Step<T> = Parsed(value: T, next: nat) | Failed(error: TychoError)

  /** A method's result and the stream position it leaves, as a Step. */
  function Outcome<T>(r: Result<T>, pos: nat): (s: Step<T>)
    ensures s.Parsed? <==> r.Ok?
  {
    match r
    case Ok(v) => Parsed(v, pos)
    case Err(e) => Failed(e)
  }

  /** The result a Step stands for, dropping the position. */
  function Returned<T>(s: Step<T>): (r: Result<T>)
    ensures r.Ok? <==> s.Parsed?
  {
    match s
    case Parsed(v, _) => Ok(v)
    case Failed(e) => Err(e)
  }
}
