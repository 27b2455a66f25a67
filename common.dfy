/** The closed error enumeration, its stream/parse partition, and the
    value-or-error `Result` that every step of the pipeline returns. */
module Common {

  /** The NUL character, which ends a C string and fills unused buffer bytes. */
  const NUL: char := '\0'

  /** `Opt<T>`: an optional value (std::optional). */
  datatype Option<T> = None | Some(value: T)

  /** Reading and parsing errors. */
  datatype Error = InvalidInput | OutOfRange | EndOfFile | Unknown

  /** The underlying `std::uint8_t` value of each enumerator: bit 0b0100 is
      set exactly on the two stream errors, and no code is zero. */
  function Code(e: Error): (c: bv8)
    ensures c & 0x4 == 0x4 <==> e == EndOfFile || e == Unknown
    ensures c & 0x3 != 0
  {
    match e
    case InvalidInput => 0x1
    case OutOfRange => 0x2
    case EndOfFile => 0x5
    case Unknown => 0x6
  }

  /** Human-readable description of an error (a static string). Every
      enumerator has its own message, so the fallback "Unknown error" after
      the switch is never returned. */
  function ToString(e: Error): (s: string)
    ensures |s| > 0 && s != "Unknown error"
  {
    match e
    case InvalidInput => "Invalid input (failed to parse input)"
    case OutOfRange => "Parsed value can't be contained within given type"
    case EndOfFile => "stdin EOF has been reached"
    case Unknown => "Unknown error (platform error, maybe check errno)"
  }

  /** Stream errors are unrecoverable for the current stream. */
  predicate IsStreamError(e: Error)
    ensures IsStreamError(e) <==> Code(e) & 0x4 == 0x4
  {
    e == EndOfFile || e == Unknown
  }

  /** Parse errors are the recoverable ones: everything that is not a stream error. */
  predicate IsParseError(e: Error)
    ensures IsParseError(e) <==> e == InvalidInput || e == OutOfRange
  {
    !IsStreamError(e)
  }

  /** Every error is in exactly one of the two classes, and bit 0b0100 of
      its code says which. */
  lemma ErrorClasses(e: Error)
    ensures IsStreamError(e) != IsParseError(e)
    ensures IsParseError(e) <==> Code(e) & 0x4 == 0
  {
  }

  /** Distinct errors have distinct codes and distinct descriptions. */
  lemma ErrorsDistinguishable(a: Error, b: Error)
    ensures Code(a) == Code(b) ==> a == b
    ensures ToString(a) == ToString(b) ==> a == b
  {
    if ToString(a) == ToString(b) {
      assert ToString(a)[0] == ToString(b)[0];
    }
  }

  /** `Result<T>`: exactly one of a value or an error, never both, never neither. */
  datatype Result<T> = Value(value: T) | Failure(error: Error)
  {
    /** `has_value()` and the `bool` conversion: true exactly when the
        result holds no error. */
    predicate HasValue()
      ensures HasValue() <==> !Failure?
    {
      Value?
    }

    /** `value_or(d)`: the held value on success, `d` on error. */
    function ValueOr(d: T): (v: T)
      ensures HasValue() ==> v == value
      ensures !HasValue() ==> v == d
    {
      if Value? then value else d
    }
  }

  /** `make_result<T>(x)`: a Result holding a value. */
  function MakeResult<T>(x: T): (r: Result<T>)
    ensures r.HasValue() && r.value == x
  {
    Value(x)
  }

  /** `make_error<T>(e)`: a Result holding an error. */
  function MakeError<T>(e: Error): (r: Result<T>)
    ensures !r.HasValue() && r.error == e
  {
    Failure(e)
  }

  /** Applies `f` to the value of a success and passes an error through. */
  function Map<T, U>(r: Result<T>, f: T -> U): (m: Result<U>)
    ensures m.HasValue() == r.HasValue()
    ensures r.Value? ==> m.value == f(r.value)
    ensures r.Failure? ==> m.error == r.error
  {
    match r
    case Value(v) => Value(f(v))
    case Failure(e) => Failure(e)
  }
}
