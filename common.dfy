/** Shared vocabulary of the bencoding model: bytes, optional values and the
    errors that the Go package and the Go library calls it makes can return. */
module Common {

  /** A Go byte. Modelled as a character below 256 so that the ASCII literals of
      the wire format can be written as Dafny string literals. */
  type byte = c: char | c as int < 256

  /** A Go `string` or `[]byte`: a sequence of raw bytes. */
  type bytes = seq<byte>

  datatype Option<+T> = None | Some(value: T)

  /** Every error value the modelled code can produce. */
  datatype Error =
    | EOF                            // io.EOF from the buffered reader
    | InvalidSyntax                  // strconv.ErrSyntax
    | OutOfRange                     // strconv.ErrRange
    | NegativeLength                 // make([]byte, n) with n < 0 (a run-time panic in Go)
    | MalformedInteger               // "Malformed integer input"
    | MalformedListBegin             // "malformed list beggining (missing 'l')"
    | MalformedDict                  // "Malformed dict"
    | UnknownItem                    // "Unknonw item"
    | UnsupportedType                // "Unsupported type encountered"
    | NotAPointer                    // "Can only unmarshal pointers"
    | MissingInfoKey                 // "missing info key"
    | FieldFailedToBind(key: bytes)  // "field '<key>' failed to bind"
    | UnableToBind                   // "unable to bind"
    | UnknownKind                    // "Unknown kind: <kind>"
    | NonStringMapKey                // "Map can be marshaled only if keys are of type 'string'"
    | ReadOnlyInterface              // reflect.Value.Interface on a value reached through an
                                     // unexported struct field (a run-time panic in Go)

  datatype Result<+T> = Ok(value: T) | Err(error: Error)

  /** An ASCII decimal digit. */
  predicate IsDigit(c: byte) {
    '0' <= c <= '9'
  }

  /** Joining byte strings is associative; stated once so that proofs about
      output built piece by piece need not rediscover it. */
  lemma AppendAssoc(a: bytes, b: bytes, c: bytes)
    ensures a + b + c == a + (b + c)
  {
  }
}
