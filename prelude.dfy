/** Go value types shared by the whole model: bytes, fixed-width unsigned
    integers, byte strings, nil-able big integers, the `error` values the
    code returns, and the (value, error)-or-panic outcome of a Go call. */
module Prelude {

  /** A Go `byte`. */
  type byte = b: int | 0 <= b < 0x100

  /** Go's `uint16` and `uint64`. */
  type uint16 = n: int | 0 <= n < 0x1_0000
  type uint64 = n: int | 0 <= n < 0x1_0000_0000_0000_0000

  /** A Go `[]byte` or a Go `string` (a Go string is a sequence of bytes,
      and `len` counts bytes). */
  type Bytes = seq<byte>

  datatype Option<+T> = None | Some(value: T)

  /** A `*big.Int`: `None` is the nil pointer. */
  type BigInt = Option<int>

  /** The `error` values produced by the modelled code and by the parts of
      the Go standard library it calls. Errors produced by collaborators
      that are outside the model are carried as `Foreign`. */
  datatype Error =
    | InvalidAccountFormat                          // ToAccountID
    | InvalidFromAccount                            // NewTx, from field
    | InvalidToAccount                              // NewTx, to field
    | ChainIDMismatch(got: uint16, expected: uint16) // Validate, chain id
    | FromAccountNotFormatted                       // Validate, from field
    | ToAccountNotFormatted                         // Validate, to field
    | SelfTransfer(from: Bytes, to: Bytes)          // Validate, from == to
    | SignatureAddressMismatch                      // Validate, recovered address
    | InvalidByte(b: byte)                          // encoding/hex.InvalidByteError
    | ErrLength                                     // encoding/hex.ErrLength
    | Foreign(message: Bytes)                       // json, crypto, other packages

  /** A run-time panic of the Go program: an out-of-range slice or index
      expression (Go's `runtime.boundsError`), or a panic raised inside a
      collaborator outside the model. */
  datatype Fault = BoundsError | ForeignPanic(message: Bytes)

  /** The outcome of a Go call: either it returns its results together with
      an error (`None` is a nil error), or it panics. */
  datatype Outcome<+T> = Returns(value: T, err: Option<Error>) | Panics(fault: Fault)
  {
    /** The call returned with a nil error. */
    predicate Succeeded() {
      Returns? && err.None?
    }
  }

  /** The bytes of an ASCII string literal. */
  function Ascii(s: string): (r: Bytes)
    requires forall i | 0 <= i < |s| :: s[i] as int < 0x80
    ensures |r| == |s|
    ensures forall i | 0 <= i < |s| :: r[i] == s[i] as int
  {
    seq(|s|, i requires 0 <= i < |s| => s[i] as int)
  }
}
