# Transfer signing and validation, modelled in Dafny

This project models the transaction-signing core of a small Go blockchain:

- **Account ids** (`Account`): the predicates that decide whether a string
  is an account id. An account id is 40 hexadecimal digits, with an optional
  `0x`/`0X` prefix. `ToAccountID` converts a string after checking it.
- **Signatures** (`Signature`): the "stamp" preimage. It is byte `0x19`,
  then `Jesserc Signed Message:\n`, then the decimal length of the marshalled
  data, then the data. This is Ethereum's `personal_sign` layout with another
  name. Keccak-256 is applied to it. The module also has the split of a
  `0x`-hex signature string into `v`, `r`, `s` (`ToVRSFromHexSignature`),
  and `Sign`, which chains stamp, ECDSA signing and the split.
- **Transactions** (`Transaction`): the `Tx` record and its checking
  constructor `NewTx`, `Tx.Sign`, and `SignedTx.Validate`. `Validate` is a
  fixed sequence of checks, and the first failure wins.

Supporting modules model the Go library functions the code calls, with their
exact semantics:

- `Hex`: `encoding/hex.DecodeString` and go-ethereum's `hexutil.Encode`
  (base16, section 8 of RFC 4648).
- `BigBytes`: `big.Int.SetBytes` and the fixed-width big-endian inverse.
- `Decimal`: the `%d` rendering.
- `Prelude`: Go's value types.

Conventions:

- Go strings are byte sequences, so the model treats every string as `seq<byte>`.
- A Go call's `(value, error)` result is `Outcome.Returns(value, err)`, where
  `err == None` is a nil error. A run-time panic is `Outcome.Panics`.
- `*big.Int` is `Option<int>`, where `None` is nil.

Everything is pure. In particular, `Validate` has a value receiver and
changes nothing.

The code is followed wherever its comments or Ethereum's signing convention (which it adapts) say otherwise:

- No code adds an offset to `v`. The comment at
  foundation/blockchain/database/transaction.go:70 speaks of "29 or 30".
  The model returns the raw last signature byte.
- The `0x` prefix of an account id is optional. The code accepts both the
  bare and the prefixed form.
- `Sign` makes no self-check of the signature it produced.
- There is no function from `(v, r, s)` back to bytes in the code. `Join` is
  this model's own inverse, used only to state the round trip.

## Model

| member | source | states |
|---|---|---|
| `Account.IsHexCharacter` | foundation/blockchain/database/account.go:58-61 | definition: a decimal digit or a letter a-f in either case; its meaning is stated by `Account.HexCharacterIsDigit` |
| `Account.Has0xPrefix` | foundation/blockchain/database/account.go:38-41 | definition: at least two bytes, '0' then 'x' or 'X'; stated as byte pairs by `Account.Has0xPrefixIff` |
| `Account.AllHexCharacters` | foundation/blockchain/database/account.go:49-55 | the range loop with its early return, as recursion over the bytes from the left; `Account.AllHexCharactersIff` proves it is the "every byte" quantifier |
| `Account.IsHex` | foundation/blockchain/database/account.go:43-56 | definition: an even length, then the loop; `Account.IsHexIff` relates it to the hex decoder |
| `Account.Strip0x` | foundation/blockchain/database/account.go:28-30 | removes exactly the two prefix bytes when the prefix is there, so prefix + result is the input; otherwise returns the input unchanged |
| `Account.IsAccountID` | foundation/blockchain/database/account.go:25-34 | definition: strip at most one prefix, then exactly 40 bytes passing `isHex`; `Account.IsAccountIDIff` states the accepted strings |
| `Prelude.Ascii` | foundation/blockchain/signature/signature.go:49 | the bytes of an ASCII string literal (here the stamp text): one byte per character, of that character's code |
| `Account.HexCharacterIsDigit` | foundation/blockchain/database/account.go:59-61 | a byte is a hex character exactly when it is one of the 16 digits in lower or upper case, i.e. exactly when the hex decoder gives it a value; letter case does not matter |
| `Account.Has0xPrefixIff` | foundation/blockchain/database/account.go:39-41 | the prefix is exactly one of the byte pairs "0x", "0X"; strings shorter than 2 never have it |
| `Account.AllHexCharactersIff` | foundation/blockchain/database/account.go:49-55 | the early-exit loop accepts exactly the strings whose every byte is a hex character, the empty string included |
| `Account.IsHexIff` | foundation/blockchain/database/account.go:44-56 | `isHex` rejects every odd length, otherwise holds iff all bytes are hex characters, holds of the empty string, and agrees with `hex.DecodeString` succeeding |
| `Account.IsAccountIDIff` | foundation/blockchain/database/account.go:25-34 | an account id is 40 hex characters without prefix, or a prefix followed by 40 hex characters, and nothing else |
| `Account.AccountIDLength` | foundation/blockchain/database/account.go:28-33 | only one prefix is removed: every account id has 40 or 42 bytes, and 42 exactly when prefixed |
| `Account.PrefixIsOptional` | foundation/blockchain/database/account.go:28-33 | "0x"/"0X" + t is an account id iff t is a 40-byte account id |
| `Account.DoublePrefixRejected` | foundation/blockchain/database/account.go:28-33 | a doubled prefix ("0x0x…", "0X0x…") is never accepted |
| `Account.AccountIDDecodes` | foundation/blockchain/database/account.go:7-10 | the digits of every account id decode to exactly 20 bytes, the address length |
| `Account.ToAccountID` | foundation/blockchain/database/account.go:12-21 | returns the input unchanged with nil error iff it is an account id, otherwise "" with the invalid-format error |
| `Hex.DigitValueOfDigit` | foundation/blockchain/signature/signature.go:27 | decoding a digit of either case inverts encoding it |
| `Hex.DigitValue` | foundation/blockchain/signature/signature.go:60 | a byte has a digit value only if it is that digit in lower or upper case, and the value is below 16 |
| `Hex.EncodeToString` | foundation/blockchain/signature/signature.go:27 | encoding emits two hex digits per byte |
| `Hex.Encode` | foundation/blockchain/signature/signature.go:27 | `hexutil.Encode` is "0x" followed by the two-digits-per-byte encoding, and `hex.DecodeString` of what follows the "0x" gives the bytes back with nil error |
| `Hex.DecodeString` | foundation/blockchain/signature/signature.go:60 | decoding never panics and yields at most one byte per two characters |
| `Hex.DecodeSucceedsIff` | foundation/blockchain/signature/signature.go:60-63 | decoding succeeds iff the input has even length and all digits, and then yields half as many bytes |
| `Hex.DecodedByte` | foundation/blockchain/signature/signature.go:60 | each decoded byte is 16 × first digit + second digit of its pair |
| `Hex.DecodeErrorIsFirstInvalidByte` | foundation/blockchain/signature/signature.go:60-63 | a failed decoding reports the first non-digit byte, and the length error only when all bytes are digits |
| `Hex.DecodeEncode` | foundation/blockchain/signature/signature.go:27 | decoding the encoding of any bytes returns those bytes with nil error |
| `BigBytes.SetBytes` | foundation/blockchain/signature/signature.go:66-68 | `big.Int.SetBytes`: big-endian, the empty string reads as 0; `BigBytes.SetBytesBound` bounds it and `BigBytes.SetBytesOfFillBytes`/`BigBytes.FillBytesOfSetBytes` invert it |
| `BigBytes.SetBytesBound` | foundation/blockchain/signature/signature.go:66-67 | k bytes read big-endian give a value below 256^k |
| `BigBytes.SetBytesOfOneByte` | foundation/blockchain/signature/signature.go:68 | one byte read as a big integer is that byte's value |
| `BigBytes.FillBytes` | foundation/blockchain/signature/signature.go:66-67 | a value below 256^k is written as exactly k bytes |
| `BigBytes.FillBytesOfSetBytes` | foundation/blockchain/signature/signature.go:66-67 | writing back a read value at its width reproduces the bytes |
| `BigBytes.SetBytesOfFillBytes` | foundation/blockchain/signature/signature.go:66-67 | reading written bytes gives the value back |
| `Decimal.Format` | foundation/blockchain/signature/signature.go:49 | the rendering of a length is never empty |
| `Decimal.Value` | foundation/blockchain/signature/signature.go:49 | an independent reader of decimal digits, the partner `Decimal.ValueOfFormat` uses to show the `%d` rendering loses nothing |
| `Decimal.ValueOfFormat` | foundation/blockchain/signature/signature.go:49 | the decimal rendering reads back as the number |
| `Decimal.FormatAllDigits` | foundation/blockchain/signature/signature.go:49 | the rendering is made of decimal digits only |
| `Decimal.FormatNoLeadingZero` | foundation/blockchain/signature/signature.go:49 | the rendering starts with '0' only for 0 |
| `Decimal.FormatLengthMonotone` | foundation/blockchain/signature/signature.go:49 | larger numbers never have shorter renderings |
| `Signature.Preimage` | foundation/blockchain/signature/signature.go:49-54 | the hash input is as long as the tag, the rendered length and the data together |
| `Signature.PreimageLayout` | foundation/blockchain/signature/signature.go:49-54 | the hash input is the tag, then digits that read back as the length of the data hashed in the same call, then that data |
| `Signature.PreimageInjective` | foundation/blockchain/signature/signature.go:49-54 | different marshalled data always give different hash inputs |
| `Signature.Stamp` | foundation/blockchain/signature/signature.go:39-57 | stamping succeeds iff marshalling does, and then yields the 32-byte Keccak-256 of the preimage of the marshalled bytes; a marshalling error is returned with a nil hash and a marshalling panic propagates |
| `Signature.RawSplit` | foundation/blockchain/signature/signature.go:66-68 | the split of a raw signature gives v < 256 and r, s < 2^256 |
| `Signature.Join` | foundation/blockchain/signature/signature.go:66-68 | the re-encoding of split values is 65 bytes |
| `Signature.JoinRawSplit` | foundation/blockchain/signature/signature.go:66-68 | re-encoding r and s as 32-byte big-endian fields and v as one byte reproduces the first 65 bytes; bytes after index 64 are ignored |
| `Signature.ToVRSFromHexSignature` | foundation/blockchain/signature/signature.go:59-71 | panics exactly when the string is shorter than 2 or its tail decodes to fewer than 65 bytes; an error comes with nil v, r, s |
| `Signature.ToVRSCases` | foundation/blockchain/signature/signature.go:60-70 | a tail decoding to ≥ 65 bytes yields r = bytes [0,32), s = bytes [32,64) big-endian and v = byte 64 with no offset; a tail that is not even-length hex yields the decoder's error with nil v, r, s |
| `Signature.ToVRSBounds` | foundation/blockchain/signature/signature.go:66-68 | on success 0 ≤ r, s < 2^256 and 0 ≤ v < 256 |
| `Signature.ToVRSIgnoresPrefix` | foundation/blockchain/signature/signature.go:60 | the first two characters are discarded unchecked: any two of them give the same result |
| `Signature.ToVRSOfEncoded` | foundation/blockchain/signature/signature.go:27 | splitting `hexutil.Encode(sig)` gives the byte split of `sig`, and re-encoding it reproduces `sig[0..65)` |
| `Signature.Sign` | foundation/blockchain/signature/signature.go:15-33 | an error always comes with nil v, r, s; success needs marshalling to succeed |
| `Signature.SignCases` | foundation/blockchain/signature/signature.go:15-33 | a marshalling or signing error is returned with nil v, r, s; a raw signature of ≥ 65 bytes gives exactly its byte split; a shorter one panics |
| `Transaction.NewTx` | foundation/blockchain/database/transaction.go:25-46 | succeeds iff both accounts are account ids; the from account is checked first; on success the seven fields are the arguments; on failure the zero Tx with the from or to error |
| `Transaction.Tx.Sign` | foundation/blockchain/database/transaction.go:48-62 | succeeds iff `signature.Sign` does, embedding the receiver unchanged with its v, r, s; on error returns the zero SignedTx with that error; panics propagate |
| `Transaction.TxSignSplitsRawSignature` | foundation/blockchain/database/transaction.go:48-62 | with a ≥ 65-byte raw signature the SignedTx carries the receiver, r and s from bytes [0,32) and [32,64), and v = byte 64 unchanged |
| `Transaction.SignedTx.Validate` | foundation/blockchain/database/transaction.go:78-108 | success implies matching chain id, two well-formed distinct accounts and a recovered address equal to the from account; the chain-id error is built as the code builds it |
| `Transaction.SignedTx.ValidateCorrected` | foundation/blockchain/database/transaction.go:79-81 | corrected chain-id error: on a mismatch "got" is the transaction's chain id and "expected" the node's; with matching chain ids the outcome is `Validate`'s, and it succeeds exactly when `Validate` does |
| `Transaction.ChainMismatchAsWrittenMisreports` | foundation/blockchain/database/transaction.go:79-81 | whenever the check fires, the error built as at transaction.go:80 reports the node's chain id as "got" and the transaction's as "expected" |
| `Transaction.Check` | foundation/blockchain/database/transaction.go:79-93 | a guard passes iff its condition holds |
| `Transaction.FirstFailure` | foundation/blockchain/database/transaction.go:78-108 | an ordered gate succeeds iff every check does; otherwise it returns the first failing check, all before it passing |
| `Transaction.FirstFailureAt` | foundation/blockchain/database/transaction.go:78-108 | a failing check preceded only by passing checks decides the gate |
| `Transaction.FirstFailureAfterPassing` | foundation/blockchain/database/transaction.go:78-108 | passing checks at the front can be dropped |
| `Transaction.AddressCheck` | foundation/blockchain/database/transaction.go:98-105 | the address step passes iff recovery succeeds with exactly the from account's bytes |
| `Transaction.ValidateIsFirstFailure` | foundation/blockchain/database/transaction.go:78-108 | Validate is the first failure of chain id, from format, to format, self-transfer, VerifySignature, FromAddress and address match, in that order |
| `Transaction.ValidateSucceedsIff` | foundation/blockchain/database/transaction.go:78-108 | Validate returns nil iff every check passes, including recovered address == from account byte for byte |
| `Transaction.ValidateChecksChainFirst` | foundation/blockchain/database/transaction.go:79-81 | a chain-id mismatch is returned before any other check, whatever the accounts and signature, as the error transaction.go:80 builds |
| `Transaction.ValidateMisreportsChain` | foundation/blockchain/database/transaction.go:79-81 | on a chain-id mismatch `Validate`'s error has "got" = the node's chain id and "expected" = the transaction's, so neither field holds what its label says |
| `Transaction.ValidateCorrectedSwapsChainError` | foundation/blockchain/database/transaction.go:79-81 | the corrected `Validate` agrees with the code except on a mismatch, where it returns the same error with "got" and "expected" swapped back |
| `Transaction.SelfTransferIsByteEquality` | foundation/blockchain/database/transaction.go:90-93 | once chain and formats pass, from == to (as bytes) gives the self-transfer error, and otherwise the signature checks decide |
| `Transaction.PrefixedSpellingIsDistinct` | foundation/blockchain/database/transaction.go:91-93 | "0x"+t and t are both account ids for the same address, yet different strings, so the self-transfer check does not catch them |
| `Transaction.SignedNewTxValidates` | foundation/blockchain/database/transaction.go:25-108 | a NewTx-built, Tx.Sign-signed transfer between distinct accounts passes all of Validate's own checks on its chain (the signature checks decide) and on any other chain gets the chain-id error, which names that chain as "got" and the transaction's as "expected" |

## Findings

| source | as written | input that shows it | evidently intended | confidence | as-written member | corrected member |
|---|---|---|---|---|---|---|
| foundation/blockchain/database/transaction.go:80 | the chain-id error prints the node's `chainID` after "got" and the transaction's `tx.ChainID` after "expected" | a transaction with chain id 2 validated with `chainID` 1 reports "got[1], but expected[2]" | "got" is the transaction's chain id and "expected" the node's | high; not executed | `Transaction.ValidateMisreportsChain` | `Transaction.SignedTx.ValidateCorrected` |

`Transaction.SignedTx.Validate` models the code as written, swapped error included. `Transaction.SignedTx.ValidateCorrected` is the corrected check, and `Transaction.ValidateCorrectedSwapsChainError` shows that the two differ only in that error.

## Left out

- ECDSA over secp256k1 (`crypto.Sign`) and Keccak-256 (`crypto.Keccak256`) are foreign library calls. They are parameters of `Signature.Sign` (the `Crypto` record). The model assumes only that Keccak-256 returns 32 bytes.
- `json.Marshal` is a parameter (`marshal`). The model does not re-implement encoding/json, so it does not fix the field order or the base64 form of `Data`.
- `signature.VerifySignature`, `signature.FromAddress` and `signature.SignatureString` are not part of this model: their bodies are not available. `VerifySignature` and `FromAddress` are parameters of `Validate` (the `SignatureLib` record). `SignedTx.SignatureString` (transaction.go:110-112), which only forwards to `signature.SignatureString`, is left out.
- Private-key loading and generation, file I/O, logging and printing are not modelled. A private key is an opaque value passed to the signing collaborator.
- app/scratch/main.go is a driver script and is not part of this model.
- Error messages are modelled by kind and carried values, not as formatted text.
- A panic is modelled as out-of-range (`Fault.BoundsError`). The model does not say whether it is the slice `sig[:32]`, the slice `sig[32:64]` or the index `sig[64]` that panics first. Slicing in Go checks capacity rather than length, and the capacity of the slice returned by `hex.DecodeString` depends on the Go release.
- A nil `[]byte` and an empty one are the same value here. The difference would only show in `json.Marshal`, which is a parameter.
- `Signature.Stamp` takes the value to stamp as a type parameter, standing in for Go's `any`.
