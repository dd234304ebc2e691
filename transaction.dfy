/** Transfer transactions (foundation/blockchain/database/transaction.go):
    the `Tx` record and its validating constructor, signing a `Tx` into a
    `SignedTx`, and the ordered checks of `SignedTx.Validate`. Signature
    verification and signer recovery belong to functions of the signature
    package that are not part of this model; they are passed in as a
    `SignatureLib`. */
module Transaction {
  import opened Prelude
  import opened Account
  import Signature
  import BigBytes

  /** `Tx`: the fields in their declaration (and JSON) order. */
  datatype Tx = Tx(
    chainID: uint16,
    nonce: uint64,
    fromID: AccountID,
    toID: AccountID,
    value: uint64,
    tip: uint64,
    data: Bytes)
  {
    /** `Tx.Sign`: `signature.Sign` applied to the transaction, wrapped into a
        `SignedTx` that embeds the transaction unchanged; an error is
        returned with the zero `SignedTx`. */
    function Sign(privateKey: Signature.PrivateKey, marshal: Tx -> Outcome<Bytes>, crypto: Signature.Crypto): (out: Outcome<SignedTx>)
      ensures var vrs := Signature.Sign(this, privateKey, marshal, crypto);
        && (out.Panics? <==> vrs.Panics?)
        && (out.Succeeded() <==> vrs.Succeeded())
        && (out.Succeeded() ==> out.value == SignedTx(this, vrs.value.v, vrs.value.r, vrs.value.s))
        && (out.Returns? && !out.Succeeded() ==> out == Returns(ZeroSignedTx, vrs.err))
    {
      var vrs := Signature.Sign(this, privateKey, marshal, crypto);
      if vrs.Panics? then Panics(vrs.fault)
      else if vrs.err.Some? then Returns(ZeroSignedTx, vrs.err)
      else Returns(SignedTx(this, vrs.value.v, vrs.value.r, vrs.value.s), None)
    }
  }

  /** The zero `Tx{}`. */
  const ZeroTx := Tx(0, 0, [], [], 0, 0, [])

  /** `SignedTx`: an embedded `Tx` and the signature values. */
  datatype SignedTx = SignedTx(tx: Tx, v: BigInt, r: BigInt, s: BigInt)
  {
    /** `SignedTx.Validate`, a value-receiver method: each check in turn,
        returning the first failure. The chain-id error is built as the code
        builds it, with the two chain ids swapped (`ChainMismatchAsWritten`). */
    function Validate(chainID: uint16, lib: SignatureLib): (out: Outcome<()>)
      ensures out.Succeeded() ==>
        && tx.chainID == chainID
        && IsAccountID(tx.fromID) && IsAccountID(tx.toID) && tx.fromID != tx.toID
        && lib.fromAddress(tx, v, r, s).Succeeded() && lib.fromAddress(tx, v, r, s).value == tx.fromID
    {
      if tx.chainID != chainID then Returns((), Some(ChainMismatchAsWritten(tx.chainID, chainID)))
      else if !IsAccountID(tx.fromID) then Returns((), Some(FromAccountNotFormatted))
      else if !IsAccountID(tx.toID) then Returns((), Some(ToAccountNotFormatted))
      else if tx.fromID == tx.toID then Returns((), Some(SelfTransfer(tx.fromID, tx.toID)))
      else
        var verified := lib.verifySignature(v, r, s);
        if !verified.Succeeded() then verified
        else
          var address := lib.fromAddress(tx, v, r, s);
          if address.Panics? then Panics(address.fault)
          else if address.err.Some? then Returns((), address.err)
          else if address.value != tx.fromID then Returns((), Some(SignatureAddressMismatch))
          else Returns((), None)
    }

    /** `Validate` with the chain-id error the right way round: "got" is the
        transaction's chain id and "expected" the node's. Every other
        outcome is that of `Validate`. */
    function ValidateCorrected(chainID: uint16, lib: SignatureLib): (out: Outcome<()>)
      ensures tx.chainID != chainID ==>
        out.Returns? && out.err.Some? && out.err.value.ChainIDMismatch? &&
        out.err.value.got == tx.chainID && out.err.value.expected == chainID
      ensures tx.chainID == chainID ==> out == Validate(chainID, lib)
      ensures out.Succeeded() <==> Validate(chainID, lib).Succeeded()
    {
      if tx.chainID != chainID then Returns((), Some(ChainMismatch(tx.chainID, chainID)))
      else Validate(chainID, lib)
    }
  }

  /** The zero `SignedTx{}`: zero transaction, nil v, r and s. */
  const ZeroSignedTx := SignedTx(ZeroTx, None, None, None)

  /** `signature.VerifySignature` and `signature.FromAddress`, whose bodies
      are not part of this model. */
  datatype SignatureLib = SignatureLib(
    verifySignature: (BigInt, BigInt, BigInt) -> Outcome<()>,
    fromAddress: (Tx, BigInt, BigInt, BigInt) -> Outcome<Bytes>)

  /** `NewTx`: checks the from account, then the to account, and on success
      returns a `Tx` holding the arguments unchanged. */
  function NewTx(chainID: uint16, nonce: uint64, fromID: AccountID, toID: AccountID,
                 value: uint64, tip: uint64, data: Bytes): (out: Outcome<Tx>)
    ensures out.Returns?
    ensures out.Succeeded() <==> IsAccountID(fromID) && IsAccountID(toID)
    ensures out.Succeeded() ==>
      && out.value.chainID == chainID && out.value.nonce == nonce
      && out.value.fromID == fromID && out.value.toID == toID
      && out.value.value == value && out.value.tip == tip && out.value.data == data
    ensures !IsAccountID(fromID) ==> out == Returns(ZeroTx, Some(InvalidFromAccount))
    ensures IsAccountID(fromID) && !IsAccountID(toID) ==> out == Returns(ZeroTx, Some(InvalidToAccount))
  {
    if !IsAccountID(fromID) then Returns(ZeroTx, Some(InvalidFromAccount))
    else if !IsAccountID(toID) then Returns(ZeroTx, Some(InvalidToAccount))
    else Returns(Tx(chainID, nonce, fromID, toID, value, tip, data), None)
  }

  // ---------------------------------------------------------------------------
  // The chain-id error

  /** The chain-id error as transaction.go:80 builds it: the chain id the
      node expects is printed as "got" and the transaction's as "expected". */
  function ChainMismatchAsWritten(txChainID: uint16, chainID: uint16): Error
  {
    ChainIDMismatch(chainID, txChainID)
  }

  /** Whenever the check fires, the error built as written misreports what
      the transaction carried. */
  lemma ChainMismatchAsWrittenMisreports(txChainID: uint16, chainID: uint16)
    requires txChainID != chainID
    ensures ChainMismatchAsWritten(txChainID, chainID).got != txChainID
    ensures ChainMismatchAsWritten(txChainID, chainID).expected != chainID
  {
  }

  /** The chain-id error with its fields the right way round: "got" is the
      transaction's chain id and "expected" the node's. */
  function ChainMismatch(txChainID: uint16, chainID: uint16): Error
  {
    ChainIDMismatch(txChainID, chainID)
  }

  // ---------------------------------------------------------------------------
  // Validate as an ordered gate

  /** A check that passes, or fails with `e`. */
  function Check(ok: bool, e: Error): (c: Outcome<()>)
    ensures c.Succeeded() <==> ok
  {
    if ok then Returns((), None) else Returns((), Some(e))
  }

  /** The result of a sequence of checks run in order: the first that does
      not succeed, or success when all do. */
  function FirstFailure(checks: seq<Outcome<()>>): (out: Outcome<()>)
    ensures out.Succeeded() <==> forall i | 0 <= i < |checks| :: checks[i].Succeeded()
    ensures !out.Succeeded() ==>
      exists k | 0 <= k < |checks| ::
        out == checks[k] && forall j | 0 <= j < k :: checks[j].Succeeded()
  {
    if checks == [] then Returns((), None)
    else if !checks[0].Succeeded() then checks[0]
    else
      var rest := FirstFailure(checks[1..]);
      assert forall i | 1 <= i < |checks| :: checks[i] == checks[1..][i - 1];
      rest
  }

  /** A failing check preceded only by passing ones decides the result. */
  lemma {:induction false} FirstFailureAt(checks: seq<Outcome<()>>, k: nat)
    requires k < |checks| && !checks[k].Succeeded()
    requires forall j | 0 <= j < k :: checks[j].Succeeded()
    ensures FirstFailure(checks) == checks[k]
  {
    if k > 0 {
      FirstFailureAt(checks[1..], k - 1);
    }
  }

  /** The step that recovers the signer's address and compares it byte for
      byte with the from account. */
  function AddressCheck(address: Outcome<Bytes>, fromID: AccountID): (c: Outcome<()>)
    ensures c.Succeeded() <==> address.Succeeded() && address.value == fromID
  {
    match address
    case Panics(f) => Panics(f)
    case Returns(a, err) =>
      if err.Some? then Returns((), err) else Check(a == fromID, SignatureAddressMismatch)
  }

  /** The checks of `Validate`, in the order the code runs them. */
  function Checks(stx: SignedTx, chainID: uint16, lib: SignatureLib): seq<Outcome<()>>
  {
    var tx := stx.tx;
    [ Check(tx.chainID == chainID, ChainMismatchAsWritten(tx.chainID, chainID)),
      Check(IsAccountID(tx.fromID), FromAccountNotFormatted),
      Check(IsAccountID(tx.toID), ToAccountNotFormatted),
      Check(tx.fromID != tx.toID, SelfTransfer(tx.fromID, tx.toID)),
      lib.verifySignature(stx.v, stx.r, stx.s),
      AddressCheck(lib.fromAddress(tx, stx.v, stx.r, stx.s), tx.fromID) ]
  }

  /** `Validate` is the first failure of its checks in their fixed order:
      chain id, from format, to format, self-transfer, signature values,
      recovered address. */
  lemma ValidateIsFirstFailure(stx: SignedTx, chainID: uint16, lib: SignatureLib)
    ensures stx.Validate(chainID, lib) == FirstFailure(Checks(stx, chainID, lib))
  {
    var checks := Checks(stx, chainID, lib);
    var k := if !checks[0].Succeeded() then 0
      else if !checks[1].Succeeded() then 1
      else if !checks[2].Succeeded() then 2
      else if !checks[3].Succeeded() then 3
      else if !checks[4].Succeeded() then 4
      else if !checks[5].Succeeded() then 5
      else 6;
    if k < 6 {
      FirstFailureAt(checks, k);
    } else {
      assert forall i | 0 <= i < 6 :: checks[i].Succeeded();
      var out := FirstFailure(checks);
      assert out.Succeeded();
      assert out.value == ();
      assert out == Returns((), None);
    }
  }

  /** `Validate` succeeds exactly when every check passes; in particular the
      recovered address must equal the from account byte for byte. */
  lemma ValidateSucceedsIff(stx: SignedTx, chainID: uint16, lib: SignatureLib)
    ensures stx.Validate(chainID, lib).Succeeded() <==>
      && stx.tx.chainID == chainID
      && IsAccountID(stx.tx.fromID)
      && IsAccountID(stx.tx.toID)
      && stx.tx.fromID != stx.tx.toID
      && lib.verifySignature(stx.v, stx.r, stx.s).Succeeded()
      && lib.fromAddress(stx.tx, stx.v, stx.r, stx.s).Succeeded()
      && lib.fromAddress(stx.tx, stx.v, stx.r, stx.s).value == stx.tx.fromID
  {
    ValidateIsFirstFailure(stx, chainID, lib);
    var checks := Checks(stx, chainID, lib);
    assert checks[0].Succeeded() <==> stx.tx.chainID == chainID;
  }

  /** A chain-id mismatch is reported before anything else is looked at,
      whatever the accounts and the signature are. */
  lemma ValidateChecksChainFirst(stx: SignedTx, chainID: uint16, lib: SignatureLib)
    requires stx.tx.chainID != chainID
    ensures stx.Validate(chainID, lib) == Returns((), Some(ChainMismatchAsWritten(stx.tx.chainID, chainID)))
  {
    ValidateIsFirstFailure(stx, chainID, lib);
    FirstFailureAt(Checks(stx, chainID, lib), 0);
  }

  /** On a chain-id mismatch the error `Validate` returns names the node's
      chain id as "got" and the transaction's as "expected", so neither field
      reports what its label says. */
  lemma ValidateMisreportsChain(stx: SignedTx, chainID: uint16, lib: SignatureLib)
    requires stx.tx.chainID != chainID
    ensures var out := stx.Validate(chainID, lib);
      && out.Returns? && out.err.Some? && out.err.value.ChainIDMismatch?
      && out.err.value.got == chainID && out.err.value.expected == stx.tx.chainID
      && out.err.value.got != stx.tx.chainID && out.err.value.expected != chainID
  {
    ValidateChecksChainFirst(stx, chainID, lib);
  }

  /** The corrected `Validate` differs from the code only in the chain-id
      error, whose two fields it swaps back. */
  lemma ValidateCorrectedSwapsChainError(stx: SignedTx, chainID: uint16, lib: SignatureLib)
    ensures stx.tx.chainID == chainID ==> stx.ValidateCorrected(chainID, lib) == stx.Validate(chainID, lib)
    ensures stx.tx.chainID != chainID ==>
      && stx.Validate(chainID, lib) == Returns((), Some(ChainIDMismatch(chainID, stx.tx.chainID)))
      && stx.ValidateCorrected(chainID, lib) == Returns((), Some(ChainIDMismatch(stx.tx.chainID, chainID)))
  {
    if stx.tx.chainID != chainID {
      ValidateChecksChainFirst(stx, chainID, lib);
    }
  }

  /** Once the chain id and both formats pass, the self-transfer check is
      plain byte equality: the same address spelled with and without the
      prefix, or in another letter case, is not rejected by it, and the
      outcome is that of the signature checks. */
  lemma SelfTransferIsByteEquality(stx: SignedTx, chainID: uint16, lib: SignatureLib)
    requires stx.tx.chainID == chainID
    requires IsAccountID(stx.tx.fromID) && IsAccountID(stx.tx.toID)
    ensures stx.tx.fromID == stx.tx.toID ==>
      stx.Validate(chainID, lib) == Returns((), Some(SelfTransfer(stx.tx.fromID, stx.tx.toID)))
    ensures stx.tx.fromID != stx.tx.toID ==>
      stx.Validate(chainID, lib) == FirstFailure(Checks(stx, chainID, lib)[4..])
  {
    var checks := Checks(stx, chainID, lib);
    ValidateIsFirstFailure(stx, chainID, lib);
    if stx.tx.fromID == stx.tx.toID {
      FirstFailureAt(checks, 3);
    } else {
      FirstFailureAfterPassing(checks, 4);
    }
  }

  /** Checks that all pass can be dropped from the front. */
  lemma {:induction false} FirstFailureAfterPassing(checks: seq<Outcome<()>>, k: nat)
    requires k <= |checks|
    requires forall j | 0 <= j < k :: checks[j].Succeeded()
    ensures FirstFailure(checks) == FirstFailure(checks[k..])
  {
    if k > 0 {
      FirstFailureAfterPassing(checks[1..], k - 1);
      assert checks[1..][k - 1..] == checks[k..];
    }
  }

  /** Two different strings that name the same address: a 40-digit account
      id and the same digits behind "0x". Both are account ids, so a
      transfer between them passes the self-transfer check. */
  lemma PrefixedSpellingIsDistinct(t: AccountID)
    requires |t| == 40 && IsAccountID(t)
    ensures IsAccountID(Ascii("0x") + t)
    ensures Ascii("0x") + t != t
  {
    PrefixIsOptional(Ascii("0x"), t);
  }

  /** Signing a transaction end to end: when the transaction marshals and
      `crypto.Sign` returns a signature of at least 65 bytes for its stamp
      digest, the `SignedTx` embeds the transaction with r and s the
      big-endian values of bytes [0, 32) and [32, 64) and v byte 64 exactly
      as returned (a recovery id of 0 or 1 stays 0 or 1). */
  lemma TxSignSplitsRawSignature(tx: Tx, privateKey: Signature.PrivateKey,
                                 marshal: Tx -> Outcome<Bytes>, crypto: Signature.Crypto)
    requires marshal(tx).Succeeded()
    requires crypto.sign(crypto.keccak256(Signature.Preimage(marshal(tx).value)), privateKey).Succeeded()
    requires |crypto.sign(crypto.keccak256(Signature.Preimage(marshal(tx).value)), privateKey).value| >= 65
    ensures var sig := crypto.sign(crypto.keccak256(Signature.Preimage(marshal(tx).value)), privateKey).value;
      && tx.Sign(privateKey, marshal, crypto).Succeeded()
      && tx.Sign(privateKey, marshal, crypto).value == SignedTx(tx,
           Some(sig[64]), Some(BigBytes.SetBytes(sig[..32])), Some(BigBytes.SetBytes(sig[32..64])))
  {
    Signature.SignCases(tx, privateKey, marshal, crypto);
  }

  // ---------------------------------------------------------------------------
  // From construction to validation

  /** A transaction built by `NewTx` with two different accounts and signed
      by `Tx.Sign` passes every check `Validate` makes itself on its own
      chain: the outcome is decided by the signature checks alone, and it
      is success exactly when they accept and recover the from account.
      On any other chain it is the chain-id error, which names that other
      chain as "got" and the transaction's own as "expected". */
  lemma SignedNewTxValidates(
    chainID: uint16, nonce: uint64, fromID: AccountID, toID: AccountID,
    value: uint64, tip: uint64, data: Bytes,
    privateKey: Signature.PrivateKey, marshal: Tx -> Outcome<Bytes>, crypto: Signature.Crypto,
    lib: SignatureLib, otherChainID: uint16)
    requires NewTx(chainID, nonce, fromID, toID, value, tip, data).Succeeded()
    requires fromID != toID
    requires NewTx(chainID, nonce, fromID, toID, value, tip, data).value.Sign(privateKey, marshal, crypto).Succeeded()
    requires otherChainID != chainID
    ensures var tx := NewTx(chainID, nonce, fromID, toID, value, tip, data).value;
      var stx := tx.Sign(privateKey, marshal, crypto).value;
      && stx.tx == tx
      && stx.Validate(chainID, lib) == FirstFailure(Checks(stx, chainID, lib)[4..])
      && (stx.Validate(chainID, lib).Succeeded() <==>
            && lib.verifySignature(stx.v, stx.r, stx.s).Succeeded()
            && lib.fromAddress(tx, stx.v, stx.r, stx.s).Succeeded()
            && lib.fromAddress(tx, stx.v, stx.r, stx.s).value == fromID)
      && stx.Validate(otherChainID, lib) == Returns((), Some(ChainIDMismatch(otherChainID, chainID)))
  {
    var tx := NewTx(chainID, nonce, fromID, toID, value, tip, data).value;
    var stx := tx.Sign(privateKey, marshal, crypto).value;
    SelfTransferIsByteEquality(stx, chainID, lib);
    ValidateSucceedsIff(stx, chainID, lib);
    ValidateChecksChainFirst(stx, otherChainID, lib);
  }
}
