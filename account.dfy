/** Account identifiers (foundation/blockchain/database/account.go): the
    textual form of a 20-byte address, 40 hexadecimal digits with an
    optional "0x" or "0X" in front. */
module Account {
  import opened Prelude
  import Hex

  /** An `AccountID` is a Go string; nothing in its type guarantees it is
      well formed. */
  type AccountID = Bytes

  /** An address is 20 bytes, written as 40 hexadecimal digits. */
  const AddressLength: nat := 20

  /** `isHexCharacter`: a decimal digit or a letter a-f in either case. */
  predicate IsHexCharacter(c: byte) {
    ('0' as int <= c <= '9' as int) || ('a' as int <= c <= 'f' as int) || ('A' as int <= c <= 'F' as int)
  }

  /** `has0xPrefix`: the string starts with '0' followed by 'x' or 'X'. */
  predicate Has0xPrefix(a: AccountID) {
    |a| >= 2 && a[0] == '0' as int && (a[1] == 'x' as int || a[1] == 'X' as int)
  }

  /** The loop of `isHex`: walk the bytes from the left and stop at the
      first one that is not a hexadecimal character. */
  predicate AllHexCharacters(a: AccountID) {
    a == [] || (IsHexCharacter(a[0]) && AllHexCharacters(a[1..]))
  }

  /** `isHex`: an even number of bytes, each a hexadecimal character. */
  predicate IsHex(a: AccountID) {
    |a| % 2 == 0 && AllHexCharacters(a)
  }

  /** The string with one leading "0x" or "0X" removed, if it has one. */
  function Strip0x(a: AccountID): (t: AccountID)
    ensures Has0xPrefix(a) ==> a == a[..2] + t
    ensures !Has0xPrefix(a) ==> t == a
  {
    if Has0xPrefix(a) then a[2..] else a
  }

  /** `isAccountID`: after removing an optional prefix, exactly
      2 * AddressLength bytes that pass `isHex`. */
  predicate IsAccountID(a: AccountID) {
    var t := Strip0x(a);
    |t| == 2 * AddressLength && IsHex(t)
  }

  /** `ToAccountID`: the string itself when it is an account id, otherwise
      the empty string with an "invalid account format" error. */
  function ToAccountID(hex: Bytes): (r: Outcome<AccountID>)
    ensures r.Returns?
    ensures r.Succeeded() <==> IsAccountID(hex)
    ensures r.Succeeded() ==> r.value == hex
    ensures !r.Succeeded() ==> r.value == [] && r.err == Some(InvalidAccountFormat)
  {
    if !IsAccountID(hex) then Returns([], Some(InvalidAccountFormat)) else Returns(hex, None)
  }

  // ---------------------------------------------------------------------------
  // Hexadecimal characters

  /** The hexadecimal characters are exactly the 16 digits in lower case and
      the 16 in upper case, the alphabet the decoder accepts; so letter case
      does not matter. */
  lemma HexCharacterIsDigit(c: byte)
    ensures IsHexCharacter(c) <==> Hex.DigitValue(c).Some?
    ensures IsHexCharacter(c) <==>
      exists d: nat | d < 16 :: c == Hex.LowerDigit(d) || c == Hex.UpperDigit(d)
  {
    if IsHexCharacter(c) {
      var d := Hex.DigitValue(c).value;
      assert c == Hex.LowerDigit(d) || c == Hex.UpperDigit(d);
    }
  }

  /** The prefix is exactly one of the two byte pairs "0x" and "0X";
      strings shorter than two bytes never have it. */
  lemma Has0xPrefixIff(a: AccountID)
    ensures Has0xPrefix(a) <==> |a| >= 2 && (a[..2] == Ascii("0x") || a[..2] == Ascii("0X"))
    ensures |a| < 2 ==> !Has0xPrefix(a)
  {
    if |a| >= 2 {
      assert a[..2] == [a[0], a[1]];
    }
  }

  /** The loop accepts exactly the strings whose every byte is a
      hexadecimal character (the empty string included). */
  lemma {:induction false} AllHexCharactersIff(a: AccountID)
    ensures AllHexCharacters(a) <==> forall i | 0 <= i < |a| :: IsHexCharacter(a[i])
  {
    if a != [] {
      AllHexCharactersIff(a[1..]);
      assert forall i | 1 <= i < |a| :: a[i] == a[1..][i - 1];
    }
  }

  /** `isHex` rejects every odd length and otherwise holds exactly when
      every byte is a hexadecimal character; it agrees with `hex.DecodeString`
      succeeding. */
  lemma IsHexIff(a: AccountID)
    ensures IsHex(a) <==> |a| % 2 == 0 && forall i | 0 <= i < |a| :: IsHexCharacter(a[i])
    ensures IsHex(a) <==> Hex.DecodeString(a).Succeeded()
    ensures IsHex([])
  {
    AllHexCharactersIff(a);
    Hex.DecodeSucceedsIff(a);
    forall i | 0 <= i < |a| ensures IsHexCharacter(a[i]) <==> Hex.DigitValue(a[i]).Some? {
      HexCharacterIsDigit(a[i]);
    }
  }

  // ---------------------------------------------------------------------------
  // Account ids

  /** An account id is either 40 hexadecimal characters with no prefix, or
      a prefix followed by 40 hexadecimal characters. */
  lemma IsAccountIDIff(a: AccountID)
    ensures IsAccountID(a) <==>
      || (!Has0xPrefix(a) && |a| == 40 && forall i | 0 <= i < |a| :: IsHexCharacter(a[i]))
      || (Has0xPrefix(a) && |a| == 42 && forall i | 2 <= i < |a| :: IsHexCharacter(a[i]))
  {
    var t := Strip0x(a);
    IsHexIff(t);
    if Has0xPrefix(a) {
      assert forall i | 2 <= i < |a| :: a[i] == t[i - 2];
    }
  }

  /** Only one prefix is ever removed: every account id has 40 or 42 bytes,
      and the 42-byte ones carry the prefix. */
  lemma AccountIDLength(a: AccountID)
    requires IsAccountID(a)
    ensures |a| == 40 || |a| == 42
    ensures |a| == 42 <==> Has0xPrefix(a)
  {
    IsAccountIDIff(a);
  }

  /** The prefix is optional: prefixing `t` gives an account id exactly when
      `t` is a 40-byte account id, i.e. 40 hexadecimal characters. */
  lemma PrefixIsOptional(p: Bytes, t: AccountID)
    requires |p| == 2 && Has0xPrefix(p)
    ensures IsAccountID(p + t) <==> |t| == 40 && IsAccountID(t)
  {
    var a := p + t;
    assert Has0xPrefix(a);
    assert Strip0x(a) == t;
    IsHexIff(t);
    if Has0xPrefix(t) {
      assert !IsHexCharacter(t[1]);
    }
    if |t| == 40 && IsAccountID(t) {
      assert !Has0xPrefix(t) by {
        AccountIDLength(t);
      }
    }
  }

  /** A doubled prefix is never accepted: after one prefix is removed, the
      'x' of the second is not a hexadecimal character. */
  lemma DoublePrefixRejected(p: Bytes, q: Bytes, t: AccountID)
    requires |p| == 2 && Has0xPrefix(p)
    requires |q| == 2 && Has0xPrefix(q)
    ensures !IsAccountID(p + q + t)
  {
    var a := p + q + t;
    assert Strip0x(a) == q + t;
    IsHexIff(q + t);
    assert !IsHexCharacter((q + t)[1]);
  }

  /** Every account id spells 20 bytes: the part after the prefix decodes
      with `hex.DecodeString` to AddressLength bytes. */
  lemma AccountIDDecodes(a: AccountID)
    requires IsAccountID(a)
    ensures Hex.DecodeString(Strip0x(a)).Succeeded()
    ensures |Hex.DecodeString(Strip0x(a)).value| == AddressLength
  {
    IsHexIff(Strip0x(a));
    Hex.DecodeSucceedsIff(Strip0x(a));
  }
}
