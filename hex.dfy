/** Base16 as the Go code uses it: `hex.DecodeString` from `encoding/hex`
    (upper- and lower-case digits accepted; the first invalid byte is
    reported before an odd length) and `hexutil.Encode` from go-ethereum
    (lower-case digits after a "0x" prefix). Base16 itself is the encoding
    of section 8 of RFC 4648. */
module Hex {
  import opened Prelude

  /** The lower-case digit for `d`, as encoding emits it. */
  function LowerDigit(d: nat): byte
    requires d < 16
  {
    if d < 10 then '0' as int + d else 'a' as int + d - 10
  }

  /** The upper-case digit for `d`, accepted on decoding only. */
  function UpperDigit(d: nat): byte
    requires d < 16
  {
    if d < 10 then '0' as int + d else 'A' as int + d - 10
  }

  /** The value of one hexadecimal digit, or `None` for any other byte. */
  function DigitValue(c: byte): (d: Option<nat>)
    ensures d.Some? ==> d.value < 16 && (c == LowerDigit(d.value) || c == UpperDigit(d.value))
  {
    if '0' as int <= c <= '9' as int then Some(c - '0' as int)
    else if 'a' as int <= c <= 'f' as int then Some(c - 'a' as int + 10)
    else if 'A' as int <= c <= 'F' as int then Some(c - 'A' as int + 10)
    else None
  }

  /** Decoding a digit inverts encoding it, in either letter case. */
  lemma DigitValueOfDigit(d: nat)
    requires d < 16
    ensures DigitValue(LowerDigit(d)) == Some(d)
    ensures DigitValue(UpperDigit(d)) == Some(d)
  {
  }

  /** Every byte of the string is a hexadecimal digit. */
  predicate AllDigits(s: Bytes) {
    forall i | 0 <= i < |s| :: DigitValue(s[i]).Some?
  }

  /** `hex.EncodeToString`: two lower-case digits per byte, high nibble first. */
  function EncodeToString(b: Bytes): (s: Bytes)
    ensures |s| == 2 * |b|
    ensures AllDigits(s)
  {
    if b == [] then []
    else [LowerDigit(b[0] / 16), LowerDigit(b[0] % 16)] + EncodeToString(b[1..])
  }

  /** `hexutil.Encode`: "0x" followed by the lower-case digits. */
  function Encode(b: Bytes): (s: Bytes)
    ensures |s| == 2 + 2 * |b|
    ensures s[..2] == Ascii("0x") && s[2..] == EncodeToString(b)
    ensures DecodeString(s[2..]) == Returns(b, None)
  {
    DecodeEncode(b);
    Ascii("0x") + EncodeToString(b)
  }

  /** `hex.DecodeString`: decodes pairs of digits from the left. At the first
      pair holding a non-digit it stops with `InvalidByte` of that byte (the
      left one if both are bad); a trailing single character gives
      `InvalidByte` when it is not a digit and `ErrLength` otherwise. The
      returned bytes are those decoded before the stop. It never panics. */
  function DecodeString(s: Bytes): (r: Outcome<Bytes>)
    ensures r.Returns?
    ensures |r.value| <= |s| / 2
  {
    if |s| == 0 then Returns([], None)
    else if |s| == 1 then
      Returns([], Some(if DigitValue(s[0]).None? then InvalidByte(s[0]) else ErrLength))
    else if DigitValue(s[0]).None? then Returns([], Some(InvalidByte(s[0])))
    else if DigitValue(s[1]).None? then Returns([], Some(InvalidByte(s[1])))
    else
      var rest := DecodeString(s[2..]);
      Returns([DigitValue(s[0]).value * 16 + DigitValue(s[1]).value] + rest.value, rest.err)
  }

  /** Decoding succeeds exactly on even-length strings of digits, and then
      yields one byte per pair of digits. */
  lemma {:induction false} DecodeSucceedsIff(s: Bytes)
    ensures DecodeString(s).Succeeded() <==> |s| % 2 == 0 && AllDigits(s)
    ensures DecodeString(s).Succeeded() ==> |DecodeString(s).value| == |s| / 2
  {
    if |s| >= 2 {
      DecodeSucceedsIff(s[2..]);
      if DigitValue(s[0]).Some? && DigitValue(s[1]).Some? && AllDigits(s[2..]) {
        assert forall i | 0 <= i < |s| :: DigitValue(s[i]).Some? by {
          forall i | 2 <= i < |s| ensures DigitValue(s[i]).Some? {
            assert s[i] == s[2..][i - 2];
          }
        }
      }
      if AllDigits(s) {
        assert forall i | 0 <= i < |s| - 2 :: s[2..][i] == s[i + 2];
      }
    }
  }

  /** Each decoded byte is the value of its pair of digits, high nibble first. */
  lemma {:induction false} DecodedByte(s: Bytes, k: nat)
    requires DecodeString(s).Succeeded() && k < |DecodeString(s).value|
    ensures 2 * k + 1 < |s|
    ensures DigitValue(s[2 * k]).Some? && DigitValue(s[2 * k + 1]).Some?
    ensures DecodeString(s).value[k]
            == DigitValue(s[2 * k]).value * 16 + DigitValue(s[2 * k + 1]).value
  {
    if k > 0 {
      DecodedByte(s[2..], k - 1);
    }
  }

  /** The error a failed decoding reports names the first non-digit byte,
      and only when every byte is a digit is it the odd-length error. */
  lemma {:induction false} DecodeErrorIsFirstInvalidByte(s: Bytes)
    requires !DecodeString(s).Succeeded()
    ensures AllDigits(s) ==> DecodeString(s).err == Some(ErrLength)
    ensures !AllDigits(s) ==>
      exists i | 0 <= i < |s| ::
        DigitValue(s[i]).None? && (forall j | 0 <= j < i :: DigitValue(s[j]).Some?)
        && DecodeString(s).err == Some(InvalidByte(s[i]))
  {
    if |s| >= 2 && DigitValue(s[0]).Some? && DigitValue(s[1]).Some? {
      var t := s[2..];
      DecodeErrorIsFirstInvalidByte(t);
      assert forall i | 0 <= i < |t| :: t[i] == s[i + 2];
      if !AllDigits(s) {
        assert !AllDigits(t) by {
          var i :| 0 <= i < |s| && DigitValue(s[i]).None?;
          assert i >= 2 && t[i - 2] == s[i];
        }
        var i :| 0 <= i < |t| && DigitValue(t[i]).None? && (forall j | 0 <= j < i :: DigitValue(t[j]).Some?)
                 && DecodeString(t).err == Some(InvalidByte(t[i]));
        assert DigitValue(s[i + 2]).None?;
        assert forall j | 0 <= j < i + 2 :: DigitValue(s[j]).Some? by {
          forall j | 2 <= j < i + 2 ensures DigitValue(s[j]).Some? {
            assert s[j] == t[j - 2];
          }
        }
      }
    } else if |s| >= 2 && DigitValue(s[0]).Some? {
      assert DigitValue(s[1]).None?;
    }
  }

  /** Decoding what `EncodeToString` produced gives the bytes back. */
  lemma {:induction false} DecodeEncode(b: Bytes)
    ensures DecodeString(EncodeToString(b)) == Returns(b, None)
  {
    if b != [] {
      var s := EncodeToString(b);
      DigitValueOfDigit(b[0] / 16);
      DigitValueOfDigit(b[0] % 16);
      assert s[2..] == EncodeToString(b[1..]);
      DecodeEncode(b[1..]);
      assert [b[0]] + b[1..] == b;
    }
  }
}
