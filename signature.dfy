/** Signing helpers (foundation/blockchain/signature/signature.go): the
    domain-separated "stamp" digest of a value, the split of a hex-encoded
    65-byte signature into its v, r and s values, and `Sign`, which composes
    them with ECDSA signing. JSON marshalling, Keccak-256 and secp256k1
    signing are collaborators passed in as functions. */
module Signature {
  import opened Prelude
  import Hex
  import BigBytes
  import Decimal

  /** An `*ecdsa.PrivateKey`; its contents matter only to the signing
      collaborator. */
  datatype PrivateKey = PrivateKey(d: nat)

  /** A 32-byte digest. */
  type Hash32 = h: Bytes | |h| == 32 witness BigBytes.FillBytes(0, 32)

  /** The cryptographic collaborators of go-ethereum's `crypto` package. */
  datatype Crypto = Crypto(
    keccak256: Bytes -> Hash32,                // crypto.Keccak256
    sign: (Bytes, PrivateKey) -> Outcome<Bytes>) // crypto.Sign: [R || S || V]

  /** The v, r and s results of `Sign` and `ToVRSFromHexSignature`, each a
      `*big.Int` that is nil when an error is returned. */
  datatype VRS = VRS(v: BigInt, r: BigInt, s: BigInt)

  const NilVRS := VRS(None, None, None)

  // ---------------------------------------------------------------------------
  // The stamp

  /** The 25 fixed bytes in front of every stamped message: 0x19 and then
      "Jesserc Signed Message:\n" (the layout of Ethereum's "personal_sign",
      version 0x45 of EIP-191, with "Jesserc" in place of "Ethereum"). */
  const StampTag: Bytes := [0x19] + Ascii("Jesserc Signed Message:\n")

  /** The bytes that `stamp` hashes for marshalled data `data`: the tag, the
      decimal length of `data`, then `data`. */
  function Preimage(data: Bytes): (p: Bytes)
    ensures |p| == |StampTag| + |Decimal.Format(|data|)| + |data|
  {
    StampTag + Decimal.Format(|data|) + data
  }

  /** `stamp`: marshal the value, then hash the preimage of the marshalled
      bytes. A marshalling error is returned with a nil hash. */
  function Stamp<T>(value: T, marshal: T -> Outcome<Bytes>, keccak256: Bytes -> Hash32): (h: Outcome<Bytes>)
    ensures h.Succeeded() <==> marshal(value).Succeeded()
    ensures h.Succeeded() ==> h.value == keccak256(Preimage(marshal(value).value)) && |h.value| == 32
    ensures marshal(value).Returns? && !h.Succeeded() ==> h == Returns([], marshal(value).err)
    ensures marshal(value).Panics? ==> h == marshal(value)
  {
    match marshal(value)
    case Panics(f) => Panics(f)
    case Returns(data, err) =>
      if err.Some? then Returns([], err) else Returns(keccak256(Preimage(data)), None)
  }

  /** The preimage is laid out as the tag, then a decimal number that reads
      back as the length of the data hashed in the same call, then the
      data itself. */
  lemma PreimageLayout(data: Bytes)
    ensures |StampTag| == 25
    ensures var p := Preimage(data); var k := |Decimal.Format(|data|)|;
      && p[..25] == StampTag
      && p[25..25 + k] == Decimal.Format(|data|)
      && Decimal.Value(Decimal.Format(|data|)) == |data|
      && p[25 + k..] == data
  {
    Decimal.ValueOfFormat(|data|);
  }

  /** Different data always give different preimages, so two values whose
      marshalled bytes differ are stamped from different hash inputs. */
  lemma PreimageInjective(d1: Bytes, d2: Bytes)
    requires Preimage(d1) == Preimage(d2)
    ensures d1 == d2
  {
    if |d1| < |d2| {
      Decimal.FormatLengthMonotone(|d1|, |d2|);
    } else if |d2| < |d1| {
      Decimal.FormatLengthMonotone(|d2|, |d1|);
    }
    assert |d1| == |d2|;
    var k := |StampTag| + |Decimal.Format(|d1|)|;
    assert d1 == Preimage(d1)[k..] && d2 == Preimage(d2)[k..];
  }

  // ---------------------------------------------------------------------------
  // v, r, s

  /** The intended split of a raw signature of at least 65 bytes:
      r = bytes [0, 32), s = bytes [32, 64), both big-endian, and v = byte 64
      as it is, with no offset. */
  function RawSplit(sig: Bytes): (vrs: VRS)
    requires |sig| >= 65
    ensures vrs.v.Some? && vrs.r.Some? && vrs.s.Some?
    ensures 0 <= vrs.v.value < 256
    ensures 0 <= vrs.r.value < BigBytes.Pow256(32) && 0 <= vrs.s.value < BigBytes.Pow256(32)
  {
    BigBytes.SetBytesBound(sig[..32]);
    BigBytes.SetBytesBound(sig[32..64]);
    VRS(Some(sig[64]), Some(BigBytes.SetBytes(sig[..32])), Some(BigBytes.SetBytes(sig[32..64])))
  }

  /** The 65-byte wire form of split values: r and s as 32-byte big-endian
      fields, then v as one byte. */
  function Join(vrs: VRS): (sig: Bytes)
    requires vrs.v.Some? && 0 <= vrs.v.value < 256
    requires vrs.r.Some? && 0 <= vrs.r.value < BigBytes.Pow256(32)
    requires vrs.s.Some? && 0 <= vrs.s.value < BigBytes.Pow256(32)
    ensures |sig| == 65
  {
    BigBytes.FillBytes(vrs.r.value, 32) + BigBytes.FillBytes(vrs.s.value, 32) + [vrs.v.value]
  }

  /** Joining the split values gives back the first 65 bytes of the raw
      signature; bytes after index 64 play no part. */
  lemma JoinRawSplit(sig: Bytes)
    requires |sig| >= 65
    ensures Join(RawSplit(sig)) == sig[..65]
    ensures RawSplit(sig) == RawSplit(sig[..65])
  {
    BigBytes.FillBytesOfSetBytes(sig[..32]);
    BigBytes.FillBytesOfSetBytes(sig[32..64]);
    assert sig[..65] == sig[..32] + sig[32..64] + [sig[64]];
    assert sig[..65][..32] == sig[..32] && sig[..65][32..64] == sig[32..64];
  }

  /** `ToVRSFromHexSignature`: drop the first two characters unchecked,
      hex-decode the rest and read r, s and v from the bytes. A decoding
      error is returned with nil values; a string shorter than two
      characters, or one that decodes to fewer than 65 bytes, makes the
      slicing or indexing panic. */
  function ToVRSFromHexSignature(sigStr: Bytes): (out: Outcome<VRS>)
    ensures out.Panics? <==>
      |sigStr| < 2 || (Hex.DecodeString(sigStr[2..]).Succeeded() && |Hex.DecodeString(sigStr[2..]).value| < 65)
    ensures out.Returns? && out.err.Some? ==> out.value == NilVRS
  {
    if |sigStr| < 2 then Panics(BoundsError)
    else
      var decoded := Hex.DecodeString(sigStr[2..]);
      if decoded.err.Some? then Returns(NilVRS, decoded.err)
      else
        var sig := decoded.value;
        if |sig| < 65 then Panics(BoundsError)
        else
          var r := BigBytes.SetBytes(sig[..32]);
          var s := BigBytes.SetBytes(sig[32..64]);
          var v := BigBytes.SetBytes([sig[64]]);
          Returns(VRS(Some(v), Some(r), Some(s)), None)
  }

  /** When the characters after the first two decode to at least 65 bytes,
      the result is their split, with v the raw last byte; when they are
      not an even number of hexadecimal digits, the decoding error is
      returned with nil v, r and s. */
  lemma ToVRSCases(sigStr: Bytes)
    requires |sigStr| >= 2
    ensures var decoded := Hex.DecodeString(sigStr[2..]);
      decoded.Succeeded() && |decoded.value| >= 65 ==>
        ToVRSFromHexSignature(sigStr) == Returns(RawSplit(decoded.value), None)
    ensures var tail := sigStr[2..];
      !(|tail| % 2 == 0 && Hex.AllDigits(tail)) ==>
        ToVRSFromHexSignature(sigStr) == Returns(NilVRS, Hex.DecodeString(tail).err)
        && Hex.DecodeString(tail).err.Some?
  {
    var decoded := Hex.DecodeString(sigStr[2..]);
    Hex.DecodeSucceedsIff(sigStr[2..]);
    if decoded.Succeeded() && |decoded.value| >= 65 {
      BigBytes.SetBytesOfOneByte(decoded.value[64]);
    }
  }

  /** On success the values are in range: r and s below 2^256, v below 256. */
  lemma ToVRSBounds(sigStr: Bytes)
    requires ToVRSFromHexSignature(sigStr).Succeeded()
    ensures var vrs := ToVRSFromHexSignature(sigStr).value;
      && vrs.v.Some? && vrs.r.Some? && vrs.s.Some?
      && 0 <= vrs.v.value < 256
      && 0 <= vrs.r.value < BigBytes.Pow256(32)
      && 0 <= vrs.s.value < BigBytes.Pow256(32)
  {
    ToVRSCases(sigStr);
  }

  /** The first two characters are discarded without looking at them. */
  lemma ToVRSIgnoresPrefix(a: Bytes, b: Bytes, tail: Bytes)
    requires |a| == 2 && |b| == 2
    ensures ToVRSFromHexSignature(a + tail) == ToVRSFromHexSignature(b + tail)
  {
    assert (a + tail)[2..] == tail == (b + tail)[2..];
  }

  /** Hex-encoding a raw signature with "0x" and splitting the string gives
      the split of the raw bytes, and re-encoding that reproduces its first
      65 bytes. */
  lemma ToVRSOfEncoded(sig: Bytes)
    requires |sig| >= 65
    ensures ToVRSFromHexSignature(Hex.Encode(sig)) == Returns(RawSplit(sig), None)
    ensures Join(ToVRSFromHexSignature(Hex.Encode(sig)).value) == sig[..65]
  {
    Hex.DecodeEncode(sig);
    ToVRSCases(Hex.Encode(sig));
    JoinRawSplit(sig);
  }

  // ---------------------------------------------------------------------------
  // Sign

  /** `Sign`: stamp the value, sign the digest, then split
      `hexutil.Encode(sig)` with `ToVRSFromHexSignature`. Each error is
      returned as it is, with nil v, r and s. */
  function Sign<T>(value: T, privateKey: PrivateKey, marshal: T -> Outcome<Bytes>, crypto: Crypto): (out: Outcome<VRS>)
    ensures out.Returns? && out.err.Some? ==> out.value == NilVRS
    ensures out.Succeeded() ==> marshal(value).Succeeded()
  {
    var data := Stamp(value, marshal, crypto.keccak256);
    if data.Panics? then Panics(data.fault)
    else if data.err.Some? then Returns(NilVRS, data.err)
    else
      var sig := crypto.sign(data.value, privateKey);
      if sig.Panics? then Panics(sig.fault)
      else if sig.err.Some? then Returns(NilVRS, sig.err)
      else
        var vrs := ToVRSFromHexSignature(Hex.Encode(sig.value));
        if vrs.Panics? then Panics(vrs.fault)
        else if vrs.err.Some? then Returns(NilVRS, vrs.err)
        else Returns(vrs.value, None)
  }

  /** What `Sign` produces: the split of the raw signature that
      `crypto.Sign` returns for the stamp digest when that signature has at
      least 65 bytes (the [R || S || V] form has exactly 65); a panic when it
      is shorter; and otherwise the first error, from marshalling or from
      signing, with nil v, r and s. */
  lemma SignCases<T>(value: T, privateKey: PrivateKey, marshal: T -> Outcome<Bytes>, crypto: Crypto)
    ensures var m := marshal(value);
      m.Returns? && m.err.Some? ==> Sign(value, privateKey, marshal, crypto) == Returns(NilVRS, m.err)
    ensures var m := marshal(value);
      m.Succeeded() ==>
        var sig := crypto.sign(crypto.keccak256(Preimage(m.value)), privateKey);
        && (sig.Returns? && sig.err.Some? ==> Sign(value, privateKey, marshal, crypto) == Returns(NilVRS, sig.err))
        && (sig.Succeeded() && |sig.value| >= 65 ==>
              Sign(value, privateKey, marshal, crypto) == Returns(RawSplit(sig.value), None))
        && (sig.Succeeded() && |sig.value| < 65 ==>
              Sign(value, privateKey, marshal, crypto).Panics?)
  {
    var m := marshal(value);
    if m.Succeeded() {
      var sig := crypto.sign(crypto.keccak256(Preimage(m.value)), privateKey);
      if sig.Succeeded() {
        Hex.DecodeEncode(sig.value);
        if |sig.value| >= 65 {
          ToVRSOfEncoded(sig.value);
        }
      }
    }
  }
}
