/** Big-endian byte strings and unsigned integers, as `big.Int.SetBytes`
    reads them and `big.Int.FillBytes` writes them (Go's `math/big`). */
module BigBytes {
  import opened Prelude

  /** 256 to the power `k`: one more than the largest value of `k` bytes. */
  function Pow256(k: nat): (p: nat)
    ensures p >= 1
  {
    if k == 0 then 1 else 256 * Pow256(k - 1)
  }

  /** `new(big.Int).SetBytes(b)`: the bytes read as an unsigned big-endian
      integer (the empty string reads as 0). */
  function SetBytes(b: Bytes): nat
  {
    if b == [] then 0 else SetBytes(b[..|b| - 1]) * 256 + b[|b| - 1]
  }

  /** `k` bytes hold exactly the values below 256^k. */
  lemma {:induction false} SetBytesBound(b: Bytes)
    ensures SetBytes(b) < Pow256(|b|)
  {
    if b != [] {
      SetBytesBound(b[..|b| - 1]);
    }
  }

  /** A single byte reads as its own value. */
  lemma SetBytesOfOneByte(c: byte)
    ensures SetBytes([c]) == c
  {
    assert [c][..0] == [];
  }

  /** `n.FillBytes(make([]byte, k))`: `n` as exactly `k` big-endian bytes,
      zero-padded on the left; `n` must fit. */
  function FillBytes(n: nat, k: nat): (b: Bytes)
    requires n < Pow256(k)
    ensures |b| == k
  {
    if k == 0 then []
    else
      assert n / 256 < Pow256(k - 1) by {
        assert n < 256 * Pow256(k - 1);
      }
      FillBytes(n / 256, k - 1) + [n % 256]
  }

  /** Writing a value back at its width gives the same bytes. */
  lemma {:induction false} FillBytesOfSetBytes(b: Bytes)
    ensures SetBytes(b) < Pow256(|b|)
    ensures FillBytes(SetBytes(b), |b|) == b
  {
    SetBytesBound(b);
    if b != [] {
      var init := b[..|b| - 1];
      FillBytesOfSetBytes(init);
      var n := SetBytes(b);
      assert n / 256 == SetBytes(init) && n % 256 == b[|b| - 1];
      assert init + [b[|b| - 1]] == b;
    }
  }

  /** Reading the written bytes gives the value back. */
  lemma {:induction false} SetBytesOfFillBytes(n: nat, k: nat)
    requires n < Pow256(k)
    ensures SetBytes(FillBytes(n, k)) == n
  {
    if k > 0 {
      var b := FillBytes(n, k);
      assert n / 256 < Pow256(k - 1) by {
        assert n < 256 * Pow256(k - 1);
      }
      SetBytesOfFillBytes(n / 256, k - 1);
      assert b[..|b| - 1] == FillBytes(n / 256, k - 1);
    }
  }
}
