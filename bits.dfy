/**
 * `int2binlist`: an integer as a most-significant-bit-first list of 0/1 ints of a given width.
 * The source builds the list from numpy's `binary_repr(i, n_bits)`, which is modelled as
 * written in `BinaryRepr`; `Int2BinList` is the evidently intended behaviour, which differs
 * only at width 0 (see `Int2BinListAsWrittenWidthZero`).
 */
module BinaryLists {

  function Pow2(k: nat): (r: nat)
    ensures r >= 1
  {
    if k == 0 then 1 else 2 * Pow2(k - 1)
  }

  lemma {:induction false} Pow2Monotone(a: nat, b: nat)
    ensures a <= b ==> Pow2(a) <= Pow2(b)
    decreases b
  {
    if a < b {
      Pow2Monotone(a, b - 1);
    }
  }

  predicate IsBitList(bits: seq<int>) {
    forall k :: 0 <= k < |bits| ==> bits[k] == 0 || bits[k] == 1
  }

  /** The number a most-significant-bit-first list of bits stands for. */
  function BinListValue(bits: seq<int>): int {
    if bits == [] then 0 else 2 * BinListValue(bits[..|bits| - 1]) + bits[|bits| - 1]
  }

  /** Bit k of i, counting from the least significant bit as bit 0. */
  function Bit(i: nat, k: nat): (b: int)
    ensures b == 0 || b == 1
  {
    if k == 0 then i % 2 else Bit(i / 2, k - 1)
  }

  /**
   * `int2binlist(i, n_bits)` as intended: exactly `n_bits` bits, most significant first.
   * The source asserts `i < 2**n_bits`; `Int2BinListValue` shows the list stands for `i`.
   */
  function Int2BinList(i: nat, nBits: nat): (bits: seq<int>)
    requires i < Pow2(nBits)
    ensures |bits| == nBits && IsBitList(bits)
  {
    seq(nBits, t requires 0 <= t < nBits => Bit(i, nBits - 1 - t))
  }

  /** The list of n bits of i is the list of n-1 bits of i / 2 followed by the last bit of i. */
  lemma Int2BinListStep(i: nat, nBits: nat)
    requires i < Pow2(nBits) && nBits > 0
    ensures i / 2 < Pow2(nBits - 1)
    ensures Int2BinList(i, nBits) == Int2BinList(i / 2, nBits - 1) + [i % 2]
  {
    var bits := Int2BinList(i, nBits);
    var high := Int2BinList(i / 2, nBits - 1);
    forall t | 0 <= t < nBits - 1 ensures bits[t] == high[t] {
      assert Bit(i, nBits - 1 - t) == Bit(i / 2, nBits - 2 - t);
    }
    assert bits[nBits - 1] == Bit(i, 0) == i % 2;
    assert bits == high + [i % 2];
  }

  /** The list stands for i. */
  lemma {:induction false} Int2BinListValue(i: nat, nBits: nat)
    requires i < Pow2(nBits)
    ensures BinListValue(Int2BinList(i, nBits)) == i
  {
    if nBits > 0 {
      Int2BinListStep(i, nBits);
      Int2BinListValue(i / 2, nBits - 1);
      var bits := Int2BinList(i, nBits);
      assert bits[..nBits - 1] == Int2BinList(i / 2, nBits - 1);
    }
  }

  /** Every bit list of width n is the encoding of its own value, which is below 2^n. */
  lemma {:induction false} BinListRoundTrip(bits: seq<int>)
    requires IsBitList(bits)
    ensures 0 <= BinListValue(bits) < Pow2(|bits|)
    ensures Int2BinList(BinListValue(bits), |bits|) == bits
  {
    if bits != [] {
      var high := bits[..|bits| - 1];
      BinListRoundTrip(high);
      var v := BinListValue(bits);
      Int2BinListStep(v, |bits|);
      assert v / 2 == BinListValue(high) && v % 2 == bits[|bits| - 1];
      assert bits == high + [bits[|bits| - 1]];
    }
  }

  /** Different numbers below 2^n have different encodings. */
  lemma Int2BinListBijective(i: nat, j: nat, n: nat)
    requires i < Pow2(n) && j < Pow2(n)
    ensures Int2BinList(i, n) == Int2BinList(j, n) <==> i == j
  {
    Int2BinListValue(i, n);
    Int2BinListValue(j, n);
  }

  // ---------------------------------------------------------------------------
  // The source as written: numpy's binary_repr
  // ---------------------------------------------------------------------------

  function Zeros(k: nat): (z: seq<int>)
    ensures |z| == k && forall t :: 0 <= t < k ==> z[t] == 0
  {
    seq(k, _ => 0)
  }

  /** `bin(num)[2:]` for a positive number: its shortest binary digits, leading with a 1. */
  function MinimalBinary(num: nat): (bits: seq<int>)
    requires num > 0
    ensures |bits| >= 1 && bits[0] == 1
    ensures Pow2(|bits| - 1) <= num < Pow2(|bits|)
    decreases num
  {
    if num == 1 then [1] else MinimalBinary(num / 2) + [num % 2]
  }

  /**
   * numpy's `binary_repr(num, width)` for `0 <= num < 2^width`: zero is rendered as
   * `'0' * (width or 1)`, a positive number as its binary digits left-padded with zeros to `width`.
   */
  function BinaryRepr(num: nat, width: nat): (digits: seq<int>)
    requires num < Pow2(width)
    ensures |digits| == if width == 0 then 1 else width
  {
    if num == 0 then Zeros(if width == 0 then 1 else width)
    else
      var b := MinimalBinary(num);
      assert |b| <= width by {
        Pow2Monotone(width, |b| - 1);
      }
      Zeros(width - |b|) + b
  }

  /** `int2binlist` as written (causica/utils/causality_utils.py:554-560). */
  function Int2BinListAsWritten(i: nat, nBits: nat): (bits: seq<int>)
    requires i < Pow2(nBits)
    ensures |bits| == if nBits == 0 then 1 else nBits
  {
    BinaryRepr(i, nBits)
  }

  lemma {:induction false} Int2BinListOfZero(n: nat)
    ensures Int2BinList(0, n) == Zeros(n)
  {
    if n > 0 {
      Int2BinListOfZero(n - 1);
      Int2BinListStep(0, n);
    }
  }

  lemma {:induction false} PaddedMinimalBinary(num: nat, width: nat)
    requires 0 < num < Pow2(width)
    ensures |MinimalBinary(num)| <= width
    ensures Zeros(width - |MinimalBinary(num)|) + MinimalBinary(num) == Int2BinList(num, width)
    decreases num
  {
    var b := MinimalBinary(num);
    Pow2Monotone(width, |b| - 1);
    Int2BinListStep(num, width);
    if num == 1 {
      assert b == [1];
      Int2BinListOfZero(width - 1);
      assert Int2BinList(num, width) == Int2BinList(0, width - 1) + [1];
    } else {
      var b' := MinimalBinary(num / 2);
      assert b == b' + [num % 2];
      PaddedMinimalBinary(num / 2, width - 1);
      assert Int2BinList(num, width) == Int2BinList(num / 2, width - 1) + [num % 2];
      assert Zeros(width - |b|) == Zeros(width - 1 - |b'|);
    }
  }

  /** For every width of at least one bit the source's list is the intended one. */
  lemma Int2BinListAsWrittenAgrees(i: nat, nBits: nat)
    requires i < Pow2(nBits) && nBits >= 1
    ensures Int2BinListAsWritten(i, nBits) == Int2BinList(i, nBits)
  {
    if i == 0 {
      Int2BinListOfZero(nBits);
    } else {
      PaddedMinimalBinary(i, nBits);
    }
  }

  /** At width 0 the source returns the one-element list [0] instead of the empty list. */
  lemma Int2BinListAsWrittenWidthZero()
    ensures Int2BinListAsWritten(0, 0) == [0]
    ensures |Int2BinListAsWritten(0, 0)| != |Int2BinList(0, 0)|
  {
  }
}
