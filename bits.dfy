/**
 * Single-bit addressing over byte storage. A bit offset `p` names bit
 * `p mod 8` of byte `p div 8`, counted from the most significant bit
 * (`msbFirst`) or from the least significant one.
 */
module Bits {
  import opened Bytes
  import opened Views

  /** `1 << k`. */
  function Pow2(k: nat): (r: nat)
    ensures r >= 1
  {
    if k == 0 then 1 else 2 * Pow2(k - 1)
  }

  /** `(b & (1 << k)) !== 0 ? 1 : 0`: bit `k` of `b`, counted from the least significant. */
  function BitOf(b: nat, k: nat): (r: int)
    ensures r == 0 || r == 1
  {
    if k == 0 then b % 2 else BitOf(b / 2, k - 1)
  }

  /** A clear bit `k` of a number below `2^n` leaves room to add `2^k`. */
  lemma {:induction false} BitRoom(b: nat, k: nat, n: nat)
    requires b < Pow2(n) && k < n && BitOf(b, k) == 0
    ensures b + Pow2(k) < Pow2(n)
  {
    var h := Pow2(n - 1);
    assert Pow2(n) == 2 * h;
    assert b / 2 < h;
    if k == 0 {
      assert b == 2 * (b / 2);
    } else {
      BitRoom(b / 2, k - 1, n - 1);
      assert Pow2(k) == 2 * Pow2(k - 1);
    }
  }

  /** A set bit `k` is worth at least `2^k`. */
  lemma {:induction false} BitWeight(b: nat, k: nat)
    requires BitOf(b, k) == 1
    ensures b >= Pow2(k)
  {
    if k > 0 {
      BitWeight(b / 2, k - 1);
    }
  }

  /** Adding `2^k` to a number whose bit `k` is clear sets that bit and no other. */
  lemma {:induction false} BitOfAdd(b: nat, k: nat, j: nat)
    requires BitOf(b, k) == 0
    ensures BitOf(b + Pow2(k), j) == if j == k then 1 else BitOf(b, j)
  {
    if k > 0 && j > 0 {
      assert (b + Pow2(k)) / 2 == b / 2 + Pow2(k - 1);
      BitOfAdd(b / 2, k - 1, j - 1);
    }
  }

  /** Subtracting `2^k` from a number whose bit `k` is set clears that bit and no other. */
  lemma {:induction false} BitOfSub(b: nat, k: nat, j: nat)
    requires BitOf(b, k) == 1
    ensures b >= Pow2(k)
    ensures BitOf(b - Pow2(k), j) == if j == k then 0 else BitOf(b, j)
  {
    BitWeight(b, k);
    if k > 0 {
      BitWeight(b / 2, k - 1);
      if j > 0 {
        assert (b - Pow2(k)) / 2 == b / 2 - Pow2(k - 1);
        BitOfSub(b / 2, k - 1, j - 1);
      }
    }
  }

  /** `b |= 1 << k` when `v` is 1, `b &= ~(1 << k)` otherwise. */
  function WithBit(b: byte, k: nat, v: int): byte
    requires k < 8
  {
    var want := if v == 1 then 1 else 0;
    if BitOf(b as nat, k) == want then b
    else if want == 1 then (BitRoom(b as nat, k, 8); b as int + Pow2(k)) as byte
    else (BitWeight(b as nat, k); b as int - Pow2(k)) as byte
  }

  /** Setting or clearing bit `k` makes it `v` (1 or 0) and keeps the seven other bits. */
  lemma WithBitSpec(b: byte, k: nat, v: int, j: nat)
    requires k < 8 && j < 8
    ensures BitOf(WithBit(b, k, v) as nat, j) == if j == k then (if v == 1 then 1 else 0) else BitOf(b as nat, j)
  {
    var want := if v == 1 then 1 else 0;
    if BitOf(b as nat, k) != want {
      if want == 1 {
        BitOfAdd(b as nat, k, j);
      } else {
        BitOfSub(b as nat, k, j);
      }
    }
  }

  /** Position inside its byte of bit offset `p`: `7 - p % 8` MSB-first, `p % 8` LSB-first. */
  function Oriented(p: nat, msbFirst: bool): (k: nat)
    ensures k < 8
  {
    if msbFirst then 7 - p % 8 else p % 8
  }

  /** Two bit offsets in the same byte sit at the same position only if they are equal. */
  lemma OrientedInjective(p: nat, q: nat, msbFirst: bool)
    requires p / 8 == q / 8 && p != q
    ensures Oriented(p, msbFirst) != Oriented(q, msbFirst)
  {
    assert p == 8 * (p / 8) + p % 8;
    assert q == 8 * (q / 8) + q % 8;
  }

  /** Bit `p` of the byte sequence `s`. */
  function BitAt(s: seq<byte>, p: nat, msbFirst: bool): (r: int)
    requires p < 8 * |s|
    ensures r == 0 || r == 1
  {
    BitOf(s[p / 8] as nat, Oriented(p, msbFirst))
  }

  /** `s` with bit `p` set to `v` (cleared unless `v` is 1); a bit past the end is dropped. */
  function SetBitAt(s: seq<byte>, p: nat, v: int, msbFirst: bool): (r: seq<byte>)
    ensures |r| == |s|
  {
    if p / 8 < |s| then s[p / 8 := WithBit(s[p / 8], Oriented(p, msbFirst), v)] else s
  }

  /** Setting a bit is storing its cell with that bit replaced. */
  lemma SetBitAtIsPut(s: seq<byte>, p: nat, v: int, msbFirst: bool)
    ensures SetBitAt(s, p, v, msbFirst) == Put(s, p / 8, WithBit(At(s, p / 8), Oriented(p, msbFirst), v))
  {
  }

  /** Setting one bit changes that bit only. */
  lemma SetBitAtSpec(s: seq<byte>, p: nat, v: int, msbFirst: bool, q: nat)
    requires q < 8 * |s|
    ensures BitAt(SetBitAt(s, p, v, msbFirst), q, msbFirst)
         == if q == p then (if v == 1 then 1 else 0) else BitAt(s, q, msbFirst)
  {
    if p / 8 < |s| && q / 8 == p / 8 {
      if q != p {
        OrientedInjective(p, q, msbFirst);
      }
      WithBitSpec(s[p / 8], Oriented(p, msbFirst), v, Oriented(q, msbFirst));
    }
  }

  /** Element `i` of a JS bit array: a missing element reads as `undefined`, which clears the bit. */
  function BitValue(bits: seq<int>, i: nat): int
  {
    if i < |bits| then bits[i] else 0
  }

  /** The first `n` single-bit writes of `writeBits(bits, start, _, msbFirst)`, in loop order. */
  function WriteBitsSpec(s: seq<byte>, bits: seq<int>, start: nat, n: nat, msbFirst: bool): (r: seq<byte>)
    ensures |r| == |s|
  {
    if n == 0 then s
    else SetBitAt(WriteBitsSpec(s, bits, start, n - 1, msbFirst), start + n - 1, BitValue(bits, n - 1), msbFirst)
  }

  /** After the writes, every bit in `[start, start + n)` holds its array element and every other bit is unchanged. */
  lemma {:induction false} WriteBitsSpecAt(s: seq<byte>, bits: seq<int>, start: nat, n: nat, msbFirst: bool, q: nat)
    requires q < 8 * |s|
    ensures BitAt(WriteBitsSpec(s, bits, start, n, msbFirst), q, msbFirst)
         == if start <= q < start + n then (if BitValue(bits, q - start) == 1 then 1 else 0)
            else BitAt(s, q, msbFirst)
  {
    if n > 0 {
      var prev := WriteBitsSpec(s, bits, start, n - 1, msbFirst);
      assert WriteBitsSpec(s, bits, start, n, msbFirst) == SetBitAt(prev, start + n - 1, BitValue(bits, n - 1), msbFirst);
      SetBitAtSpec(prev, start + n - 1, BitValue(bits, n - 1), msbFirst, q);
      if q != start + n - 1 {
        WriteBitsSpecAt(s, bits, start, n - 1, msbFirst, q);
      }
    }
  }

  /** `bits` holds only 0s and 1s. */
  predicate IsBitArray(bits: seq<int>)
  {
    forall i :: 0 <= i < |bits| ==> bits[i] == 0 || bits[i] == 1
  }

  /** The bits of `s`, bit offset 0 first. */
  function BitsOf(s: seq<byte>, msbFirst: bool): (r: seq<int>)
    ensures |r| == 8 * |s|
    ensures forall p :: 0 <= p < 8 * |s| ==> r[p] == BitAt(s, p, msbFirst)
  {
    seq(8 * |s|, p requires 0 <= p < 8 * |s| => BitAt(s, p, msbFirst))
  }

  /** `bits` padded with zeros up to a whole number of bytes. */
  function PadToBytes(bits: seq<int>): (r: seq<int>)
    ensures |r| % 8 == 0 && |bits| <= |r| < |bits| + 8
  {
    bits + seq((8 - |bits| % 8) % 8, _ => 0)
  }

  /**
   * Writing a bit array into zeroed bytes and reading every bit back gives the
   * array padded with zeros to a multiple of 8.
   */
  lemma BitsRoundTrip(bits: seq<int>, msbFirst: bool)
    requires IsBitArray(bits)
    ensures BitsOf(WriteBitsSpec(Zeros((|bits| + 7) / 8), bits, 0, |bits|, msbFirst), msbFirst) == PadToBytes(bits)
  {
    var z := Zeros((|bits| + 7) / 8);
    var r := BitsOf(WriteBitsSpec(z, bits, 0, |bits|, msbFirst), msbFirst);
    var pad := PadToBytes(bits);
    PaddedLength(|bits|);
    assert |r| == |pad|;
    forall q | 0 <= q < |r|
      ensures r[q] == pad[q]
    {
      BitsRoundTripAt(bits, msbFirst, q);
      assert pad[q] == if q < |bits| then bits[q] else 0;
    }
  }

  /** Whole bytes for `n` bits hold exactly `n` bits plus the zero padding. */
  lemma PaddedLength(n: nat)
    ensures 8 * ((n + 7) / 8) == n + (8 - n % 8) % 8
  {
    var q, m := n / 8, n % 8;
    assert n == 8 * q + m;
    if m == 0 {
      DivModUnique(n + 7, 8, q, 7);
    } else {
      DivModUnique(n + 7, 8, q + 1, m - 1);
    }
  }

  lemma BitsRoundTripAt(bits: seq<int>, msbFirst: bool, q: nat)
    requires IsBitArray(bits)
    requires q < 8 * ((|bits| + 7) / 8)
    ensures BitAt(WriteBitsSpec(Zeros((|bits| + 7) / 8), bits, 0, |bits|, msbFirst), q, msbFirst)
         == if q < |bits| then bits[q] else 0
  {
    var z := Zeros((|bits| + 7) / 8);
    WriteBitsSpecAt(z, bits, 0, |bits|, msbFirst, q);
    if q >= |bits| {
      ZeroByteBits(Oriented(q, msbFirst));
      assert z[q / 8] == 0;
    }
  }

  lemma {:induction false} ZeroByteBits(k: nat)
    ensures BitOf(0, k) == 0
  {
    if k > 0 {
      ZeroByteBits(k - 1);
    }
  }
}
