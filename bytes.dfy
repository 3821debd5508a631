/**
 * Bytes and the unsigned integers they spell out, least or most significant
 * byte first. Every codec of the buffer (8/16/32-bit words, arbitrary-length
 * big integers, typed-array element layouts) is stated in terms of the two
 * reference readings `LeValue` / `BeValue` and their inverses
 * `LeBytes` / `BeBytes` defined here.
 */
module Bytes {

  /** One cell of a `Uint8Array`. */
  newtype byte = x: int | 0 <= x < 256

  /** 256^n, the number of values n bytes can hold. */
  function Pow256(n: nat): (r: nat)
    ensures r >= 1
  {
    if n == 0 then 1 else 256 * Pow256(n - 1)
  }

  /** The value of `s` read least significant byte first. */
  function LeValue(s: seq<byte>): (r: nat)
    ensures r < Pow256(|s|)
  {
    if s == [] then 0 else s[0] as nat + 256 * LeValue(s[1..])
  }

  /** The value of `s` read most significant byte first. */
  function BeValue(s: seq<byte>): (r: nat)
    ensures r < Pow256(|s|)
  {
    if s == [] then 0 else 256 * BeValue(s[..|s| - 1]) + s[|s| - 1] as nat
  }

  /** The low `n` bytes of `v`, least significant first (higher bytes are dropped). */
  function LeBytes(v: nat, n: nat): (r: seq<byte>)
    ensures |r| == n
  {
    if n == 0 then [] else [(v % 256) as byte] + LeBytes(v / 256, n - 1)
  }

  /** The low `n` bytes of `v`, most significant first (higher bytes are dropped). */
  function BeBytes(v: nat, n: nat): (r: seq<byte>)
    ensures |r| == n
  {
    if n == 0 then [] else BeBytes(v / 256, n - 1) + [(v % 256) as byte]
  }

  /** `s` back to front. */
  function Reversed<T>(s: seq<T>): (r: seq<T>)
    ensures |r| == |s|
    ensures forall i :: 0 <= i < |s| ==> r[i] == s[|s| - 1 - i]
  {
    seq(|s|, i requires 0 <= i < |s| => s[|s| - 1 - i])
  }

  /** `n` zero bytes, the contents of a freshly allocated `ArrayBuffer`. */
  function Zeros(n: nat): (r: seq<byte>)
    ensures |r| == n && forall i :: 0 <= i < n ==> r[i] == 0
  {
    seq(n, _ => 0)
  }

  /** A slice grown by one element at its end. */
  lemma SliceSnoc<T>(s: seq<T>, start: nat, n: nat)
    requires start + n < |s|
    ensures s[start..start + n + 1] == s[start..start + n] + [s[start + n]]
  {
  }

  // ---------------------------------------------------------------------------
  // Arithmetic facts used by the codec proofs
  // ---------------------------------------------------------------------------

  lemma DivModUnique(v: int, d: int, q: int, m: int)
    requires d > 0 && v == d * q + m && 0 <= m < d
    ensures v / d == q && v % d == m
  {
    var q', m' := v / d, v % d;
    assert d * (q - q') == m' - m;
    if q - q' >= 1 {
      MulAtLeast(d, q - q');
    } else if q' - q >= 1 {
      MulAtLeast(d, q' - q);
    }
  }

  lemma MulAtLeast(d: int, k: int)
    requires d > 0 && k >= 1
    ensures d * k >= d
  {
    assert d * k == d + d * (k - 1);
  }

  /** Splitting a remainder modulo 256·b into the low byte and the rest. */
  lemma ModSplit(v: nat, b: nat)
    requires b > 0
    ensures v % (256 * b) == v % 256 + 256 * ((v / 256) % b)
    ensures v / (256 * b) == (v / 256) / b
  {
    var q, r := v / 256, v % 256;
    var q1, r1 := q / b, q % b;
    assert v == 256 * q + r;
    assert q == b * q1 + r1;
    assert v == (256 * b) * q1 + (256 * r1 + r);
    assert 0 <= 256 * r1 + r < 256 * b;
    DivModUnique(v, 256 * b, q1, 256 * r1 + r);
  }

  lemma Pow256Add(a: nat, b: nat)
    ensures Pow256(a + b) == Pow256(a) * Pow256(b)
    decreases a
  {
    if a > 0 {
      Pow256Add(a - 1, b);
    }
  }

  // ---------------------------------------------------------------------------
  // Round trips and byte positions
  // ---------------------------------------------------------------------------

  /** Writing the low `n` bytes of `v` and reading them back gives `v mod 256^n`. */
  lemma {:induction false} LeBytesRoundTrip(v: nat, n: nat)
    ensures LeValue(LeBytes(v, n)) == v % Pow256(n)
  {
    if n > 0 {
      var s := LeBytes(v, n);
      assert s[1..] == LeBytes(v / 256, n - 1);
      LeBytesRoundTrip(v / 256, n - 1);
      ModSplit(v, Pow256(n - 1));
    }
  }

  /** Byte `k` of the little-endian layout is `(v div 256^k) mod 256`. */
  lemma {:induction false} LeBytesAt(v: nat, n: nat, k: nat)
    requires k < n
    ensures LeBytes(v, n)[k] as int == (v / Pow256(k)) % 256
  {
    if k > 0 {
      LeBytesAt(v / 256, n - 1, k - 1);
      ModSplit(v, Pow256(k - 1));
    }
  }

  /** The big-endian layout is the little-endian one back to front. */
  lemma {:induction false} BeBytesIsReversedLe(v: nat, n: nat)
    ensures BeBytes(v, n) == Reversed(LeBytes(v, n))
  {
    if n > 0 {
      BeBytesIsReversedLe(v / 256, n - 1);
      var be, le := BeBytes(v, n), LeBytes(v, n);
      assert le[1..] == LeBytes(v / 256, n - 1);
      forall i | 0 <= i < n
        ensures be[i] == Reversed(le)[i]
      {
        if i < n - 1 {
          assert be[i] == BeBytes(v / 256, n - 1)[i];
        }
      }
    }
  }

  /** Reading most significant byte first is reading the reversed bytes least significant first. */
  lemma {:induction false} BeValueIsReversedLe(s: seq<byte>)
    ensures BeValue(s) == LeValue(Reversed(s))
    decreases |s|
  {
    if s != [] {
      var init := s[..|s| - 1];
      BeValueIsReversedLe(init);
      assert Reversed(s)[1..] == Reversed(init);
    }
  }

  /** Byte `k` of the big-endian layout is `(v div 256^(n-1-k)) mod 256`. */
  lemma BeBytesAt(v: nat, n: nat, k: nat)
    requires k < n
    ensures BeBytes(v, n)[k] as int == (v / Pow256(n - 1 - k)) % 256
  {
    BeBytesIsReversedLe(v, n);
    LeBytesAt(v, n, n - 1 - k);
  }

  lemma BeBytesRoundTrip(v: nat, n: nat)
    ensures BeValue(BeBytes(v, n)) == v % Pow256(n)
  {
    BeBytesIsReversedLe(v, n);
    BeValueIsReversedLe(BeBytes(v, n));
    assert Reversed(Reversed(LeBytes(v, n))) == LeBytes(v, n);
    LeBytesRoundTrip(v, n);
  }

  /** Reading `s` and laying the value out again gives back `s`. */
  lemma {:induction false} LeValueRoundTrip(s: seq<byte>)
    ensures LeBytes(LeValue(s), |s|) == s
  {
    if s != [] {
      LeValueRoundTrip(s[1..]);
      var v := LeValue(s);
      DivModUnique(v, 256, LeValue(s[1..]), s[0] as int);
    }
  }

  lemma BeValueRoundTrip(s: seq<byte>)
    ensures BeBytes(BeValue(s), |s|) == s
  {
    BeValueIsReversedLe(s);
    LeValueRoundTrip(Reversed(s));
    BeBytesIsReversedLe(BeValue(s), |s|);
    assert Reversed(Reversed(s)) == s;
  }

  /** Dividing by `a` then by `b` is dividing by `a·b`. */
  lemma DivDiv(v: nat, a: nat, b: nat)
    requires a > 0 && b > 0
    ensures (v / a) / b == v / (a * b)
  {
    var q1, r1 := v / a, v % a;
    var q2, r2 := q1 / b, q1 % b;
    assert v == a * q1 + r1;
    assert q1 == b * q2 + r2;
    Distribute(a, b * q2, r2);
    assert a * (b * q2) == (a * b) * q2;
    MulBelow(a, r2, b);
    DivModUnique(v, a * b, q2, a * r2 + r1);
  }

  lemma Distribute(a: int, x: int, y: int)
    ensures a * (x + y) == a * x + a * y
  {
  }

  /** With `r < b`: `a·r + a <= a·b`. */
  lemma MulBelow(a: nat, r: nat, b: nat)
    requires r < b
    ensures a * r + a <= a * b
  {
    Distribute(a, r, b - r - 1);
    assert a * (b - r - 1) >= 0;
    Distribute(a, r + 1, b - r - 1);
  }

  /** Shifting right by 8 bits once more: digit `n + 1` of `v`. */
  lemma NextDigit(v: nat, n: nat)
    ensures (v / Pow256(n)) / 256 == v / Pow256(n + 1)
  {
    DivDiv(v, Pow256(n), 256);
  }

  /** `v` after `n` steps of `v >>= 8`. */
  function ShiftedOut(v: nat, n: nat): nat
  {
    if n == 0 then v else ShiftedOut(v, n - 1) / 256
  }

  /** Shifting out `n` bytes divides by `256^n`. */
  lemma {:induction false} ShiftedOutIsQuotient(v: nat, n: nat)
    ensures ShiftedOut(v, n) == v / Pow256(n)
  {
    if n > 0 {
      ShiftedOutIsQuotient(v, n - 1);
      NextDigit(v, n - 1);
    }
  }

  /**
   * After `n` shifts the low byte of the value is the byte the big-endian
   * layout of `n + 1` bytes puts in front of the layout of `n` bytes.
   */
  lemma BeDigit(value: nat, n: nat, v: nat)
    requires v == ShiftedOut(value, n)
    ensures BeBytes(value, n + 1) == [(v % 256) as byte] + BeBytes(value, n)
  {
    ShiftedOutIsQuotient(value, n);
    BeBytesCons(value, n);
  }

  /** After `n` shifts the low byte of the value is byte `n` of the little-endian layout. */
  lemma LeDigit(value: nat, n: nat, v: nat)
    requires v == ShiftedOut(value, n)
    ensures LeBytes(value, n + 1) == LeBytes(value, n) + [(v % 256) as byte]
  {
    ShiftedOutIsQuotient(value, n);
    LeBytesSnoc(value, n);
  }

  /** The layout of one more byte adds the next digit at the high end. */
  lemma LeBytesSnoc(v: nat, n: nat)
    ensures LeBytes(v, n + 1) == LeBytes(v, n) + [((v / Pow256(n)) % 256) as byte]
  {
    var l, r := LeBytes(v, n + 1), LeBytes(v, n) + [((v / Pow256(n)) % 256) as byte];
    forall k | 0 <= k < n + 1
      ensures l[k] == r[k]
    {
      LeBytesAt(v, n + 1, k);
      if k < n {
        LeBytesAt(v, n, k);
      }
    }
  }

  /** The big-endian layout of one more byte puts the next digit in front. */
  lemma BeBytesCons(v: nat, n: nat)
    ensures BeBytes(v, n + 1) == [((v / Pow256(n)) % 256) as byte] + BeBytes(v, n)
  {
    var l, r := BeBytes(v, n + 1), [((v / Pow256(n)) % 256) as byte] + BeBytes(v, n);
    forall k | 0 <= k < n + 1
      ensures l[k] == r[k]
    {
      BeBytesAt(v, n + 1, k);
      if k > 0 {
        BeBytesAt(v, n, k - 1);
      }
    }
  }
}
