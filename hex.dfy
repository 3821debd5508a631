/**
 * Hexadecimal text and bytes. Decoding follows the buffer's own arithmetic on
 * character codes (lower-case by `| 0x20`, subtract 87 or 48, combine two
 * nibbles with `<< 4 |`, keep the low 8 bits), so it is defined for every
 * string; encoding is the host's upper-cased `toString("hex")`.
 */
module Hex {
  import opened Bytes

  /** `s` starts with the `0x` prefix (lower-case `x` only, as `startsWith("0x")`). */
  predicate HasPrefix0x(s: string)
  {
    |s| >= 2 && s[0] == '0' && s[1] == 'x'
  }

  /** `s` without a leading `0x`. */
  function Strip0x(s: string): (r: string)
    ensures HasPrefix0x(s) ==> r == s[2..]
    ensures !HasPrefix0x(s) ==> r == s
  {
    if HasPrefix0x(s) then s[2..] else s
  }

  /**
   * `value.charCodeAt(i)` as the later integer operations see it: past the end
   * it is `NaN`, which they treat as 0.
   */
  function CodeAt(s: string, i: int): nat
  {
    if 0 <= i < |s| then s[i] as nat else 0
  }

  /** `c | 0x20` for a non-negative character code: sets bit 5 (ASCII upper case to lower case). */
  function LowerCode(c: nat): nat
  {
    if c % 64 >= 32 then c else c + 32
  }

  /** `c - (c > 57 ? 87 : 48)` applied to the lowered code: the nibble the decoder derives from one character. */
  function Nibble(code: nat): int
  {
    var l := LowerCode(code);
    l - (if l > 57 then 87 else 48)
  }

  /** `((hi << 4) | lo)` stored into a `Uint8Array` cell, which keeps the low 8 bits. */
  function PairByte(hi: nat, lo: nat): byte
  {
    ((((Nibble(hi) % 256) as bv8) << 4) | ((Nibble(lo) % 256) as bv8)) as byte
  }

  /**
   * The `n` bytes `writeHexString` produces from the (unprefixed) text `v`.
   * Where both characters of pair `i` are hexadecimal digits, byte `i` is
   * their value `16·d(v[2i]) + d(v[2i+1])`, whatever their case.
   */
  function DecodePairs(v: string, n: nat): (r: seq<byte>)
    ensures |r| == n
    ensures forall i :: 0 <= i < n && 2 * i + 1 < |v| && IsHexDigit(v[2 * i]) && IsHexDigit(v[2 * i + 1]) ==>
              r[i] as int == 16 * DigitValue(v[2 * i]) + DigitValue(v[2 * i + 1])
  {
    var r := seq(n, i requires 0 <= i < n => PairByte(CodeAt(v, 2 * i), CodeAt(v, 2 * i + 1)));
    assert forall i :: 0 <= i < n && 2 * i + 1 < |v| && IsHexDigit(v[2 * i]) && IsHexDigit(v[2 * i + 1]) ==>
             r[i] as int == 16 * DigitValue(v[2 * i]) + DigitValue(v[2 * i + 1]) by {
      forall i | 0 <= i < n && 2 * i + 1 < |v| && IsHexDigit(v[2 * i]) && IsHexDigit(v[2 * i + 1])
        ensures r[i] as int == 16 * DigitValue(v[2 * i]) + DigitValue(v[2 * i + 1])
      {
        PairByteOfDigits(v[2 * i], v[2 * i + 1]);
      }
    }
    r
  }

  // ---------------------------------------------------------------------------
  // Reference reading of hexadecimal digits
  // ---------------------------------------------------------------------------

  predicate IsHexDigit(c: char)
  {
    '0' <= c <= '9' || 'a' <= c <= 'f' || 'A' <= c <= 'F'
  }

  /** A non-empty, even-length string of hexadecimal digits. */
  predicate IsHexText(s: string)
  {
    |s| > 0 && |s| % 2 == 0 && forall i :: 0 <= i < |s| ==> IsHexDigit(s[i])
  }

  function DigitValue(c: char): (r: nat)
    requires IsHexDigit(c)
    ensures r < 16
  {
    if '0' <= c <= '9' then c as nat - '0' as nat
    else if 'a' <= c <= 'f' then c as nat - 'a' as nat + 10
    else c as nat - 'A' as nat + 10
  }

  /** A hexadecimal digit in upper case. */
  function Upper(c: char): char
  {
    if 'a' <= c <= 'f' then (c as int - 32) as char else c
  }

  function UpperText(s: string): (r: string)
    ensures |r| == |s| && forall i :: 0 <= i < |s| ==> r[i] == Upper(s[i])
  {
    seq(|s|, i requires 0 <= i < |s| => Upper(s[i]))
  }

  /** The decoder's nibble is the digit's value, whatever its case. */
  lemma NibbleOfDigit(c: char)
    requires IsHexDigit(c)
    ensures Nibble(c as nat) == DigitValue(c)
  {
  }

  lemma CombineNibbles(x: bv8, y: bv8)
    requires x < 16 && y < 16
    ensures ((x << 4) | y) as int == 16 * (x as int) + y as int
  {
  }

  lemma CombineSmall(a: nat, b: nat)
    requires a < 16 && b < 16
    ensures ((((a % 256) as bv8) << 4) | ((b % 256) as bv8)) as byte as int == 16 * a + b
  {
    assert a % 256 == a && b % 256 == b;
    var x, y := a as bv8, b as bv8;
    CombineNibbles(x, y);
    assert x as int == a && y as int == b;
  }

  /** Two hexadecimal digits decode to `16·d(hi) + d(lo)`. */
  lemma PairByteOfDigits(hi: char, lo: char)
    requires IsHexDigit(hi) && IsHexDigit(lo)
    ensures PairByte(hi as nat, lo as nat) as int == 16 * DigitValue(hi) + DigitValue(lo)
  {
    var a, b := DigitValue(hi), DigitValue(lo);
    NibbleOfDigit(hi);
    NibbleOfDigit(lo);
    assert PairByte(hi as nat, lo as nat) == ((((a % 256) as bv8) << 4) | ((b % 256) as bv8)) as byte;
    CombineSmall(a, b);
  }

  // ---------------------------------------------------------------------------
  // Encoding
  // ---------------------------------------------------------------------------

  /** The upper-case digit for `n`. */
  function HexChar(n: nat): (c: char)
    requires n < 16
    ensures IsHexDigit(c) && DigitValue(c) == n && Upper(c) == c
  {
    if n < 10 then ('0' as int + n) as char else ('A' as int + n - 10) as char
  }

  /** `Buffer.toString("hex").toUpperCase()`: two upper-case digits per byte, high nibble first. */
  function ToHex(s: seq<byte>): (r: string)
    ensures |r| == 2 * |s|
  {
    seq(2 * |s|, j requires 0 <= j < 2 * |s| =>
      if j % 2 == 0 then HexChar(s[j / 2] as nat / 16) else HexChar(s[j / 2] as nat % 16))
  }

  /** `match(/.{2}/g).reverse().join("")`: the two-character groups of `h` in reverse order. */
  function ReversePairs(h: string): (r: string)
    requires |h| % 2 == 0
    ensures |r| == |h|
  {
    if h == [] then [] else ReversePairs(h[2..]) + h[..2]
  }

  lemma HexCharOfDigit(c: char)
    requires IsHexDigit(c)
    ensures HexChar(DigitValue(c)) == Upper(c)
  {
  }

  /** Encoding what a hexadecimal text decodes to gives the text back, upper-cased. */
  lemma EncodeDecodedHex(s: string)
    requires IsHexText(s)
    ensures ToHex(DecodePairs(s, |s| / 2)) == UpperText(s)
  {
    var h := ToHex(DecodePairs(s, |s| / 2));
    forall j | 0 <= j < |s|
      ensures h[j] == Upper(s[j])
    {
      var i := j / 2;
      EncodeDecodedHexAt(s, i);
      if j % 2 == 0 {
        assert j == 2 * i;
      } else {
        assert j == 2 * i + 1;
      }
    }
  }

  lemma EncodeDecodedHexAt(s: string, i: nat)
    requires IsHexText(s) && i < |s| / 2
    ensures ToHex(DecodePairs(s, |s| / 2))[2 * i] == Upper(s[2 * i])
    ensures ToHex(DecodePairs(s, |s| / 2))[2 * i + 1] == Upper(s[2 * i + 1])
  {
    var hi, lo := s[2 * i], s[2 * i + 1];
    var d := DecodePairs(s, |s| / 2);
    ToHexPair(d, i);
    assert d[i] == PairByte(hi as nat, lo as nat);
    PairByteOfDigits(hi, lo);
    HexOfPair(d[i] as int, hi, lo);
  }

  /** The digits of `16·d(hi) + d(lo)` are `hi` and `lo`, upper-cased. */
  lemma HexOfPair(v: int, hi: char, lo: char)
    requires IsHexDigit(hi) && IsHexDigit(lo)
    requires v == 16 * DigitValue(hi) + DigitValue(lo)
    ensures HexChar(v / 16) == Upper(hi) && HexChar(v % 16) == Upper(lo)
  {
    DivModUnique(v, 16, DigitValue(hi), DigitValue(lo));
    HexCharOfDigit(hi);
    HexCharOfDigit(lo);
  }

  /** Decoding the encoding of any bytes gives the bytes back. */
  lemma DecodeEncodedHex(s: seq<byte>)
    ensures DecodePairs(ToHex(s), |s|) == s
  {
    var d := DecodePairs(ToHex(s), |s|);
    forall i | 0 <= i < |s|
      ensures d[i] == s[i]
    {
      DecodeEncodedHexAt(s, i);
    }
  }

  lemma DecodeEncodedHexAt(s: seq<byte>, i: nat)
    requires i < |s|
    ensures DecodePairs(ToHex(s), |s|)[i] == s[i]
  {
    var h := ToHex(s);
    var v := s[i] as nat;
    var hi, lo := HexChar(v / 16), HexChar(v % 16);
    ToHexPair(s, i);
    assert h[2 * i] == hi && h[2 * i + 1] == lo;
    assert DecodePairs(h, |s|)[i] == PairByte(hi as nat, lo as nat);
    PairByteOfDigits(hi, lo);
  }

  /** The two characters of byte `k` in an encoding: its high digit, then its low digit. */
  lemma ToHexPair(s: seq<byte>, k: nat)
    requires k < |s|
    ensures ToHex(s)[2 * k] == HexChar(s[k] as nat / 16)
    ensures ToHex(s)[2 * k + 1] == HexChar(s[k] as nat % 16)
  {
    DivModUnique(2 * k, 2, k, 0);
    DivModUnique(2 * k + 1, 2, k, 1);
  }

  /** Reversing the digit pairs of an encoding is encoding the reversed bytes. */
  lemma ReversePairsOfHex(s: seq<byte>)
    ensures ReversePairs(ToHex(s)) == ToHex(Reversed(s))
  {
    var l, r := ReversePairs(ToHex(s)), ToHex(Reversed(s));
    forall j | 0 <= j < |l|
      ensures l[j] == r[j]
    {
      var k, m := j / 2, j % 2;
      assert j == 2 * k + m;
      ReversePairsOfHexPair(s, k);
    }
  }

  lemma ReversePairsOfHexPair(s: seq<byte>, k: nat)
    requires k < |s|
    ensures ReversePairs(ToHex(s))[2 * k] == ToHex(Reversed(s))[2 * k]
    ensures ReversePairs(ToHex(s))[2 * k + 1] == ToHex(Reversed(s))[2 * k + 1]
  {
    var n := |s|;
    var h := ToHex(s);
    ReversePairsPair(h, k);
    ToHexPair(s, n - 1 - k);
    ToHexPair(Reversed(s), k);
    assert Reversed(s)[k] == s[n - 1 - k];
  }

  /** Pair `k` of the reversed pairs is pair `k` counted from the end. */
  lemma {:induction false} ReversePairsPair(h: string, k: nat)
    requires |h| % 2 == 0 && 2 * k < |h|
    ensures ReversePairs(h)[2 * k] == h[|h| - 2 - 2 * k]
    ensures ReversePairs(h)[2 * k + 1] == h[|h| - 1 - 2 * k]
    decreases |h|
  {
    assert ReversePairs(h) == ReversePairs(h[2..]) + h[..2];
    if 2 * k < |h| - 2 {
      ReversePairsPair(h[2..], k);
    }
  }
}
