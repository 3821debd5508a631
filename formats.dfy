/** `truncateString` of `src/main/formats.ts`. */
module Formats {

  /** The index `String.prototype.slice` uses for a bound `k`: from the end when negative, clamped to `[0, n]`. */
  function SliceIndex(k: int, n: nat): (r: nat)
    ensures r <= n
  {
    if k < 0 then (if n + k < 0 then 0 else n + k) else if k > n then n else k
  }

  /**
   * `s.slice(0, end)`: always a prefix of `s`; the first `end` characters
   * when `end` is within the string, all of it past the end, and for a
   * negative `end` the string without its last `-end` characters (empty
   * once that is all of them).
   */
  function SliceTo(s: string, end: int): (r: string)
    ensures r <= s
    ensures 0 <= end <= |s| ==> |r| == end
    ensures end >= |s| ==> r == s
    ensures end < 0 && -end <= |s| ==> r == s[..|s| + end]
    ensures end < 0 && -end >= |s| ==> r == []
  {
    s[..SliceIndex(end, |s|)]
  }

  /**
   * `truncateString(str, len)`: `str` when it fits in `len`, else its
   * `slice(0, len)` and `...`. A cut string is a prefix of `str` followed
   * by `...`, `len + 3` characters for a non-negative `len`.
   */
  function TruncateString(str: string, len: int): (r: string)
    ensures |str| <= len ==> r == str
    ensures |str| > len ==> |r| >= 3 && r[|r| - 3..] == "..." && r[..|r| - 3] <= str
    ensures |str| > len >= 0 ==> |r| == len + 3
  {
    if |str| <= len then str
    else
      var cut := SliceTo(str, len);
      assert (cut + "...")[..|cut|] == cut;
      cut + "..."
  }

  /**
   * A string that fits is returned as it is; otherwise the result is its
   * first `len` characters followed by `...`, `len + 3` characters in all.
   */
  lemma TruncateShape(str: string, len: nat)
    ensures |str| <= len ==> TruncateString(str, len) == str
    ensures |str| > len ==> TruncateString(str, len) == str[..len] + "..."
    ensures |TruncateString(str, len)| == if |str| <= len then |str| else len + 3
  {
  }

  /** The result begins with the first `min(len, |str|)` characters of `str`. */
  lemma TruncatePrefix(str: string, len: nat)
    ensures var m := if len < |str| then len else |str|;
            |TruncateString(str, len)| >= m && TruncateString(str, len)[..m] == str[..m]
  {
  }

  /** Truncating a truncated string again with the same non-negative `len` changes nothing. */
  lemma TruncateIdempotent(str: string, len: nat)
    ensures TruncateString(TruncateString(str, len), len) == TruncateString(str, len)
  {
    if |str| > len {
      var r := TruncateString(str, len);
      assert r == str[..len] + "...";
      assert r[..len] == str[..len];
    }
  }

  /**
   * With a negative `len` the cut counts from the end of the string, so
   * truncating again cuts the `...` instead: `"abcdef"` with `-2` gives
   * `"abcd..."`, and that again gives `"abcd...."`.
   */
  lemma TruncateNegativeNotIdempotent()
    ensures TruncateString("abcdef", -2) == "abcd..."
    ensures TruncateString(TruncateString("abcdef", -2), -2) == "abcd...."
    ensures TruncateString(TruncateString("abcdef", -2), -2) != TruncateString("abcdef", -2)
  {
    assert SliceTo("abcdef", -2) == "abcd";
    assert SliceTo("abcd...", -2) == "abcd.";
  }
}
