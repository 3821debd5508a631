/**
 * What the buffer's operations do to the bytes of its view, as functions on
 * `seq<byte>`. A cell index outside the view reads as `undefined` (stored as
 * 0 when written back into a cell), and a write outside the view is ignored,
 * as for any typed array; `At` and `Put` capture those two rules and every
 * specification below is stated in their terms.
 */
module Views {
  import opened Bytes
  import opened Hex

  // ---------------------------------------------------------------------------
  // Cells
  // ---------------------------------------------------------------------------

  /** Cell `q` of the view as a value that is stored again: 0 outside the view. */
  function At(s: seq<byte>, q: int): byte
  {
    if 0 <= q < |s| then s[q] else 0
  }

  /** `s` after storing `b` into cell `q`; ignored outside the view. */
  function Put(s: seq<byte>, q: int, b: byte): (r: seq<byte>)
    ensures |r| == |s|
    ensures forall k :: 0 <= k < |s| ==> r[k] == if k == q then b else s[k]
  {
    if 0 <= q < |s| then s[q := b] else s
  }

  /** Cell `k` after a single store. */
  lemma PutAt(s: seq<byte>, q: int, b: byte, k: nat)
    requires k < |s|
    ensures Put(s, q, b)[k] == if k == q then b else s[k]
  {
  }

  /** `s` after storing `part` cell by cell from `at`; cells outside the view are ignored. */
  function PutAll(s: seq<byte>, at: int, part: seq<byte>): (r: seq<byte>)
    ensures |r| == |s|
    ensures forall k :: 0 <= k < |s| ==> r[k] == if at <= k < at + |part| then part[k - at] else s[k]
  {
    seq(|s|, k requires 0 <= k < |s| => if at <= k < at + |part| then part[k - at] else s[k])
  }

  /** Cell `k` after a run of stores. */
  lemma PutAllAt(s: seq<byte>, at: int, part: seq<byte>, k: nat)
    requires k < |s|
    ensures PutAll(s, at, part)[k] == if at <= k < at + |part| then part[k - at] else s[k]
  {
  }

  /** Inside the view, `PutAll` is an exact splice. */
  lemma PutAllInside(s: seq<byte>, at: nat, part: seq<byte>)
    requires at + |part| <= |s|
    ensures PutAll(s, at, part) == s[..at] + part + s[at + |part|..]
    ensures PutAll(s, at, part)[at..at + |part|] == part
  {
    var r, t := PutAll(s, at, part), s[..at] + part + s[at + |part|..];
    assert |r| == |t|;
    forall k | 0 <= k < |r|
      ensures r[k] == t[k]
    {
      if k < at {
      } else if k < at + |part| {
        assert t[k] == part[k - at];
      } else {
        assert t[k] == s[k];
      }
    }
  }

  /** Storing a run from one cell earlier is storing the rest, then the first cell. */
  lemma PutAllCons(s: seq<byte>, at: int, part: seq<byte>, b: byte)
    ensures PutAll(s, at - 1, [b] + part) == Put(PutAll(s, at, part), at - 1, b)
  {
    var l, r := PutAll(s, at - 1, [b] + part), Put(PutAll(s, at, part), at - 1, b);
    forall k | 0 <= k < |s|
      ensures l[k] == r[k]
    {
      if at <= k < at + |part| {
        assert ([b] + part)[k - (at - 1)] == part[k - at];
      }
    }
  }

  /** Storing one more cell extends a run of stores by one. */
  lemma PutAllSnoc(s: seq<byte>, at: int, part: seq<byte>, b: byte)
    ensures PutAll(s, at, part + [b]) == Put(PutAll(s, at, part), at + |part|, b)
  {
    var l, r := PutAll(s, at, part + [b]), Put(PutAll(s, at, part), at + |part|, b);
    forall k | 0 <= k < |s|
      ensures l[k] == r[k]
    {
    }
  }

  /** `n` copies of `v`. */
  function Repeat(v: byte, n: nat): (r: seq<byte>)
    ensures |r| == n && forall i :: 0 <= i < n ==> r[i] == v
  {
    seq(n, _ => v)
  }

  // ---------------------------------------------------------------------------
  // Words and their byte layouts
  // ---------------------------------------------------------------------------

  /** The `w` bytes of `v` most (`bigEndian`) or least significant byte first. */
  function WordBytes(v: nat, w: nat, bigEndian: bool): (r: seq<byte>)
    ensures |r| == w
  {
    if bigEndian then BeBytes(v, w) else LeBytes(v, w)
  }

  /** The value of `s` read most (`bigEndian`) or least significant byte first. */
  function WordValue(s: seq<byte>, bigEndian: bool): (r: nat)
    ensures r < Pow256(|s|)
  {
    if bigEndian then BeValue(s) else LeValue(s)
  }

  /** A word that fits in `w` bytes is read back from its layout unchanged, in either order. */
  lemma WordRoundTrip(v: nat, w: nat, bigEndian: bool)
    requires v < Pow256(w)
    ensures WordValue(WordBytes(v, w, bigEndian), bigEndian) == v
  {
    DivModUnique(v, Pow256(w), 0, v);
    if bigEndian {
      BeBytesRoundTrip(v, w);
    } else {
      LeBytesRoundTrip(v, w);
    }
  }

  /** Byte `k` of the layout of `v`: the digit `(v div 256^e) mod 256` of the matching weight `e`. */
  lemma WordBytesAt(v: nat, w: nat, bigEndian: bool, k: nat)
    requires k < w
    ensures WordBytes(v, w, bigEndian)[k] as int == (v / Pow256(if bigEndian then w - 1 - k else k)) % 256
  {
    if bigEndian {
      BeBytesAt(v, w, k);
    } else {
      LeBytesAt(v, w, k);
    }
  }

  /** The cells of a 16-bit word as the source computes them: `v & 0xff` and `(v >> 8) & 0xff`. */
  lemma WordCells16(v: nat, bigEndian: bool)
    ensures WordBytes(v, 2, bigEndian)
         == if bigEndian then [((v / 0x100) % 256) as byte, (v % 256) as byte]
            else [(v % 256) as byte, ((v / 0x100) % 256) as byte]
  {
    WordBytesAt(v, 2, bigEndian, 0);
    WordBytesAt(v, 2, bigEndian, 1);
    assert Pow256(1) == 0x100;
  }

  /** The cells of a 32-bit word as the source computes them, one shift by 0, 8, 16 or 24 each. */
  lemma WordCells32(v: nat, bigEndian: bool)
    ensures WordBytes(v, 4, bigEndian)
         == if bigEndian then [((v / 0x100_0000) % 256) as byte, ((v / 0x1_0000) % 256) as byte, ((v / 0x100) % 256) as byte, (v % 256) as byte]
            else [(v % 256) as byte, ((v / 0x100) % 256) as byte, ((v / 0x1_0000) % 256) as byte, ((v / 0x100_0000) % 256) as byte]
  {
    WordBytesAt(v, 4, bigEndian, 0);
    WordBytesAt(v, 4, bigEndian, 1);
    WordBytesAt(v, 4, bigEndian, 2);
    WordBytesAt(v, 4, bigEndian, 3);
    assert Pow256(1) == 0x100 && Pow256(2) == 0x1_0000 && Pow256(3) == 0x100_0000;
  }

  /** A 16-bit read as the source combines it: `a | b << 8` (little-endian) or `a << 8 | b`. */
  lemma WordValue16(s: seq<byte>, bigEndian: bool)
    requires |s| == 2
    ensures WordValue(s, bigEndian)
         == if bigEndian then 0x100 * s[0] as int + s[1] as int else s[0] as int + 0x100 * s[1] as int
  {
    if bigEndian {
      var t := s[..1];
      assert t[..0] == [];
      assert BeValue(t) == s[0] as nat;
      assert BeValue(s) == 256 * BeValue(t) + s[1] as nat;
    } else {
      var t := s[1..];
      assert t[1..] == [];
      assert LeValue(t) == t[0] as nat;
      assert LeValue(s) == s[0] as nat + 256 * LeValue(t);
    }
  }

  /** A 32-bit read as the source combines it, one shift by 0, 8, 16 or 24 per cell. */
  lemma WordValue32(s: seq<byte>, bigEndian: bool)
    requires |s| == 4
    ensures WordValue(s, bigEndian)
         == if bigEndian then 0x100_0000 * s[0] as int + 0x1_0000 * s[1] as int + 0x100 * s[2] as int + s[3] as int
            else s[0] as int + 0x100 * s[1] as int + 0x1_0000 * s[2] as int + 0x100_0000 * s[3] as int
  {
    if bigEndian {
      var t3 := s[..3];
      var t2 := t3[..2];
      var t1 := t2[..1];
      assert t1[..0] == [];
      assert BeValue(t1) == s[0] as nat;
      assert BeValue(t2) == 256 * BeValue(t1) + s[1] as nat;
      assert BeValue(t3) == 256 * BeValue(t2) + s[2] as nat;
      assert BeValue(s) == 256 * BeValue(t3) + s[3] as nat;
    } else {
      var t1 := s[1..];
      var t2 := t1[1..];
      var t3 := t2[1..];
      assert t3[1..] == [];
      assert LeValue(t3) == s[3] as nat;
      assert LeValue(t2) == s[2] as nat + 256 * LeValue(t3);
      assert LeValue(t1) == s[1] as nat + 256 * LeValue(t2);
      assert LeValue(s) == s[0] as nat + 256 * LeValue(t1);
    }
  }

  /** The stores of a run of cells, one by one, from none. */
  lemma PutAllEmpty(s: seq<byte>, at: int)
    ensures PutAll(s, at, []) == s
  {
  }

  /** Two single-cell stores in a row are one run of two. */
  lemma PutCells2(s: seq<byte>, at: int, a: byte, b: byte)
    ensures Put(Put(s, at, a), at + 1, b) == PutAll(s, at, [a, b])
  {
    PutAllEmpty(s, at);
    PutAllSnoc(s, at, [], a);
    assert [] + [a] == [a];
    PutAllSnoc(s, at, [a], b);
    assert [a] + [b] == [a, b];
  }

  /** Four single-cell stores in a row are one run of four. */
  lemma PutCells4(s: seq<byte>, at: int, a: byte, b: byte, c: byte, d: byte)
    ensures Put(Put(Put(Put(s, at, a), at + 1, b), at + 2, c), at + 3, d) == PutAll(s, at, [a, b, c, d])
  {
    PutCells2(s, at, a, b);
    PutAllSnoc(s, at, [a, b], c);
    assert [a, b] + [c] == [a, b, c];
    PutAllSnoc(s, at, [a, b, c], d);
    assert [a, b, c] + [d] == [a, b, c, d];
  }

  /** A word written into the view is read back unchanged, in either order. */
  lemma WordWriteRead(s: seq<byte>, at: nat, v: nat, w: nat, bigEndian: bool)
    requires at + w <= |s| && v < Pow256(w)
    ensures WordValue(PutAll(s, at, WordBytes(v, w, bigEndian))[at..at + w], bigEndian) == v
  {
    PutAllInside(s, at, WordBytes(v, w, bigEndian));
    WordRoundTrip(v, w, bigEndian);
  }

  // ---------------------------------------------------------------------------
  // Integer division facts for word-by-word loops
  // ---------------------------------------------------------------------------

  lemma DivRange(d: int, w: int, k: int)
    requires d >= 0 && w > 0
    ensures d / w == k <==> w * k <= d < w * k + w
    ensures d / w < k <==> d < w * k
  {
    var q := d / w;
    assert d == w * q + d % w;
    if w * k <= d < w * k + w {
      DivModUnique(d, w, k, d - w * k);
    }
    if q < k {
      MulAtLeast(w, k - q);
      assert w * k == w * q + w * (k - q);
    } else {
      assert w * q == w * k + w * (q - k);
    }
  }

  lemma MulDiv(w: int, k: int, t: int)
    requires w > 0 && 0 <= t < w
    ensures (w * k + t) / w == k && (w * k + t) % w == t
  {
    DivModUnique(w * k + t, w, k, t);
  }

  // ---------------------------------------------------------------------------
  // Copying typed arrays in
  // ---------------------------------------------------------------------------

  /** Element `i` of a `Uint8Array`, 0 when missing (`undefined` stored into a cell). */
  function ElemByte(a: seq<byte>, i: int): byte
  {
    if 0 <= i < |a| then a[i] else 0
  }

  /**
   * `writeUint8Array(a, offset, limit, arrayOffset)` after its loop has run up
   * to (not including) `limit`: element `i` of `a` lands in cell
   * `offset - arrayOffset + i`, for every `i` from `arrayOffset`.
   */
  function CopiedIn(s: seq<byte>, a: seq<byte>, offset: int, arrayOffset: int, limit: int): (r: seq<byte>)
    ensures |r| == |s|
  {
    seq(|s|, q requires 0 <= q < |s| =>
      if offset <= q && arrayOffset + (q - offset) < limit then ElemByte(a, arrayOffset + (q - offset)) else s[q])
  }

  /** One more iteration of the copy loop is one more cell store. */
  lemma CopiedInStep(s: seq<byte>, a: seq<byte>, offset: int, arrayOffset: int, i: int)
    requires arrayOffset <= i
    ensures CopiedIn(s, a, offset, arrayOffset, i + 1)
         == Put(CopiedIn(s, a, offset, arrayOffset, i), offset - arrayOffset + i, ElemByte(a, i))
  {
  }

  /** A copy loop that has not run (or cannot run) has changed nothing. */
  lemma CopiedInNone(s: seq<byte>, a: seq<byte>, offset: int, arrayOffset: int, limit: int)
    requires limit <= arrayOffset
    ensures CopiedIn(s, a, offset, arrayOffset, limit) == s
  {
    var r := CopiedIn(s, a, offset, arrayOffset, limit);
    forall q | 0 <= q < |s|
      ensures r[q] == s[q]
    {
    }
  }

  /** Copying all of `a` to cell `offset` with no array offset splices `a` in. */
  lemma CopiedInWhole(s: seq<byte>, a: seq<byte>, offset: nat)
    requires offset + |a| <= |s|
    ensures CopiedIn(s, a, offset, 0, |a|) == PutAll(s, offset, a)
  {
    var l, r := CopiedIn(s, a, offset, 0, |a|), PutAll(s, offset, a);
    forall q | 0 <= q < |s|
      ensures l[q] == r[q]
    {
      PutAllAt(s, offset, a, q);
    }
  }

  /**
   * Element `i / w` of a 16- or 32-bit typed array, as `array[i / w]` reads it:
   * `undefined` (written as 0) when `i / w` is not an index of `a`.
   */
  function ElemWord(a: seq<nat>, i: int, w: nat): nat
    requires w > 0
  {
    if i % w == 0 && 0 <= i / w < |a| then a[i / w] else 0
  }

  /** One more step of `w` moves the loop index by `w`. */
  lemma MulSucc(w: int, k: int)
    ensures w * (k + 1) == w * k + w
  {
  }

  /** The number of iterations of `for (i = start; i < limit; i += w)`. */
  function StepCount(start: int, limit: int, w: nat): (n: nat)
    requires w > 0
  {
    if limit <= start then 0 else (limit - start - 1) / w + 1
  }

  /** When `start + w·k` is the first loop index at or past `limit`, the loop ran `k` times. */
  lemma StepCountExit(start: int, limit: int, w: nat, k: nat)
    requires w > 0
    requires start + w * k >= limit
    requires k == 0 || start + w * (k - 1) < limit
    ensures StepCount(start, limit, w) == k
  {
    if limit > start {
      var d := limit - start - 1;
      assert k > 0;
      DivRange(d, w, k - 1);
      assert w * (k - 1) + w == w * k;
    }
  }

  /**
   * `writeUint16Array` (`w` = 2) / `writeUint32Array` (`w` = 4) after `count`
   * iterations of their loop `i = arrayOffset + w·k`: word `k` is the layout
   * of `ElemWord(a, i, w)` stored from cell `offset + w·k`.
   */
  function WordsIn(s: seq<byte>, a: seq<nat>, w: nat, bigEndian: bool, offset: int, arrayOffset: int, count: nat): (r: seq<byte>)
    requires w > 0
    ensures |r| == |s|
  {
    seq(|s|, q requires 0 <= q < |s| =>
      if offset <= q && (q - offset) / w < count
      then WordBytes(ElemWord(a, arrayOffset + w * ((q - offset) / w), w), w, bigEndian)[(q - offset) % w]
      else s[q])
  }

  lemma WordsInStepAt(s: seq<byte>, a: seq<nat>, w: nat, bigEndian: bool, offset: int, arrayOffset: int, k: nat, q: nat)
    requires w > 0 && q < |s|
    ensures WordsIn(s, a, w, bigEndian, offset, arrayOffset, k + 1)[q]
         == PutAll(WordsIn(s, a, w, bigEndian, offset, arrayOffset, k),
                   offset + w * k, WordBytes(ElemWord(a, arrayOffset + w * k, w), w, bigEndian))[q]
  {
    var at := offset + w * k;
    var bytes := WordBytes(ElemWord(a, arrayOffset + w * k, w), w, bigEndian);
    var m := WordsIn(s, a, w, bigEndian, offset, arrayOffset, k);
    var l := WordsIn(s, a, w, bigEndian, offset, arrayOffset, k + 1);
    PutAllAt(m, at, bytes, q);
    MulSucc(w, k);
    if offset <= q {
      var d := q - offset;
      DivRange(d, w, k);
      DivRange(d, w, k + 1);
      if d / w == k {
        MulDiv(w, k, d - w * k);
        assert at <= q < at + w;
        assert l[q] == bytes[d % w];
        assert m[q] == s[q];
      } else {
        assert !(at <= q < at + w);
        assert l[q] == m[q];
      }
    } else {
      assert w * k >= 0;
      assert l[q] == s[q] && m[q] == s[q];
    }
  }

  /** Before the word loop's first iteration nothing has changed. */
  lemma WordsInNone(s: seq<byte>, a: seq<nat>, w: nat, bigEndian: bool, offset: int, arrayOffset: int)
    requires w > 0
    ensures WordsIn(s, a, w, bigEndian, offset, arrayOffset, 0) == s
  {
    var r := WordsIn(s, a, w, bigEndian, offset, arrayOffset, 0);
    forall q | 0 <= q < |s|
      ensures r[q] == s[q]
    {
      if offset <= q {
        DivRange(q - offset, w, 0);
      }
    }
  }

  /** One more iteration of a word-array loop stores one more word. */
  lemma WordsInStep(s: seq<byte>, a: seq<nat>, w: nat, bigEndian: bool, offset: int, arrayOffset: int, k: nat)
    requires w > 0
    ensures WordsIn(s, a, w, bigEndian, offset, arrayOffset, k + 1)
         == PutAll(WordsIn(s, a, w, bigEndian, offset, arrayOffset, k),
                   offset + w * k, WordBytes(ElemWord(a, arrayOffset + w * k, w), w, bigEndian))
  {
    var l := WordsIn(s, a, w, bigEndian, offset, arrayOffset, k + 1);
    var r := PutAll(WordsIn(s, a, w, bigEndian, offset, arrayOffset, k),
                    offset + w * k, WordBytes(ElemWord(a, arrayOffset + w * k, w), w, bigEndian));
    forall q | 0 <= q < |s|
      ensures l[q] == r[q]
    {
      WordsInStepAt(s, a, w, bigEndian, offset, arrayOffset, k, q);
    }
  }

  /** Word `i` of `n` words of `w` cells ends within the `w·n` cells. */
  lemma WordFits(w: nat, n: nat, i: nat)
    requires i < n
    ensures w * i + w <= w * n
  {
    assert w * n == w * i + w * (n - i);
    if w > 0 {
      MulAtLeast(w, n - i);
    }
  }

  lemma WordsInRoundTripAt(s: seq<byte>, a: seq<nat>, w: nat, bigEndian: bool, i: nat, t: nat)
    requires w > 0 && |s| == w * |a| && i < |a| && t < w
    requires w * i + w <= |s|
    ensures WordsIn(s, a, w, bigEndian, 0, 0, |a|)[w * i + t] == WordBytes(a[i], w, bigEndian)[t]
  {
    MulDiv(w, i, t);
    MulDiv(w, i, 0);
    assert ElemWord(a, w * i, w) == a[i];
  }

  /** A slice whose every cell is known is that sequence. */
  lemma SliceFrom(r: seq<byte>, at: nat, part: seq<byte>)
    requires at + |part| <= |r|
    requires forall t :: 0 <= t < |part| ==> r[at + t] == part[t]
    ensures r[at..at + |part|] == part
  {
    var slice := r[at..at + |part|];
    forall t | 0 <= t < |part|
      ensures slice[t] == part[t]
    {
      assert slice[t] == r[at + t];
    }
  }

  lemma WordsInSlice(s: seq<byte>, a: seq<nat>, w: nat, bigEndian: bool, i: nat)
    requires w > 0 && |s| == w * |a| && i < |a|
    requires w * i + w <= |s|
    ensures WordsIn(s, a, w, bigEndian, 0, 0, |a|)[w * i .. w * i + w] == WordBytes(a[i], w, bigEndian)
  {
    var r := WordsIn(s, a, w, bigEndian, 0, 0, |a|);
    var bytes := WordBytes(a[i], w, bigEndian);
    forall t | 0 <= t < w
      ensures r[w * i + t] == bytes[t]
    {
      WordsInRoundTripAt(s, a, w, bigEndian, i, t);
    }
    SliceFrom(r, w * i, bytes);
  }

  /**
   * Copying a whole word array over `w` cells per element and reading each
   * word back gives the array: cells `w·i .. w·i + w` hold element `i`.
   */
  lemma WordsInRoundTrip(s: seq<byte>, a: seq<nat>, w: nat, bigEndian: bool, i: nat)
    requires w > 0 && |s| == w * |a| && i < |a| && a[i] < Pow256(w)
    ensures w * i + w <= |s|
    ensures WordValue(WordsIn(s, a, w, bigEndian, 0, 0, |a|)[w * i .. w * i + w], bigEndian) == a[i]
  {
    WordFits(w, |a|, i);
    WordsInSlice(s, a, w, bigEndian, i);
    WordRoundTrip(a[i], w, bigEndian);
  }

  /** Word `i` of `a` is read back from the `w` cells from `w·i` of `c`, for every `i`. */
  predicate ReadsBack(c: seq<byte>, a: seq<nat>, w: nat, bigEndian: bool)
  {
    forall i :: 0 <= i < |a| ==> w * i + w <= |c| && WordValue(c[w * i..w * i + w], bigEndian) == a[i]
  }

  /**
   * A buffer of `w·|a|` cells written word by word from `a` from cell 0
   * reads every element back from its own `w` cells.
   */
  lemma WordsInReadBack(s: seq<byte>, a: seq<nat>, w: nat, bigEndian: bool)
    requires w > 0 && |s| == w * |a|
    requires forall i :: 0 <= i < |a| ==> a[i] < Pow256(w)
    ensures ReadsBack(WordsIn(s, a, w, bigEndian, 0, 0, StepCount(0, w * |a|, w)), a, w, bigEndian)
  {
    StepCountExit(0, w * |a|, w, |a|);
    forall i | 0 <= i < |a|
      ensures w * i + w <= |s|
      ensures WordValue(WordsIn(s, a, w, bigEndian, 0, 0, |a|)[w * i..w * i + w], bigEndian) == a[i]
    {
      WordsInRoundTrip(s, a, w, bigEndian, i);
    }
  }

  /**
   * A one-byte `writeUint16Array` still stores a whole 16-bit word: two cells
   * change although only one was checked.
   */
  lemma WordsInPastLength()
    ensures StepCount(0, 1, 2) == 1
    ensures WordsIn([0, 0, 0, 0], [0x1234], 2, false, 0, 0, 1) == [0x34, 0x12, 0, 0]
  {
    var r := WordsIn([0, 0, 0, 0], [0x1234], 2, false, 0, 0, 1);
    assert LeBytes(0x1234, 2) == [0x34, 0x12];
    MulDiv(2, 0, 1);
    MulDiv(2, 1, 0);
    MulDiv(2, 1, 1);
    assert r[0] == 0x34 && r[1] == 0x12;
    assert r[2] == 0 && r[3] == 0;
  }

  // ---------------------------------------------------------------------------
  // Strings and ranges
  // ---------------------------------------------------------------------------

  /** `value.charCodeAt(i)` stored into a cell: the code modulo 256, 0 past the end. */
  function CodeUnits(v: string, n: nat): (r: seq<byte>)
    ensures |r| == n
    ensures forall i :: 0 <= i < n ==> r[i] as int == CodeAt(v, i) % 256
  {
    seq(n, i requires 0 <= i < n => (CodeAt(v, i) % 256) as byte)
  }

  /** Cells read back one character per byte (Latin-1): the inverse of `CodeUnits` for such text. */
  function Latin1(cells: seq<byte>): (r: string)
    ensures |r| == |cells|
  {
    seq(|cells|, i requires 0 <= i < |cells| => cells[i] as char)
  }

  /** Text whose code units all fit a byte is written without loss: reading its cells back gives it again. */
  lemma CodeUnitsLatin1RoundTrip(v: string)
    requires forall i :: 0 <= i < |v| ==> v[i] as int < 256
    ensures Latin1(CodeUnits(v, |v|)) == v
  {
    var r := Latin1(CodeUnits(v, |v|));
    forall i | 0 <= i < |v|
      ensures r[i] == v[i]
    {
      assert CodeUnits(v, |v|)[i] as int == v[i] as int;
    }
  }

  /**
   * A length other than the text's own: a shorter one writes the code units
   * of the text's prefix, a longer one pads the text's code units with zeros.
   */
  lemma CodeUnitsLength(v: string, n: nat)
    ensures n <= |v| ==> CodeUnits(v, n) == CodeUnits(v[..n], n)
    ensures n >= |v| ==> CodeUnits(v, n) == CodeUnits(v, |v|) + Zeros(n - |v|)
  {
    if n <= |v| {
      forall i | 0 <= i < n
        ensures CodeUnits(v, n)[i] == CodeUnits(v[..n], n)[i]
      {
        assert CodeAt(v, i) == CodeAt(v[..n], i);
      }
    }
    if n >= |v| {
      var l, r := CodeUnits(v, n), CodeUnits(v, |v|) + Zeros(n - |v|);
      forall i | 0 <= i < n
        ensures l[i] == r[i]
      {
        if i < |v| {
          assert r[i] == CodeUnits(v, |v|)[i];
        } else {
          assert r[i] == Zeros(n - |v|)[i - |v|];
        }
      }
    }
  }

  /** The cells `start, start + 1, …, start + n - 1`. */
  function RangeBytes(start: nat, n: nat): (r: seq<byte>)
    requires start + n <= 256
    ensures |r| == n && forall i :: 0 <= i < n ==> r[i] as int == start + i
  {
    seq(n, i requires 0 <= i < n => (start + i) as byte)
  }

  /** A range splits into consecutive ranges: the first `a` values, then the next `b` from `start + a`. */
  lemma RangeBytesSplit(start: nat, a: nat, b: nat)
    requires start + a + b <= 256
    ensures RangeBytes(start, a + b) == RangeBytes(start, a) + RangeBytes(start + a, b)
  {
    var l, r := RangeBytes(start, a + b), RangeBytes(start, a) + RangeBytes(start + a, b);
    forall i | 0 <= i < a + b
      ensures l[i] == r[i]
    {
      if i < a {
        assert r[i] == RangeBytes(start, a)[i];
      } else {
        assert r[i] == RangeBytes(start + a, b)[i - a];
      }
    }
  }

  // ---------------------------------------------------------------------------
  // Mirroring: partialReverse, swap, reverse
  // ---------------------------------------------------------------------------

  /**
   * The cells `[base, base + len)` after `j` exchanges of the outermost pairs:
   * cell `q` in the first or last `j` cells of the range holds the old cell
   * `2·base + len - 1 - q` (0 outside the view).
   */
  function Mirrored(s: seq<byte>, base: int, len: int, j: int): (r: seq<byte>)
    ensures |r| == |s|
  {
    seq(|s|, q requires 0 <= q < |s| =>
      if base <= q < base + j || base + len - j <= q < base + len then At(s, 2 * base + len - 1 - q) else s[q])
  }

  /** `t = a[lo]; a[lo] = a[hi]; a[hi] = t`, reading `undefined` (0) outside the view. */
  function Exchange(s: seq<byte>, lo: int, hi: int): (r: seq<byte>)
    ensures |r| == |s|
  {
    Put(Put(s, lo, At(s, hi)), hi, At(s, lo))
  }

  /** One exchange extends the mirrored border by one pair. */
  lemma MirroredStep(s: seq<byte>, base: int, len: int, j: nat)
    requires 0 <= base && 2 * j + 2 <= len
    ensures Mirrored(s, base, len, j + 1) == Exchange(Mirrored(s, base, len, j), base + j, base + len - 1 - j)
  {
    var m := Mirrored(s, base, len, j);
    var l := Mirrored(s, base, len, j + 1);
    var r := Put(Put(m, base + j, At(m, base + len - 1 - j)), base + len - 1 - j, At(m, base + j));
    forall q | 0 <= q < |s|
      ensures l[q] == r[q]
    {
      var lo, hi := base + j, base + len - 1 - j;
      if q == lo {
        assert At(m, hi) == At(s, hi);
      } else if q == hi {
        assert At(m, lo) == At(s, lo);
      }
    }
  }

  lemma MirroredWholeAt(s: seq<byte>, base: nat, len: nat, q: nat)
    requires base + len <= |s| && q < |s|
    ensures Mirrored(s, base, len, len / 2)[q] == PutAll(s, base, Reversed(s[base..base + len]))[q]
  {
    var h := len / 2;
    var p := 2 * base + len - 1 - q;
    PutAllAt(s, base, Reversed(s[base..base + len]), q);
    if base <= q < base + len {
      assert Reversed(s[base..base + len])[q - base] == s[p] by {
        assert s[base..base + len][len - 1 - (q - base)] == s[p];
      }
      if base + h <= q < base + len - h {
        assert p == q by {
          assert len == 2 * h + 1;
        }
      } else {
        assert At(s, p) == s[p];
      }
    }
  }

  /** Mirroring the whole of an in-view range is splicing in its reverse. */
  lemma MirroredWhole(s: seq<byte>, base: nat, len: nat)
    requires base + len <= |s|
    ensures Mirrored(s, base, len, len / 2) == PutAll(s, base, Reversed(s[base..base + len]))
  {
    forall q | 0 <= q < |s|
      ensures Mirrored(s, base, len, len / 2)[q] == PutAll(s, base, Reversed(s[base..base + len]))[q]
    {
      MirroredWholeAt(s, base, len, q);
    }
  }

  /** Reversing an in-view range twice restores it. */
  lemma MirroredInvolution(s: seq<byte>, base: nat, len: nat)
    requires base + len <= |s|
    ensures Mirrored(Mirrored(s, base, len, len / 2), base, len, len / 2) == s
  {
    var m := Mirrored(s, base, len, len / 2);
    MirroredWhole(s, base, len);
    MirroredWhole(m, base, len);
    PutAllInside(s, base, Reversed(s[base..base + len]));
    assert m[base..base + len] == Reversed(s[base..base + len]);
    assert Reversed(Reversed(s[base..base + len])) == s[base..base + len];
    PutAllInside(m, base, s[base..base + len]);
  }

  /**
   * `swap(offset, ·, w)` after `count` iterations of its outer loop: word `k`
   * (cells from `offset + w·k`) is mirrored, reading 0 for partner cells
   * outside the view.
   */
  function Swapped(s: seq<byte>, offset: int, w: nat, count: nat): (r: seq<byte>)
    requires w > 0
    ensures |r| == |s|
  {
    seq(|s|, q requires 0 <= q < |s| =>
      if offset <= q && (q - offset) / w < count
      then At(s, offset + w * ((q - offset) / w) + w - 1 - (q - offset) % w)
      else s[q])
  }

  lemma SwappedStepAt(s: seq<byte>, offset: nat, w: nat, k: nat, q: nat)
    requires w > 0 && w % 2 == 0 && q < |s|
    ensures Swapped(s, offset, w, k + 1)[q] == Mirrored(Swapped(s, offset, w, k), offset + w * k, w, w / 2)[q]
  {
    var base := offset + w * k;
    MulSucc(w, k);
    if base <= q < base + w {
      SwappedStepInWord(s, offset, w, k, q);
    } else {
      SwappedStepBesideWord(s, offset, w, k, q);
    }
  }

  /** Cell `q` of word `k`: the step gives it its partner's original value. */
  lemma SwappedStepInWord(s: seq<byte>, offset: nat, w: nat, k: nat, q: nat)
    requires w > 0 && w % 2 == 0 && q < |s|
    requires offset + w * k <= q < offset + w * k + w
    ensures Swapped(s, offset, w, k + 1)[q] == Mirrored(Swapped(s, offset, w, k), offset + w * k, w, w / 2)[q]
  {
    var base := offset + w * k;
    var m := Swapped(s, offset, w, k);
    var t := q - base;
    MulDiv(w, k, t);
    assert (q - offset) / w == k && (q - offset) % w == t;
    var p := base + w - 1 - t;
    assert Swapped(s, offset, w, k + 1)[q] == At(s, p);
    assert w - w / 2 == w / 2;
    assert Mirrored(m, base, w, w / 2)[q] == At(m, p);
    if p < |s| {
      MulDiv(w, k, w - 1 - t);
      assert m[p] == s[p];
    }
  }

  /** A cell outside word `k` is left as the earlier words made it. */
  lemma SwappedStepBesideWord(s: seq<byte>, offset: nat, w: nat, k: nat, q: nat)
    requires w > 0 && w % 2 == 0 && q < |s|
    requires !(offset + w * k <= q < offset + w * k + w)
    ensures Swapped(s, offset, w, k + 1)[q] == Mirrored(Swapped(s, offset, w, k), offset + w * k, w, w / 2)[q]
  {
    var m := Swapped(s, offset, w, k);
    assert w * k >= 0;
    assert Mirrored(m, offset + w * k, w, w / 2)[q] == m[q];
    if offset <= q {
      var d := q - offset;
      DivRange(d, w, k);
      MulSucc(w, k);
      DivRange(d, w, k + 1);
      assert (d / w < k + 1) == (d / w < k);
    }
  }

  /** One more outer iteration of `swap` mirrors one more word. */
  lemma SwappedStep(s: seq<byte>, offset: nat, w: nat, k: nat)
    requires w > 0 && w % 2 == 0
    ensures Swapped(s, offset, w, k + 1) == Mirrored(Swapped(s, offset, w, k), offset + w * k, w, w / 2)
  {
    var l, r := Swapped(s, offset, w, k + 1), Mirrored(Swapped(s, offset, w, k), offset + w * k, w, w / 2);
    forall q | 0 <= q < |s|
      ensures l[q] == r[q]
    {
      SwappedStepAt(s, offset, w, k, q);
    }
  }

  lemma SwappedWordsAt(s: seq<byte>, w: nat, n: nat, k: nat, t: nat)
    requires w > 0 && w * n <= |s| && k < n && t < w
    ensures w * k + w <= w * n
    ensures Swapped(s, 0, w, n)[w * k + t] == s[w * k + w - 1 - t]
  {
    MulDiv(w, k, t);
    assert w * n == w * k + w * (n - k);
    MulAtLeast(w, n - k);
  }

  /**
   * From offset 0 over `n` whole words inside the view, `swap` reverses each
   * `w`-byte word (cell `w·k + t` receives cell `w·k + w - 1 - t`)...
   */
  lemma SwappedWord(s: seq<byte>, w: nat, n: nat, k: nat)
    requires w > 0 && w * n <= |s| && k < n
    ensures w * k + w <= |s|
    ensures Swapped(s, 0, w, n)[w * k .. w * k + w] == Reversed(s[w * k .. w * k + w])
  {
    SwappedWordsAt(s, w, n, k, 0);
    var l, r := Swapped(s, 0, w, n)[w * k .. w * k + w], Reversed(s[w * k .. w * k + w]);
    forall t | 0 <= t < w
      ensures l[t] == r[t]
    {
      SwappedWordsAt(s, w, n, k, t);
    }
  }

  /** ...and leaves the cells past the last word as they were. */
  lemma SwappedPastWords(s: seq<byte>, w: nat, n: nat)
    requires w > 0 && w * n <= |s|
    ensures forall q :: w * n <= q < |s| ==> Swapped(s, 0, w, n)[q] == s[q]
  {
    forall q | w * n <= q < |s|
      ensures Swapped(s, 0, w, n)[q] == s[q]
    {
      DivRange(q, w, n);
    }
  }

  lemma SwappedInvolutionAt(s: seq<byte>, w: nat, n: nat, q: nat)
    requires w > 0 && w * n <= |s| && q < |s|
    ensures Swapped(Swapped(s, 0, w, n), 0, w, n)[q] == s[q]
  {
    var m := Swapped(s, 0, w, n);
    var k, t := q / w, q % w;
    assert q == w * k + t;
    if k < n {
      SwappedWordsAt(m, w, n, k, t);
      SwappedWordsAt(s, w, n, k, w - 1 - t);
      assert w * k + (w - 1 - t) == w * k + w - 1 - t;
      assert w * k + w - 1 - (w - 1 - t) == q;
    } else {
      SwappedPastWords(s, w, n);
      SwappedPastWords(m, w, n);
      DivRange(q, w, n);
    }
  }

  /** Under the same conditions, swapping twice restores the bytes. */
  lemma SwappedInvolution(s: seq<byte>, w: nat, n: nat)
    requires w > 0 && w * n <= |s|
    ensures Swapped(Swapped(s, 0, w, n), 0, w, n) == s
  {
    var r := Swapped(Swapped(s, 0, w, n), 0, w, n);
    forall q | 0 <= q < |s|
      ensures r[q] == s[q]
    {
      SwappedInvolutionAt(s, w, n, q);
    }
  }

  /**
   * `swap(1, 2, 2)` on `[1, 2, 3, 4]` checks the window `[1, 3)`, runs its
   * outer loop for `i = 0, 2` (while `i < 1 + 2`) and so also rewrites cell 3,
   * storing the `undefined` read past the view as 0.
   */
  lemma SwapPastWindow()
    ensures StepCount(0, 1 + 2, 2) == 2
    ensures Swapped([1, 2, 3, 4], 1, 2, 2) == [1, 3, 2, 0]
  {
    var r := Swapped([1, 2, 3, 4], 1, 2, 2);
    MulDiv(2, 0, 0);
    MulDiv(2, 0, 1);
    MulDiv(2, 1, 0);
    assert r[1] == 3 && r[2] == 2 && r[3] == 0;
  }

  // ---------------------------------------------------------------------------
  // Rotations and shifts of the whole view
  // ---------------------------------------------------------------------------

  /** `rotateLeft`: the first cell moves to the end. */
  function RotatedLeft(s: seq<byte>): (r: seq<byte>)
    ensures |r| == |s|
  {
    if s == [] then [] else s[1..] + [s[0]]
  }

  /** `rotateRight`: the last cell moves to the front. */
  function RotatedRight(s: seq<byte>): (r: seq<byte>)
    ensures |r| == |s|
  {
    if s == [] then [] else [s[|s| - 1]] + s[..|s| - 1]
  }

  /** Each rotation undoes the other. */
  lemma RotationsInverse(s: seq<byte>)
    ensures RotatedRight(RotatedLeft(s)) == s
    ensures RotatedLeft(RotatedRight(s)) == s
  {
    if s != [] {
      assert RotatedLeft(s)[..|s| - 1] == s[1..];
      assert RotatedRight(s)[1..] == s[..|s| - 1];
    }
  }

  /** Rotating left `|s|` times is the identity. */
  function RotatedLeftN(s: seq<byte>, n: nat): (r: seq<byte>)
    ensures |r| == |s|
  {
    if n == 0 then s else RotatedLeft(RotatedLeftN(s, n - 1))
  }

  lemma {:induction false} RotatedLeftNIsSplit(s: seq<byte>, n: nat)
    requires n <= |s|
    ensures RotatedLeftN(s, n) == s[n..] + s[..n]
  {
    if n > 0 {
      RotatedLeftNIsSplit(s, n - 1);
      var p := s[n - 1..] + s[..n - 1];
      assert p[1..] + [p[0]] == s[n..] + s[..n];
    }
  }

  lemma RotatedLeftFullTurn(s: seq<byte>)
    ensures RotatedLeftN(s, |s|) == s
  {
    RotatedLeftNIsSplit(s, |s|);
  }

  /**
   * `shiftLeft` by `shift`: cell `i` takes cell `i + shift` (0 past the end).
   * A negative shift reads the cells it has just cleared, so all but the last
   * cell become 0.
   */
  function ShiftedLeft(s: seq<byte>, shift: int): (r: seq<byte>)
    ensures |r| == |s|
  {
    seq(|s|, i requires 0 <= i < |s| =>
      if shift >= 0 then At(s, i + shift) else if i == |s| - 1 then s[i] else 0)
  }

  /**
   * `shiftRight` by `shift`: cell `i` takes cell `i - shift` (0 before the
   * start). A negative shift leaves only the first cell.
   */
  function ShiftedRight(s: seq<byte>, shift: int): (r: seq<byte>)
    ensures |r| == |s|
  {
    seq(|s|, i requires 0 <= i < |s| =>
      if shift >= 0 then At(s, i - shift) else if i == 0 then s[i] else 0)
  }

  /** A left shift by `k` within the length drops `k` cells at the front and appends `k` zeros. */
  lemma ShiftedLeftIsSplit(s: seq<byte>, k: nat)
    requires k <= |s|
    ensures ShiftedLeft(s, k) == s[k..] + Zeros(k)
  {
    var r, t := ShiftedLeft(s, k), s[k..] + Zeros(k);
    assert |r| == |t|;
    forall i | 0 <= i < |r|
      ensures r[i] == t[i]
    {
      if i < |s| - k {
        assert t[i] == s[k + i];
      } else {
        assert t[i] == Zeros(k)[i - (|s| - k)];
      }
    }
  }

  /** A right shift by `k` within the length prepends `k` zeros and drops `k` cells at the end. */
  lemma ShiftedRightIsSplit(s: seq<byte>, k: nat)
    requires k <= |s|
    ensures ShiftedRight(s, k) == Zeros(k) + s[..|s| - k]
  {
    var r, t := ShiftedRight(s, k), Zeros(k) + s[..|s| - k];
    assert |r| == |t|;
    forall i | 0 <= i < |r|
      ensures r[i] == t[i]
    {
      if i >= k {
        assert t[i] == s[i - k];
      }
    }
  }

  /** Shifting left then right by the same `k` clears the first `k` cells and keeps the others. */
  lemma ShiftLeftThenRight(s: seq<byte>, k: nat)
    requires k <= |s|
    ensures ShiftedRight(ShiftedLeft(s, k), k) == Zeros(k) + s[k..]
  {
    ShiftedLeftIsSplit(s, k);
    ShiftedRightIsSplit(ShiftedLeft(s, k), k);
    assert (s[k..] + Zeros(k))[..|s| - k] == s[k..];
  }

  /** Non-negative left shifts compose by adding. */
  lemma ShiftLeftCompose(s: seq<byte>, a: nat, b: nat)
    ensures ShiftedLeft(ShiftedLeft(s, a), b) == ShiftedLeft(s, a + b)
  {
    var m := ShiftedLeft(s, a);
    var l, r := ShiftedLeft(m, b), ShiftedLeft(s, a + b);
    forall i | 0 <= i < |s|
      ensures l[i] == r[i]
    {
      assert l[i] == At(m, i + b);
      assert r[i] == At(s, i + a + b);
      if i + b < |s| {
        assert m[i + b] == At(s, i + b + a);
      }
    }
  }

  /** Non-negative right shifts compose by adding. */
  lemma ShiftRightCompose(s: seq<byte>, a: nat, b: nat)
    ensures ShiftedRight(ShiftedRight(s, a), b) == ShiftedRight(s, a + b)
  {
    var m := ShiftedRight(s, a);
    var l, r := ShiftedRight(m, b), ShiftedRight(s, a + b);
    forall i | 0 <= i < |s|
      ensures l[i] == r[i]
    {
      assert l[i] == At(m, i - b);
      assert r[i] == At(s, i - (a + b));
      if i - b >= 0 {
        assert m[i - b] == At(s, i - b - a);
      }
    }
  }

  // ---------------------------------------------------------------------------
  // The loops of the shifts and rotations, pass by pass
  // ---------------------------------------------------------------------------

  /**
   * The view after `i` iterations of `for (i = 0; …; i++) a[i] = a[i + shift]`:
   * each written cell read its source after the cells before it were written.
   */
  function LeftPass(s: seq<byte>, shift: int, i: int): (r: seq<byte>)
    ensures |r| == |s|
  {
    seq(|s|, k requires 0 <= k < |s| => if k < i then (if shift >= 0 then At(s, k + shift) else 0) else s[k])
  }

  lemma LeftPassNone(s: seq<byte>, shift: int)
    ensures LeftPass(s, shift, 0) == s
  {
  }

  /** One more iteration of the left pass: cell `i` takes what cell `i + shift` holds now. */
  lemma LeftPassStep(s: seq<byte>, shift: int, i: nat)
    requires i < |s|
    ensures LeftPass(s, shift, i + 1) == Put(LeftPass(s, shift, i), i, At(LeftPass(s, shift, i), i + shift))
  {
    var m := LeftPass(s, shift, i);
    var l, r := LeftPass(s, shift, i + 1), Put(m, i, At(m, i + shift));
    forall k | 0 <= k < |s|
      ensures l[k] == r[k]
    {
      if k == i {
        assert l[k] == (if shift >= 0 then At(s, i + shift) else 0);
        assert r[k] == At(m, i + shift);
        if 0 <= i + shift < |s| {
          assert m[i + shift] == if i + shift < i then (if shift >= 0 then At(s, i + shift + shift) else 0) else s[i + shift];
        }
      } else {
        assert l[k] == m[k];
      }
    }
  }

  /**
   * The view after `i` iterations of `for (i = |s| - 1; i > 0; i--) a[i] = a[i - shift]`,
   * counted by the lowest cell written so far, `low`.
   */
  function RightPass(s: seq<byte>, shift: int, low: int): (r: seq<byte>)
    ensures |r| == |s|
  {
    seq(|s|, k requires 0 <= k < |s| => if k >= low && k >= 1 then (if shift >= 0 then At(s, k - shift) else 0) else s[k])
  }

  lemma RightPassNone(s: seq<byte>, shift: int)
    ensures RightPass(s, shift, |s|) == s
  {
  }

  /** One more iteration of the right pass: cell `i` takes what cell `i - shift` holds now. */
  lemma RightPassStep(s: seq<byte>, shift: int, i: nat)
    requires 1 <= i < |s|
    ensures RightPass(s, shift, i) == Put(RightPass(s, shift, i + 1), i, At(RightPass(s, shift, i + 1), i - shift))
  {
    var m := RightPass(s, shift, i + 1);
    var l, r := RightPass(s, shift, i), Put(m, i, At(m, i - shift));
    forall k | 0 <= k < |s|
      ensures l[k] == r[k]
    {
      if k == i {
        assert l[k] == (if shift >= 0 then At(s, i - shift) else 0);
        assert r[k] == At(m, i - shift);
        if 0 <= i - shift < |s| {
          assert m[i - shift] == if i - shift >= i + 1 && i - shift >= 1 then (if shift >= 0 then At(s, i - shift - shift) else 0) else s[i - shift];
        }
      } else {
        assert l[k] == m[k];
      }
    }
  }

  /** `for (i = 0; i < n; i++) a[|s| - i - 1] = 0`: the last `n` cells cleared. */
  function ZeroTail(s: seq<byte>, n: int): (r: seq<byte>)
    ensures |r| == |s|
  {
    seq(|s|, k requires 0 <= k < |s| => if k >= |s| - n then 0 else s[k])
  }

  lemma ZeroTailNone(s: seq<byte>)
    ensures ZeroTail(s, 0) == s
  {
  }

  lemma ZeroTailStep(s: seq<byte>, n: nat)
    ensures ZeroTail(s, n + 1) == Put(ZeroTail(s, n), |s| - n - 1, 0)
  {
    var l, r := ZeroTail(s, n + 1), Put(ZeroTail(s, n), |s| - n - 1, 0);
    forall k | 0 <= k < |s|
      ensures l[k] == r[k]
    {
    }
  }

  /** `for (i = 0; i < n; i++) a[i] = 0`: the first `n` cells cleared. */
  function ZeroHead(s: seq<byte>, n: int): (r: seq<byte>)
    ensures |r| == |s|
  {
    seq(|s|, k requires 0 <= k < |s| => if k < n then 0 else s[k])
  }

  lemma ZeroHeadNone(s: seq<byte>)
    ensures ZeroHead(s, 0) == s
  {
  }

  lemma ZeroHeadStep(s: seq<byte>, n: nat)
    ensures ZeroHead(s, n + 1) == Put(ZeroHead(s, n), n, 0)
  {
    var l, r := ZeroHead(s, n + 1), Put(ZeroHead(s, n), n, 0);
    forall k | 0 <= k < |s|
      ensures l[k] == r[k]
    {
    }
  }

  /** Both loops of `shiftLeft` together are the left shift. */
  lemma ShiftLeftPasses(s: seq<byte>, shift: int)
    requires |s| >= 1
    ensures ZeroTail(LeftPass(s, shift, |s| - 1), if shift >= 0 then shift else 0) == ShiftedLeft(s, shift)
  {
    var z := if shift >= 0 then shift else 0;
    var p := LeftPass(s, shift, |s| - 1);
    var l, r := ZeroTail(p, z), ShiftedLeft(s, shift);
    forall k | 0 <= k < |s|
      ensures l[k] == r[k]
    {
      assert l[k] == if k >= |s| - z then 0 else p[k];
      assert p[k] == if k < |s| - 1 then (if shift >= 0 then At(s, k + shift) else 0) else s[k];
      assert r[k] == if shift >= 0 then At(s, k + shift) else if k == |s| - 1 then s[k] else 0;
    }
  }

  /** Both loops of `shiftRight` together are the right shift. */
  lemma ShiftRightPasses(s: seq<byte>, shift: int)
    ensures ZeroHead(RightPass(s, shift, 1), if shift >= 0 then shift else 0) == ShiftedRight(s, shift)
  {
    var z := if shift >= 0 then shift else 0;
    var p := RightPass(s, shift, 1);
    var l, r := ZeroHead(p, z), ShiftedRight(s, shift);
    forall k | 0 <= k < |s|
      ensures l[k] == r[k]
    {
      assert l[k] == if k < z then 0 else p[k];
      assert p[k] == if k >= 1 then (if shift >= 0 then At(s, k - shift) else 0) else s[k];
      assert r[k] == if shift >= 0 then At(s, k - shift) else if k == 0 then s[k] else 0;
    }
  }

  /** The loop of `rotateLeft` followed by storing the old first cell last. */
  lemma RotateLeftPasses(s: seq<byte>)
    requires |s| >= 1
    ensures Put(LeftPass(s, 1, |s| - 1), |s| - 1, s[0]) == RotatedLeft(s)
  {
    var l, r := Put(LeftPass(s, 1, |s| - 1), |s| - 1, s[0]), RotatedLeft(s);
    forall k | 0 <= k < |s|
      ensures l[k] == r[k]
    {
      PutAt(LeftPass(s, 1, |s| - 1), |s| - 1, s[0], k);
      if k < |s| - 1 {
        assert r[k] == s[1..][k];
      }
    }
  }

  /** The loop of `rotateRight` followed by storing the old last cell first. */
  lemma RotateRightPasses(s: seq<byte>)
    requires |s| >= 1
    ensures Put(RightPass(s, 1, 1), 0, s[|s| - 1]) == RotatedRight(s)
  {
    var l, r := Put(RightPass(s, 1, 1), 0, s[|s| - 1]), RotatedRight(s);
    forall k | 0 <= k < |s|
      ensures l[k] == r[k]
    {
      PutAt(RightPass(s, 1, 1), 0, s[|s| - 1], k);
      if k > 0 {
        assert r[k] == s[..|s| - 1][k - 1];
      }
    }
  }

  /** No exchange done yet. */
  lemma MirroredNone(s: seq<byte>, base: int, len: int)
    ensures Mirrored(s, base, len, 0) == s
  {
    var r := Mirrored(s, base, len, 0);
    forall q | 0 <= q < |s|
      ensures r[q] == s[q]
    {
    }
  }

  /** No word swapped yet. */
  lemma SwappedNone(s: seq<byte>, offset: int, w: nat)
    requires w > 0
    ensures Swapped(s, offset, w, 0) == s
  {
    var r := Swapped(s, offset, w, 0);
    forall q | 0 <= q < |s|
      ensures r[q] == s[q]
    {
      if offset <= q {
        DivRange(q - offset, w, 0);
      }
    }
  }

  // ---------------------------------------------------------------------------
  // Whole-view predicates
  // ---------------------------------------------------------------------------

  /** Every cell holds `v`. */
  predicate AllCells(s: seq<byte>, v: byte)
  {
    forall i :: 0 <= i < |s| ==> s[i] == v
  }

  /** Filling the whole view with `v` makes every cell `v`. */
  lemma FillWhole(s: seq<byte>, v: byte)
    ensures AllCells(PutAll(s, 0, Repeat(v, |s|)), v)
  {
  }
}
