/**
 * The query-string builder shared by the two `addParamsToUrl` functions:
 * entries are folded onto a base URL one by one; an "empty" value is
 * skipped, and every kept entry appends `sep key=value`, where `sep` is
 * `?` while the URL built so far has no `?` and `&` afterwards.
 *
 * The two sources differ only in how a key or value is written into its
 * segment: verbatim (`src/general/urls.ts`) or through `encodeURIComponent`
 * (`src/frontend/urls.ts`), which is the parameter `encode` here.
 */
module Queries {

  /** The value of a parameter entry: `string | number | boolean | undefined | null`. */
  datatype Value = Text(s: string) | Number(n: int) | Flag(b: bool) | Undefined | Null

  /** A parameter entry `[key, value]`, in `Object.entries` order. */
  type Entry = (string, Value)

  /**
   * Entries with these values add nothing: `undefined`, `null` and the
   * strings `""`, `"null"` and `"undefined"`. The test is by identity, not
   * truthiness, so every number and boolean (`0` and `false` included) is kept.
   */
  predicate Skipped(v: Value)
    ensures v.Number? || v.Flag? ==> !Skipped(v)
  {
    v == Undefined || v == Null || v == Text("") || v == Text("null") || v == Text("undefined")
  }

  /** `String(n)` for an integer `n`: an optional `-` followed by its decimal digits. */
  function Decimal(n: int): (r: string)
    ensures |r| >= 1
    ensures r[0] == '-' <==> n < 0
    decreases if n < 0 then 1 - n else n
  {
    if n < 0 then "-" + Decimal(-n)
    else if n < 10 then [Digit(n)]
    else Decimal(n / 10) + [Digit(n % 10)]
  }

  function Digit(d: int): (c: char)
    requires 0 <= d < 10
    ensures '0' <= c <= '9'
  {
    "0123456789"[d]
  }

  /** `value.toString()`. */
  function Display(v: Value): (r: string)
    requires !Skipped(v)
  {
    match v
    case Text(s) => s
    case Number(n) => Decimal(n)
    case Flag(b) => if b then "true" else "false"
  }

  /** The separator before the next segment of `url`. */
  function Separator(url: string): (c: char)
    ensures c == '?' <==> '?' !in url
  {
    if '?' in url then '&' else '?'
  }

  /** The text of one kept entry after its separator: `key=value`, each part through `encode`. */
  function Segment(e: Entry, encode: string -> string): string
    requires !Skipped(e.1)
  {
    encode(e.0) + "=" + encode(Display(e.1))
  }

  /** `url` after the loop body ran once for `e`. */
  function Step(url: string, e: Entry, encode: string -> string): string
  {
    if Skipped(e.1) then url else url + [Separator(url)] + Segment(e, encode)
  }

  /** `url` after the loop ran over `entries`, in order; it always begins with the base URL. */
  function WithParams(url: string, entries: seq<Entry>, encode: string -> string): (r: string)
    ensures |r| >= |url| && r[..|url|] == url
    decreases |entries|
  {
    if |entries| == 0 then url
    else
      var next := Step(url, entries[0], encode);
      var r := WithParams(next, entries[1..], encode);
      assert next[..|url|] == url;
      assert r[..|url|] == r[..|next|][..|url|];
      r
  }

  /** The entries that are not skipped, in order. */
  function Kept(entries: seq<Entry>): (r: seq<Entry>)
    ensures |r| <= |entries|
    ensures forall i :: 0 <= i < |r| ==> !Skipped(r[i].1)
  {
    if |entries| == 0 then []
    else if Skipped(entries[0].1) then Kept(entries[1..])
    else [entries[0]] + Kept(entries[1..])
  }

  /**
   * The segments of the kept entries: the first after `?` unless the URL
   * already has a query (`hasQuery`), every later one after `&`.
   */
  function Joined(hasQuery: bool, kept: seq<Entry>, encode: string -> string): string
    requires forall i :: 0 <= i < |kept| ==> !Skipped(kept[i].1)
    decreases |kept|
  {
    if |kept| == 0 then ""
    else [if hasQuery then '&' else '?'] + Segment(kept[0], encode) + Joined(true, kept[1..], encode)
  }

  /** The identity: keys and values inserted as they are. */
  function Verbatim(s: string): string
  {
    s
  }

  /**
   * The loop's result is the base URL followed by one segment per kept
   * entry, in entry order, the first after `?` exactly when the base URL has
   * no `?` and every later one after `&`.
   */
  lemma {:induction false} WithParamsExpansion(url: string, entries: seq<Entry>, encode: string -> string)
    ensures WithParams(url, entries, encode) == url + Joined('?' in url, Kept(entries), encode)
    decreases |entries|
  {
    if |entries| > 0 {
      var e := entries[0];
      WithParamsExpansion(Step(url, e, encode), entries[1..], encode);
      if Skipped(e.1) {
        assert Kept(entries) == Kept(entries[1..]);
      } else {
        ExpansionKeptStep(url, entries, encode);
      }
    }
  }

  /** The inductive step of `WithParamsExpansion` for a first entry that is kept. */
  lemma ExpansionKeptStep(url: string, entries: seq<Entry>, encode: string -> string)
    requires |entries| > 0 && !Skipped(entries[0].1)
    requires WithParams(Step(url, entries[0], encode), entries[1..], encode)
          == Step(url, entries[0], encode) + Joined(true, Kept(entries[1..]), encode)
    ensures WithParams(url, entries, encode) == url + Joined('?' in url, Kept(entries), encode)
  {
    var e, rest := entries[0], entries[1..];
    var sep, seg, tail := Separator(url), Segment(e, encode), Joined(true, Kept(rest), encode);
    assert WithParams(url, entries, encode) == Step(url, e, encode) + tail;
    assert Step(url, e, encode) == url + [sep] + seg by {
      StepAddsQuery(url, e, encode);
    }
    assert Joined('?' in url, Kept(entries), encode) == [sep] + seg + tail by {
      assert Kept(entries) == [e] + Kept(rest);
      JoinedCons('?' in url, e, Kept(rest), encode);
    }
    ConcatAssoc(url, [sep], seg);
    ConcatAssoc(url, [sep] + seg, tail);
  }

  lemma ConcatAssoc<T>(a: seq<T>, b: seq<T>, c: seq<T>)
    ensures a + b + c == a + (b + c)
  {
  }

  /** A kept entry appends its separator and segment, after which the URL has a `?`. */
  lemma StepAddsQuery(url: string, e: Entry, encode: string -> string)
    requires !Skipped(e.1)
    ensures Step(url, e, encode) == url + [Separator(url)] + Segment(e, encode)
    ensures '?' in Step(url, e, encode)
  {
    var next := Step(url, e, encode);
    if '?' !in url {
      assert next[|url|] == '?';
    } else {
      var j :| 0 <= j < |url| && url[j] == '?';
      assert next[j] == '?';
    }
  }

  /** The first kept entry contributes its separator and segment ahead of the rest. */
  lemma JoinedCons(hasQuery: bool, e: Entry, rest: seq<Entry>, encode: string -> string)
    requires !Skipped(e.1)
    requires forall i :: 0 <= i < |rest| ==> !Skipped(rest[i].1)
    ensures Joined(hasQuery, [e] + rest, encode)
         == [if hasQuery then '&' else '?'] + Segment(e, encode) + Joined(true, rest, encode)
  {
    assert ([e] + rest)[0] == e;
    assert ([e] + rest)[1..] == rest;
  }

  /** With no kept entry, the result is the base URL. */
  lemma WithParamsNoneKept(url: string, entries: seq<Entry>, encode: string -> string)
    requires forall i :: 0 <= i < |entries| ==> Skipped(entries[i].1)
    ensures WithParams(url, entries, encode) == url
  {
    WithParamsExpansion(url, entries, encode);
    NoneKept(entries);
  }

  lemma {:induction false} NoneKept(entries: seq<Entry>)
    requires forall i :: 0 <= i < |entries| ==> Skipped(entries[i].1)
    ensures Kept(entries) == []
  {
    if |entries| > 0 {
      NoneKept(entries[1..]);
    }
  }

  /** A single kept entry appends exactly `sep key=value` to the base URL. */
  lemma WithOneParam(url: string, key: string, v: Value, encode: string -> string)
    requires !Skipped(v)
    ensures WithParams(url, [(key, v)], encode) == url + [Separator(url)] + encode(key) + "=" + encode(Display(v))
  {
    WithParamsExpansion(url, [(key, v)], encode);
    assert Kept([(key, v)]) == [(key, v)];
  }

  /** Every kept entry adds at least its separator and `=`: the URL grows by that much per entry. */
  lemma {:induction false} JoinedLength(hasQuery: bool, kept: seq<Entry>, encode: string -> string)
    requires forall i :: 0 <= i < |kept| ==> !Skipped(kept[i].1)
    ensures |Joined(hasQuery, kept, encode)| >= 2 * |kept|
    decreases |kept|
  {
    if |kept| > 0 {
      JoinedLength(true, kept[1..], encode);
    }
  }
}
