/**
 * Byte order. The buffer asks the host for its byte order once, when it is
 * constructed, and then maps every endianness argument through
 * `Normalize`, so that callers can name the order they want regardless of
 * the host.
 */
module Endian {
  import opened Bytes

  datatype Endianness = LE | BE

  /** The bytes a host of order `host` stores for a 32-bit word `v`. */
  function HostWord32(v: nat, host: Endianness): (r: seq<byte>)
    ensures |r| == 4
  {
    if host == LE then LeBytes(v, 4) else BeBytes(v, 4)
  }

  /**
   * `getPlatformEndianness`: stores `0xff00` through a 32-bit view of four
   * bytes and answers `BE` when the first byte is `0xff`, `LE` otherwise.
   * The byte `0xff` lands at index 1 on a little-endian host and at index 2 on
   * a big-endian one, so the probe answers `LE` on every host.
   */
  function ProbeEndianness(host: Endianness): (r: Endianness)
    ensures r == LE
  {
    var word := HostWord32(0xff00, host);
    LeBytesAt(0xff00, 4, 0);
    BeBytesAt(0xff00, 4, 0);
    if word[0] == 0xff then BE else LE
  }

  /** `normalizeEndianness`: on a big-endian platform the requested order is swapped. */
  function Normalize(platform: Endianness, e: Endianness): (r: Endianness)
    ensures platform == LE ==> r == e
    ensures platform == BE ==> r != e
  {
    if platform == BE then (if e == LE then BE else LE) else e
  }

  /** Normalizing twice gives back the requested order, on either platform. */
  lemma NormalizeInvolution(platform: Endianness, e: Endianness)
    ensures Normalize(platform, Normalize(platform, e)) == e
  {
  }

  /** Asking for the platform's own order always yields `LE`: the buffer's native layout. */
  lemma NormalizePlatform(platform: Endianness)
    ensures Normalize(platform, platform) == LE
  {
  }

  /** A buffer built on any host normalizes every order to itself. */
  lemma ProbedNormalizeIsIdentity(host: Endianness, e: Endianness)
    ensures Normalize(ProbeEndianness(host), e) == e
  {
  }
}
