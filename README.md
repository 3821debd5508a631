# CyBuffer, query-string builder and string truncation, in Dafny

This project models three pieces of a TypeScript utility library and proves
what they promise.

- **`CyBuffer`** (`src/backend/cybuffer.ts`) is a fixed-length view
  (`offset`, `length`) over a byte array buffer. The array buffer is shared
  with the views `subarray` makes. Every operation that takes an offset and
  a length, and every indexed read or write, goes through `check`, the
  single window guard. Its own argument guards come first: value range,
  alignment, string length. `readBits` is the exception among them: a
  `length` of 0 or less returns `[]` without any check, so `readBits(-8, 0)`
  does not fail. Otherwise it reaches `check` once per bit through
  `readBit`, and that check fails for a bit outside the view. `toBits` also
  reaches `check` through `readBit`, one bit at a time, and `equals` reaches
  it through the other buffer's indexed getter; neither check can fail
  there. The whole-view operations
  `reverse`, `rotateLeft`, `rotateRight`, `isEmpty`, `isFull`,
  `toHexString`, `toUtf8String`, `toString` and `toUint8Array` never call
  it. `safeRandomFill` also skips it; that operation is not modelled.
  On top of it sit:
  - bit access, MSB- or LSB-first;
  - 8/16/32-bit unsigned words, little- and big-endian, with alignment checks;
  - unsigned big integers of any length;
  - hexadecimal and UTF-16 code-unit strings;
  - typed-array bulk writes and range fills;
  - whole-view operations: equals, isEmpty, isFull, copy, subarray, swap,
    partialReverse, reverse, rotations, shifts, fill and clear;
  - the static constructors `alloc` and `from*`.
- **`addParamsToUrl`** (`src/general/urls.ts`, and the copy in
  `src/frontend/urls.ts` that passes keys and values through
  `encodeURIComponent`) folds key/value entries onto a base URL.
- **`truncateString`** (`src/main/formats.ts`) cuts a string and appends
  `...`.

Modules:

| Module | File | What it holds |
|---|---|---|
| `Outcomes` | `outcomes.dfy` | The error kinds, one per distinct throw. `Outcome` and `Result` are the two shapes a call returns, so every thrown error is a returned value and a failing call changes nothing. |
| `Bytes` | `bytes.dfy` | Bytes, little- and big-endian digit sequences and their values. |
| `Endian` | `endian.dfy` | The host byte-order probe and `normalizeEndianness`. |
| `Hex` | `hex.dfy` | The buffer's own hexadecimal decoder, which works on character codes. Also the host's upper-case encoder, with a reference reading of hex digits. |
| `Views` | `views.dfy` | Pure descriptions of what each source loop leaves in the view's cells, as functions on `seq<byte>`. Each comes with step lemmas (one more iteration) and with the properties of the finished loop. |
| `Bits` | `bits.dfy` | Single-bit addressing, defined arithmetically on byte values. |
| `CyBuffers` | `cybuffer.dfy` | The class `CyBuffer`. |
| `Queries` | `queries.dfy` | The query-string fold shared by the two `addParamsToUrl` functions. |
| `GeneralUrls`, `FrontendUrls` | `general_urls.dfy`, `frontend_urls.dfy` | The two `addParamsToUrl` loops. |
| `Formats` | `formats.dfy` | `truncateString`. |

The class `CyBuffer` has these parts:

- An `array<byte>` region, shared by views, with `offset`, `length`, `host`
  and `platformEndianness`.
- `Contents()`, which is the source's `this.array`.
- A `Valid()` invariant.
- Write methods that `modify region`. Each promises two things:
  - the cells outside the view do not change (`Outside() == old(Outside())`);
  - the new view is a stated function of the old one, or is unchanged when a
    check fails.
- Loops that compute a value (`readBigInt*`, `readBits`, `toBits`, `equals`,
  `isEmpty`, `isFull`, `copy`) are methods with loop invariants. Each is
  proved against a specification function.

The source behaves in several ways that a reader might not expect. The model
reproduces each of them exactly:

- **The endianness probe always answers `LE`.** `getPlatformEndianness`
  stores `0xff00` in a 32-bit word and tests byte 0, which is 0 on both byte
  orders. So `normalizeEndianness` is the identity, and every endianness
  argument is obeyed as given (`Endian.ProbeEndianness`,
  `CyBuffers.CyBuffer.NormalizeEndianness`).
- **Some reads use the array buffer's own offsets, not the view's.**
  `readHexString*` and `readUint8Array` read at `offset` of the whole array
  buffer. `toHexString` and `toUtf8String` dump the whole array buffer.
  `subarray` also takes its `offset` as an offset into the array buffer.
- **The shifts ignore their window.** `shiftLeft` and `shiftRight` check
  `(offset, length)` and then shift the whole view.
- **`swap` overruns its window.** Its loop runs over `[0, offset + length)`
  and then adds `offset` again. Words that leave the view read `undefined`
  (0). `Views.SwapPastWindow` shows the overrun on a concrete buffer.
- **Some bulk writes write past their checked window.** `writeBits` checks
  `ceil(bitLength / 8)` cells from `bitOffset div 8`.
  `writeUint16Array` and `writeUint32Array` write whole words while
  `i < length`. Writes beyond the view are dropped, as typed arrays drop
  them. `Views.WordsInPastLength` shows length 1 writing two cells.
- **`fromString(value, "hex")` allocates `|value|` cells** and writes at
  most the first half of them: `|value| / 2` cells, or `(|value| - 2) / 2`
  for a `0x`-prefixed value.
- **Empty inputs fail the window check.** `alloc(0, v)`,
  `fromUint8Array([])`, `fromBits([])` and `toBigInt` on an empty view all
  fail, because `check` refuses a zero-length window.
- **`truncateString` with a negative `len` is not idempotent**
  (`Formats.TruncateNegativeNotIdempotent`).

## Model

| member | source | states |
|---|---|---|
| Endian.ProbeEndianness | src/backend/cybuffer.ts:120-126 | the probe answers `LE` whichever byte order the host stores words in |
| Endian.Normalize | src/backend/cybuffer.ts:141-148 | the identity on an `LE` platform and the swap on a `BE` one |
| Endian.NormalizeInvolution | src/backend/cybuffer.ts:141-148 | normalizing twice gives back the requested order |
| Endian.NormalizePlatform | src/backend/cybuffer.ts:141-148 | the platform's own order always normalizes to `LE`, so default-order wrappers dispatch to the LE variant |
| Endian.ProbedNormalizeIsIdentity | src/backend/cybuffer.ts:120-148 | on a buffer built on any host, normalizing leaves every order unchanged |
| CyBuffers.CyBuffer.constructor | src/backend/cybuffer.ts:69-97 | a fresh region of `length` zero cells, viewed whole |
| CyBuffers.CyBuffer.View | src/backend/cybuffer.ts:69-97 | a view over an existing array buffer; the region is shared, not copied |
| CyBuffers.CyBuffer.New | src/backend/cybuffer.ts:69-97 | fails exactly for a negative length; otherwise a fresh zeroed buffer |
| CyBuffers.CyBuffer.WithArrayBuffer | src/backend/cybuffer.ts:69-97 | succeeds exactly when the length is non-negative and the view (default offset 0, default length `length`) fits the array buffer; the region is shared |
| CyBuffers.CyBuffer.NormalizeEndianness | src/backend/cybuffer.ts:141-148 | returns its argument unchanged on every host, because of the probe |
| CyBuffers.CyBuffer.Check | src/backend/cybuffer.ts:159-191 | passes iff `0 <= offset`, `1 <= length` and `offset + length <= length of view`; the offset error iff the offset is outside the view, and the length error iff the offset is fine but the length is below 1 or above the view's length |
| CyBuffers.CyBuffer.Load | src/backend/cybuffer.ts:1441 | a typed-array read: the cell inside the view, and 0 (`undefined` stored as a number) outside it |
| CyBuffers.CyBuffer.Store | src/backend/cybuffer.ts:1442-1443 | a typed-array write: the cell inside the view takes the value, a write outside the view is dropped, and nothing else changes |
| CyBuffers.CyBuffer.Get | src/backend/cybuffer.ts:337-345 | proxy getter: the cell iff the index is inside the view, else the offset error |
| CyBuffers.CyBuffer.Set | src/backend/cybuffer.ts:346-361 | proxy setter: the value range is checked before the index; the cell is set exactly when both pass, and nothing else changes |
| CyBuffers.CyBuffer.WriteUint8 | src/backend/cybuffer.ts:520-531 | value range then window; on success exactly cell `offset` becomes the value |
| CyBuffers.CyBuffer.ReadUint8 | src/backend/cybuffer.ts:1011-1014 | the checked cell, or the offset error |
| CyBuffers.CyBuffer.StoreUint16 | src/backend/cybuffer.ts:552-554 | the two stores of a 16-bit write put the word's bytes in the requested order and change nothing else |
| CyBuffers.CyBuffer.StoreUint32 | src/backend/cybuffer.ts:630-633 | the four stores of a 32-bit write put the word's bytes in the requested order and change nothing else |
| CyBuffers.CyBuffer.WriteUint16LE | src/backend/cybuffer.ts:541-557 | value range, then alignment, then window; on success bytes `(v div 256^k) mod 256` at `offset + k` and nothing else changes |
| CyBuffers.CyBuffer.WriteUint16BE | src/backend/cybuffer.ts:567-583 | same checks; the bytes most significant first |
| CyBuffers.CyBuffer.WriteUint16 | src/backend/cybuffer.ts:594-608 | writes in the order named (after normalization) |
| CyBuffers.CyBuffer.WriteUint32LE | src/backend/cybuffer.ts:618-636 | value range, then alignment, then window; four bytes least significant first |
| CyBuffers.CyBuffer.WriteUint32BE | src/backend/cybuffer.ts:646-664 | same checks; four bytes most significant first |
| CyBuffers.CyBuffer.WriteUint32 | src/backend/cybuffer.ts:675-689 | writes in the order named (after normalization) |
| CyBuffers.CyBuffer.ReadUint16LE | src/backend/cybuffer.ts:1023-1031 | alignment before window; the value of the two cells, low byte first, below 2^16 |
| CyBuffers.CyBuffer.ReadUint16BE | src/backend/cybuffer.ts:1040-1048 | alignment before window; the value of the two cells, high byte first |
| CyBuffers.CyBuffer.ReadUint16 | src/backend/cybuffer.ts:1058-1061 | reads in the order named |
| CyBuffers.CyBuffer.ReadUint32LE | src/backend/cybuffer.ts:1069-1083 | alignment before window; the unsigned value of the four cells, least significant first |
| CyBuffers.CyBuffer.ReadUint32BE | src/backend/cybuffer.ts:1091-1105 | alignment before window; the unsigned value of the four cells, most significant first |
| CyBuffers.CyBuffer.ReadUint32 | src/backend/cybuffer.ts:1114-1117 | reads in the order named |
| Views.WordRoundTrip | src/backend/cybuffer.ts:1023-1031 | a word's bytes read back in the same order give the word |
| Views.WordBytesAt | src/backend/cybuffer.ts:553-554 | byte `k` of a word is `(v div 256^k) mod 256`, or at `w-1-k` for big-endian |
| Views.WordWriteRead | src/backend/cybuffer.ts:541-557 | after a word write at `o`, the same-order read of the cells at `o` returns the value |
| CyBuffers.CyBuffer.WriteHexString | src/backend/cybuffer.ts:406-445 | a zero length or odd-length text fails first; a `0x` prefix is dropped, and a length equal to half the prefixed text becomes half the unprefixed text; then the window; on success the window holds the decoded pairs and nothing else changes |
| CyBuffers.CyBuffer.HexPairCells | src/backend/cybuffer.ts:435-442 | the loop leaves the decoded byte of pair `i` in cell `at + i` and every other cell as it was |
| Hex.NibbleOfDigit | src/backend/cybuffer.ts:436-437 | the `\| 0x20` and subtract-87-or-48 arithmetic gives a hex digit's value in either case |
| Hex.PairByteOfDigits | src/backend/cybuffer.ts:440-441 | two hex digits combine to `16·d(hi) + d(lo)` |
| Hex.DecodePairs | src/backend/cybuffer.ts:435-442 | `n` bytes; where both characters of pair `i` are hexadecimal digits, byte `i` is `16·d(v[2i]) + d(v[2i+1])` in either case |
| Hex.HexChar | src/backend/cybuffer.ts:1236-1245 | the encoder's digit is an upper-case hex digit of that value |
| Hex.EncodeDecodedHex | src/backend/cybuffer.ts:219-227 | encoding decoded hex text gives the text back, upper-cased |
| Hex.DecodeEncodedHex | src/backend/cybuffer.ts:934-937 | decoding the encoding of any bytes gives the bytes back |
| Hex.ReversePairsOfHex | src/backend/cybuffer.ts:946-952 | reversing the digit pairs of an encoding encodes the reversed bytes |
| Hex.ReversePairsPair | src/backend/cybuffer.ts:948-950 | pair `k` of the reversed pairs is pair `k` counted from the end |
| Views.CodeUnitsLatin1RoundTrip | src/backend/cybuffer.ts:454-463 | text whose code units all fit a byte is stored without loss: reading each cell back as one character gives the text again |
| Views.CodeUnitsLength | src/backend/cybuffer.ts:461 | a length below the text's writes the code units of its prefix; a longer one pads them with zeros (`charCodeAt` past the end stores 0) |
| CyBuffers.CyBuffer.CodeUnitCells | src/backend/cybuffer.ts:461 | the loop leaves code unit `i` modulo 256 in cell `at + i` and the rest as it was |
| CyBuffers.CyBuffer.WriteUtf8String | src/backend/cybuffer.ts:454-463 | zero length fails, then the window; on success the window holds the code units |
| CyBuffers.CyBuffer.WriteString | src/backend/cybuffer.ts:477-489 | `utf8` writes code units, `hex` writes `ceil(length / 2)` hex bytes, any other encoding fails; a failure changes nothing |
| Bits.WithBitSpec | src/backend/cybuffer.ts:505-508 | setting or clearing bit `k` of a byte makes that bit the value and keeps the seven others |
| Bits.SetBitAtSpec | src/backend/cybuffer.ts:499-511 | a single-bit write changes the addressed bit only, MSB- or LSB-first |
| Bits.OrientedInjective | src/backend/cybuffer.ts:995-1001 | two different bit offsets in one byte address different bit positions |
| CyBuffers.CyBuffer.StoreBit | src/backend/cybuffer.ts:503-510 | the unchecked bit write is the single-bit update of its cell |
| CyBuffers.CyBuffer.WriteBit | src/backend/cybuffer.ts:499-511 | a value outside {0, 1} fails before the cell check; on success only the addressed bit changes |
| CyBuffers.CyBuffer.ReadBit | src/backend/cybuffer.ts:995-1001 | the addressed bit iff the bit offset is inside the view, else the offset error |
| Bits.WriteBitsSpecAt | src/backend/cybuffer.ts:708 | after the loop, bit `start + i` holds element `i` (missing elements clear their bit) and every other bit is unchanged |
| CyBuffers.CyBuffer.BitCells | src/backend/cybuffer.ts:708 | the loop performs the single-bit writes in order |
| CyBuffers.CyBuffer.WriteBits | src/backend/cybuffer.ts:699-711 | the window is `ceil(bitLength / 8)` cells from `bitOffset div 8`; then every bit write happens, unchecked |
| CyBuffers.CyBuffer.ReadBits | src/backend/cybuffer.ts:1129-1135 | succeeds iff every bit read is inside the view; returns that slice of the view's bits |
| Bits.BitsRoundTrip | src/backend/cybuffer.ts:258-262 | writing bits into zeroed bytes and reading every bit back gives the bits padded with zeros to whole bytes |
| CyBuffers.CyBuffer.Uint8Cells | src/backend/cybuffer.ts:728 | the loop over `[arrayOffset, length)` copies element `i` to cell `offset - arrayOffset + i` |
| Views.CopiedInStep | src/backend/cybuffer.ts:728 | one more iteration of the copy loop stores one more element |
| Views.CopiedInWhole | src/backend/cybuffer.ts:728 | copying a whole array from offset 0 splices it into the view |
| CyBuffers.CyBuffer.WriteUint8Array | src/backend/cybuffer.ts:721-731 | the window check, then the copy loop; nothing outside the view changes |
| CyBuffers.CyBuffer.WordCells | src/backend/cybuffer.ts:761-771 | the loop writes one word per iteration from cell `offset + w·k`, for exactly the number of iterations the `i += w` loop makes |
| Views.WordsInStep | src/backend/cybuffer.ts:762-764 | one more iteration stores one more word |
| Views.WordsInReadBack | src/backend/cybuffer.ts:280-284 | a buffer written word by word from an array reads every element back from its own cells |
| Views.WordsInPastLength | src/backend/cybuffer.ts:762-764 | an odd length of 1 still writes two cells |
| CyBuffers.CyBuffer.WriteUint16Array | src/backend/cybuffer.ts:743-774 | alignment before window; then the 16-bit word loop in the order named |
| CyBuffers.CyBuffer.WriteUint32Array | src/backend/cybuffer.ts:786-817 | alignment before window; then the 32-bit word loop in the order named |
| Bytes.LeBytesAt | src/backend/cybuffer.ts:834-837 | byte `k` of the little-endian digits is `(v div 256^k) mod 256` |
| Bytes.BeBytesAt | src/backend/cybuffer.ts:857-860 | byte `k` of the big-endian digits is `(v div 256^(n-1-k)) mod 256` |
| Bytes.BeBytesIsReversedLe | src/backend/cybuffer.ts:857-860 | the big-endian digits are the little-endian ones reversed |
| Bytes.LeDigit | src/backend/cybuffer.ts:834-837 | one more iteration of `value & 0xff`, `value >>= 8` appends the next little-endian digit |
| Bytes.BeDigit | src/backend/cybuffer.ts:857-860 | one more iteration from the back prepends the next big-endian digit |
| CyBuffers.CyBuffer.LeCells | src/backend/cybuffer.ts:834-837 | the loop stores the low `n` little-endian digits of the value from `at` |
| CyBuffers.CyBuffer.WriteBigIntLE | src/backend/cybuffer.ts:828-840 | a negative value fails before the window; on success the window holds `v mod 256^L`, least significant first |
| CyBuffers.CyBuffer.BeCells | src/backend/cybuffer.ts:857-860 | the backward loop stores the low `n` digits most significant first |
| CyBuffers.CyBuffer.WriteBigIntBE | src/backend/cybuffer.ts:851-863 | a negative value fails before the window; on success the window holds `v mod 256^L`, most significant first |
| CyBuffers.CyBuffer.WriteBigInt | src/backend/cybuffer.ts:875-888 | writes in the order named |
| Bytes.LeBytesRoundTrip | src/backend/cybuffer.ts:1177-1187 | reading back the little-endian digits gives `v mod 256^L` |
| Bytes.BeBytesRoundTrip | src/backend/cybuffer.ts:1195-1205 | reading back the big-endian digits gives `v mod 256^L` |
| Bytes.LeValueRoundTrip | src/backend/cybuffer.ts:828-840 | writing the value of any cells back gives the same cells |
| Bytes.BeValueRoundTrip | src/backend/cybuffer.ts:851-863 | the same for big-endian |
| Bytes.BeValueIsReversedLe | src/backend/cybuffer.ts:1195-1205 | the big-endian value of cells is the little-endian value of the reversed cells |
| CyBuffers.CyBuffer.ReadBigIntLE | src/backend/cybuffer.ts:1177-1187 | the window's little-endian value, or the window error |
| CyBuffers.CyBuffer.ReadBigIntBE | src/backend/cybuffer.ts:1195-1205 | the window's big-endian value, or the window error |
| CyBuffers.CyBuffer.ReadBigInt | src/backend/cybuffer.ts:1214-1222 | reads in the order named |
| Views.RangeBytesSplit | src/backend/cybuffer.ts:909-911 | a range of `a + b` values is the range of the first `a` followed by the range of `b` from `start + a` |
| CyBuffers.CyBuffer.RangeCells | src/backend/cybuffer.ts:909-911 | the loop stores `start, …, start + n - 1` from `at` |
| CyBuffers.CyBuffer.WriteRange | src/backend/cybuffer.ts:897-914 | start, then end, then window (so `end <= start` fails there); on success the window holds the range |
| CyBuffers.CyBuffer.ReadHexStringLE | src/backend/cybuffer.ts:934-937 | the window of the array buffer in upper-case hex, which decodes back to those bytes |
| CyBuffers.CyBuffer.ReadHexStringBE | src/backend/cybuffer.ts:946-952 | the same bytes reversed, in hex |
| CyBuffers.CyBuffer.ReadHexString | src/backend/cybuffer.ts:962-972 | reads in the order named |
| CyBuffers.CyBuffer.ReadUtf8String | src/backend/cybuffer.ts:981-984 | the window of the array buffer through the host's decoder |
| CyBuffers.CyBuffer.ReadUint8Array | src/backend/cybuffer.ts:1144-1147 | the window of the array buffer, cell by cell |
| CyBuffers.CyBuffer.ToHexString | src/backend/cybuffer.ts:1236-1245 | the whole array buffer in upper-case hex, reversed for big-endian, with `0x` when asked |
| CyBuffers.CyBuffer.ToUtf8String | src/backend/cybuffer.ts:1251 | the whole array buffer through the host's decoder |
| CyBuffers.CyBuffer.ToString | src/backend/cybuffer.ts:1259-1262 | `utf8` decodes; anything else is hex in platform order |
| CyBuffers.CyBuffer.ToBits | src/backend/cybuffer.ts:1269-1274 | every bit of the view, in order |
| CyBuffers.CyBuffer.ToUint8Array | src/backend/cybuffer.ts:1280 | the view's cells |
| CyBuffers.CyBuffer.ToBigInt | src/backend/cybuffer.ts:1299-1302 | the whole view's value in the order named; fails iff the view is empty |
| CyBuffers.CyBuffer.Equals | src/backend/cybuffer.ts:1315-1327 | true iff both views have the same cells (so false on a length mismatch) |
| CyBuffers.CyBuffer.IsEmpty | src/backend/cybuffer.ts:1333-1339 | true iff every cell is 0 |
| CyBuffers.CyBuffer.IsFull | src/backend/cybuffer.ts:1345-1351 | true iff every cell is 255 |
| CyBuffers.CyBuffer.DrawCells | src/backend/cybuffer.ts:1370-1372 | the loop stores draw `i` in cell `at + i` |
| CyBuffers.CyBuffer.RandomFill | src/backend/cybuffer.ts:1367-1373 | the window check; on success the window is overwritten with the draws and nothing else changes |
| CyBuffers.CyBuffer.Copy | src/backend/cybuffer.ts:1397-1402 | a fresh buffer viewing its whole array buffer and holding exactly the window's cells; fails exactly when `check` fails, with its error |
| CyBuffers.CyBuffer.Subarray | src/backend/cybuffer.ts:1411-1419 | a view on the same region at `offset` of the array buffer |
| Views.MirroredStep | src/backend/cybuffer.ts:1463-1469 | one exchange extends the mirrored border by one pair |
| CyBuffers.CyBuffer.MirrorCells | src/backend/cybuffer.ts:1463-1469 | the exchange loop mirrors `len / 2` pairs |
| Views.MirroredWhole | src/backend/cybuffer.ts:1457-1472 | mirroring every pair of a range splices in its reverse |
| Views.MirroredInvolution | src/backend/cybuffer.ts:1457-1472 | reversing a range twice restores the view |
| CyBuffers.CyBuffer.PartialReverse | src/backend/cybuffer.ts:1457-1472 | on success `new[o+i] = old[o+l-1-i]` inside the window, and every other cell is unchanged |
| CyBuffers.CyBuffer.Reverse | src/backend/cybuffer.ts:1478-1481 | the view reversed |
| Views.SwappedStep | src/backend/cybuffer.ts:1438-1446 | one outer iteration mirrors one more word |
| CyBuffers.CyBuffer.SwapCells | src/backend/cybuffer.ts:1437-1446 | the outer loop mirrors as many words as `i += w` steps below `offset + length` |
| Views.SwappedWord | src/backend/cybuffer.ts:1437-1446 | from offset 0, each whole word in the view is reversed |
| Views.SwappedPastWords | src/backend/cybuffer.ts:1437-1446 | from offset 0, cells past the last whole word are unchanged |
| Views.SwappedInvolution | src/backend/cybuffer.ts:1437-1446 | from offset 0, swapping twice restores the view |
| Views.SwapPastWindow | src/backend/cybuffer.ts:1437-1439 | with offset 1 the loop swaps past the window and pulls in a 0 from outside the view |
| CyBuffers.CyBuffer.Swap | src/backend/cybuffer.ts:1428-1449 | word length below 2, then odd word length, then the window; on success the outer loop's effect |
| Views.RotateLeftPasses | src/backend/cybuffer.ts:1487-1494 | the loop of `rotateLeft` and its last store make the left rotation |
| Views.RotateRightPasses | src/backend/cybuffer.ts:1500-1507 | the loop of `rotateRight` and its first store make the right rotation |
| Views.RotationsInverse | src/backend/cybuffer.ts:1487-1507 | each rotation undoes the other |
| Views.RotatedLeftNIsSplit | src/backend/cybuffer.ts:1487-1494 | `n` left rotations move the first `n` cells to the end |
| Views.RotatedLeftFullTurn | src/backend/cybuffer.ts:1487-1494 | as many left rotations as cells restore the view |
| CyBuffers.CyBuffer.RotateLeft | src/backend/cybuffer.ts:1487-1494 | a non-empty view is rotated left by one cell, the first cell moving to the end |
| CyBuffers.CyBuffer.RotateRight | src/backend/cybuffer.ts:1500-1507 | a non-empty view is rotated right by one cell, the last cell moving to the front |
| Views.LeftPassStep | src/backend/cybuffer.ts:1519 | one more iteration of the shift loop copies one more cell down |
| Views.RightPassStep | src/backend/cybuffer.ts:1535 | one more iteration of the backward loop copies one more cell up |
| Views.ShiftLeftPasses | src/backend/cybuffer.ts:1516-1523 | the copy loop and the clearing loop together make the left shift |
| Views.ShiftRightPasses | src/backend/cybuffer.ts:1532-1539 | the copy loop and the clearing loop together make the right shift |
| Views.ShiftedLeftIsSplit | src/backend/cybuffer.ts:1516-1523 | shifting left by `k` is the tail followed by `k` zeros |
| Views.ShiftedRightIsSplit | src/backend/cybuffer.ts:1532-1539 | shifting right by `k` is `k` zeros followed by the head |
| Views.ShiftLeftThenRight | src/backend/cybuffer.ts:1516-1539 | a left then right shift by `k` clears the first `k` cells and keeps the rest |
| Views.ShiftLeftCompose | src/backend/cybuffer.ts:1516-1523 | two left shifts add up |
| Views.ShiftRightCompose | src/backend/cybuffer.ts:1532-1539 | two right shifts add up |
| CyBuffers.CyBuffer.ShiftLeft | src/backend/cybuffer.ts:1516-1523 | the window is checked, then the whole view shifts left |
| CyBuffers.CyBuffer.ShiftRight | src/backend/cybuffer.ts:1532-1539 | the window is checked, then the whole view shifts right |
| Views.FillWhole | src/backend/cybuffer.ts:1548-1554 | filling the whole view makes every cell the value |
| CyBuffers.CyBuffer.Fill | src/backend/cybuffer.ts:1548-1554 | value range before window; on success exactly the window holds the value |
| CyBuffers.CyBuffer.Clear | src/backend/cybuffer.ts:1562-1566 | on success exactly the window is zero |
| CyBuffers.CyBuffer.Alloc | src/backend/cybuffer.ts:205-209 | a zeroed buffer, or filled with the value; fails on a negative length, a bad value, or a fill of an empty buffer |
| CyBuffers.CyBuffer.FromHexString | src/backend/cybuffer.ts:219-227 | for hex text the buffer is a fresh, whole array buffer holding the decoded bytes, and `toHexString` gives the text upper-cased, with `0x` in front when asked; empty or odd text fails |
| CyBuffers.CyBuffer.FromUtf8String | src/backend/cybuffer.ts:234-238 | one cell per code unit; empty text fails |
| CyBuffers.CyBuffer.FromString | src/backend/cybuffer.ts:246-250 | `|value|` cells; `utf8` code units, or for `hex` the decoded bytes in the lower half; an empty `utf8` value, or an empty or odd `hex` value, is `InvalidStringLength`, a `hex` value with no pair after `0x` is `LengthOutOfBounds`, any other encoding is `InvalidEncoding` |
| CyBuffers.CyBuffer.FromBits | src/backend/cybuffer.ts:258-262 | the buffer's bits read back are the bits padded with zeros to whole bytes |
| CyBuffers.CyBuffer.FromUint8Array | src/backend/cybuffer.ts:269-273 | the buffer holds the array; an empty array fails |
| CyBuffers.CyBuffer.FromUint16Array | src/backend/cybuffer.ts:280-284 | two cells per element, each element read back from its cells |
| CyBuffers.CyBuffer.FromUint32Array | src/backend/cybuffer.ts:291-295 | four cells per element, each element read back from its cells |
| CyBuffers.CyBuffer.FromBigInt | src/backend/cybuffer.ts:303-310 | `ceil(hexDigits(v) / 2)` cells whose value in the order used is `v`; a negative value fails |
| CyBuffers.HexDigitsFit | src/backend/cybuffer.ts:306 | half the hex digits, rounded up, is the least number of bytes holding the value |
| CyBuffers.CyBuffer.FromRange | src/backend/cybuffer.ts:318-322 | `end - start` cells holding the range; the length check comes first, then start, end and the window |
| Queries.Skipped | src/general/urls.ts:16-18 | the loop skips `undefined`, `null`, `""`, `"null"` and `"undefined"`; every number and boolean, `0` and `false` included, is kept |
| Queries.Decimal | src/general/urls.ts:20 | `String(n)` begins with `-` iff `n` is negative |
| Queries.WithParamsExpansion | src/general/urls.ts:13-21 | the result is the base URL followed by one segment per kept entry, in entry order; the first segment gets `?` iff the base URL has none, every later one `&` |
| Queries.StepAddsQuery | src/general/urls.ts:20 | a kept entry appends its separator and segment, after which the URL has a `?` |
| Queries.WithParams | src/general/urls.ts:13-21 | the loop folded over the entries in order; the result always begins with the base URL |
| Queries.WithParamsNoneKept | src/general/urls.ts:13-23 | with no kept entry the result is the base URL |
| Queries.WithOneParam | src/general/urls.ts:20 | one kept entry appends exactly `sep key=value` |
| Queries.JoinedLength | src/general/urls.ts:20 | every kept entry adds at least its separator and `=` |
| GeneralUrls.AddParamsToUrl | src/general/urls.ts:7-24 | the loop computes the fold, so the result is the base URL plus the verbatim segments of the kept entries |
| FrontendUrls.AddParamsToUrl | src/frontend/urls.ts:7-24 | the same with keys and values through `encodeURIComponent` |
| Formats.SliceTo | src/main/formats.ts:207 | `slice(0, end)` is always a prefix: `end` characters when `end` is within the string, all of it past the end, the string without its last `-end` characters for a negative `end`, and empty once those are all of them |
| Formats.TruncateString | src/main/formats.ts:205-208 | a string that fits in `len` is returned as it is; otherwise the result is a prefix of it followed by `...`, `len + 3` characters for a non-negative `len` |
| Formats.TruncateShape | src/main/formats.ts:205-208 | a fitting string is unchanged; otherwise its first `len` characters and `...`, `len + 3` in all |
| Formats.TruncatePrefix | src/main/formats.ts:205-208 | the result begins with the first `min(len, |str|)` characters |
| Formats.TruncateIdempotent | src/main/formats.ts:205-208 | truncating again with the same non-negative `len` changes nothing |
| Formats.TruncateNegativeNotIdempotent | src/main/formats.ts:207 | with a negative `len`, truncating again cuts the `...` instead |

## Left out

- `safeRandomFill` calls into `node:crypto`. It is not modelled.
- RandomFill: `Math.random() * 256` is the parameter `draw`. The model does not say that the draws are random.
- ReadUint8Array, ToUint8Array: the result is a copy of the cells taken at the time of the call. The source returns a `Uint8Array` over the same array buffer, so later writes through the buffer show in it and writes into it change the buffer. That aliasing is not modelled.
- ReadUtf8String, ToUtf8String: Node's UTF-8 decoder is the parameter `decode`. Decoding itself is not modelled.
- `readUint16Array`, `readUint32Array`, `toUint16Array` and `toUint32Array` reinterpret bytes in host-native order, and their errors come from the JS engine. They are not modelled.
- The optional `check` and `verifyAlignment` flags are always on in the modelled methods. The unchecked stores inside the loops of `writeBits` and of the word-array writers are made on the cell sequence, not through the store methods. `BitCells` sets one bit per step with `Put` and `WithBit`; `Bits.SetBitAtIsPut` shows this is the `SetBitAt` update that `StoreBit` states. `WordCells` writes each word as `PutAll` of `WordBytes`, the update that `StoreUint16` and `StoreUint32` state.
- Default arguments are not modelled. Every argument is explicit. The default length of `writeBigInt*` is left out because it goes through a double conversion.
- Arguments are integers. The model leaves out NaN, fractions, non-number arguments and the type checks that throw `TypeError`, such as the `length % 1` check of `writeHexString`.
- The `Proxy` and iterator machinery is reduced to `Get` and `Set`.
- Characters: a Dafny `char` is a Unicode scalar value, while a JavaScript string is a sequence of UTF-16 code units. A character outside the Basic Multilingual Plane (an emoji, say) is one `char` and one cell in the model, where the source sees two code units and stores two cells. Lengths, `CodeUnits`, `FromUtf8String`, `FromString`, `WriteUtf8String`, `WriteString` and `TruncateString` therefore differ from the source for such text; for text inside that plane they agree. Lone surrogates cannot be represented.
- FrontendUrls.AddParamsToUrl: `encode` is a total function, so the `URIError` that `encodeURIComponent` throws on a lone surrogate is not modelled.
- `Object.entries` order is the order of the entry sequence.
- `encodeURIComponent` is the parameter `encode`.
- `value.toString()` of a number is modelled for integers only (`Decimal`), with no exponent form.
- Bit and word arithmetic (`&`, `|`, `<<`, `>>`, `>>>`) is written as the equal integer arithmetic on byte values. `PairByte` keeps the 8-bit `|` of the hex decoder.
- The write loops of `CyBuffer` run on a copy of the view's cells, which is written back to the region in one step (`Commit`). The model keeps the final contents of every cell and the order of the loop's own reads and writes within that copy. It does not keep the order in which individual region cells are written, or the states in between. No other code can observe those in between in this single-threaded model.
- Views.SwappedWord, Views.SwappedInvolution: these describe `swap` only from offset 0 over whole words. That is where the loop stays inside its window. Other offsets are described by `Swapped` itself and by `SwapPastWindow`.
