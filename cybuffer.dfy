/**
 * `CyBuffer`: a fixed-length view of bytes over a shared array buffer, with
 * checked reads and writes of bytes, bits, 16/32-bit words, big integers,
 * strings and typed arrays, and in-place transformations.
 *
 * The array buffer is `region`; the view is its cells
 * `[offset, offset + length)` (`Contents()`, the source's `this.array`).
 * Every operation that can throw returns an `Outcome` or a `Result` whose
 * error names the first check that failed, in the source's order; a failed
 * operation changes nothing.
 */
module CyBuffers {
  import opened Bytes
  import opened Bits
  import opened Hex
  import opened Endian
  import opened Outcomes
  import opened Views

  /** An element of a `Uint16Array`. */
  type uint16 = x: nat | x < 0x1_0000

  /** An element of a `Uint32Array`. */
  type uint32 = x: nat | x < 0x1_0000_0000

  /** An element of a `Bit[]`. */
  type Bit = x: int | 0 <= x <= 1

  class CyBuffer {
    /** The array buffer; views made by `Subarray` share it. */
    const region: array<byte>
    /** Where the view starts in `region`. */
    const offset: nat
    /** The number of cells in the view. */
    const length: nat
    /** The byte order of the host the buffer runs on. */
    const host: Endianness
    /** The probed platform endianness every endianness argument is normalized against. */
    const platformEndianness: Endianness

    /** The view lies inside its array buffer, and the probe has answered. */
    ghost predicate Valid()
    {
      offset + length <= region.Length && platformEndianness == ProbeEndianness(host)
    }

    /** `this.array`: the cells of the view. */
    function Contents(): (r: seq<byte>)
      reads region
      requires Valid()
      ensures |r| == length
    {
      region[offset..offset + length]
    }

    /** The cells of the array buffer outside the view. */
    ghost function Outside(): (seq<byte>, seq<byte>)
      reads region
      requires Valid()
    {
      (region[..offset], region[offset + length..])
    }

    /** `new CyBuffer(length)`: a fresh zeroed array buffer of `length` cells, viewed whole. */
    constructor (length: nat, host: Endianness)
      ensures Valid() && fresh(region)
      ensures this.length == length && offset == 0 && region.Length == length && this.host == host
      ensures Contents() == Zeros(length)
    {
      this.host := host;
      this.platformEndianness := ProbeEndianness(host);
      this.region := new byte[length](_ => 0);
      this.offset := 0;
      this.length := length;
      new;
      assert Contents() == Zeros(length);
    }

    /** `new CyBuffer(_, { arrayBuffer, offset, length })`: a view over an existing array buffer. */
    constructor View(arrayBuffer: array<byte>, offset: nat, length: nat, host: Endianness)
      requires offset + length <= arrayBuffer.Length
      ensures Valid()
      ensures region == arrayBuffer && this.offset == offset && this.length == length && this.host == host
    {
      this.host := host;
      this.platformEndianness := ProbeEndianness(host);
      this.region := arrayBuffer;
      this.offset := offset;
      this.length := length;
    }

    /**
     * The constructor with its length check: a negative length is refused,
     * any other gives a fresh zeroed buffer.
     */
    static method New(length: int, host: Endianness) returns (r: Result<CyBuffer>)
      ensures r.Err? <==> length < 0
      ensures r.Err? ==> r.error == InvalidBufferLength
      ensures r.Ok? ==> (r.value.Valid() && fresh(r.value.region) && r.value.length == length
                      && r.value.offset == 0 && r.value.region.Length == length && r.value.host == host
                      && r.value.Contents() == Zeros(length))
    {
      if length < 0 {
        return Err(InvalidBufferLength);
      }
      var b := new CyBuffer(length, host);
      return Ok(b);
    }

    /**
     * The constructor's options form: the length check, then the typed-array
     * view over `arrayBuffer` from `viewOffset` (default 0) of `viewLength`
     * cells (default `length`), which refuses a window outside the buffer.
     */
    static method WithArrayBuffer(length: int, arrayBuffer: array<byte>, viewOffset: Option<int>, viewLength: Option<int>,
                                  host: Endianness)
      returns (r: Result<CyBuffer>)
      ensures r.Ok? <==> length >= 0 && ViewFits(arrayBuffer.Length, OrElse(viewOffset, 0), OrElse(viewLength, length))
      ensures r.Err? ==> r.error == (if length < 0 then InvalidBufferLength else ViewOutOfBounds)
      ensures r.Ok? ==> (r.value.Valid() && r.value.region == arrayBuffer && r.value.host == host
                      && r.value.offset == OrElse(viewOffset, 0) && r.value.length == OrElse(viewLength, length))
    {
      if length < 0 {
        return Err(InvalidBufferLength);
      }
      var start := if viewOffset.Some? then viewOffset.value else 0;
      var count := if viewLength.Some? then viewLength.value else length;
      if start < 0 || count < 0 || start + count > arrayBuffer.Length {
        return Err(ViewOutOfBounds);
      }
      var b := new CyBuffer.View(arrayBuffer, start, count, host);
      return Ok(b);
    }

    // -------------------------------------------------------------------------
    // Checks and cell access
    // -------------------------------------------------------------------------

    /** `normalizeEndianness`. */
    function NormalizeEndianness(e: Endianness): (r: Endianness)
      requires Valid()
      ensures r == e
    {
      Normalize(platformEndianness, e)
    }

    /**
     * `check(offset, length)`: the window must start inside the view, be at
     * least one cell long and end inside the view; the first violated
     * condition names the error.
     */
    function Check(offset: int, length: int): (r: Outcome)
      ensures r.Pass? <==> 0 <= offset && 1 <= length && offset + length <= this.length
      ensures r == Fail(OffsetOutOfBounds) <==> offset < 0 || offset >= this.length
      ensures r == Fail(LengthOutOfBounds) <==> 0 <= offset < this.length && (length < 1 || length > this.length)
    {
      if offset < 0 || offset >= this.length then Fail(OffsetOutOfBounds)
      else if length < 1 || length > this.length then Fail(LengthOutOfBounds)
      else if offset + length > this.length then Fail(WindowOutOfBounds)
      else Pass
    }

    /** `this.array[q]` as a value stored again: 0 (`undefined`) outside the view. */
    function Load(q: int): (b: byte)
      reads region
      requires Valid()
      ensures b == At(Contents(), q)
    {
      if 0 <= q < length then region[offset + q] else 0
    }

    /** `this.array[q] = b`: ignored outside the view; nothing outside the view changes. */
    method Store(q: int, b: byte)
      requires Valid()
      modifies region
      ensures Outside() == old(Outside())
      ensures Contents() == Put(old(Contents()), q, b)
    {
      if 0 <= q < length {
        region[offset + q] := b;
        assert region[..offset] == old(region[..offset]);
        assert region[offset + length..] == old(region[offset + length..]);
      }
    }

    /** Writes `cells` over the whole view in one step; nothing outside the view changes. */
    method Commit(cells: seq<byte>)
      requires Valid() && |cells| == length
      modifies region
      ensures Outside() == old(Outside())
      ensures Contents() == cells
    {
      forall k | offset <= k < offset + length {
        region[k] := cells[k - offset];
      }
      assert region[..offset] == old(region[..offset]);
      assert region[offset + length..] == old(region[offset + length..]);
    }

    // -------------------------------------------------------------------------
    // Index access (the proxy)
    // -------------------------------------------------------------------------

    /** `buffer[index]`: checked like a one-cell window. */
    function Get(index: int): (r: Result<byte>)
      reads region
      requires Valid()
      ensures r.Ok? <==> 0 <= index < length
      ensures r.Ok? ==> r.value == Contents()[index]
      ensures r.Err? ==> r.error == OffsetOutOfBounds
    {
      match Check(index, 1)
      case Fail(e) => Err(e)
      case Pass => Ok(region[offset + index])
    }

    /** `buffer[index] = value`: the value must be a byte, then the index is checked. */
    method Set(index: int, value: int) returns (outcome: Outcome)
      requires Valid()
      modifies region
      ensures outcome == if value < 0 || value > 255 then Fail(ValueOutOfBounds) else Check(index, 1)
      ensures Outside() == old(Outside())
      ensures Contents() == if outcome.Pass? then old(Contents())[index := value as byte] else old(Contents())
    {
      if value < 0 || value > 255 {
        return Fail(ValueOutOfBounds);
      }
      outcome := Check(index, 1);
      if outcome.Pass? {
        Store(index, value as byte);
      }
    }

    /** `writeUint8(value, offset)`: the value must be a byte, then the cell is checked. */
    method WriteUint8(value: int, offset: int) returns (outcome: Outcome)
      requires Valid()
      modifies region
      ensures outcome == if value < 0 || value > 255 then Fail(ValueOutOfBounds) else Check(offset, 1)
      ensures Outside() == old(Outside())
      ensures Contents() == if outcome.Pass? then old(Contents())[offset := value as byte] else old(Contents())
    {
      if value < 0 || value > 255 {
        return Fail(ValueOutOfBounds);
      }
      outcome := Check(offset, 1);
      if outcome.Pass? {
        Store(offset, value as byte);
      }
    }

    /** `readUint8(offset)`: the checked cell. */
    function ReadUint8(offset: int): (r: Result<byte>)
      reads region
      requires Valid()
      ensures r.Ok? <==> 0 <= offset < length
      ensures r.Ok? ==> r.value == Contents()[offset]
      ensures r.Err? ==> r.error == OffsetOutOfBounds
    {
      match Check(offset, 1)
      case Fail(e) => Err(e)
      case Pass => Ok(Load(offset))
    }

    // -------------------------------------------------------------------------
    // 16- and 32-bit words
    // -------------------------------------------------------------------------

    /** The checks of a `w`-byte word write, in the source's order: range, alignment, window. */
    function WordGuard(value: int, offset: int, w: nat): Outcome
      requires w > 0
    {
      if value < 0 || value >= Pow256(w) then Fail(ValueOutOfBounds)
      else if offset % w != 0 then Fail(Misaligned)
      else Check(offset, w)
    }

    /** The stores of `writeUint16LE`/`BE` once its checks are passed (or switched off). */
    method StoreUint16(at: int, v: nat, bigEndian: bool)
      requires Valid() && v < 0x1_0000
      modifies region
      ensures Outside() == old(Outside())
      ensures Contents() == PutAll(old(Contents()), at, WordBytes(v, 2, bigEndian))
    {
      ghost var s0 := Contents();
      var lo, hi := (v % 256) as byte, ((v / 0x100) % 256) as byte;
      if bigEndian {
        Store(at, hi);
        Store(at + 1, lo);
        PutCells2(s0, at, hi, lo);
      } else {
        Store(at, lo);
        Store(at + 1, hi);
        PutCells2(s0, at, lo, hi);
      }
      WordCells16(v, bigEndian);
    }

    /** The stores of `writeUint32LE`/`BE` once its checks are passed (or switched off). */
    method StoreUint32(at: int, v: nat, bigEndian: bool)
      requires Valid() && v < 0x1_0000_0000
      modifies region
      ensures Outside() == old(Outside())
      ensures Contents() == PutAll(old(Contents()), at, WordBytes(v, 4, bigEndian))
    {
      ghost var s0 := Contents();
      var b0, b1 := (v % 256) as byte, ((v / 0x100) % 256) as byte;
      var b2, b3 := ((v / 0x1_0000) % 256) as byte, ((v / 0x100_0000) % 256) as byte;
      if bigEndian {
        Store(at, b3);
        Store(at + 1, b2);
        Store(at + 2, b1);
        Store(at + 3, b0);
        PutCells4(s0, at, b3, b2, b1, b0);
      } else {
        Store(at, b0);
        Store(at + 1, b1);
        Store(at + 2, b2);
        Store(at + 3, b3);
        PutCells4(s0, at, b0, b1, b2, b3);
      }
      WordCells32(v, bigEndian);
    }

    /** `writeUint16LE(value, offset)`: low byte first. */
    method WriteUint16LE(value: int, offset: int) returns (outcome: Outcome)
      requires Valid()
      modifies region
      ensures outcome == WordGuard(value, offset, 2)
      ensures outcome.Pass? ==> 0 <= value < 0x1_0000 && offset % 2 == 0 && 0 <= offset && offset + 2 <= length
      ensures Outside() == old(Outside())
      ensures Contents() == if outcome.Pass? then PutAll(old(Contents()), offset, WordBytes(value, 2, false)) else old(Contents())
    {
      assert Pow256(2) == 0x1_0000;
      if value < 0 || value > 0xffff {
        return Fail(ValueOutOfBounds);
      }
      if offset % 2 != 0 {
        return Fail(Misaligned);
      }
      outcome := Check(offset, 2);
      if outcome.Pass? {
        StoreUint16(offset, value, false);
      }
    }

    /** `writeUint16BE(value, offset)`: high byte first. */
    method WriteUint16BE(value: int, offset: int) returns (outcome: Outcome)
      requires Valid()
      modifies region
      ensures outcome == WordGuard(value, offset, 2)
      ensures outcome.Pass? ==> 0 <= value < 0x1_0000 && offset % 2 == 0 && 0 <= offset && offset + 2 <= length
      ensures Outside() == old(Outside())
      ensures Contents() == if outcome.Pass? then PutAll(old(Contents()), offset, WordBytes(value, 2, true)) else old(Contents())
    {
      assert Pow256(2) == 0x1_0000;
      if value < 0 || value > 0xffff {
        return Fail(ValueOutOfBounds);
      }
      if offset % 2 != 0 {
        return Fail(Misaligned);
      }
      outcome := Check(offset, 2);
      if outcome.Pass? {
        StoreUint16(offset, value, true);
      }
    }

    /** `writeUint16(value, offset, endianness)`: the byte order named after normalizing. */
    method WriteUint16(value: int, offset: int, endianness: Endianness) returns (outcome: Outcome)
      requires Valid()
      modifies region
      ensures outcome == WordGuard(value, offset, 2)
      ensures outcome.Pass? ==> 0 <= value < 0x1_0000 && offset % 2 == 0 && 0 <= offset && offset + 2 <= length
      ensures Outside() == old(Outside())
      ensures Contents() == if outcome.Pass? then PutAll(old(Contents()), offset, WordBytes(value, 2, endianness == BE))
                            else old(Contents())
    {
      if NormalizeEndianness(endianness) == LE {
        outcome := WriteUint16LE(value, offset);
      } else {
        outcome := WriteUint16BE(value, offset);
      }
    }

    /** `writeUint32LE(value, offset)`: least significant byte first. */
    method WriteUint32LE(value: int, offset: int) returns (outcome: Outcome)
      requires Valid()
      modifies region
      ensures outcome == WordGuard(value, offset, 4)
      ensures outcome.Pass? ==> 0 <= value < 0x1_0000_0000 && offset % 4 == 0 && 0 <= offset && offset + 4 <= length
      ensures Outside() == old(Outside())
      ensures Contents() == if outcome.Pass? then PutAll(old(Contents()), offset, WordBytes(value, 4, false)) else old(Contents())
    {
      assert Pow256(4) == 0x1_0000_0000;
      if value < 0 || value > 0xffff_ffff {
        return Fail(ValueOutOfBounds);
      }
      if offset % 4 != 0 {
        return Fail(Misaligned);
      }
      outcome := Check(offset, 4);
      if outcome.Pass? {
        StoreUint32(offset, value, false);
      }
    }

    /** `writeUint32BE(value, offset)`: most significant byte first. */
    method WriteUint32BE(value: int, offset: int) returns (outcome: Outcome)
      requires Valid()
      modifies region
      ensures outcome == WordGuard(value, offset, 4)
      ensures outcome.Pass? ==> 0 <= value < 0x1_0000_0000 && offset % 4 == 0 && 0 <= offset && offset + 4 <= length
      ensures Outside() == old(Outside())
      ensures Contents() == if outcome.Pass? then PutAll(old(Contents()), offset, WordBytes(value, 4, true)) else old(Contents())
    {
      assert Pow256(4) == 0x1_0000_0000;
      if value < 0 || value > 0xffff_ffff {
        return Fail(ValueOutOfBounds);
      }
      if offset % 4 != 0 {
        return Fail(Misaligned);
      }
      outcome := Check(offset, 4);
      if outcome.Pass? {
        StoreUint32(offset, value, true);
      }
    }

    /** `writeUint32(value, offset, endianness)`: the byte order named after normalizing. */
    method WriteUint32(value: int, offset: int, endianness: Endianness) returns (outcome: Outcome)
      requires Valid()
      modifies region
      ensures outcome == WordGuard(value, offset, 4)
      ensures outcome.Pass? ==> 0 <= value < 0x1_0000_0000 && offset % 4 == 0 && 0 <= offset && offset + 4 <= length
      ensures Outside() == old(Outside())
      ensures Contents() == if outcome.Pass? then PutAll(old(Contents()), offset, WordBytes(value, 4, endianness == BE))
                            else old(Contents())
    {
      if NormalizeEndianness(endianness) == LE {
        outcome := WriteUint32LE(value, offset);
      } else {
        outcome := WriteUint32BE(value, offset);
      }
    }

    /** `readUint16LE(offset)`: `a | b << 8`. */
    function ReadUint16LE(offset: int): (r: Result<nat>)
      reads region
      requires Valid()
      ensures r.Ok? <==> offset % 2 == 0 && 0 <= offset && offset + 2 <= length
      ensures r.Err? ==> r.error == (if offset % 2 != 0 then Misaligned else Check(offset, 2).error)
      ensures r.Ok? ==> r.value < 0x1_0000 && r.value == WordValue(Contents()[offset..offset + 2], false)
    {
      if offset % 2 != 0 then Err(Misaligned)
      else match Check(offset, 2)
        case Fail(e) => Err(e)
        case Pass =>
          WordValue16(Contents()[offset..offset + 2], false);
          Ok(Load(offset) as nat + 0x100 * Load(offset + 1) as nat)
    }

    /** `readUint16BE(offset)`: `a << 8 | b`. */
    function ReadUint16BE(offset: int): (r: Result<nat>)
      reads region
      requires Valid()
      ensures r.Ok? <==> offset % 2 == 0 && 0 <= offset && offset + 2 <= length
      ensures r.Err? ==> r.error == (if offset % 2 != 0 then Misaligned else Check(offset, 2).error)
      ensures r.Ok? ==> r.value < 0x1_0000 && r.value == WordValue(Contents()[offset..offset + 2], true)
    {
      if offset % 2 != 0 then Err(Misaligned)
      else match Check(offset, 2)
        case Fail(e) => Err(e)
        case Pass =>
          WordValue16(Contents()[offset..offset + 2], true);
          Ok(0x100 * Load(offset) as nat + Load(offset + 1) as nat)
    }

    /** `readUint16(offset, endianness)`. */
    function ReadUint16(offset: int, endianness: Endianness): (r: Result<nat>)
      reads region
      requires Valid()
      ensures r.Ok? <==> offset % 2 == 0 && 0 <= offset && offset + 2 <= length
      ensures r.Ok? ==> r.value == WordValue(Contents()[offset..offset + 2], endianness == BE)
    {
      if NormalizeEndianness(endianness) == LE then ReadUint16LE(offset) else ReadUint16BE(offset)
    }

    /** `readUint32LE(offset)`: `a | b << 8 | c << 16 | d << 24`, unsigned. */
    function ReadUint32LE(offset: int): (r: Result<nat>)
      reads region
      requires Valid()
      ensures r.Ok? <==> offset % 4 == 0 && 0 <= offset && offset + 4 <= length
      ensures r.Err? ==> r.error == (if offset % 4 != 0 then Misaligned else Check(offset, 4).error)
      ensures r.Ok? ==> r.value < 0x1_0000_0000 && r.value == WordValue(Contents()[offset..offset + 4], false)
    {
      if offset % 4 != 0 then Err(Misaligned)
      else match Check(offset, 4)
        case Fail(e) => Err(e)
        case Pass =>
          WordValue32(Contents()[offset..offset + 4], false);
          Ok(Load(offset) as nat + 0x100 * Load(offset + 1) as nat
             + 0x1_0000 * Load(offset + 2) as nat + 0x100_0000 * Load(offset + 3) as nat)
    }

    /** `readUint32BE(offset)`: `a << 24 | b << 16 | c << 8 | d`, unsigned. */
    function ReadUint32BE(offset: int): (r: Result<nat>)
      reads region
      requires Valid()
      ensures r.Ok? <==> offset % 4 == 0 && 0 <= offset && offset + 4 <= length
      ensures r.Err? ==> r.error == (if offset % 4 != 0 then Misaligned else Check(offset, 4).error)
      ensures r.Ok? ==> r.value < 0x1_0000_0000 && r.value == WordValue(Contents()[offset..offset + 4], true)
    {
      if offset % 4 != 0 then Err(Misaligned)
      else match Check(offset, 4)
        case Fail(e) => Err(e)
        case Pass =>
          WordValue32(Contents()[offset..offset + 4], true);
          Ok(0x100_0000 * Load(offset) as nat + 0x1_0000 * Load(offset + 1) as nat
             + 0x100 * Load(offset + 2) as nat + Load(offset + 3) as nat)
    }

    /** `readUint32(offset, endianness)`. */
    function ReadUint32(offset: int, endianness: Endianness): (r: Result<nat>)
      reads region
      requires Valid()
      ensures r.Ok? <==> offset % 4 == 0 && 0 <= offset && offset + 4 <= length
      ensures r.Ok? ==> r.value == WordValue(Contents()[offset..offset + 4], endianness == BE)
    {
      if NormalizeEndianness(endianness) == LE then ReadUint32LE(offset) else ReadUint32BE(offset)
    }

    // -------------------------------------------------------------------------
    // Strings
    // -------------------------------------------------------------------------

    /**
     * `writeHexString(value, offset, length)`: `length` bytes, two characters
     * each, from `value` without its `0x` prefix. A prefixed `value` whose
     * `length` is the default `|value| / 2` has that length reduced by one.
     */
    method WriteHexString(value: string, offset: int, length: int) returns (outcome: Outcome)
      requires Valid()
      modifies region
      ensures outcome == if length == 0 || |value| % 2 != 0 then Fail(InvalidStringLength)
                         else Check(offset, HexLength(value, length))
      ensures outcome.Pass? ==> HexLength(value, length) >= 1
      ensures Outside() == old(Outside())
      ensures Contents() == if outcome.Pass? then PutAll(old(Contents()), offset, DecodePairs(Strip0x(value), HexLength(value, length)))
                            else old(Contents())
    {
      if length == 0 || |value| % 2 != 0 {
        return Fail(InvalidStringLength);
      }
      var v, n := value, length;
      if HasPrefix0x(value) {
        if 2 * n == |value| {
          n := (|value| - 2) / 2;
        }
        v := value[2..];
      }
      assert v == Strip0x(value) && n == HexLength(value, length);
      outcome := Check(offset, n);
      if outcome.Pass? {
        var cells := HexPairCells(Contents(), offset, v, n);
        Commit(cells);
      }
    }

    /** The loop of `writeHexString` on the cells: cell `at + i` takes the byte the pair at `2i` decodes to. */
    static method HexPairCells(cells: seq<byte>, at: int, v: string, n: nat) returns (r: seq<byte>)
      ensures r == PutAll(cells, at, DecodePairs(v, n))
    {
      ghost var part := DecodePairs(v, n);
      PutAllEmpty(cells, at);
      r := cells;
      var i := 0;
      while i < n
        invariant 0 <= i <= n
        invariant r == PutAll(cells, at, part[..i])
      {
        var hi, lo := CodeAt(v, 2 * i), CodeAt(v, 2 * i + 1);
        PutAllSnoc(cells, at, part[..i], part[i]);
        SliceSnoc(part, 0, i);
        r := Put(r, at + i, PairByte(hi, lo));
        i := i + 1;
      }
      assert part[..n] == part;
    }

    /** The loop of `writeUtf8String` on the cells: cell `at + i` takes code unit `i` modulo 256. */
    static method CodeUnitCells(cells: seq<byte>, at: int, value: string, n: nat) returns (r: seq<byte>)
      ensures r == PutAll(cells, at, CodeUnits(value, n))
    {
      ghost var part := CodeUnits(value, n);
      PutAllEmpty(cells, at);
      r := cells;
      var i := 0;
      while i < n
        invariant 0 <= i <= n
        invariant r == PutAll(cells, at, part[..i])
      {
        PutAllSnoc(cells, at, part[..i], part[i]);
        SliceSnoc(part, 0, i);
        r := Put(r, at + i, (CodeAt(value, i) % 256) as byte);
        i := i + 1;
      }
      assert part[..n] == part;
    }

    /** `writeUtf8String(value, offset, length)`: one cell per UTF-16 code unit, truncated to 8 bits. */
    method WriteUtf8String(value: string, offset: int, length: int) returns (outcome: Outcome)
      requires Valid()
      modifies region
      ensures outcome == if length == 0 then Fail(InvalidStringLength) else Check(offset, length)
      ensures Outside() == old(Outside())
      ensures Contents() == if outcome.Pass? then PutAll(old(Contents()), offset, CodeUnits(value, length)) else old(Contents())
    {
      if length == 0 {
        return Fail(InvalidStringLength);
      }
      outcome := Check(offset, length);
      if outcome.Fail? {
        return;
      }
      var cells := CodeUnitCells(Contents(), offset, value, length);
      Commit(cells);
    }

    /**
     * `writeString(value, encoding, offset, length)`: `"utf8"` writes code
     * units, `"hex"` writes `ceil(length / 2)` bytes of hexadecimal text, any
     * other encoding is refused.
     */
    method WriteString(value: string, encoding: string, offset: int, length: int) returns (outcome: Outcome)
      requires Valid()
      modifies region
      ensures encoding == "utf8" ==> outcome == (if length == 0 then Fail(InvalidStringLength) else Check(offset, length))
      ensures encoding == "utf8" && outcome.Pass? ==> Contents() == PutAll(old(Contents()), offset, CodeUnits(value, length))
      ensures encoding == "hex" ==> outcome == (if (length + 1) / 2 == 0 || |value| % 2 != 0 then Fail(InvalidStringLength)
                                                else Check(offset, HexLength(value, (length + 1) / 2)))
      ensures encoding == "hex" && outcome.Pass? ==>
                (HexLength(value, (length + 1) / 2) >= 1
                 && Contents() == PutAll(old(Contents()), offset, DecodePairs(Strip0x(value), HexLength(value, (length + 1) / 2))))
      ensures encoding != "utf8" && encoding != "hex" ==> outcome == Fail(InvalidEncoding)
      ensures Outside() == old(Outside())
      ensures outcome.Fail? ==> Contents() == old(Contents())
    {
      if encoding == "utf8" {
        outcome := WriteUtf8String(value, offset, length);
      } else if encoding == "hex" {
        outcome := WriteHexString(value, offset, (length + 1) / 2);
      } else {
        outcome := Fail(InvalidEncoding);
      }
    }

    // -------------------------------------------------------------------------
    // Bits
    // -------------------------------------------------------------------------

    /** The cell update of `writeBit` once its checks are passed (or switched off). */
    method StoreBit(bitOffset: nat, value: int, msbFirst: bool)
      requires Valid()
      modifies region
      ensures Outside() == old(Outside())
      ensures Contents() == SetBitAt(old(Contents()), bitOffset, value, msbFirst)
    {
      var cell := bitOffset / 8;
      Store(cell, WithBit(Load(cell), Oriented(bitOffset, msbFirst), value));
    }

    /** `writeBit(value, bitOffset, msbFirst)`: sets (1) or clears (0) one bit. */
    method WriteBit(value: int, bitOffset: int, msbFirst: bool) returns (outcome: Outcome)
      requires Valid()
      modifies region
      ensures outcome == if value < 0 || value > 1 then Fail(ValueOutOfBounds) else Check(bitOffset / 8, 1)
      ensures outcome.Pass? ==> 0 <= bitOffset < 8 * length
      ensures Outside() == old(Outside())
      ensures Contents() == if outcome.Pass? then SetBitAt(old(Contents()), bitOffset, value, msbFirst) else old(Contents())
    {
      if value < 0 || value > 1 {
        return Fail(ValueOutOfBounds);
      }
      outcome := Check(bitOffset / 8, 1);
      if outcome.Pass? {
        StoreBit(bitOffset, value, msbFirst);
      }
    }

    /** `readBit(bitOffset, msbFirst)`. */
    function ReadBit(bitOffset: int, msbFirst: bool): (r: Result<Bit>)
      reads region
      requires Valid()
      ensures r.Ok? <==> 0 <= bitOffset < 8 * length
      ensures r.Err? ==> r.error == OffsetOutOfBounds
      ensures r.Ok? ==> r.value == BitAt(Contents(), bitOffset, msbFirst)
    {
      match Check(bitOffset / 8, 1)
      case Fail(e) => Err(e)
      case Pass => Ok(BitOf(Load(bitOffset / 8) as nat, Oriented(bitOffset, msbFirst)))
    }

    /** The loop of `writeBits` on the cells: bit `start + i` takes element `i` of `bits`, in order. */
    static method BitCells(cells: seq<byte>, bits: seq<Bit>, start: nat, n: nat, msbFirst: bool) returns (r: seq<byte>)
      ensures r == WriteBitsSpec(cells, bits, start, n, msbFirst)
    {
      r := cells;
      var i := 0;
      while i < n
        invariant 0 <= i <= n
        invariant r == WriteBitsSpec(cells, bits, start, i, msbFirst)
      {
        var p := start + i;
        SetBitAtIsPut(r, p, BitValue(bits, i), msbFirst);
        r := Put(r, p / 8, WithBit(At(r, p / 8), Oriented(p, msbFirst), BitValue(bits, i)));
        i := i + 1;
      }
    }

    /**
     * `writeBits(bits, bitOffset, bitLength, msbFirst)`: the window is the
     * `ceil(bitLength / 8)` cells from cell `bitOffset div 8`; then bit
     * `bitOffset + i` takes element `i` for every `i < bitLength`, unchecked.
     */
    method WriteBits(bits: seq<Bit>, bitOffset: int, bitLength: int, msbFirst: bool) returns (outcome: Outcome)
      requires Valid()
      modifies region
      ensures outcome == Check(bitOffset / 8, (bitLength + 7) / 8)
      ensures outcome.Pass? ==> 0 <= bitOffset && 1 <= bitLength
      ensures Outside() == old(Outside())
      ensures Contents() == if outcome.Pass? then WriteBitsSpec(old(Contents()), bits, bitOffset, bitLength, msbFirst)
                            else old(Contents())
    {
      outcome := Check(bitOffset / 8, (bitLength + 7) / 8);
      if outcome.Fail? {
        return;
      }
      var cells := BitCells(Contents(), bits, bitOffset, bitLength, msbFirst);
      Commit(cells);
    }

    /**
     * `readBits(bitOffset, bitLength, msbFirst)`: `bitLength` single-bit reads,
     * each checked on its own cell.
     */
    method ReadBits(bitOffset: int, bitLength: int, msbFirst: bool) returns (r: Result<seq<Bit>>)
      requires Valid()
      ensures r.Ok? <==> bitLength <= 0 || (0 <= bitOffset && bitOffset + bitLength <= 8 * length)
      ensures r.Err? ==> r.error == OffsetOutOfBounds
      ensures r.Ok? && bitLength <= 0 ==> r.value == []
      ensures r.Ok? && bitLength > 0 ==> r.value == BitsOf(Contents(), msbFirst)[bitOffset..bitOffset + bitLength]
    {
      ghost var all := BitsOf(Contents(), msbFirst);
      var bits: seq<Bit> := [];
      var i := 0;
      while i < bitLength
        invariant 0 <= i && (bitLength > 0 ==> i <= bitLength) && (bitLength <= 0 ==> i == 0)
        invariant i > 0 ==> 0 <= bitOffset && bitOffset + i <= 8 * length
        invariant i == 0 ==> bits == []
        invariant i > 0 ==> bits == all[bitOffset..bitOffset + i]
      {
        var b := ReadBit(bitOffset + i, msbFirst);
        if b.Err? {
          return Err(b.error);
        }
        assert b.value == all[bitOffset + i];
        SliceSnoc(all, bitOffset, i);
        bits := bits + [b.value];
        i := i + 1;
      }
      return Ok(bits);
    }

    // -------------------------------------------------------------------------
    // Typed arrays, big integers and ranges
    // -------------------------------------------------------------------------

    /** The loop of `writeUint8Array` on the cells: `for (i = arrayOffset; i < length; i++)`. */
    static method Uint8Cells(cells: seq<byte>, a: seq<byte>, offset: int, length: int, arrayOffset: int) returns (r: seq<byte>)
      ensures r == CopiedIn(cells, a, offset, arrayOffset, length)
    {
      CopiedInNone(cells, a, offset, arrayOffset, arrayOffset);
      r := cells;
      var i := arrayOffset;
      while i < length
        invariant arrayOffset <= i && (arrayOffset <= length ==> i <= length) && (length < arrayOffset ==> i == arrayOffset)
        invariant r == CopiedIn(cells, a, offset, arrayOffset, i)
        decreases length - i
      {
        CopiedInStep(cells, a, offset, arrayOffset, i);
        r := Put(r, offset - arrayOffset + i, ElemByte(a, i));
        i := i + 1;
      }
      if length < arrayOffset {
        CopiedInNone(cells, a, offset, arrayOffset, length);
      }
    }

    /**
     * `writeUint8Array(a, offset, length, arrayOffset)`: after the window
     * check, element `i` goes to cell `offset - arrayOffset + i` for every
     * `i` from `arrayOffset` below `length` (a missing element writes 0).
     */
    method WriteUint8Array(a: seq<byte>, offset: int, length: int, arrayOffset: int) returns (outcome: Outcome)
      requires Valid()
      modifies region
      ensures outcome == Check(offset, length)
      ensures Outside() == old(Outside())
      ensures Contents() == if outcome.Pass? then CopiedIn(old(Contents()), a, offset, arrayOffset, length) else old(Contents())
    {
      outcome := Check(offset, length);
      if outcome.Fail? {
        return;
      }
      var cells := Uint8Cells(Contents(), a, offset, length, arrayOffset);
      Commit(cells);
    }

    /**
     * The loops of `writeUint16Array` (`w` = 2) and `writeUint32Array`
     * (`w` = 4) on the cells: `i` runs from `arrayOffset` below `length` in
     * steps of `w`, and element `i / w` is written unchecked at cell
     * `offset - arrayOffset + i`.
     */
    static method WordCells(cells: seq<byte>, a: seq<nat>, w: nat, bigEndian: bool, offset: int, length: int, arrayOffset: int)
      returns (r: seq<byte>)
      requires w == 2 || w == 4
      ensures r == WordsIn(cells, a, w, bigEndian, offset, arrayOffset, StepCount(arrayOffset, length, w))
    {
      WordsInNone(cells, a, w, bigEndian, offset, arrayOffset);
      r := cells;
      var i := arrayOffset;
      ghost var k: nat := 0;
      while i < length
        invariant i == arrayOffset + w * k
        invariant k == 0 || arrayOffset + w * (k - 1) < length
        invariant r == WordsIn(cells, a, w, bigEndian, offset, arrayOffset, k)
        decreases length - i
      {
        var v := if i % w == 0 && 0 <= i / w < |a| then a[i / w] else 0;
        assert v == ElemWord(a, arrayOffset + w * k, w);
        WordsInStep(cells, a, w, bigEndian, offset, arrayOffset, k);
        MulSucc(w, k);
        r := PutAll(r, offset - arrayOffset + i, WordBytes(v, w, bigEndian));
        i := i + w;
        k := k + 1;
      }
      StepCountExit(arrayOffset, length, w, k);
    }

    /**
     * `writeUint16Array(a, offset, length, arrayOffset, endianness)`: the
     * offset must be even and the window valid; then the word loop runs.
     */
    method WriteUint16Array(a: seq<uint16>, offset: int, length: int, arrayOffset: int, endianness: Endianness)
      returns (outcome: Outcome)
      requires Valid()
      modifies region
      ensures outcome == if offset % 2 != 0 then Fail(Misaligned) else Check(offset, length)
      ensures Outside() == old(Outside())
      ensures Contents() == if outcome.Pass? then WordsIn(old(Contents()), a, 2, endianness == BE, offset, arrayOffset, StepCount(arrayOffset, length, 2))
                            else old(Contents())
    {
      if offset % 2 != 0 {
        return Fail(Misaligned);
      }
      outcome := Check(offset, length);
      if outcome.Pass? {
        var cells := WordCells(Contents(), a, 2, NormalizeEndianness(endianness) == BE, offset, length, arrayOffset);
        Commit(cells);
      }
    }

    /**
     * `writeUint32Array(a, offset, length, arrayOffset, endianness)`: the
     * offset must be a multiple of 4 and the window valid; then the word loop runs.
     */
    method WriteUint32Array(a: seq<uint32>, offset: int, length: int, arrayOffset: int, endianness: Endianness)
      returns (outcome: Outcome)
      requires Valid()
      modifies region
      ensures outcome == if offset % 4 != 0 then Fail(Misaligned) else Check(offset, length)
      ensures Outside() == old(Outside())
      ensures Contents() == if outcome.Pass? then WordsIn(old(Contents()), a, 4, endianness == BE, offset, arrayOffset, StepCount(arrayOffset, length, 4))
                            else old(Contents())
    {
      if offset % 4 != 0 {
        return Fail(Misaligned);
      }
      outcome := Check(offset, length);
      if outcome.Pass? {
        var cells := WordCells(Contents(), a, 4, NormalizeEndianness(endianness) == BE, offset, length, arrayOffset);
        Commit(cells);
      }
    }

    /** The loop of `writeBigIntLE` on the cells: `value & 0xff` to cell `at + i`, then `value >>= 8`. */
    static method LeCells(cells: seq<byte>, value: nat, at: int, n: nat) returns (r: seq<byte>)
      ensures r == PutAll(cells, at, LeBytes(value, n))
    {
      PutAllEmpty(cells, at);
      r := cells;
      var v := value;
      var i := 0;
      while i < n
        invariant 0 <= i <= n
        invariant v == ShiftedOut(value, i)
        invariant r == PutAll(cells, at, LeBytes(value, i))
      {
        LeDigit(value, i, v);
        PutAllSnoc(cells, at, LeBytes(value, i), (v % 256) as byte);
        r := Put(r, at + i, (v % 256) as byte);
        v := v / 256;
        i := i + 1;
      }
    }

    /**
     * `writeBigIntLE(value, offset, length)`: the low `length` bytes of
     * `value`, least significant first (`value & 0xff`, then `value >>= 8`).
     */
    method WriteBigIntLE(value: int, offset: int, length: int) returns (outcome: Outcome)
      requires Valid()
      modifies region
      ensures outcome == if value < 0 then Fail(InvalidBigInt) else Check(offset, length)
      ensures Outside() == old(Outside())
      ensures Contents() == if outcome.Pass? then PutAll(old(Contents()), offset, LeBytes(value, length)) else old(Contents())
    {
      if value < 0 {
        return Fail(InvalidBigInt);
      }
      outcome := Check(offset, length);
      if outcome.Fail? {
        return;
      }
      var cells := LeCells(Contents(), value, offset, length);
      Commit(cells);
    }

    /**
     * `writeBigIntBE(value, offset, length)`: the same digits stored from the
     * last cell of the window backwards, so most significant first.
     */
    method WriteBigIntBE(value: int, offset: int, length: int) returns (outcome: Outcome)
      requires Valid()
      modifies region
      ensures outcome == if value < 0 then Fail(InvalidBigInt) else Check(offset, length)
      ensures Outside() == old(Outside())
      ensures Contents() == if outcome.Pass? then PutAll(old(Contents()), offset, BeBytes(value, length)) else old(Contents())
    {
      if value < 0 {
        return Fail(InvalidBigInt);
      }
      outcome := Check(offset, length);
      if outcome.Fail? {
        return;
      }
      var cells := BeCells(Contents(), value, offset, length);
      Commit(cells);
    }

    /** The loop of `writeBigIntBE` on the cells: from the last cell of the window down to the first. */
    static method BeCells(cells: seq<byte>, value: nat, at: int, n: nat) returns (r: seq<byte>)
      ensures r == PutAll(cells, at, BeBytes(value, n))
    {
      PutAllEmpty(cells, at + n);
      r := cells;
      var v := value;
      var i := n - 1;
      while i >= 0
        invariant -1 <= i < n
        invariant v == ShiftedOut(value, n - 1 - i)
        invariant r == PutAll(cells, at + i + 1, BeBytes(value, n - 1 - i))
      {
        BeDigit(value, n - 1 - i, v);
        PutAllCons(cells, at + i + 1, BeBytes(value, n - 1 - i), (v % 256) as byte);
        r := Put(r, at + i, (v % 256) as byte);
        v := v / 256;
        i := i - 1;
      }
    }

    /** `writeBigInt(value, offset, length, endianness)`. */
    method WriteBigInt(value: int, offset: int, length: int, endianness: Endianness) returns (outcome: Outcome)
      requires Valid()
      modifies region
      ensures outcome == if value < 0 then Fail(InvalidBigInt) else Check(offset, length)
      ensures Outside() == old(Outside())
      ensures Contents() == if outcome.Pass? then PutAll(old(Contents()), offset, WordBytes(value, length, endianness == BE))
                            else old(Contents())
    {
      if NormalizeEndianness(endianness) == LE {
        outcome := WriteBigIntLE(value, offset, length);
      } else {
        outcome := WriteBigIntBE(value, offset, length);
      }
    }

    /** The loop of `writeRange` on the cells: cell `at + i` takes the value `start + i`. */
    static method RangeCells(cells: seq<byte>, start: nat, n: nat, at: int) returns (r: seq<byte>)
      requires start + n <= 256
      ensures r == PutAll(cells, at, RangeBytes(start, n))
    {
      ghost var part := RangeBytes(start, n);
      PutAllEmpty(cells, at);
      r := cells;
      var i := 0;
      while i < n
        invariant 0 <= i <= n
        invariant r == PutAll(cells, at, part[..i])
      {
        PutAllSnoc(cells, at, part[..i], part[i]);
        SliceSnoc(part, 0, i);
        r := Put(r, at + i, (start + i) as byte);
        i := i + 1;
      }
      assert part[..n] == part;
    }

    /** `writeRange(start, end, offset)`: the values `start, start + 1, …, end - 1`. */
    method WriteRange(start: int, end: int, offset: int) returns (outcome: Outcome)
      requires Valid()
      modifies region
      ensures outcome == if start < 0 || start > 255 then Fail(InvalidStart)
                         else if end < 0 || end > 255 then Fail(InvalidEnd)
                         else Check(offset, end - start)
      ensures Outside() == old(Outside())
      ensures Contents() == if outcome.Pass? then PutAll(old(Contents()), offset, RangeBytes(start, end - start)) else old(Contents())
    {
      if start < 0 || start > 255 {
        return Fail(InvalidStart);
      }
      if end < 0 || end > 255 {
        return Fail(InvalidEnd);
      }
      outcome := Check(offset, end - start);
      if outcome.Fail? {
        return;
      }
      var cells := RangeCells(Contents(), start, end - start, offset);
      Commit(cells);
    }

    // -------------------------------------------------------------------------
    // Reads of windows
    // -------------------------------------------------------------------------

    /**
     * `readHexStringLE(offset, length)`: the window is checked against the
     * view, but the bytes are taken at `offset` of the whole array buffer.
     */
    function ReadHexStringLE(offset: int, length: int): (r: Result<string>)
      reads region
      requires Valid()
      ensures r.Ok? <==> Check(offset, length).Pass?
      ensures r.Err? ==> Fail(r.error) == Check(offset, length)
      ensures r.Ok? ==> (r.value == ToHex(region[offset..offset + length])
                         && DecodePairs(r.value, length) == region[offset..offset + length])
    {
      match Check(offset, length)
      case Fail(e) => Err(e)
      case Pass =>
        DecodeEncodedHex(region[offset..offset + length]);
        Ok(ToHex(region[offset..offset + length]))
    }

    /** `readHexStringBE(offset, length)`: the same digits with the byte pairs in reverse order. */
    function ReadHexStringBE(offset: int, length: int): (r: Result<string>)
      reads region
      requires Valid()
      ensures r.Ok? <==> Check(offset, length).Pass?
      ensures r.Err? ==> Fail(r.error) == Check(offset, length)
      ensures r.Ok? ==> r.value == ToHex(Reversed(region[offset..offset + length]))
    {
      match Check(offset, length)
      case Fail(e) => Err(e)
      case Pass =>
        ReversePairsOfHex(region[offset..offset + length]);
        Ok(ReversePairs(ToHex(region[offset..offset + length])))
    }

    /** `readHexString(offset, length, endianness)`. */
    function ReadHexString(offset: int, length: int, endianness: Endianness): (r: Result<string>)
      reads region
      requires Valid()
      ensures r.Ok? <==> Check(offset, length).Pass?
      ensures r.Ok? ==> r.value == ToHex(if endianness == BE then Reversed(region[offset..offset + length])
                                         else region[offset..offset + length])
    {
      match Check(offset, length)
      case Fail(e) => Err(e)
      case Pass =>
        if NormalizeEndianness(endianness) == LE then ReadHexStringLE(offset, length) else ReadHexStringBE(offset, length)
    }

    /** `readUtf8String(offset, length)`: the window of the array buffer through the host's decoder. */
    function ReadUtf8String(offset: int, length: int, decode: seq<byte> -> string): (r: Result<string>)
      reads region
      requires Valid()
      ensures r.Ok? <==> Check(offset, length).Pass?
      ensures r.Ok? ==> r.value == decode(region[offset..offset + length])
    {
      match Check(offset, length)
      case Fail(e) => Err(e)
      case Pass => Ok(decode(region[offset..offset + length]))
    }

    /**
     * `readUint8Array(offset, length)`: the bytes at `offset` of the array
     * buffer, as they are at the time of the call. The source returns a
     * view over the same array buffer; the model returns the cells as a value.
     */
    function ReadUint8Array(offset: int, length: int): (r: Result<seq<byte>>)
      reads region
      requires Valid()
      ensures r.Ok? <==> Check(offset, length).Pass?
      ensures r.Ok? ==> |r.value| == length && forall i :: 0 <= i < length ==> r.value[i] == region[offset + i]
    {
      match Check(offset, length)
      case Fail(e) => Err(e)
      case Pass => Ok(region[offset..offset + length])
    }

    /**
     * `readBigIntLE(offset, length)`: from the last cell of the window down,
     * `result = result << 8 | cell`, so the first cell is least significant.
     */
    method ReadBigIntLE(offset: int, length: int) returns (r: Result<nat>)
      requires Valid()
      ensures r.Ok? <==> Check(offset, length).Pass?
      ensures r.Err? ==> Fail(r.error) == Check(offset, length)
      ensures r.Ok? ==> r.value == LeValue(Contents()[offset..offset + length])
    {
      var outcome := Check(offset, length);
      if outcome.Fail? {
        return Err(outcome.error);
      }
      ghost var w := Contents()[offset..offset + length];
      var result := 0;
      var i := length - 1;
      while i >= 0
        invariant -1 <= i < length
        invariant result == LeValue(w[i + 1..])
      {
        var b := Load(offset + i);
        assert b == w[i];
        assert w[i..][1..] == w[i + 1..];
        result := result * 256 + b as nat;
        i := i - 1;
      }
      assert w[0..] == w;
      return Ok(result);
    }

    /** `readBigIntBE(offset, length)`: from the first cell up, so the first cell is most significant. */
    method ReadBigIntBE(offset: int, length: int) returns (r: Result<nat>)
      requires Valid()
      ensures r.Ok? <==> Check(offset, length).Pass?
      ensures r.Err? ==> Fail(r.error) == Check(offset, length)
      ensures r.Ok? ==> r.value == BeValue(Contents()[offset..offset + length])
    {
      var outcome := Check(offset, length);
      if outcome.Fail? {
        return Err(outcome.error);
      }
      ghost var w := Contents()[offset..offset + length];
      var result := 0;
      var i := 0;
      while i < length
        invariant 0 <= i <= length
        invariant result == BeValue(w[..i])
      {
        var b := Load(offset + i);
        assert b == w[i];
        ghost var next := w[..i + 1];
        assert next[..i] == w[..i] && next[i] == b;
        assert BeValue(next) == 256 * BeValue(w[..i]) + b as nat;
        result := result * 256 + b as nat;
        i := i + 1;
      }
      assert w[..length] == w;
      return Ok(result);
    }

    /** `readBigInt(offset, length, endianness)`. */
    method ReadBigInt(offset: int, length: int, endianness: Endianness) returns (r: Result<nat>)
      requires Valid()
      ensures r.Ok? <==> Check(offset, length).Pass?
      ensures r.Err? ==> Fail(r.error) == Check(offset, length)
      ensures r.Ok? ==> r.value == WordValue(Contents()[offset..offset + length], endianness == BE)
    {
      if NormalizeEndianness(endianness) == LE {
        r := ReadBigIntLE(offset, length);
      } else {
        r := ReadBigIntBE(offset, length);
      }
    }

    // -------------------------------------------------------------------------
    // Conversions
    // -------------------------------------------------------------------------

    /**
     * `toHexString(prefix, endianness)`: the whole array buffer (not only the
     * view) in upper-case hexadecimal, pairs reversed for big-endian.
     */
    function ToHexString(prefix: bool, endianness: Endianness): (r: string)
      reads region
      requires Valid()
      ensures r == (if prefix then "0x" else "") + ToHex(if endianness == BE then Reversed(region[..]) else region[..])
    {
      var hex := ToHex(region[..]);
      ReversePairsOfHex(region[..]);
      var ordered := if NormalizeEndianness(endianness) == BE then ReversePairs(hex) else hex;
      if prefix then "0x" + ordered else ordered
    }

    /** `toUtf8String()`: the whole array buffer through the host's decoder. */
    function ToUtf8String(decode: seq<byte> -> string): (r: string)
      reads region
      requires Valid()
      ensures r == decode(region[..])
    {
      decode(region[..])
    }

    /** `toString(encoding, hexPrefix)`: UTF-8 for `"utf8"`, hexadecimal in platform order otherwise. */
    function ToString(encoding: string, hexPrefix: bool, decode: seq<byte> -> string): (r: string)
      reads region
      requires Valid()
      ensures encoding == "utf8" ==> r == decode(region[..])
      ensures encoding != "utf8" ==> r == (if hexPrefix then "0x" else "") + ToHex(region[..])
    {
      if encoding == "utf8" then ToUtf8String(decode) else ToHexString(hexPrefix, platformEndianness)
    }

    /** `toBits(msbFirst)`: every bit of the view, read one by one. */
    method ToBits(msbFirst: bool) returns (bits: seq<Bit>)
      requires Valid()
      ensures bits == BitsOf(Contents(), msbFirst)
    {
      ghost var all := BitsOf(Contents(), msbFirst);
      var n := 8 * length;
      bits := [];
      var i := 0;
      while i < n
        invariant 0 <= i <= n == |all|
        invariant bits == all[..i]
      {
        var b := ReadBit(i, msbFirst);
        assert bits + [b.value] == all[..i + 1] by {
          SliceSnoc(all, 0, i);
        }
        bits := bits + [b.value];
        i := i + 1;
      }
      assert all[..n] == all;
    }

    /**
     * `toUint8Array()`: the view's cells at the time of the call. The source
     * returns a view over the same array buffer; the model returns the cells
     * as a value.
     */
    function ToUint8Array(): (r: seq<byte>)
      reads region
      requires Valid()
      ensures |r| == length && forall i :: 0 <= i < length ==> r[i] == region[offset + i]
    {
      region[offset..offset + length]
    }

    /** `toBigInt(endianness)`: the whole view as one number; an empty view fails the window check. */
    method ToBigInt(endianness: Endianness) returns (r: Result<nat>)
      requires Valid()
      ensures r.Ok? <==> length >= 1
      ensures r.Err? ==> r.error == OffsetOutOfBounds
      ensures r.Ok? ==> r.value == WordValue(Contents(), endianness == BE)
    {
      r := ReadBigInt(0, length, endianness);
      assert Contents()[0..length] == Contents();
    }

    // -------------------------------------------------------------------------
    // Predicates on the view
    // -------------------------------------------------------------------------

    /** `equals(other)`: same length and the same cells. */
    method Equals(other: CyBuffer) returns (eq: bool)
      requires Valid() && other.Valid()
      ensures eq <==> Contents() == other.Contents()
    {
      if length != other.length {
        return false;
      }
      var mine, theirs := Contents(), other.Contents();
      var i := 0;
      while i < |mine|
        invariant 0 <= i <= |mine| == |theirs|
        invariant mine[..i] == theirs[..i]
      {
        if mine[i] != theirs[i] {
          return false;
        }
        SliceSnoc(mine, 0, i);
        SliceSnoc(theirs, 0, i);
        i := i + 1;
      }
      assert mine == mine[..i] && theirs == theirs[..i];
      return true;
    }

    /** `isEmpty()`: every cell is 0. */
    method IsEmpty() returns (empty: bool)
      requires Valid()
      ensures empty <==> AllCells(Contents(), 0)
    {
      ghost var c := Contents();
      var i := 0;
      while i < length
        invariant 0 <= i <= length
        invariant forall k :: 0 <= k < i ==> c[k] == 0
      {
        var b := Load(i);
        if b != 0 {
          assert c[i] == b;
          return false;
        }
        i := i + 1;
      }
      return true;
    }

    /** `isFull()`: every cell is 255. */
    method IsFull() returns (full: bool)
      requires Valid()
      ensures full <==> AllCells(Contents(), 255)
    {
      ghost var c := Contents();
      var i := 0;
      while i < length
        invariant 0 <= i <= length
        invariant forall k :: 0 <= k < i ==> c[k] == 255
      {
        var b := Load(i);
        if b != 255 {
          assert c[i] == b;
          return false;
        }
        i := i + 1;
      }
      return true;
    }

    // -------------------------------------------------------------------------
    // Randomness
    // -------------------------------------------------------------------------

    /** The loop of `randomFill` on the cells: cell `at + i` takes draw `i`. */
    static method DrawCells(cells: seq<byte>, draw: nat -> byte, at: int, n: nat) returns (r: seq<byte>)
      ensures r == PutAll(cells, at, Draws(draw, n))
    {
      ghost var all := Draws(draw, n);
      PutAllEmpty(cells, at);
      r := cells;
      var i := 0;
      while i < n
        invariant 0 <= i <= n
        invariant r == PutAll(cells, at, all[..i])
      {
        PutAllSnoc(cells, at, all[..i], all[i]);
        SliceSnoc(all, 0, i);
        r := Put(r, at + i, draw(i));
        i := i + 1;
      }
      assert all[..n] == all;
    }

    /**
     * `randomFill(offset, length)`: cell `offset + i` of the window receives
     * draw `i` of the host's generator, `draw`.
     */
    method RandomFill(offset: int, length: int, draw: nat -> byte) returns (outcome: Outcome)
      requires Valid()
      modifies region
      ensures outcome == Check(offset, length)
      ensures Outside() == old(Outside())
      ensures Contents() == if outcome.Pass? then PutAll(old(Contents()), offset, Draws(draw, length)) else old(Contents())
    {
      outcome := Check(offset, length);
      if outcome.Fail? {
        return;
      }
      var cells := DrawCells(Contents(), draw, offset, length);
      Commit(cells);
    }

    // -------------------------------------------------------------------------
    // Copies and views
    // -------------------------------------------------------------------------

    /** `copy(offset, length)`: a new buffer holding the window, filled through its index setter. */
    method Copy(offset: int, length: int) returns (r: Result<CyBuffer>)
      requires Valid()
      ensures r.Ok? <==> Check(offset, length).Pass?
      ensures r.Err? ==> Fail(r.error) == Check(offset, length)
      ensures r.Ok? ==> (r.value.Valid() && fresh(r.value.region) && r.value.offset == 0
                         && r.value.region.Length == r.value.length && r.value.length == length
                         && r.value.Contents() == Contents()[offset..offset + length])
    {
      var outcome := Check(offset, length);
      if outcome.Fail? {
        return Err(outcome.error);
      }
      var buffer := new CyBuffer(length, host);
      var source := Contents();
      var cells: seq<byte> := [];
      var i := 0;
      while i < length
        invariant 0 <= i <= length
        invariant cells == source[offset..offset + i]
      {
        SliceSnoc(source, offset, i);
        cells := cells + [At(source, i + offset)];
        i := i + 1;
      }
      buffer.Commit(cells);
      return Ok(buffer);
    }

    /**
     * `subarray(offset, length)`: a view over the same array buffer. The new
     * view starts at `offset` of the array buffer itself, not of this view.
     */
    method Subarray(offset: int, length: int) returns (r: Result<CyBuffer>)
      requires Valid()
      ensures r.Ok? <==> Check(offset, length).Pass?
      ensures r.Err? ==> Fail(r.error) == Check(offset, length)
      ensures r.Ok? ==> (r.value.Valid() && r.value.region == region && r.value.offset == offset
                         && r.value.length == length && r.value.Contents() == region[offset..offset + length])
    {
      var outcome := Check(offset, length);
      if outcome.Fail? {
        return Err(outcome.error);
      }
      var view := new CyBuffer.View(region, offset, length, host);
      return Ok(view);
    }

    // -------------------------------------------------------------------------
    // Reordering
    // -------------------------------------------------------------------------

    /**
     * The exchange loop `for (j = 0; j < len / 2; j++)` over the `len` cells
     * from `base`: `t = a[lo]; a[lo] = a[hi]; a[hi] = t` for each mirrored pair.
     */
    static method MirrorCells(cells: seq<byte>, base: nat, len: nat) returns (r: seq<byte>)
      ensures r == Mirrored(cells, base, len, len / 2)
    {
      MirroredNone(cells, base, len);
      r := cells;
      var j := 0;
      while j < len / 2
        invariant 0 <= j <= len / 2
        invariant r == Mirrored(cells, base, len, j)
      {
        MirroredStep(cells, base, len, j);
        var lo, hi := base + j, base + len - 1 - j;
        var t := At(r, lo);
        r := Put(r, lo, At(r, hi));
        r := Put(r, hi, t);
        j := j + 1;
      }
    }

    /** The outer loop of `swap` on the cells: `for (i = 0; i < offset + length; i += w)` mirrors the word at `offset + i`. */
    static method SwapCells(cells: seq<byte>, offset: nat, length: int, w: nat) returns (r: seq<byte>)
      requires w >= 2 && w % 2 == 0
      ensures r == Swapped(cells, offset, w, StepCount(0, offset + length, w))
    {
      SwappedNone(cells, offset, w);
      r := cells;
      var i := 0;
      ghost var k: nat := 0;
      while i < offset + length
        invariant i == w * k
        invariant k == 0 || w * (k - 1) < offset + length
        invariant r == Swapped(cells, offset, w, k)
        decreases offset + length - i
      {
        SwappedStep(cells, offset, w, k);
        MulSucc(w, k);
        r := MirrorCells(r, i + offset, w);
        i := i + w;
        k := k + 1;
      }
      StepCountExit(0, offset + length, w, k);
    }

    /**
     * `swap(offset, length, wordLength)`: the word length must be even and at
     * least 2; the outer loop runs `i` over `[0, offset + length)` by words
     * and mirrors the word at `offset + i`.
     */
    method Swap(offset: int, length: int, wordLength: int) returns (outcome: Outcome)
      requires Valid()
      modifies region
      ensures outcome == if wordLength < 2 then Fail(InvalidWordLength)
                         else if wordLength % 2 != 0 then Fail(OddWordLength)
                         else Check(offset, length)
      ensures Outside() == old(Outside())
      ensures outcome.Pass? ==> Contents() == Swapped(old(Contents()), offset, wordLength, StepCount(0, offset + length, wordLength))
      ensures outcome.Fail? ==> Contents() == old(Contents())
    {
      if wordLength < 2 {
        return Fail(InvalidWordLength);
      }
      if wordLength % 2 != 0 {
        return Fail(OddWordLength);
      }
      outcome := Check(offset, length);
      if outcome.Fail? {
        return;
      }
      var cells := SwapCells(Contents(), offset, length, wordLength);
      Commit(cells);
    }

    /** `partialReverse(offset, length)`: the window reversed in place. */
    method PartialReverse(offset: int, length: int) returns (outcome: Outcome)
      requires Valid()
      modifies region
      ensures outcome == Check(offset, length)
      ensures Outside() == old(Outside())
      ensures Contents() == if outcome.Pass? then PutAll(old(Contents()), offset, Reversed(old(Contents())[offset..offset + length]))
                            else old(Contents())
    {
      outcome := Check(offset, length);
      if outcome.Fail? {
        return;
      }
      var cells := MirrorCells(Contents(), offset, length);
      MirroredWhole(old(Contents()), offset, length);
      Commit(cells);
    }

    /** `reverse()`: the whole view reversed in place. */
    method Reverse()
      requires Valid()
      modifies region
      ensures Outside() == old(Outside())
      ensures Contents() == Reversed(old(Contents()))
    {
      ghost var s0 := Contents();
      var cells := MirrorCells(Contents(), 0, this.length);
      MirroredWhole(s0, 0, this.length);
      Commit(cells);
      PutAllInside(s0, 0, Reversed(s0[0..this.length]));
      assert s0[0..this.length] == s0;
    }

    /** `rotateLeft()`: every cell moves one place down and the first cell goes last. */
    method RotateLeft()
      requires Valid()
      modifies region
      ensures Outside() == old(Outside())
      ensures length >= 1 ==> Contents() == RotatedLeft(old(Contents()))
    {
      var cells := Contents();
      ghost var s0 := cells;
      var first := At(cells, 0);
      LeftPassNone(s0, 1);
      var i := 0;
      while i < this.length - 1
        invariant 0 <= i <= this.length
        invariant cells == LeftPass(s0, 1, i)
        modifies {}
      {
        LeftPassStep(s0, 1, i);
        cells := Put(cells, i, At(cells, i + 1));
        i := i + 1;
      }
      cells := Put(cells, this.length - 1, first);
      Commit(cells);
      if this.length >= 1 {
        RotateLeftPasses(s0);
      }
    }

    /** `rotateRight()`: every cell moves one place up and the last cell goes first. */
    method RotateRight()
      requires Valid()
      modifies region
      ensures Outside() == old(Outside())
      ensures length >= 1 ==> Contents() == RotatedRight(old(Contents()))
    {
      var cells := Contents();
      ghost var s0 := cells;
      var last := At(cells, this.length - 1);
      RightPassNone(s0, 1);
      var i := this.length - 1;
      while i > 0
        invariant 0 <= i + 1 <= this.length || (this.length == 0 && i == -1)
        invariant cells == RightPass(s0, 1, i + 1)
        modifies {}
      {
        RightPassStep(s0, 1, i);
        cells := Put(cells, i, At(cells, i - 1));
        i := i - 1;
      }
      cells := Put(cells, 0, last);
      Commit(cells);
      if this.length >= 1 {
        RotateRightPasses(s0);
      }
    }

    /**
     * `shiftLeft(offset, length, shift)`: the window is checked, then the whole
     * view moves `shift` cells down and the last `shift` cells are cleared.
     */
    method ShiftLeft(offset: int, length: int, shift: int) returns (outcome: Outcome)
      requires Valid()
      modifies region
      ensures outcome == Check(offset, length)
      ensures Outside() == old(Outside())
      ensures Contents() == if outcome.Pass? then ShiftedLeft(old(Contents()), shift) else old(Contents())
    {
      outcome := Check(offset, length);
      if outcome.Fail? {
        return;
      }
      var cells := Contents();
      ghost var s0 := cells;
      LeftPassNone(s0, shift);
      var i := 0;
      while i < this.length - 1
        invariant 0 <= i <= this.length - 1
        invariant cells == LeftPass(s0, shift, i)
        modifies {}
      {
        LeftPassStep(s0, shift, i);
        cells := Put(cells, i, At(cells, i + shift));
        i := i + 1;
      }
      ghost var p := cells;
      ZeroTailNone(p);
      var j := 0;
      while j < shift
        invariant 0 <= j && (j <= shift || j == 0)
        invariant cells == ZeroTail(p, j)
        modifies {}
      {
        ZeroTailStep(p, j);
        cells := Put(cells, this.length - j - 1, 0);
        j := j + 1;
      }
      ShiftLeftPasses(s0, shift);
      Commit(cells);
    }

    /**
     * `shiftRight(offset, length, shift)`: the window is checked, then the whole
     * view moves `shift` cells up and the first `shift` cells are cleared.
     */
    method ShiftRight(offset: int, length: int, shift: int) returns (outcome: Outcome)
      requires Valid()
      modifies region
      ensures outcome == Check(offset, length)
      ensures Outside() == old(Outside())
      ensures Contents() == if outcome.Pass? then ShiftedRight(old(Contents()), shift) else old(Contents())
    {
      outcome := Check(offset, length);
      if outcome.Fail? {
        return;
      }
      var cells := Contents();
      ghost var s0 := cells;
      RightPassNone(s0, shift);
      var i := this.length - 1;
      while i > 0
        invariant 0 <= i < this.length
        invariant cells == RightPass(s0, shift, i + 1)
        modifies {}
      {
        RightPassStep(s0, shift, i);
        cells := Put(cells, i, At(cells, i - shift));
        i := i - 1;
      }
      ghost var p := cells;
      ZeroHeadNone(p);
      var j := 0;
      while j < shift
        invariant 0 <= j && (j <= shift || j == 0)
        invariant cells == ZeroHead(p, j)
        modifies {}
      {
        ZeroHeadStep(p, j);
        cells := Put(cells, j, 0);
        j := j + 1;
      }
      ShiftRightPasses(s0, shift);
      Commit(cells);
    }

    // -------------------------------------------------------------------------
    // Filling
    // -------------------------------------------------------------------------

    /** `fill(value, offset, length)`: the value is checked first, then the window. */
    method Fill(value: int, offset: int, length: int) returns (outcome: Outcome)
      requires Valid()
      modifies region
      ensures outcome == if value < 0 || value > 255 then Fail(ValueOutOfBounds) else Check(offset, length)
      ensures Outside() == old(Outside())
      ensures Contents() == if outcome.Pass? then PutAll(old(Contents()), offset, Repeat(value as byte, length)) else old(Contents())
    {
      if value < 0 || value > 255 {
        return Fail(ValueOutOfBounds);
      }
      outcome := Check(offset, length);
      if outcome.Pass? {
        Commit(PutAll(Contents(), offset, Repeat(value as byte, length)));
      }
    }

    /** `clear(offset, length)`: the window filled with zeros. */
    method Clear(offset: int, length: int) returns (outcome: Outcome)
      requires Valid()
      modifies region
      ensures outcome == Check(offset, length)
      ensures Outside() == old(Outside())
      ensures Contents() == if outcome.Pass? then PutAll(old(Contents()), offset, Zeros(length)) else old(Contents())
    {
      outcome := Check(offset, length);
      if outcome.Pass? {
        Commit(PutAll(Contents(), offset, Zeros(length)));
      }
    }

    // -------------------------------------------------------------------------
    // Static constructors
    // -------------------------------------------------------------------------

    /**
     * `alloc(length, fillWith)`: a zeroed buffer, then `fill(fillWith)` over
     * the whole view when a fill value is given (which an empty buffer fails).
     */
    static method Alloc(length: int, fillWith: Option<int>, host: Endianness) returns (r: Result<CyBuffer>)
      ensures r.Err? <==> length < 0 || (fillWith.Some? && (fillWith.value < 0 || fillWith.value > 255 || length == 0))
      ensures r.Err? ==> r.error == (if length < 0 then InvalidBufferLength
                                     else if fillWith.value < 0 || fillWith.value > 255 then ValueOutOfBounds
                                     else OffsetOutOfBounds)
      ensures r.Ok? ==> (r.value.Valid() && fresh(r.value.region) && r.value.offset == 0
                         && r.value.region.Length == r.value.length && r.value.length == length
                         && r.value.Contents() == if fillWith.Some? then Repeat(fillWith.value as byte, length) else Zeros(length))
    {
      r := New(length, host);
      if r.Err? || fillWith.None? {
        return;
      }
      var buffer := r.value;
      var outcome := buffer.Fill(fillWith.value, 0, buffer.length);
      if outcome.Fail? {
        return Err(outcome.error);
      }
      PutAllInside(Zeros(length), 0, Repeat(fillWith.value as byte, length));
    }

    /**
     * `fromHexString(value)`: a leading `0x` is dropped, a buffer of
     * `ceil(|v| / 2)` cells is allocated and `writeHexString(v, 0, that)` fills it.
     */
    static method FromHexString(value: string, host: Endianness) returns (r: Result<CyBuffer>)
      ensures r.Err? <==> |Strip0x(value)| == 0 || |Strip0x(value)| % 2 != 0
                          || HexLength(Strip0x(value), |Strip0x(value)| / 2) < 1
      ensures r.Err? ==> r.error == (if |Strip0x(value)| == 0 || |Strip0x(value)| % 2 != 0 then InvalidStringLength
                                     else LengthOutOfBounds)
      ensures r.Ok? ==> (r.value.Valid() && fresh(r.value.region) && r.value.offset == 0
                         && r.value.region.Length == r.value.length && r.value.length == |Strip0x(value)| / 2
                         && r.value.Contents() == PutAll(Zeros(|Strip0x(value)| / 2), 0,
                                                         DecodePairs(Strip0x(Strip0x(value)), HexLength(Strip0x(value), |Strip0x(value)| / 2))))
      ensures IsHexText(Strip0x(value)) ==> (r.Ok? && r.value.Contents() == DecodePairs(Strip0x(value), |Strip0x(value)| / 2)
                                             && ToHex(r.value.Contents()) == UpperText(Strip0x(value)))
      ensures IsHexText(Strip0x(value)) ==>
                (r.Ok? && r.value.ToHexString(false, r.value.platformEndianness) == UpperText(Strip0x(value))
                 && r.value.ToHexString(true, r.value.platformEndianness) == "0x" + UpperText(Strip0x(value)))
    {
      var v := Strip0x(value);
      var byteLength := (|v| + 1) / 2;
      var created := New(byteLength, host);
      var buffer := created.value;
      var outcome := buffer.WriteHexString(v, 0, byteLength);
      if outcome.Fail? {
        return Err(outcome.error);
      }
      if IsHexText(v) {
        assert !HasPrefix0x(v) by {
          assert IsHexDigit(v[1]);
        }
        PutAllInside(Zeros(byteLength), 0, DecodePairs(v, byteLength));
        EncodeDecodedHex(v);
        buffer.WholeHexString();
      }
      return Ok(buffer);
    }

    /** A buffer that views its whole array buffer writes out its own cells, in the platform's order. */
    lemma WholeHexString()
      requires Valid() && offset == 0 && region.Length == length
      ensures ToHexString(false, platformEndianness) == ToHex(Contents())
      ensures ToHexString(true, platformEndianness) == "0x" + ToHex(Contents())
    {
      assert region[..] == Contents();
    }

    /** `fromUtf8String(value)`: one cell per UTF-16 code unit of `value`; an empty string fails. */
    static method FromUtf8String(value: string, host: Endianness) returns (r: Result<CyBuffer>)
      ensures r.Err? <==> |value| == 0
      ensures r.Err? ==> r.error == InvalidStringLength
      ensures r.Ok? ==> (r.value.Valid() && fresh(r.value.region) && r.value.offset == 0
                         && r.value.region.Length == r.value.length && r.value.length == |value|
                         && r.value.Contents() == CodeUnits(value, |value|))
    {
      var created := New(|value|, host);
      var buffer := created.value;
      var outcome := buffer.WriteUtf8String(value, 0, |value|);
      if outcome.Fail? {
        return Err(outcome.error);
      }
      PutAllInside(Zeros(|value|), 0, CodeUnits(value, |value|));
      return Ok(buffer);
    }

    /**
     * `fromString(value, encoding)`: `|value|` cells, then `writeString` with
     * length `|value|`; for `"hex"` at most the first half of them is written.
     */
    static method FromString(value: string, encoding: string, host: Endianness) returns (r: Result<CyBuffer>)
      ensures r.Ok? ==> (r.value.Valid() && fresh(r.value.region) && r.value.offset == 0
                         && r.value.region.Length == r.value.length && r.value.length == |value|)
      ensures encoding == "utf8" ==> (r.Err? <==> |value| == 0)
      ensures encoding == "utf8" && r.Err? ==> r.error == InvalidStringLength
      ensures encoding == "utf8" && r.Ok? ==> r.value.Contents() == CodeUnits(value, |value|)
      ensures encoding == "hex" ==> (r.Err? <==> |value| == 0 || |value| % 2 != 0 || HexLength(value, (|value| + 1) / 2) < 1)
      ensures encoding == "hex" && r.Err? ==>
                r.error == (if |value| == 0 || |value| % 2 != 0 then InvalidStringLength else LengthOutOfBounds)
      ensures encoding == "hex" && r.Ok? ==>
                r.value.Contents() == PutAll(Zeros(|value|), 0, DecodePairs(Strip0x(value), HexLength(value, (|value| + 1) / 2)))
      ensures encoding != "utf8" && encoding != "hex" ==> r == Err(InvalidEncoding)
    {
      var created := New(|value|, host);
      var buffer := created.value;
      var outcome := buffer.WriteString(value, encoding, 0, |value|);
      if outcome.Fail? {
        return Err(outcome.error);
      }
      if encoding == "utf8" {
        PutAllInside(Zeros(|value|), 0, CodeUnits(value, |value|));
      }
      return Ok(buffer);
    }

    /**
     * `fromBits(bits, msbFirst)`: `ceil(|bits| / 8)` cells written by
     * `writeBits`; the bits read back are `bits` padded with zeros to whole bytes.
     */
    static method FromBits(bits: seq<Bit>, msbFirst: bool, host: Endianness) returns (r: Result<CyBuffer>)
      ensures r.Err? <==> |bits| == 0
      ensures r.Err? ==> r.error == OffsetOutOfBounds
      ensures r.Ok? ==> (r.value.Valid() && fresh(r.value.region) && r.value.offset == 0
                         && r.value.region.Length == r.value.length && r.value.length == (|bits| + 7) / 8
                         && BitsOf(r.value.Contents(), msbFirst) == PadToBytes(bits))
    {
      var created := New((|bits| + 7) / 8, host);
      var buffer := created.value;
      var outcome := buffer.WriteBits(bits, 0, |bits|, msbFirst);
      if outcome.Fail? {
        return Err(outcome.error);
      }
      BitsRoundTrip(bits, msbFirst);
      return Ok(buffer);
    }

    /** `fromUint8Array(a)`: a buffer holding the bytes of `a`; an empty array fails. */
    static method FromUint8Array(a: seq<byte>, host: Endianness) returns (r: Result<CyBuffer>)
      ensures r.Err? <==> |a| == 0
      ensures r.Err? ==> r.error == OffsetOutOfBounds
      ensures r.Ok? ==> (r.value.Valid() && fresh(r.value.region) && r.value.offset == 0
                         && r.value.region.Length == r.value.length && r.value.length == |a|
                         && r.value.Contents() == a)
    {
      var created := New(|a|, host);
      var buffer := created.value;
      var outcome := buffer.WriteUint8Array(a, 0, |a|, 0);
      if outcome.Fail? {
        return Err(outcome.error);
      }
      CopiedInWhole(Zeros(|a|), a, 0);
      PutAllInside(Zeros(|a|), 0, a);
      return Ok(buffer);
    }

    /**
     * `fromUint16Array(a)`: two cells per element in platform order; every
     * element reads back from its two cells.
     */
    static method FromUint16Array(a: seq<uint16>, host: Endianness) returns (r: Result<CyBuffer>)
      ensures r.Err? <==> |a| == 0
      ensures r.Err? ==> r.error == OffsetOutOfBounds
      ensures r.Ok? ==> (r.value.Valid() && fresh(r.value.region) && r.value.offset == 0
                         && r.value.region.Length == r.value.length && r.value.length == 2 * |a|
                         && ReadsBack(r.value.Contents(), a, 2, r.value.platformEndianness == BE))
    {
      var created := New(2 * |a|, host);
      var buffer := created.value;
      var outcome := buffer.WriteUint16Array(a, 0, 2 * |a|, 0, buffer.platformEndianness);
      if outcome.Fail? {
        return Err(outcome.error);
      }
      assert Pow256(2) == 0x1_0000;
      WordsInReadBack(Zeros(2 * |a|), a, 2, buffer.platformEndianness == BE);
      return Ok(buffer);
    }

    /**
     * `fromUint32Array(a)`: four cells per element in platform order; every
     * element reads back from its four cells.
     */
    static method FromUint32Array(a: seq<uint32>, host: Endianness) returns (r: Result<CyBuffer>)
      ensures r.Err? <==> |a| == 0
      ensures r.Err? ==> r.error == OffsetOutOfBounds
      ensures r.Ok? ==> (r.value.Valid() && fresh(r.value.region) && r.value.offset == 0
                         && r.value.region.Length == r.value.length && r.value.length == 4 * |a|
                         && ReadsBack(r.value.Contents(), a, 4, r.value.platformEndianness == BE))
    {
      var created := New(4 * |a|, host);
      var buffer := created.value;
      var outcome := buffer.WriteUint32Array(a, 0, 4 * |a|, 0, buffer.platformEndianness);
      if outcome.Fail? {
        return Err(outcome.error);
      }
      assert Pow256(4) == 0x1_0000_0000;
      WordsInReadBack(Zeros(4 * |a|), a, 4, buffer.platformEndianness == BE);
      return Ok(buffer);
    }

    /**
     * `fromBigInt(value, endianness)`: as many cells as half the hexadecimal
     * digits of `value`, rounded up; the buffer read back as a number is `value`.
     */
    static method FromBigInt(value: int, endianness: Option<Endianness>, host: Endianness) returns (r: Result<CyBuffer>)
      ensures r.Err? <==> value < 0
      ensures r.Err? ==> r.error == InvalidBigInt
      ensures r.Ok? ==> (r.value.Valid() && fresh(r.value.region) && r.value.offset == 0
                         && r.value.region.Length == r.value.length && r.value.length == (HexDigits(value) + 1) / 2
                         && WordValue(r.value.Contents(), (if endianness.Some? then endianness.value else r.value.platformEndianness) == BE) == value)
    {
      if value < 0 {
        return Err(InvalidBigInt);
      }
      var byteLength := (HexDigits(value) + 1) / 2;
      var created := New(byteLength, host);
      var buffer := created.value;
      var e := if endianness.Some? then endianness.value else buffer.platformEndianness;
      var outcome := buffer.WriteBigInt(value, 0, byteLength, e);
      assert outcome.Pass?;
      HexDigitsFit(value);
      PutAllInside(Zeros(byteLength), 0, WordBytes(value, byteLength, e == BE));
      assert buffer.Contents() == WordBytes(value, byteLength, e == BE);
      WordRoundTrip(value, byteLength, e == BE);
      return Ok(buffer);
    }

    /** `fromRange(start, end)`: `end - start` cells holding `start, …, end - 1`. */
    static method FromRange(start: int, end: int, host: Endianness) returns (r: Result<CyBuffer>)
      ensures r.Err? <==> end < start || start < 0 || start > 255 || end < 0 || end > 255 || end == start
      ensures r.Err? ==> r.error == (if end < start then InvalidBufferLength
                                     else if start < 0 || start > 255 then InvalidStart
                                     else if end < 0 || end > 255 then InvalidEnd
                                     else OffsetOutOfBounds)
      ensures r.Ok? ==> (r.value.Valid() && fresh(r.value.region) && r.value.offset == 0
                         && r.value.region.Length == r.value.length && r.value.length == end - start
                         && r.value.Contents() == RangeBytes(start, end - start))
    {
      r := New(end - start, host);
      if r.Err? {
        return;
      }
      var buffer := r.value;
      var outcome := buffer.WriteRange(start, end, 0);
      if outcome.Fail? {
        return Err(outcome.error);
      }
      PutAllInside(Zeros(end - start), 0, RangeBytes(start, end - start));
    }
  }

  /** The number of digits of `v` in base 16 (`v.toString(16).length`). */
  function HexDigits(v: nat): (d: nat)
    ensures d >= 1
  {
    if v < 16 then 1 else 1 + HexDigits(v / 16)
  }

  /** Half the hexadecimal digits, rounded up, is the least number of bytes that holds `v`. */
  lemma {:induction false} HexDigitsFit(v: nat)
    ensures v < Pow256((HexDigits(v) + 1) / 2)
    ensures (HexDigits(v) + 1) / 2 == 1 || v >= Pow256((HexDigits(v) + 1) / 2 - 1)
  {
    if v >= 256 {
      var u := v / 256;
      assert v / 16 / 16 == u;
      assert HexDigits(v) == 2 + HexDigits(u);
      HexDigitsFit(u);
    }
  }

  /** `x ?? fallback`. */
  function OrElse(x: Option<int>, fallback: int): (r: int)
    ensures x.Some? ==> r == x.value
    ensures x.None? ==> r == fallback
  {
    if x.Some? then x.value else fallback
  }

  /** A typed-array window `[start, start + count)` lies inside a buffer of `size` cells. */
  predicate ViewFits(size: nat, start: int, count: int)
  {
    0 <= start && 0 <= count && start + count <= size
  }

  /** The first `n` draws of a generator. */
  function Draws(draw: nat -> byte, n: nat): (r: seq<byte>)
    ensures |r| == n && forall i :: 0 <= i < n ==> r[i] == draw(i)
  {
    seq(n, i requires 0 <= i => draw(i))
  }

  /**
   * The byte count `writeHexString` settles on: one less for a prefixed
   * value with the default length, which then covers exactly the digit
   * pairs after the prefix.
   */
  function HexLength(value: string, length: int): (n: int)
    ensures length - 1 <= n <= length
    ensures HasPrefix0x(value) && 2 * length == |value| ==> 2 * n == |Strip0x(value)|
  {
    if HasPrefix0x(value) && 2 * length == |value| then (|value| - 2) / 2 else length
  }
}
