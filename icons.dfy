/**
 * The encoder of generate-icons.js, which writes an RGBA pixel buffer as an
 * uncompressed PNG file: the PNG signature, an IHDR chunk,
 * one IDAT chunk holding a zlib stream of DEFLATE stored blocks, and an
 * IEND chunk (the PNG specification, RFC 2083; zlib, RFC 1950; DEFLATE,
 * RFC 1951). Each byte-level piece has a decoder or an independent
 * reference definition beside it, and a lemma connecting the two.
 */
module PngIcon {
  import opened Wrappers

  /** One byte of the output (the entries of the source's Uint8Array and Buffer). */
  type Byte = x: int | 0 <= x < 256

  // ---------------------------------------------------------------------------
  // Big-endian and little-endian integers

  /** What the source writes for (n >>> 24) & 0xFF, ..., n & 0xFF: the low 32 bits of n, most significant byte first. */
  function BigEndian32(n: nat): (r: seq<Byte>)
    ensures |r| == 4
  {
    [(n / 0x100_0000) % 256, (n / 0x1_0000) % 256, (n / 0x100) % 256, n % 256]
  }

  /** The value of four bytes read most significant first. */
  function ReadBigEndian32(b: seq<Byte>): nat
    requires |b| >= 4
  {
    (b[0] as int) * 0x100_0000 + (b[1] as int) * 0x1_0000 + (b[2] as int) * 0x100 + (b[3] as int)
  }

  /** n split into a quotient and a remainder by 256. */
  lemma Digit(n: nat)
    ensures n == (n / 256) * 256 + n % 256
  {
  }

  /** Dividing by 2^16, 2^24 and 2^32 is dividing by 256 two, three and four times. */
  lemma Nest(n: nat)
    ensures n / 0x1_0000 == (n / 0x100) / 0x100
    ensures n / 0x100_0000 == ((n / 0x100) / 0x100) / 0x100
    ensures n / 0x1_0000_0000 == (((n / 0x100) / 0x100) / 0x100) / 0x100
  {
  }

  /** A written 32-bit value reads back as itself, reduced modulo 2^32. */
  lemma BigEndian32RoundTrip(n: nat)
    ensures ReadBigEndian32(BigEndian32(n)) == n % 0x1_0000_0000
  {
    var q0 := n / 0x100;
    var q1 := q0 / 0x100;
    var q2 := q1 / 0x100;
    var q3 := q2 / 0x100;
    Nest(n);
    Digit(n);
    Digit(q0);
    Digit(q1);
    Digit(q2);
    var r := ReadBigEndian32(BigEndian32(n));
    assert r == (q2 % 256) * 0x100_0000 + (q1 % 256) * 0x1_0000 + (q0 % 256) * 0x100 + n % 256;
    assert n == q3 * 0x1_0000_0000 + r;
  }

  /** A big-endian read looks at the first four bytes only. */
  lemma ReadPrefix(b: seq<Byte>)
    requires |b| >= 4
    ensures ReadBigEndian32(b) == ReadBigEndian32(b[..4])
  {
  }

  /** Bytes that start with the encoding of a value below 2^32 read back as that value. */
  lemma ReadBack(b: seq<Byte>, n: nat)
    requires |b| >= 4 && b[..4] == BigEndian32(n) && n < 0x1_0000_0000
    ensures ReadBigEndian32(b) == n
  {
    ReadPrefix(b);
    BigEndian32RoundTrip(n);
  }

  /** Two bytes, least significant first (the LEN and NLEN fields of a stored block). */
  function LittleEndian16(n: nat): (r: seq<Byte>)
    ensures |r| == 2
  {
    [n % 256, (n / 256) % 256]
  }

  function ReadLittleEndian16(b: seq<Byte>): nat
    requires |b| >= 2
  {
    (b[0] as int) + (b[1] as int) * 256
  }

  lemma LittleEndian16RoundTrip(n: nat)
    requires n < 0x1_0000
    ensures ReadLittleEndian16(LittleEndian16(n)) == n
  {
  }

  /** The three parts of a concatenation, recovered by slicing. */
  lemma Split3(a: seq<Byte>, b: seq<Byte>, c: seq<Byte>)
    ensures (a + b + c)[..|a|] == a && (a + b + c)[|a|..] == b + c && (a + b + c)[|a| + |b|..] == c
  {
    assert (a + b + c)[..|a|] == a;
    assert (a + b + c)[|a|..] == b + c;
  }

  // ---------------------------------------------------------------------------
  // CRC-32 (section 3.4 of RFC 2083)

  /** The reflected CRC-32 polynomial. */
  const Polynomial: bv32 := 0xEDB8_8320

  /** One bit step of the source's inner loop: shift right, and xor in the polynomial when the bit shifted out was set. */
  function Shift(c: bv32): bv32 {
    (c >> 1) ^ (if c & 1 != 0 then Polynomial else 0)
  }

  /** n bit steps. */
  function Shifts(c: bv32, n: nat): bv32 {
    if n == 0 then c else Shift(Shifts(c, n - 1))
  }

  /** One byte into the register: xor it into the low bits, then eight bit steps. */
  function ByteStep(c: bv32, b: bv8): bv32 {
    Shifts(c ^ (b as bv32), 8)
  }

  /** The register after the bytes of data, starting from all ones. */
  function Register(data: seq<Byte>): bv32 {
    if |data| == 0 then 0xFFFF_FFFF
    else ByteStep(Register(data[..|data| - 1]), data[|data| - 1] as bv8)
  }

  /** The CRC of data: the final register complemented. */
  function Crc(data: seq<Byte>): bv32 {
    !Register(data)
  }

  /** crc32: the loop over the bytes of data. */
  method Crc32(data: seq<Byte>) returns (crc: bv32)
    ensures crc == Crc(data)
  {
    crc := 0xFFFF_FFFF;
    for i := 0 to |data|
      invariant crc == Register(data[..i])
    {
      assert data[..i + 1][..i] == data[..i];
      crc := UpdateByte(crc, data[i] as bv8);
    }
    assert data[..|data|] == data;
    crc := !crc;
  }

  /** The body of crc32's outer loop: xor in the byte, then the inner loop's eight bit steps. */
  method UpdateByte(c: bv32, b: bv8) returns (crc: bv32)
    ensures crc == ByteStep(c, b)
  {
    var x := c ^ (b as bv32);
    crc := x;
    for j := 0 to 8
      invariant crc == Shifts(x, j)
    {
      crc := (crc >> 1) ^ (if crc & 1 != 0 then Polynomial else 0);
    }
  }

  /** The register values while the CRC of the IEND type is computed, bytes 1 and 2. */
  lemma IendSteps1()
    ensures ByteStep(0xFFFFFFFF, 73) == 0x22FDE946 && ByteStep(0x22FDE946, 69) == 0x992BAC53
  {
    assert Shifts(0xFFFFFFB6, 1) == 0x7FFFFFDB;
    assert Shifts(0xFFFFFFB6, 2) == 0xD2477CCD;
    assert Shifts(0xFFFFFFB6, 3) == 0x849B3D46;
    assert Shifts(0xFFFFFFB6, 4) == 0x424D9EA3;
    assert Shifts(0xFFFFFFB6, 5) == 0xCC9E4C71;
    assert Shifts(0xFFFFFFB6, 6) == 0x8BF7A518;
    assert Shifts(0xFFFFFFB6, 7) == 0x45FBD28C;
    assert Shifts(0x22FDE903, 1) == 0xFCC677A1;
    assert Shifts(0x22FDE903, 2) == 0x93DBB8F0;
    assert Shifts(0x22FDE903, 3) == 0x49EDDC78;
    assert Shifts(0x22FDE903, 4) == 0x24F6EE3C;
    assert Shifts(0x22FDE903, 5) == 0x127B771E;
    assert Shifts(0x22FDE903, 6) == 0x093DBB8F;
    assert Shifts(0x22FDE903, 7) == 0xE9265EE7;
  }

  /** The register values while the CRC of the IEND type is computed, bytes 3 and 4. */
  lemma IendSteps2()
    ensures ByteStep(0x992BAC53, 78) == 0x639F4775 && ByteStep(0x639F4775, 68) == 0x51BD9F7D
  {
    assert Shifts(0x992BAC1D, 1) == 0xA12D552E;
    assert Shifts(0x992BAC1D, 2) == 0x5096AA97;
    assert Shifts(0x992BAC1D, 3) == 0xC5F3D66B;
    assert Shifts(0x992BAC1D, 4) == 0x8F416815;
    assert Shifts(0x992BAC1D, 5) == 0xAA18372A;
    assert Shifts(0x992BAC1D, 6) == 0x550C1B95;
    assert Shifts(0x992BAC1D, 7) == 0xC73E8EEA;
    assert Shifts(0x639F4731, 1) == 0xDC7720B8;
    assert Shifts(0x639F4731, 2) == 0x6E3B905C;
    assert Shifts(0x639F4731, 3) == 0x371DC82E;
    assert Shifts(0x639F4731, 4) == 0x1B8EE417;
    assert Shifts(0x639F4731, 5) == 0xE07FF12B;
    assert Shifts(0x639F4731, 6) == 0x9D877BB5;
    assert Shifts(0x639F4731, 7) == 0xA37B3EFA;
  }

  /** The CRC of the type bytes of IEND: 0xAE426082, the four bytes that end every PNG file, since IEND has no data. */
  lemma IendCrc()
    ensures Crc([73, 69, 78, 68]) == 0xAE42_6082
  {
    IendSteps1();
    IendSteps2();
    assert [73, 69][..1] == [73];
    assert [73, 69, 78][..2] == [73, 69];
    assert [73, 69, 78, 68][..3] == [73, 69, 78];
    assert Register([73]) == 0x22FDE946;
    assert Register([73, 69]) == 0x992BAC53;
    assert Register([73, 69, 78]) == 0x639F4775;
    assert Register([73, 69, 78, 68]) == 0x51BD9F7D;
  }

  // ---------------------------------------------------------------------------
  // Chunks (section 3.2 of RFC 2083)

  /** The ASCII codes of a chunk type name. */
  function TypeBytes(name: string): (r: seq<Byte>)
    requires forall i :: 0 <= i < |name| ==> name[i] < 128 as char
    ensures |r| == |name|
    ensures forall i :: 0 <= i < |r| ==> r[i] == name[i] as int
  {
    if |name| == 0 then [] else [name[0] as int] + TypeBytes(name[1..])
  }

  /** chunk: the length of data, the type, the data and the CRC of type and data. */
  function Chunk(kind: seq<Byte>, data: seq<Byte>): (r: seq<Byte>)
    ensures |r| == 8 + |kind| + |data|
  {
    BigEndian32(|data|) + kind + data + BigEndian32(Crc(kind + data) as int)
  }

  /** A decoded chunk: its type, its data, and the number of bytes it took. */
  datatype Decoded = Decoded(kind: seq<Byte>, data: seq<Byte>, size: nat)

  /** Reads one chunk with a four-byte type from the front of bytes, checking its CRC. */
  function ParseChunk(bytes: seq<Byte>): (r: Option<Decoded>)
    ensures r.Some? ==> |r.value.kind| == 4 && r.value.size == 12 + |r.value.data| <= |bytes|
    ensures r.Some? ==> bytes[..r.value.size] == Chunk(r.value.kind, r.value.data)
  {
    if |bytes| < 12 then None
    else
      var n := ReadBigEndian32(bytes);
      if |bytes| < 12 + n then None
      else
        var kind, data := bytes[4..8], bytes[8..8 + n];
        if bytes[8 + n..12 + n] != BigEndian32(Crc(kind + data) as int) then None
        else if bytes[..4] != BigEndian32(n) then None
        else
          Reassembled(bytes, n);
          Some(Decoded(kind, data, 12 + n))
  }

  /** The first 12 + n bytes are the length field, the type, n data bytes and the CRC field, in order. */
  lemma Reassembled(bytes: seq<Byte>, n: nat)
    requires 12 + n <= |bytes|
    ensures bytes[..12 + n] == bytes[..4] + bytes[4..8] + bytes[8..8 + n] + bytes[8 + n..12 + n]
  {
  }

  /** A chunk with a four-byte type and less than 4 GiB of data decodes to its type and data, whatever follows it. */
  lemma ChunkRoundTrip(kind: seq<Byte>, data: seq<Byte>, rest: seq<Byte>)
    requires |kind| == 4 && |data| < 0x1_0000_0000
    ensures ParseChunk(Chunk(kind, data) + rest) == Some(Decoded(kind, data, 12 + |data|))
  {
    var bytes := Chunk(kind, data) + rest;
    ChunkSlices(kind, data, rest);
    ReadBack(bytes, |data|);
  }

  /** Where the fields of a chunk sit. */
  lemma ChunkSlices(kind: seq<Byte>, data: seq<Byte>, rest: seq<Byte>)
    requires |kind| == 4
    ensures var bytes := Chunk(kind, data) + rest;
      && bytes[..4] == BigEndian32(|data|)
      && bytes[4..8] == kind
      && bytes[8..8 + |data|] == data
      && bytes[8 + |data|..12 + |data|] == BigEndian32(Crc(kind + data) as int)
  {
    var bytes := Chunk(kind, data) + rest;
    assert bytes == BigEndian32(|data|) + kind + data + BigEndian32(Crc(kind + data) as int) + rest;
  }


  // ---------------------------------------------------------------------------
  // Scanlines (sections 2.3 and 6 of RFC 2083: filter type 0, "None", before each row)

  lemma MulSucc(a: nat, b: nat)
    ensures (a + 1) * b == a * b + b
  {
  }

  lemma MulMono(a: nat, c: nat, b: nat)
    requires a <= c
    ensures a * b <= c * b
  {
    assert c * b == a * b + (c - a) * b;
  }

  /** Row y is inside an image of height rows of rowSize bytes. */
  lemma RowBound(rowSize: nat, height: nat, y: nat)
    requires y < height
    ensures y * rowSize + rowSize == (y + 1) * rowSize <= height * rowSize
  {
    MulSucc(y, rowSize);
    MulMono(y + 1, height, rowSize);
  }

  /** The bytes of row y of an RGBA image that is width pixels wide: four per pixel. */
  function Row(data: seq<Byte>, width: nat, y: nat): (r: seq<Byte>)
    requires (y + 1) * (4 * width) <= |data|
    ensures |r| == 4 * width
  {
    MulSucc(y, 4 * width);
    data[y * (4 * width)..(y + 1) * (4 * width)]
  }

  /** The pixel bytes of rows y to height - 1. */
  function Pixels(data: seq<Byte>, width: nat, height: nat, y: nat): seq<Byte>
    requires height * (4 * width) <= |data| && y <= height
  {
    MulMono(y, height, 4 * width);
    data[y * (4 * width)..height * (4 * width)]
  }

  lemma PixelsStep(data: seq<Byte>, width: nat, height: nat, y: nat)
    requires height * (4 * width) <= |data| && y < height
    ensures (y + 1) * (4 * width) <= height * (4 * width)
    ensures Pixels(data, width, height, y) == Row(data, width, y) + Pixels(data, width, height, y + 1)
  {
    RowBound(4 * width, height, y);
    var lo, mid, hi := y * (4 * width), (y + 1) * (4 * width), height * (4 * width);
    assert data[lo..hi] == data[lo..mid] + data[mid..hi];
  }

  /** The rows y, y + 1, ..., height - 1 of the image, each behind a filter byte 0. */
  function Scanlines(data: seq<Byte>, width: nat, height: nat, y: nat): seq<Byte>
    requires height * (4 * width) <= |data|
    decreases height - y
  {
    if y >= height then []
    else
      RowBound(4 * width, height, y);
      [0] + Row(data, width, y) + Scanlines(data, width, height, y + 1)
  }

  lemma ScanlinesStep(data: seq<Byte>, width: nat, height: nat, y: nat)
    requires height * (4 * width) <= |data| && y < height
    ensures (y + 1) * (4 * width) <= height * (4 * width)
    ensures Scanlines(data, width, height, y) == [0] + Row(data, width, y) + Scanlines(data, width, height, y + 1)
  {
    RowBound(4 * width, height, y);
  }

  /** Strips the filter byte from each of rows rows of 4 * width bytes; fails on a filter type other than 0 or on a wrong length. */
  function Unfilter(raw: seq<Byte>, width: nat, rows: nat): Option<seq<Byte>> {
    if rows == 0 then (if |raw| == 0 then Some([]) else None)
    else if |raw| < 1 + 4 * width || raw[0] != 0 then None
    else match Unfilter(raw[1 + 4 * width..], width, rows - 1)
      case None => None
      case Some(rest) => Some(raw[1..1 + 4 * width] + rest)
  }

  lemma UnfilterStep(row: seq<Byte>, rest: seq<Byte>, width: nat, rows: nat)
    requires |row| == 4 * width && rows > 0 && Unfilter(rest, width, rows - 1).Some?
    ensures Unfilter([0] + row + rest, width, rows) == Some(row + Unfilter(rest, width, rows - 1).value)
  {
    var raw := [0] + row + rest;
    assert raw[1 + 4 * width..] == rest;
    assert raw[1..1 + 4 * width] == row;
  }

  /** Removing the filter bytes of a scanlines stream gives back the pixel rows in order. */
  lemma {:induction false} ScanlinesRoundTrip(data: seq<Byte>, width: nat, height: nat, y: nat)
    requires height * (4 * width) <= |data| && y <= height
    ensures Unfilter(Scanlines(data, width, height, y), width, height - y) == Some(Pixels(data, width, height, y))
    decreases height - y
  {
    if y < height {
      ScanlinesRoundTrip(data, width, height, y + 1);
      ScanlinesStep(data, width, height, y);
      PixelsStep(data, width, height, y);
      UnfilterStep(Row(data, width, y), Scanlines(data, width, height, y + 1), width, height - y);
    } else {
      MulMono(y, height, 4 * width);
      assert Pixels(data, width, height, y) == [];
    }
  }

  /** A scanlines stream has height * (1 + 4 * width) bytes. */
  lemma {:induction false} ScanlinesLength(data: seq<Byte>, width: nat, height: nat, y: nat)
    requires height * (4 * width) <= |data| && y <= height
    ensures |Scanlines(data, width, height, y)| == (height - y) * (1 + 4 * width)
    decreases height - y
  {
    if y < height {
      ScanlinesLength(data, width, height, y + 1);
      ScanlinesStep(data, width, height, y);
      MulSucc(height - (y + 1), 1 + 4 * width);
    }
  }

  /** The rawData loop of encodePNG: for each row a filter byte 0, then the four bytes of each pixel. */
  method RawData(data: seq<Byte>, width: nat, height: nat) returns (raw: seq<Byte>)
    requires height * (4 * width) <= |data|
    ensures raw == Scanlines(data, width, height, 0)
  {
    raw := [];
    for y := 0 to height
      invariant raw + Scanlines(data, width, height, y) == Scanlines(data, width, height, 0)
    {
      RowBound(4 * width, height, y);
      ScanlinesStep(data, width, height, y);
      ghost var before := raw;
      ghost var tail := Scanlines(data, width, height, y + 1);
      raw := PushRow(raw + [0], data, width, y);
      assert raw + tail == before + ([0] + Row(data, width, y) + tail);
    }
  }

  lemma PixelIndex(y: nat, width: nat, x: nat)
    ensures (y * width + x) * 4 == y * (4 * width) + 4 * x
  {
  }

  /** The inner loop of the rawData loop: the four bytes of each pixel of row y, in order. */
  method PushRow(raw: seq<Byte>, data: seq<Byte>, width: nat, y: nat) returns (out: seq<Byte>)
    requires (y + 1) * (4 * width) <= |data|
    ensures out == raw + Row(data, width, y)
  {
    ghost var lo := y * (4 * width);
    MulSucc(y, 4 * width);
    out := raw;
    for x := 0 to width
      invariant out == raw + data[lo..lo + 4 * x]
    {
      var idx := (y * width + x) * 4;
      PixelIndex(y, width, x);
      out := out + [data[idx], data[idx + 1], data[idx + 2], data[idx + 3]];
      assert data[lo..lo + 4 * (x + 1)] == data[lo..lo + 4 * x] + data[idx..idx + 4];
    }
  }

  // ---------------------------------------------------------------------------
  // DEFLATE stored blocks (section 3.2.4 of RFC 1951)

  /** The largest payload of a stored block, the source's chunkSize. */
  const MaxStored := 65535

  /** The bytes of ~len & 0xFF and (~len >>> 8) & 0xFF: ~len is the 32-bit 0xFFFF_FFFF - len. */
  function Complement16(len: nat): (r: seq<Byte>)
    requires len <= MaxStored
    ensures |r| == 2
  {
    LittleEndian16(0xFFFF_FFFF - len)
  }

  /** NLEN, as the source writes it, is the two bytes of 0xFFFF - LEN. */
  lemma ComplementBytes(len: nat)
    requires len <= MaxStored
    ensures Complement16(len) == LittleEndian16(0xFFFF - len)
  {
    var c := 0xFFFF_FFFF - len;
    assert c == (0xFFFF - len) + 0xFFFF * 0x1_0000;
    assert c / 256 == (0xFFFF - len) / 256 + 0xFFFF * 256;
  }

  /** NLEN, as the source writes it, is the ones' complement of LEN: the two add up to 0xFFFF. */
  lemma ComplementIsNlen(len: nat)
    requires len <= MaxStored
    ensures ReadLittleEndian16(LittleEndian16(len)) + ReadLittleEndian16(Complement16(len)) == 0xFFFF
  {
    ComplementBytes(len);
    LittleEndian16RoundTrip(len);
    LittleEndian16RoundTrip(0xFFFF - len);
  }

  /** A stored block: the header byte (BFINAL in bit 0, BTYPE 00), LEN, NLEN and the payload. */
  function StoredBlock(last: bool, payload: seq<Byte>): (r: seq<Byte>)
    requires |payload| <= MaxStored
    ensures |r| == 5 + |payload|
  {
    [if last then 1 else 0] + LittleEndian16(|payload|) + Complement16(|payload|) + payload
  }

  /** The blocks the source writes for raw from offset i on: 65535 bytes at a time, the last block flagged final. */
  function Blocks(raw: seq<Byte>, i: nat): seq<Byte>
    decreases |raw| - i
  {
    if i >= |raw| then []
    else if i + MaxStored >= |raw| then StoredBlock(true, raw[i..])
    else StoredBlock(false, raw[i..i + MaxStored]) + Blocks(raw, i + MaxStored)
  }

  /** The result of decoding: the payload bytes and the number of input bytes read. */
  datatype Inflated = Inflated(raw: seq<Byte>, size: nat)

  /** The header of a stored block: BFINAL, and LEN when NLEN is its complement and LEN bytes follow. */
  datatype Header = Header(last: bool, len: nat)

  /**
   * Reads the header of a stored block (BTYPE 00). The header bits above
   * BTYPE are ignored, as a stored block skips to the next byte boundary.
   */
  function StoredHeader(bytes: seq<Byte>): (r: Option<Header>)
    ensures r.Some? ==> 5 + r.value.len <= |bytes|
  {
    if |bytes| < 5 || bytes[0] % 8 > 1 then None
    else
      var len, nlen := ReadLittleEndian16(bytes[1..3]), ReadLittleEndian16(bytes[3..5]);
      if len + nlen != 0xFFFF || |bytes| < 5 + len then None
      else Some(Header(bytes[0] % 2 == 1, len))
  }

  /** Decodes DEFLATE blocks up to and including the one with BFINAL set; only stored blocks are accepted. */
  function Inflate(bytes: seq<Byte>): (r: Option<Inflated>)
    ensures r.Some? ==> r.value.size <= |bytes|
    decreases |bytes|
  {
    match StoredHeader(bytes)
    case None => None
    case Some(h) =>
      if h.last then Some(Inflated(bytes[5..5 + h.len], 5 + h.len))
      else match Inflate(bytes[5 + h.len..])
        case None => None
        case Some(next) => Some(Inflated(bytes[5..5 + h.len] + next.raw, 5 + h.len + next.size))
  }

  /** One stored block decodes to its payload, whatever follows it. */
  lemma StoredBlockReads(last: bool, payload: seq<Byte>, rest: seq<Byte>)
    requires |payload| <= MaxStored
    ensures var bytes := StoredBlock(last, payload) + rest;
      && StoredHeader(bytes) == Some(Header(last, |payload|))
      && bytes[5..5 + |payload|] == payload
      && bytes[5 + |payload|..] == rest
  {
    var len := |payload|;
    var bytes := StoredBlock(last, payload) + rest;
    assert bytes[1..3] == LittleEndian16(len);
    assert bytes[3..5] == Complement16(len);
    LittleEndian16RoundTrip(len);
    ComplementIsNlen(len);
    assert ReadLittleEndian16(bytes[1..3]) == len;
    assert ReadLittleEndian16(bytes[3..5]) == 0xFFFF - len;
    assert bytes[5..5 + len] == payload;
  }

  /** The decoder after a final block header. */
  lemma InflateLast(bytes: seq<Byte>, h: Header)
    requires StoredHeader(bytes) == Some(h) && h.last
    ensures Inflate(bytes) == Some(Inflated(bytes[5..5 + h.len], 5 + h.len))
  {
  }

  /** The decoder after a header of a block that is not the last. */
  lemma InflateMore(bytes: seq<Byte>, h: Header, next: Inflated)
    requires StoredHeader(bytes) == Some(h) && !h.last && Inflate(bytes[5 + h.len..]) == Some(next)
    ensures Inflate(bytes) == Some(Inflated(bytes[5..5 + h.len] + next.raw, 5 + h.len + next.size))
  {
  }

  /** The decoder on one stored block: a final block ends the stream, any other goes on with what follows. */
  lemma InflateBlock(last: bool, payload: seq<Byte>, rest: seq<Byte>)
    requires |payload| <= MaxStored
    ensures last ==> Inflate(StoredBlock(last, payload) + rest) == Some(Inflated(payload, 5 + |payload|))
    ensures !last && Inflate(rest).Some? ==>
      Inflate(StoredBlock(last, payload) + rest)
        == Some(Inflated(payload + Inflate(rest).value.raw, 5 + |payload| + Inflate(rest).value.size))
  {
    var bytes := StoredBlock(last, payload) + rest;
    StoredBlockReads(last, payload, rest);
    if last {
      InflateLast(bytes, Header(last, |payload|));
    } else if Inflate(rest).Some? {
      InflateMore(bytes, Header(last, |payload|), Inflate(rest).value);
    }
  }

  /** The blocks written for a non-empty raw decode back to raw, and the final flag stops the decoder exactly at their end. */
  lemma {:induction false} BlocksRoundTrip(raw: seq<Byte>, i: nat, rest: seq<Byte>)
    requires i < |raw|
    ensures Inflate(Blocks(raw, i) + rest) == Some(Inflated(raw[i..], |Blocks(raw, i)|))
    decreases |raw| - i
  {
    if i + MaxStored >= |raw| {
      LastBlockRoundTrip(raw, i, rest);
    } else {
      BlocksRoundTrip(raw, i + MaxStored, rest);
      NextBlockRoundTrip(raw, i, rest);
    }
  }

  /** The last block, of at most 65535 bytes. */
  lemma LastBlockRoundTrip(raw: seq<Byte>, i: nat, rest: seq<Byte>)
    requires i < |raw| <= i + MaxStored
    ensures Inflate(Blocks(raw, i) + rest) == Some(Inflated(raw[i..], |Blocks(raw, i)|))
  {
    var block := StoredBlock(true, raw[i..]);
    assert Blocks(raw, i) == block;
    InflateBlock(true, raw[i..], rest);
  }

  /** A full block of 65535 bytes in front of blocks that decode. */
  lemma NextBlockRoundTrip(raw: seq<Byte>, i: nat, rest: seq<Byte>)
    requires i + MaxStored < |raw|
    requires Inflate(Blocks(raw, i + MaxStored) + rest)
          == Some(Inflated(raw[i + MaxStored..], |Blocks(raw, i + MaxStored)|))
    ensures Inflate(Blocks(raw, i) + rest) == Some(Inflated(raw[i..], |Blocks(raw, i)|))
  {
    var payload := raw[i..i + MaxStored];
    var next := Blocks(raw, i + MaxStored);
    BlocksStep(raw, i);
    BlockInFront(payload, next, rest, raw[i + MaxStored..]);
    SliceSplit(raw, i, i + MaxStored);
  }

  /** A suffix splits into a slice and the suffix after it, for any element type. */
  lemma SliceSplit<T>(s: seq<T>, i: nat, j: nat)
    requires i <= j <= |s|
    ensures s[i..] == s[i..j] + s[j..]
  {
  }

  /** A block that is not the last, in front of blocks that decode to more. */
  lemma BlockInFront(payload: seq<Byte>, next: seq<Byte>, rest: seq<Byte>, more: seq<Byte>)
    requires |payload| <= MaxStored
    requires Inflate(next + rest) == Some(Inflated(more, |next|))
    ensures var blocks := StoredBlock(false, payload) + next;
      Inflate(blocks + rest) == Some(Inflated(payload + more, |blocks|))
  {
    var block := StoredBlock(false, payload);
    var blocks := block + next;
    assert blocks + rest == block + (next + rest);
    InflateBlock(false, payload, next + rest);
    assert Inflate(block + (next + rest)) == Some(Inflated(payload + more, 5 + |payload| + |next|));
    assert |blocks| == 5 + |payload| + |next|;
  }

  // ---------------------------------------------------------------------------
  // Adler-32 (section 8.2 of RFC 1950)

  const AdlerBase := 65521

  /** D1 + D2 + ... + Dn. */
  function Sum(s: seq<Byte>): nat {
    if |s| == 0 then 0 else Sum(s[..|s| - 1]) + s[|s| - 1]
  }

  /** (1 + D1) + (1 + D1 + D2) + ... + (1 + D1 + ... + Dn): the sum of A over the prefixes. */
  function PrefixSums(s: seq<Byte>): nat {
    if |s| == 0 then 0 else PrefixSums(s[..|s| - 1]) + 1 + Sum(s)
  }

  /** The Adler-32 checksum of s: B in the high 16 bits, A in the low 16, both reduced modulo 65521. */
  function Adler32(s: seq<Byte>): (r: nat)
    ensures r < 0x1_0000_0000
  {
    (PrefixSums(s) % AdlerBase) * 0x1_0000 + (1 + Sum(s)) % AdlerBase
  }

  /** n * D1 + (n - 1) * D2 + ... + 1 * Dn. */
  function Weighted(s: seq<Byte>): nat {
    if |s| == 0 then 0 else |s| * s[0] + Weighted(s[1..])
  }

  lemma {:induction false} SumFront(s: seq<Byte>)
    requires |s| > 0
    ensures Sum(s) == s[0] + Sum(s[1..])
  {
    if |s| > 1 {
      assert s[1..][..|s| - 2] == s[..|s| - 1][1..];
      SumFront(s[..|s| - 1]);
    }
  }

  lemma {:induction false} WeightedBack(s: seq<Byte>)
    requires |s| > 0
    ensures Weighted(s) == Weighted(s[..|s| - 1]) + Sum(s)
  {
    if |s| > 1 {
      var init, tail := s[..|s| - 1], s[1..];
      assert tail[..|tail| - 1] == init[1..];
      WeightedBack(tail);
      SumFront(s);
      MulSucc(|init|, s[0]);
      calc {
        Weighted(s);
        |s| * s[0] + Weighted(tail);
        |s| * s[0] + Weighted(init[1..]) + Sum(tail);
        |init| * s[0] + Weighted(init[1..]) + s[0] + Sum(tail);
        Weighted(init) + Sum(s);
      }
    }
  }

  /** The closed form of B in RFC 1950: B = n + n * D1 + (n - 1) * D2 + ... + Dn before reduction. */
  lemma {:induction false} PrefixSumsWeighted(s: seq<Byte>)
    ensures PrefixSums(s) == |s| + Weighted(s)
  {
    if |s| > 0 {
      PrefixSumsWeighted(s[..|s| - 1]);
      WeightedBack(s);
    }
  }

  lemma ModAdd(x: nat, y: nat)
    ensures (x % AdlerBase + y) % AdlerBase == (x + y) % AdlerBase
  {
  }

  /** The Adler loop of encodePNG; the source's (b << 16) | a is written as b * 65536 + a, the value whose bytes it emits. */
  method Adler(raw: seq<Byte>) returns (adler: nat)
    ensures adler == Adler32(raw)
  {
    var a, b := 1, 0;
    for i := 0 to |raw|
      invariant a == (1 + Sum(raw[..i])) % AdlerBase
      invariant b == PrefixSums(raw[..i]) % AdlerBase
    {
      assert raw[..i + 1][..i] == raw[..i];
      ModAdd(1 + Sum(raw[..i]), raw[i]);
      a := (a + raw[i]) % AdlerBase;
      ModAdd(PrefixSums(raw[..i]), a);
      ModAdd(1 + Sum(raw[..i + 1]), PrefixSums(raw[..i]));
      b := (b + a) % AdlerBase;
    }
    assert raw[..|raw|] == raw;
    adler := b * 0x1_0000 + a;
  }

  // ---------------------------------------------------------------------------
  // The zlib stream (section 2.2 of RFC 1950)

  /** CMF 0x78 (deflate, 32K window) and FLG 0x01 (no dictionary, fastest level, check bits). */
  const ZlibHeader: seq<Byte> := [0x78, 0x01]

  /**
   * The header checks of a decoder: CM = 8 (deflate), CINFO <= 7 (a window
   * of at most 32K), (CMF * 256 + FLG) mod 31 = 0, and FDICT clear.
   */
  predicate ValidHeader(cmf: Byte, flg: Byte) {
    cmf % 16 == 8 && cmf / 16 <= 7 && (cmf as int * 256 + flg as int) % 31 == 0 && (flg / 32) % 2 == 0
  }

  /** The header the source writes passes the checks. */
  lemma HeaderChecks()
    ensures ValidHeader(ZlibHeader[0], ZlibHeader[1])
  {
  }

  /** The zlib stream of raw: the header, the stored blocks and the big-endian Adler-32 of raw. */
  function ZlibStream(raw: seq<Byte>): (r: seq<Byte>)
    ensures |r| == 6 + |Blocks(raw, 0)|
  {
    ZlibHeader + Blocks(raw, 0) + BigEndian32(Adler32(raw))
  }

  /**
   * Decodes a complete zlib stream: the header must pass ValidHeader, the
   * trailer must be the Adler-32 of the decoded bytes, and nothing may
   * follow it.
   */
  function ParseZlib(bytes: seq<Byte>): (r: Option<seq<Byte>>)
  {
    if |bytes| < 2 then None
    else
      if !ValidHeader(bytes[0], bytes[1]) then None
      else match Inflate(bytes[2..])
        case None => None
        case Some(body) =>
          var trailer := bytes[2 + body.size..];
          if trailer != BigEndian32(Adler32(body.raw)) then None
          else Some(body.raw)
  }

  /** Every non-empty byte sequence survives the zlib stream of encodePNG. */
  lemma ZlibRoundTrip(raw: seq<Byte>)
    requires |raw| > 0
    ensures ParseZlib(ZlibStream(raw)) == Some(raw)
  {
    var blocks, trailer := Blocks(raw, 0), BigEndian32(Adler32(raw));
    var bytes := ZlibHeader + blocks + trailer;
    assert bytes[2..] == blocks + trailer;
    BlocksRoundTrip(raw, 0, trailer);
    assert bytes[2 + |blocks|..] == trailer;
    assert bytes == ZlibStream(raw);
    assert bytes[0] == 0x78 && bytes[1] == 0x01;
    HeaderChecks();
    assert Inflate(bytes[2..]) == Some(Inflated(raw, |blocks|));
  }

  /** The zlibData loop of encodePNG: header, the blocks of 65535 bytes at a time, then the Adler-32 trailer. */
  method ZlibData(raw: seq<Byte>) returns (out: seq<Byte>)
    ensures out == ZlibStream(raw)
  {
    out := [0x78, 0x01];
    var i := 0;
    while i < |raw|
      invariant out + Blocks(raw, i) == ZlibHeader + Blocks(raw, 0)
      decreases |raw| - i
    {
      out := PushBlock(out, raw, i);
      i := i + MaxStored;
    }
    var adler := Adler(raw);
    out := out + BigEndian32(adler);
  }

  /** One round of the zlibData loop: the block that starts at offset i. */
  method PushBlock(out: seq<Byte>, raw: seq<Byte>, i: nat) returns (r: seq<Byte>)
    requires i < |raw|
    ensures r + Blocks(raw, i + MaxStored) == out + Blocks(raw, i)
  {
    var isLast := i + MaxStored >= |raw|;
    var blockData := raw[i..if isLast then |raw| else i + MaxStored];
    var len := |blockData|;
    var notLen := 0xFFFF_FFFF - len;
    r := out + [if isLast then 1 else 0];
    r := r + LittleEndian16(len);
    r := r + LittleEndian16(notLen);
    r := r + blockData;
    ghost var block := StoredBlock(isLast, blockData);
    assert r == out + block;
    BlocksStep(raw, i);
    assert out + Blocks(raw, i) == out + block + Blocks(raw, i + MaxStored);
  }

  /** Blocks from offset i: the block at i, then the blocks from i + 65535 (none once the end is reached). */
  lemma BlocksStep(raw: seq<Byte>, i: nat)
    requires i < |raw|
    ensures var isLast := i + MaxStored >= |raw|;
      Blocks(raw, i) == StoredBlock(isLast, raw[i..if isLast then |raw| else i + MaxStored]) + Blocks(raw, i + MaxStored)
  {
    if i + MaxStored >= |raw| {
      assert Blocks(raw, i + MaxStored) == [];
    }
  }

  /** A stream whose raw data is empty holds no block at all, so no decoder accepts it: encodePNG with height 0 writes an IDAT that is not a DEFLATE stream. */
  lemma EmptyStreamHasNoBlock()
    ensures Blocks([], 0) == []
    ensures ParseZlib(ZlibStream([])) == None
  {
    var bytes := ZlibStream([]);
    assert bytes[2..] == BigEndian32(Adler32([]));
    assert Adler32([]) == 1;
  }

  // ---------------------------------------------------------------------------
  // The PNG file (sections 3.1, 4.1.1 and 4.1.4 of RFC 2083)

  const Signature: seq<Byte> := [137, 80, 78, 71, 13, 10, 26, 10]

  /** The chunk types, as chunk converts them with charCodeAt. */
  const IhdrType: seq<Byte> := TypeBytes("IHDR")
  const IdatType: seq<Byte> := TypeBytes("IDAT")
  const IendType: seq<Byte> := TypeBytes("IEND")

  /** The twelve bytes of every IEND chunk. */
  const IendChunk: seq<Byte> := [0, 0, 0, 0, 73, 69, 78, 68, 0xAE, 0x42, 0x60, 0x82]

  /** chunk('IEND', []) is the standard IEND chunk. */
  lemma IendChunkBytes()
    ensures Chunk(IendType, []) == IendChunk
  {
    var kind := IendType;
    assert kind == [73, 69, 78, 68];
    assert kind + [] == kind;
    IendCrc();
    assert BigEndian32(0) == [0, 0, 0, 0];
    assert BigEndian32(0xAE42_6082) == [0xAE, 0x42, 0x60, 0x82];
  }

  /** The IHDR payload: width and height big-endian, bit depth 8, colour type 6 (RGBA), and compression, filter and interlace methods 0. */
  function IhdrData(width: nat, height: nat): (r: seq<Byte>)
    ensures |r| == 13
  {
    BigEndian32(width) + BigEndian32(height) + [8, 6, 0, 0, 0]
  }

  /** The file encodePNG returns for an image of width by height RGBA pixels. */
  function Png(width: nat, height: nat, data: seq<Byte>): seq<Byte>
    requires height * (4 * width) <= |data|
  {
    Signature + Chunk(IhdrType, IhdrData(width, height))
      + Chunk(IdatType, ZlibStream(Scanlines(data, width, height, 0)))
      + Chunk(IendType, [])
  }

  /** The file starts with the 8-byte signature, then the 25-byte IHDR chunk, and ends with the 12-byte IEND chunk. */
  lemma PngLayout(width: nat, height: nat, data: seq<Byte>)
    requires height * (4 * width) <= |data|
    ensures var r := Png(width, height, data);
      && |r| == 8 + 25 + (12 + |ZlibStream(Scanlines(data, width, height, 0))|) + 12
      && r[..8] == Signature
      && r[8..33] == Chunk(IhdrType, IhdrData(width, height))
      && r[|r| - 12..] == IendChunk
  {
    var ihdr := Chunk(IhdrType, IhdrData(width, height));
    var idat := Chunk(IdatType, ZlibStream(Scanlines(data, width, height, 0)));
    PngSplit(width, height, data);
    Split3(Signature, ihdr, idat + IendChunk);
    Split3(Signature + ihdr, idat, IendChunk);
  }

  /** chunk, with the CRC computed by the crc32 loop. */
  method EmitChunk(kind: seq<Byte>, data: seq<Byte>) returns (r: seq<Byte>)
    ensures r == Chunk(kind, data)
  {
    var crc := Crc32(kind + data);
    r := BigEndian32(|data|) + kind + data + BigEndian32(crc as int);
  }

  /** encodePNG: signature, IHDR, IDAT holding the zlib stream of the scanlines, and IEND. */
  method EncodePng(width: nat, height: nat, data: seq<Byte>) returns (png: seq<Byte>)
    requires height * (4 * width) <= |data|
    ensures png == Png(width, height, data)
  {
    var ihdr := EmitChunk(IhdrType, IhdrData(width, height));
    var raw := RawData(data, width, height);
    var zlib := ZlibData(raw);
    var idat := EmitChunk(IdatType, zlib);
    var iend := EmitChunk(IendType, []);
    png := Signature + ihdr + idat + iend;
  }

  /** A decoded image: its size and its RGBA bytes, row by row. */
  datatype Image = Image(width: nat, height: nat, pixels: seq<Byte>)

  /** The header fields of an IHDR payload, when it describes 8-bit RGBA without interlacing. */
  function ParseIhdr(header: Decoded): Option<(nat, nat)> {
    if header.kind != IhdrType || |header.data| != 13 || header.data[8..] != [8, 6, 0, 0, 0] then None
    else Some((ReadBigEndian32(header.data), ReadBigEndian32(header.data[4..])))
  }

  /**
   * Decodes a PNG file of the shape encodePNG writes: the signature, an IHDR
   * chunk, one IDAT chunk holding a zlib stream of scanlines with filter
   * type 0, and the IEND chunk, with nothing after it.
   */
  function ParsePng(bytes: seq<Byte>): Option<Image> {
    if |bytes| < 8 || bytes[..8] != Signature then None
    else match ParseChunk(bytes[8..])
      case None => None
      case Some(header) =>
        match ParseIhdr(header)
        case None => None
        case Some(size) => ParseBody(bytes[8 + header.size..], size.0, size.1)
  }

  /** The chunks after IHDR: one IDAT chunk and then exactly the IEND chunk. */
  function ParseBody(bytes: seq<Byte>, width: nat, height: nat): Option<Image> {
    match ParseChunk(bytes)
    case None => None
    case Some(body) =>
      if body.kind != IdatType || bytes[body.size..] != IendChunk then None
      else match ParseZlib(body.data)
        case None => None
        case Some(raw) =>
          match Unfilter(raw, width, height)
          case None => None
          case Some(pixels) => Some(Image(width, height, pixels))
  }

  /** The IHDR payload reads back as the width and height, each below 2^32. */
  lemma IhdrRoundTrip(width: nat, height: nat)
    requires width < 0x1_0000_0000 && height < 0x1_0000_0000
    ensures ParseIhdr(Decoded(IhdrType, IhdrData(width, height), 25)) == Some((width, height))
  {
    var d := IhdrData(width, height);
    Split3(BigEndian32(width), BigEndian32(height), [8, 6, 0, 0, 0]);
    Split3(BigEndian32(height), [8, 6, 0, 0, 0], []);
    assert BigEndian32(height) + [8, 6, 0, 0, 0] + [] == d[4..];
    ReadBack(d, width);
    ReadBack(d[4..], height);
  }

  /** The IDAT and IEND chunks of encodePNG decode to the image. */
  lemma BodyRoundTrip(width: nat, height: nat, data: seq<Byte>)
    requires 0 < height && height * (4 * width) <= |data|
    requires |ZlibStream(Scanlines(data, width, height, 0))| < 0x1_0000_0000
    ensures ParseBody(Chunk(IdatType, ZlibStream(Scanlines(data, width, height, 0))) + IendChunk, width, height)
         == Some(Image(width, height, data[..height * (4 * width)]))
  {
    var raw := Scanlines(data, width, height, 0);
    var zlib := ZlibStream(raw);
    var idat := Chunk(IdatType, zlib);
    var bytes := idat + IendChunk;
    ChunkRoundTrip(IdatType, zlib, IendChunk);
    assert ParseChunk(bytes) == Some(Decoded(IdatType, zlib, |idat|));
    assert bytes[|idat|..] == IendChunk;
    ScanlinesStep(data, width, height, 0);
    ZlibRoundTrip(raw);
    ScanlinesRoundTrip(data, width, height, 0);
    assert Unfilter(raw, width, height) == Some(Pixels(data, width, height, 0));
    assert Pixels(data, width, height, 0) == data[..height * (4 * width)];
  }

  /** The file is the signature and IHDR, followed by IDAT and the IEND bytes. */
  lemma PngSplit(width: nat, height: nat, data: seq<Byte>)
    requires height * (4 * width) <= |data|
    ensures Png(width, height, data)
         == Signature + Chunk(IhdrType, IhdrData(width, height))
            + (Chunk(IdatType, ZlibStream(Scanlines(data, width, height, 0))) + IendChunk)
  {
    IendChunkBytes();
  }

  /** After the signature and the IHDR chunk of a width and a height below 2^32, the decoder goes on with the rest. */
  lemma HeaderRoundTrip(width: nat, height: nat, rest: seq<Byte>)
    requires width < 0x1_0000_0000 && height < 0x1_0000_0000
    ensures ParsePng(Signature + Chunk(IhdrType, IhdrData(width, height)) + rest) == ParseBody(rest, width, height)
  {
    var ihdr := Chunk(IhdrType, IhdrData(width, height));
    Split3(Signature, ihdr, rest);
    ChunkRoundTrip(IhdrType, IhdrData(width, height), rest);
    IhdrRoundTrip(width, height);
  }

  /**
   * encodePNG's output decodes back to the image: the width, the height and
   * the first height * width * 4 bytes of data. It needs at least one row
   * (see EmptyStreamHasNoBlock) and sizes that fit the 32-bit fields.
   */
  lemma PngRoundTrip(width: nat, height: nat, data: seq<Byte>)
    requires 0 < height < 0x1_0000_0000 && width < 0x1_0000_0000
    requires height * (4 * width) <= |data|
    requires |ZlibStream(Scanlines(data, width, height, 0))| < 0x1_0000_0000
    ensures ParsePng(Png(width, height, data)) == Some(Image(width, height, data[..height * (4 * width)]))
    ensures |data| == height * (4 * width) ==> ParsePng(Png(width, height, data)) == Some(Image(width, height, data))
  {
    var rest := Chunk(IdatType, ZlibStream(Scanlines(data, width, height, 0))) + IendChunk;
    PngSplit(width, height, data);
    HeaderRoundTrip(width, height, rest);
    BodyRoundTrip(width, height, data);
    WholePrefix(data);
  }

  lemma WholePrefix<T>(s: seq<T>)
    ensures s[..|s|] == s
  {
  }
}
