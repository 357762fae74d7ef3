/** The frame header and the block headers: what they say, how they are written and read. */
module FrameHeader {
  import opened Core

  const MAGIC_NUMBER: nat := 0x184D2204
  const SKIPPABLE_FIRST: nat := 0x184D2A50
  const SKIPPABLE_LAST: nat := 0x184D2A5F
  const MAGIC_NUMBER_SIZE: nat := 4
  const MIN_FRAME_INFO_SIZE: nat := 7
  const MAX_FRAME_INFO_SIZE: nat := 19
  const BLOCK_INFO_SIZE: nat := 4
  const UNCOMPRESSED_BIT: nat := 0x8000_0000

  datatype BlockSize = Auto | Max64KB | Max256KB | Max1MB | Max4MB {
    /** The code of the size in the header; `Auto` has none that a header may hold. */
    function Code(): (c: nat)
      ensures c < 8
    {
      match this
      case Auto => 0
      case Max64KB => 4
      case Max256KB => 5
      case Max1MB => 6
      case Max4MB => 7
    }

    function Size(): (n: nat)
      requires !Auto?
      ensures WINDOW_SIZE <= n <= 4194304
    {
      match this
      case Max64KB => 65536
      case Max256KB => 262144
      case Max1MB => 1048576
      case Max4MB => 4194304
    }
  }

  /** The smallest of 64 KiB, 256 KiB and 4 MiB that the first write does not exceed, 4 MiB at most. */
  function FromBufLength(n: nat): (s: BlockSize)
    ensures s.Max64KB? || s.Max256KB? || s.Max4MB?
    ensures n <= 4194304 ==> n <= s.Size()
    ensures forall c: BlockSize :: (c.Max64KB? || c.Max256KB?) && n <= c.Size() ==> s.Size() <= c.Size()
  {
    if n > 262144 then Max4MB else if n > 65536 then Max256KB else Max64KB
  }

  datatype FrameInfo = FrameInfo(
    contentSize: Option<nat>, dictId: Option<nat>, blockSize: BlockSize,
    linked: bool, blockChecksums: bool, contentChecksum: bool)

  /** The fields fit their machine types. */
  predicate InRange(info: FrameInfo) {
    && (info.contentSize.Some? ==> info.contentSize.value <= USIZE_MAX)
    && (info.dictId.Some? ==> info.dictId.value <= U32_MAX)
  }

  datatype FrameError =
    | UnexpectedEof
    | EncoderFailed
    | UnsupportedBlocksize(code: nat)
    | UnsupportedVersion(bits: nat)
    | WrongMagicNumber
    | ReservedBitsSet
    | InvalidBlockInfo
    | BlockTooBig
    | HeaderChecksumError
    | BlockChecksumError
    | ContentChecksumError
    | SkippableFrame(len: nat)
    | DictionaryNotSupported
    | DictionaryRequired
    | DictIdMismatch(expectedId: nat, actualId: nat)
    | DecompressedSizeLimit(limit: nat, size: nat)
    | ContentLengthError(expected: nat, actual: nat)
    | CompressionError(compressError: CompressError)
    | DecompressionError(decompressError: DecompressError)

  // ----- little-endian integers

  function Le(n: nat, k: nat): (s: seq<byte>)
    ensures |s| == k
  {
    if k == 0 then [] else [n % 256] + Le(n / 256, k - 1)
  }

  function Pow256(k: nat): nat {
    if k == 0 then 1 else 256 * Pow256(k - 1)
  }

  lemma {:induction false} FromLeOfLe(n: nat, k: nat)
    requires n < Pow256(k)
    ensures FromLe(Le(n, k)) == n
    decreases k
  {
    if k != 0 {
      FromLeOfLe(n / 256, k - 1);
      assert Le(n, k)[1..] == Le(n / 256, k - 1);
    }
  }

  lemma {:induction false} LeOfFromLe(s: seq<byte>)
    ensures FromLe(s) < Pow256(|s|) && Le(FromLe(s), |s|) == s
    decreases |s|
  {
    if s != [] {
      LeOfFromLe(s[1..]);
      var n := FromLe(s);
      assert n == s[0] + 256 * FromLe(s[1..]);
      assert n % 256 == s[0] && n / 256 == FromLe(s[1..]);
      assert Le(n, |s|) == [n % 256] + Le(n / 256, |s| - 1);
      assert s == [s[0]] + s[1..];
    }
  }

  lemma Widths()
    ensures Pow256(4) == U32_MAX + 1 && Pow256(8) == USIZE_MAX + 1
  {
    assert Pow256(2) == 65536;
    assert Pow256(4) == 65536 * 65536;
    assert Pow256(6) == 65536 * 65536 * 65536;
  }

  // ----- the flag byte

  function Bit(b: bool): nat {
    if b then 1 else 0
  }

  /** Version 01, block independence, block checksums, content size, content checksum, dictionary. */
  function Flags(info: FrameInfo): (f: byte)
  {
    64 + 32 * Bit(!info.linked) + 16 * Bit(info.blockChecksums) + 8 * Bit(info.contentSize.Some?)
    + 4 * Bit(info.contentChecksum) + Bit(info.dictId.Some?)
  }

  predicate IsSet(f: byte, mask: nat)
    requires mask > 0
  {
    f / mask % 2 == 1
  }

  lemma FlagsRead(info: FrameInfo)
    ensures var f := Flags(info);
            && f / 64 == 1 && !IsSet(f, 2)
            && (IsSet(f, 32) <==> !info.linked) && (IsSet(f, 16) <==> info.blockChecksums)
            && (IsSet(f, 8) <==> info.contentSize.Some?) && (IsSet(f, 4) <==> info.contentChecksum)
            && (IsSet(f, 1) <==> info.dictId.Some?)
  {
  }

  /** A flag byte with the right version and no reserved bit is the sum of its flags. */
  lemma FlagsComplete(f: byte)
    requires f / 64 == 1 && !IsSet(f, 2)
    ensures f == 64 + 32 * Bit(IsSet(f, 32)) + 16 * Bit(IsSet(f, 16)) + 8 * Bit(IsSet(f, 8))
              + 4 * Bit(IsSet(f, 4)) + Bit(IsSet(f, 1))
  {
    assert f / 2 == f / 1 / 2 && f / 4 == f / 2 / 2 && f / 8 == f / 4 / 2;
    assert f / 16 == f / 8 / 2 && f / 32 == f / 16 / 2 && f / 64 == f / 32 / 2;
  }

  // ----- writing

  function WriteSize(info: FrameInfo): (n: nat)
    ensures MIN_FRAME_INFO_SIZE <= n <= MAX_FRAME_INFO_SIZE
  {
    MIN_FRAME_INFO_SIZE + (if info.contentSize.Some? then 8 else 0) + if info.dictId.Some? then 4 else 0
  }

  function OptionalField(v: Option<nat>, k: nat): (s: seq<byte>)
    ensures |s| == if v.Some? then k else 0
  {
    match v
    case None => []
    case Some(n) => Le(n, k)
  }

  /** What the header checksum covers. */
  function Descriptor(info: FrameInfo): (s: seq<byte>)
    ensures |s| == WriteSize(info) - 5
  {
    [Flags(info), info.blockSize.Code() * 16] + OptionalField(info.contentSize, 8) + OptionalField(info.dictId, 4)
  }

  /** The second byte of a 32-bit hash. */
  function HeaderChecksum(xxh: seq<byte> -> nat, s: seq<byte>): byte {
    xxh(s) / 256 % 256
  }

  function HeaderBytes(info: FrameInfo, xxh: seq<byte> -> nat): (s: seq<byte>)
    ensures |s| == WriteSize(info)
  {
    Le(MAGIC_NUMBER, 4) + Descriptor(info) + [HeaderChecksum(xxh, Descriptor(info))]
  }

  method PutBytes(buffer: array<byte>, at: nat, s: seq<byte>) returns (end: nat)
    requires at + |s| <= buffer.Length
    modifies buffer
    ensures end == at + |s| && buffer[..end] == old(buffer[..at]) + s
  {
    forall i | 0 <= i < |s| {
      buffer[at + i] := s[i];
    }
    end := at + |s|;
  }

  /** Writes the header to the front of `output`. */
  method WriteHeader(info: FrameInfo, xxh: seq<byte> -> nat, output: array<byte>) returns (r: Result<nat, FrameError>)
    modifies output
    ensures r == if output.Length < WriteSize(info) then Err(UnexpectedEof)
                 else if info.blockSize.Auto? then Err(UnsupportedBlocksize(0))
                 else Ok(WriteSize(info))
    ensures r.Ok? ==> output[..r.value] == HeaderBytes(info, xxh)
  {
    var size := WriteSize(info);
    if output.Length < size {
      return Err(UnexpectedEof);
    }
    var buffer := new byte[MAX_FRAME_INFO_SIZE](_ => 0);
    var at := PutBytes(buffer, 0, Le(MAGIC_NUMBER, 4));
    if !(4 <= info.blockSize.Code() <= 7) {
      return Err(UnsupportedBlocksize(info.blockSize.Code()));
    }
    at := PutBytes(buffer, at, [Flags(info), info.blockSize.Code() * 16]);
    at := PutBytes(buffer, at, OptionalField(info.contentSize, 8));
    at := PutBytes(buffer, at, OptionalField(info.dictId, 4));
    assert buffer[..at] == Le(MAGIC_NUMBER, 4) + Descriptor(info);
    assert buffer[4..at] == buffer[..at][4..] == Descriptor(info);
    at := PutBytes(buffer, at, [HeaderChecksum(xxh, buffer[4..at])]);
    assert buffer[..at] == HeaderBytes(info, xxh);
    var _ := PutBytes(output, 0, buffer[..size]);
    r := Ok(size);
  }

  // ----- reading

  /** The length of a header, from its first seven bytes. */
  function ReadSize(input: seq<byte>): Result<nat, FrameError>
    requires MAGIC_NUMBER_SIZE <= |input|
  {
    if |input| < MIN_FRAME_INFO_SIZE then Ok(MIN_FRAME_INFO_SIZE)
    else
      var magic := FromLe(input[..4]);
      if SKIPPABLE_FIRST <= magic <= SKIPPABLE_LAST then Ok(8)
      else if magic != MAGIC_NUMBER then Err(WrongMagicNumber)
      else Ok(MIN_FRAME_INFO_SIZE + (if IsSet(input[4], 8) then 8 else 0) + if IsSet(input[4], 1) then 4 else 0)
  }

  function BlockSizeOf(code: nat): (s: BlockSize)
    requires 4 <= code <= 7
    ensures !s.Auto? && s.Code() == code
  {
    if code == 4 then Max64KB else if code == 5 then Max256KB else if code == 6 then Max1MB else Max4MB
  }

  /** The fixed part of the descriptor: everything but the optional fields. */
  function ReadFlags(flg: byte, bd: byte): Result<FrameInfo, FrameError> {
    if flg / 64 != 1 then Err(UnsupportedVersion(flg / 64 * 64))
    else if IsSet(flg, 2) || bd / 128 != 0 || bd % 16 != 0 then Err(ReservedBitsSet)
    else if bd / 16 < 4 then Err(UnsupportedBlocksize(bd / 16))
    else Ok(FrameInfo(None, None, BlockSizeOf(bd / 16), !IsSet(flg, 32), IsSet(flg, 16), IsSet(flg, 4)))
  }

  /** A field of `k` bytes at `p`, if the flag says so, and the position behind it. */
  datatype Field = Field(value: Option<nat>, next: nat)

  function ReadField(input: seq<byte>, p: nat, k: nat, present: bool): (r: Result<Field, FrameError>)
    ensures r.Ok? ==> p <= r.value.next && (p <= |input| ==> r.value.next <= |input|)
    ensures r.Err? ==> r.error == UnexpectedEof
  {
    if !present then Ok(Field(None, p))
    else if p + k > |input| then Err(UnexpectedEof)
    else Ok(Field(Some(FromLe(input[p..p + k])), p + k))
  }

  function CheckHeader(input: seq<byte>, p: nat, info: FrameInfo, xxh: seq<byte> -> nat): Result<FrameInfo, FrameError>
    requires 4 <= p
  {
    if p >= |input| then Err(UnexpectedEof)
    else if HeaderChecksum(xxh, input[4..p]) != input[p] then Err(HeaderChecksumError)
    else Ok(info)
  }

  /** The frame information at the front of `input`. */
  function ParseHeader(input: seq<byte>, xxh: seq<byte> -> nat): Result<FrameInfo, FrameError> {
    if |input| < 4 then Err(UnexpectedEof)
    else
      var magic := FromLe(input[..4]);
      if SKIPPABLE_FIRST <= magic <= SKIPPABLE_LAST then
        if |input| < 8 then Err(UnexpectedEof) else Err(SkippableFrame(FromLe(input[4..8])))
      else if magic != MAGIC_NUMBER then Err(WrongMagicNumber)
      else if |input| < 6 then Err(UnexpectedEof)
      else
        match ReadFlags(input[4], input[5])
        case Err(e) => Err(e)
        case Ok(fixed) =>
          match ReadField(input, 6, 8, IsSet(input[4], 8))
          case Err(e) => Err(e)
          case Ok(size) =>
            match ReadField(input, size.next, 4, IsSet(input[4], 1))
            case Err(e) => Err(e)
            case Ok(id) =>
              CheckHeader(input, id.next, fixed.(contentSize := size.value, dictId := id.value), xxh)
  }

  // ----- the bytes themselves

  /** Every frame starts with these bytes. */
  lemma MagicBytes()
    ensures Le(MAGIC_NUMBER, 4) == [0x04, 0x22, 0x4D, 0x18]
  {
    assert Le(0x18, 1) == [0x18] + Le(0, 0);
    assert Le(0x184D, 2) == [0x4D] + Le(0x18, 1);
    assert Le(0x184D22, 3) == [0x22] + Le(0x184D, 2);
  }

  lemma FourBytes(s: seq<byte>)
    requires |s| == 4
    ensures FromLe(s) == s[0] as int + 0x100 * s[1] as int + 0x1_0000 * s[2] as int + 0x100_0000 * s[3] as int
  {
    var a, b, c := s[1..], s[2..], s[3..];
    assert a[1..] == b && b[1..] == c && c[1..] == [] && a[0] == s[1] && b[0] == s[2] && c[0] == s[3];
    assert FromLe(c) == s[3] as int && FromLe(b) == s[2] as int + 256 * FromLe(c);
    assert FromLe(a) == s[1] as int + 256 * FromLe(b);
  }

  /** Which frames start with the magic number, or with that of a skippable frame. */
  lemma MagicRead(s: seq<byte>)
    requires |s| == 4
    ensures FromLe(s) == MAGIC_NUMBER <==> s == [0x04, 0x22, 0x4D, 0x18]
    ensures SKIPPABLE_FIRST <= FromLe(s) <= SKIPPABLE_LAST
       <==> 0x50 <= s[0] <= 0x5F && s[1] == 0x2A && s[2] == 0x4D && s[3] == 0x18
  {
    FourBytes(s);
  }

  /** A code is four less than half the number of size bits beyond eight: each block size is four times
      the one before it. */
  lemma SizeOfCode(size: BlockSize)
    requires !size.Auto?
    ensures size.Size() == Pow256(2) * Pow4(size.Code() - 4) && 4 <= size.Code() <= 7
  {
    assert Pow256(2) == 256 * Pow256(1) == 65536;
    assert Pow4(1) == 4 && Pow4(2) == 16 && Pow4(3) == 64;
  }

  function Pow4(k: nat): nat {
    if k == 0 then 1 else 4 * Pow4(k - 1)
  }

  /** The header checksum is the second byte of the little-endian form of the hash. */
  lemma ChecksumByte(xxh: seq<byte> -> nat, s: seq<byte>)
    ensures HeaderChecksum(xxh, s) == Le(xxh(s), 4)[1]
  {
    assert Le(xxh(s), 4) == [xxh(s) % 256] + Le(xxh(s) / 256, 3);
  }

  /** A header byte by byte: linked blocks of 64 KiB with a content size, for instance. */
  lemma KnownHeader(xxh: seq<byte> -> nat, n: byte)
    ensures var info := FrameInfo(Some(n), None, Max64KB, true, false, true);
            var d := [0x4C, 0x40, n, 0, 0, 0, 0, 0, 0, 0];
            HeaderBytes(info, xxh) == [0x04, 0x22, 0x4D, 0x18] + d + [HeaderChecksum(xxh, d)]
  {
    hide HeaderChecksum;
    var info := FrameInfo(Some(n), None, Max64KB, true, false, true);
    MagicBytes();
    ZeroBytes();
    assert Le(n, 8) == [n] + Le(0, 7);
    assert Descriptor(info) == [0x4C, 0x40, n, 0, 0, 0, 0, 0, 0, 0];
  }

  lemma ZeroBytes()
    ensures Le(0, 7) == [0, 0, 0, 0, 0, 0, 0]
  {
    assert Le(0, 1) == [0] + Le(0, 0);
    assert Le(0, 3) == [0] + Le(0, 2) == [0, 0, 0];
    assert Le(0, 5) == [0] + Le(0, 4) == [0, 0, 0, 0, 0];
  }

  // ----- the two are inverse

  lemma FixedFields(info: FrameInfo)
    requires !info.blockSize.Auto?
    ensures ReadFlags(Flags(info), info.blockSize.Code() * 16) == Ok(info.(contentSize := None, dictId := None))
  {
    hide Flags;
    FlagsRead(info);
  }

  lemma FieldRead(input: seq<byte>, p: nat, k: nat, v: Option<nat>)
    requires v.Some? ==> v.value < Pow256(k)
    requires p + |OptionalField(v, k)| <= |input|
    requires input[p..p + |OptionalField(v, k)|] == OptionalField(v, k)
    ensures ReadField(input, p, k, v.Some?) == Ok(Field(v, p + |OptionalField(v, k)|))
  {
    if v.Some? {
      FromLeOfLe(v.value, k);
    }
  }

  /** Reading a written header gives back what was written, whatever follows it. */
  lemma ReadWritten(info: FrameInfo, xxh: seq<byte> -> nat, rest: seq<byte>)
    requires InRange(info) && !info.blockSize.Auto?
    ensures ParseHeader(HeaderBytes(info, xxh) + rest, xxh) == Ok(info)
  {
    hide Flags, Le, FromLe, ReadFlags, ReadField, HeaderChecksum, Pow256;
    var input := HeaderBytes(info, xxh) + rest;
    var a, b := OptionalField(info.contentSize, 8), OptionalField(info.dictId, 4);
    var d := Descriptor(info);
    var p := 6 + |a|;
    var q := p + |b|;
    Widths();
    FromLeOfLe(MAGIC_NUMBER, 4);
    assert input[..4] == Le(MAGIC_NUMBER, 4);
    assert input[4..q] == d;
    assert input[4] == d[0] && input[5] == d[1];
    SubSlice(input, 4, q, 6, p);
    SubSlice(input, 4, q, p, q);
    assert d == [d[0], d[1]] + a + b;
    assert d[2..2 + |a|] == a && d[2 + |a|..2 + |a| + |b|] == b;
    FixedFields(info);
    FlagsRead(info);
    FieldRead(input, 6, 8, info.contentSize);
    FieldRead(input, p, 4, info.dictId);
    assert input[q] == HeaderChecksum(xxh, d);
  }

  /** The first seven bytes of a written header tell its length. */
  lemma SizeRead(info: FrameInfo, xxh: seq<byte> -> nat, rest: seq<byte>)
    requires InRange(info) && !info.blockSize.Auto?
    ensures ReadSize((HeaderBytes(info, xxh) + rest)[..MIN_FRAME_INFO_SIZE]) == Ok(WriteSize(info))
  {
    hide Flags, Le, FromLe, HeaderChecksum, Pow256;
    var input := (HeaderBytes(info, xxh) + rest)[..MIN_FRAME_INFO_SIZE];
    Widths();
    FromLeOfLe(MAGIC_NUMBER, 4);
    assert input[..4] == Le(MAGIC_NUMBER, 4);
    assert input[4] == Descriptor(info)[0] == Flags(info);
    FlagsRead(info);
  }

  lemma FlagsWritten(flg: byte, bd: byte, hasSize: Option<nat>, hasId: Option<nat>)
    requires ReadFlags(flg, bd).Ok?
    requires hasSize.Some? == IsSet(flg, 8) && hasId.Some? == IsSet(flg, 1)
    ensures var info := ReadFlags(flg, bd).value.(contentSize := hasSize, dictId := hasId);
            Flags(info) == flg && info.blockSize.Code() * 16 == bd && !info.blockSize.Auto?
  {
    FlagsComplete(flg);
  }

  lemma FieldWritten(input: seq<byte>, p: nat, k: nat, present: bool)
    requires ReadField(input, p, k, present).Ok? && p <= |input|
    ensures var f := ReadField(input, p, k, present).value;
            && f.value.Some? == present && f.next == p + |OptionalField(f.value, k)|
            && input[p..f.next] == OptionalField(f.value, k)
            && (f.value.Some? ==> f.value.value < Pow256(k))
  {
    if present {
      LeOfFromLe(input[p..p + k]);
    }
  }

  /** Whatever bytes are read as a header start with exactly what would be written for it; their
      first seven bytes announce its length. */
  lemma WrittenRead(input: seq<byte>, xxh: seq<byte> -> nat)
    requires ParseHeader(input, xxh).Ok?
    ensures var info := ParseHeader(input, xxh).value;
            && InRange(info) && !info.blockSize.Auto?
            && WriteSize(info) <= |input|
            && input[..WriteSize(info)] == HeaderBytes(info, xxh)
            && ReadSize(input[..MIN_FRAME_INFO_SIZE]) == Ok(WriteSize(info))
  {
    hide Flags, Le, FromLe, ReadFlags, ReadField, HeaderChecksum, Pow256, IsSet;
    var info := ParseHeader(input, xxh).value;
    var size := ReadField(input, 6, 8, IsSet(input[4], 8)).value;
    var id := ReadField(input, size.next, 4, IsSet(input[4], 1)).value;
    Widths();
    LeOfFromLe(input[..4]);
    FieldWritten(input, 6, 8, IsSet(input[4], 8));
    FieldWritten(input, size.next, 4, IsSet(input[4], 1));
    FlagsWritten(input[4], input[5], size.value, id.value);
    assert info.contentSize == size.value && info.dictId == id.value;
    assert input[4..id.next] == [input[4], input[5]] + input[6..size.next] + input[size.next..id.next];
    assert input[4..id.next] == Descriptor(info);
    assert input[..id.next + 1] == input[..4] + input[4..id.next] + [input[id.next]];
    assert input[..MIN_FRAME_INFO_SIZE][..4] == input[..4];
  }

  /** Reads the header with a cursor that each field moves on. */
  method ReadHeader(input: seq<byte>, xxh: seq<byte> -> nat) returns (r: Result<FrameInfo, FrameError>)
    ensures r == ParseHeader(input, xxh)
  {
    var p := 0;
    if p + 4 > |input| {
      return Err(UnexpectedEof);
    }
    var magic := FromLe(input[..4]);
    p := p + 4;
    if SKIPPABLE_FIRST <= magic <= SKIPPABLE_LAST {
      if p + 4 > |input| {
        return Err(UnexpectedEof);
      }
      return Err(SkippableFrame(FromLe(input[p..p + 4])));
    }
    if magic != MAGIC_NUMBER {
      return Err(WrongMagicNumber);
    }
    if p + 2 > |input| {
      return Err(UnexpectedEof);
    }
    var flg, bd := input[p], input[p + 1];
    p := p + 2;
    var fixed := ReadFlags(flg, bd);
    if fixed.Err? {
      return fixed;
    }
    var info := fixed.value;
    if IsSet(flg, 8) {
      if p + 8 > |input| {
        return Err(UnexpectedEof);
      }
      info := info.(contentSize := Some(FromLe(input[p..p + 8])));
      p := p + 8;
    }
    if IsSet(flg, 1) {
      if p + 4 > |input| {
        return Err(UnexpectedEof);
      }
      info := info.(dictId := Some(FromLe(input[p..p + 4])));
      p := p + 4;
    }
    if p + 1 > |input| {
      return Err(UnexpectedEof);
    }
    var expected := input[p];
    if HeaderChecksum(xxh, input[4..p]) != expected {
      return Err(HeaderChecksumError);
    }
    r := Ok(info);
  }

  // ----- block headers

  datatype BlockInfo =
    | Compressed(size: nat)
    | Uncompressed(size: nat)
    | EndMark

  function ReadBlockInfo(input: seq<byte>): Result<BlockInfo, FrameError> {
    if |input| < 4 then Err(UnexpectedEof)
    else
      var size := FromLe(input[..4]);
      if size == 0 then Ok(EndMark)
      else if size >= UNCOMPRESSED_BIT then Ok(Uncompressed(size - UNCOMPRESSED_BIT))
      else Ok(Compressed(size))
  }

  function WriteBlockInfo(info: BlockInfo): Result<seq<byte>, FrameError> {
    match info
    case Compressed(size) =>
      if size == 0 || size >= UNCOMPRESSED_BIT then Err(InvalidBlockInfo) else Ok(Le(size, 4))
    case Uncompressed(size) =>
      if size >= UNCOMPRESSED_BIT then Err(InvalidBlockInfo) else Ok(Le(size + UNCOMPRESSED_BIT, 4))
    case EndMark => Ok(Le(0, 4))
  }

  /** Block headers round-trip, so no two of them are written alike: neither kind of block is
      ever taken for the other, nor for the end mark. */
  lemma BlockInfoRoundTrip(info: BlockInfo, rest: seq<byte>)
    requires WriteBlockInfo(info).Ok?
    ensures |WriteBlockInfo(info).value| == BLOCK_INFO_SIZE
    ensures ReadBlockInfo(WriteBlockInfo(info).value + rest) == Ok(info)
  {
    hide Le, FromLe, Pow256;
    var s := WriteBlockInfo(info).value;
    assert (s + rest)[..4] == s;
    Widths();
    match info
    case Compressed(size) => FromLeOfLe(size, 4);
    case Uncompressed(size) => FromLeOfLe(size + UNCOMPRESSED_BIT, 4);
    case EndMark => FromLeOfLe(0, 4);
  }

  /** Every four bytes are the header of exactly one block. */
  lemma BlockInfoWritten(input: seq<byte>)
    requires 4 <= |input|
    ensures ReadBlockInfo(input).Ok? && WriteBlockInfo(ReadBlockInfo(input).value) == Ok(input[..4])
  {
    hide Le, FromLe, Pow256;
    Widths();
    LeOfFromLe(input[..4]);
  }
}
