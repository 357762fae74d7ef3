/**
  What a frame stream decodes to, as a state machine over its blocks.  A linked frame keeps a
  sliding window: `prefix`, the bytes decoded into the buffer since it was last rewound, and
  `ext`, the history in front of it that the buffer still holds.
 */
module FrameFormat {
  import opened Core
  import opened ReferenceDecoder
  import opened FrameHeader

  /** A decoder's options, and the 32-bit hash of the format. */
  datatype Config = Config(dict: seq<byte>, expectedId: Option<nat>, maxOutput: nat, xxh: seq<byte> -> nat)

  function Hash32(cfg: Config, s: seq<byte>): nat {
    cfg.xxh(s) % (U32_MAX + 1)
  }

  /** Between two blocks of a frame. */
  datatype DecState = DecState(info: FrameInfo, prefix: seq<byte>, ext: seq<byte>, content: seq<byte>)

  function Fresh(info: FrameInfo): DecState {
    DecState(info, [], [], [])
  }

  /** Makes room for a block: a linked frame rewinds the buffer once a block would not fit, keeping
      the last window as history, and forgets history that the prefix has made superfluous; an
      independent frame starts over. */
  function Slide(st: DecState): (s: DecState)
    requires !st.info.blockSize.Auto?
    ensures s.info == st.info && s.content == st.content
  {
    var max := st.info.blockSize.Size();
    if !st.info.linked then st.(prefix := [])
    else if |st.prefix| + max > 2 * max + WINDOW_SIZE then
      st.(prefix := [], ext := st.prefix[|st.prefix| - WINDOW_SIZE..])
    else if |st.prefix| + |st.ext| > WINDOW_SIZE then
      st.(ext := st.ext[Min(|st.ext|, |st.prefix| + |st.ext| - WINDOW_SIZE)..])
    else st
  }

  /** What stands in front of the prefix: the kept history, or the dictionary. */
  function Front(cfg: Config, st: DecState): seq<byte> {
    if st.info.linked && st.ext != [] then st.ext else cfg.dict
  }

  function Extend(st: DecState, data: seq<byte>): DecState {
    st.(prefix := st.prefix + data, content := st.content + data)
  }

  // ----- one block

  function CheckOutput(cfg: Config, out: nat, n: nat): Result<nat, FrameError> {
    if out + n > cfg.maxOutput then Err(DecompressedSizeLimit(cfg.maxOutput, Min(out + n, USIZE_MAX)))
    else Ok(out + n)
  }

  datatype Chunk = Chunk(data: seq<byte>, rest: seq<byte>)

  /** `n` bytes of block data, and their checksum if the frame has block checksums. */
  function ReadData(cfg: Config, info: FrameInfo, r: seq<byte>, n: nat): (c: Result<Chunk, FrameError>)
    ensures c.Ok? ==> |c.value.data| == n && |c.value.rest| <= |r|
  {
    if |r| < n then Err(UnexpectedEof)
    else if !info.blockChecksums then Ok(Chunk(r[..n], r[n..]))
    else if |r| < n + 4 then Err(UnexpectedEof)
    else if Hash32(cfg, r[..n]) != FromLe(r[n..n + 4]) then Err(BlockChecksumError)
    else Ok(Chunk(r[..n], r[n + 4..]))
  }

  /** The bytes that a compressed block appends to the state's prefix. */
  function DecodeBlock(cfg: Config, st: DecState, block: seq<byte>, limit: nat): Result<seq<byte>, DecompressError> {
    var front := Front(cfg, st);
    Produced(Decode(block, 0, |front|, front + st.prefix, |st.prefix| + limit), |front| + |st.prefix|)
  }

  function Produced(o: Outcome, from: nat): Result<seq<byte>, DecompressError>
    requires from <= |o.w|
  {
    match o
    case Done(w) => Ok(w[from..])
    case Failed(_, e) => Err(e)
  }

  datatype BlockOutcome =
    | Broken(error: FrameError)
    | Data(bytes: seq<byte>, st: DecState, rest: seq<byte>)
    | End(rest: seq<byte>)

  function ReadUncompressed(cfg: Config, st: DecState, out: nat, r: seq<byte>, n: nat): (o: BlockOutcome)
    requires !st.info.blockSize.Auto?
    ensures o.Data? ==> |o.rest| <= |r| && out + |o.bytes| <= cfg.maxOutput && o.st == Extend(st, o.bytes)
    ensures !o.End?
  {
    if n > st.info.blockSize.Size() then Broken(BlockTooBig)
    else
      match CheckOutput(cfg, out, n)
      case Err(e) => Broken(e)
      case Ok(_) =>
        match ReadData(cfg, st.info, r, n)
        case Err(e) => Broken(e)
        case Ok(chunk) => Data(chunk.data, Extend(st, chunk.data), chunk.rest)
  }

  function ReadCompressed(cfg: Config, st: DecState, out: nat, r: seq<byte>, n: nat): (o: BlockOutcome)
    requires !st.info.blockSize.Auto?
    ensures o.Data? ==> |o.rest| <= |r| && out + |o.bytes| <= cfg.maxOutput && o.st == Extend(st, o.bytes)
    ensures !o.End?
  {
    var max := st.info.blockSize.Size();
    if n > max then Broken(BlockTooBig)
    else
      match ReadData(cfg, st.info, r, n)
      case Err(e) => Broken(e)
      case Ok(chunk) =>
        match DecodeBlock(cfg, st, chunk.data, max)
        case Err(e) => Broken(DecompressionError(e))
        case Ok(bytes) =>
          match CheckOutput(cfg, out, |bytes|)
          case Err(e) => Broken(e)
          case Ok(_) => Data(bytes, Extend(st, bytes), chunk.rest)
  }

  function ReadEnd(cfg: Config, st: DecState, r: seq<byte>): (o: BlockOutcome)
    ensures o.End? ==> |o.rest| <= |r|
    ensures !o.Data?
  {
    if st.info.contentSize.Some? && st.info.contentSize.value != |st.content| then
      Broken(ContentLengthError(st.info.contentSize.value, |st.content|))
    else if !st.info.contentChecksum then End(r)
    else if |r| < 4 then Broken(UnexpectedEof)
    else if FromLe(r[..4]) != Hash32(cfg, st.content) then Broken(ContentChecksumError)
    else End(r[4..])
  }

  /** The next block of a frame, with `out` bytes produced so far. */
  function ReadBlock(cfg: Config, st: DecState, out: nat, r: seq<byte>): (o: BlockOutcome)
    requires !st.info.blockSize.Auto?
    ensures !o.Broken? ==> |o.rest| < |r|
    ensures o.Data? ==> out + |o.bytes| <= cfg.maxOutput && o.st == Extend(Slide(st), o.bytes)
  {
    match ReadBlockInfo(r)
    case Err(e) => Broken(e)
    case Ok(Uncompressed(n)) => ReadUncompressed(cfg, Slide(st), out, r[4..], n)
    case Ok(Compressed(n)) => ReadCompressed(cfg, Slide(st), out, r[4..], n)
    case Ok(EndMark) => ReadEnd(cfg, Slide(st), r[4..])
  }

  // ----- a stream of frames

  function CheckDictId(cfg: Config, id: Option<nat>): Option<FrameError> {
    match (id, cfg.expectedId)
    case (None, None) => None
    case (Some(_), None) => Some(DictionaryNotSupported)
    case (None, Some(_)) => Some(DictionaryRequired)
    case (Some(actual), Some(expected)) =>
      if actual != expected then Some(DictIdMismatch(expected, actual)) else None
  }

  datatype FrameStart =
    | NoFrame
    | BadFrame(error: FrameError)
    | Started(info: FrameInfo, rest: seq<byte>)

  /** The bytes of a frame header: the first seven tell how many there are. */
  function TakeHeader(r: seq<byte>): (c: Result<Chunk, FrameError>)
    ensures c.Ok? ==> |c.value.rest| < |r|
  {
    if |r| < MIN_FRAME_INFO_SIZE then Err(UnexpectedEof)
    else
      match ReadSize(r[..MIN_FRAME_INFO_SIZE])
      case Err(e) => Err(e)
      case Ok(required) =>
        if |r| < required then Err(UnexpectedEof) else Ok(Chunk(r[..required], r[required..]))
  }

  function AcceptHeader(cfg: Config, header: seq<byte>): (info: Result<FrameInfo, FrameError>)
    ensures info.Ok? ==> !info.value.blockSize.Auto?
  {
    match ParseHeader(header, cfg.xxh)
    case Err(e) => Err(e)
    case Ok(info) =>
      match CheckDictId(cfg, info.dictId)
      case Some(e) => Err(e)
      case None => Ok(info)
  }

  /** The next frame header, if the stream goes on. */
  function ReadFrameStart(cfg: Config, r: seq<byte>): (f: FrameStart)
    ensures f.Started? ==> !f.info.blockSize.Auto? && |f.rest| < |r|
  {
    if r == [] then NoFrame
    else
      match TakeHeader(r)
      case Err(e) => BadFrame(e)
      case Ok(chunk) =>
        match AcceptHeader(cfg, chunk.data)
        case Err(e) => BadFrame(e)
        case Ok(info) => Started(info, chunk.rest)
  }

  /** What a reader gets to see: decoded bytes, and the error that ends them, if one does. */
  datatype Content = Content(bytes: seq<byte>, error: Option<FrameError>)

  function Behind(data: seq<byte>, c: Content): Content {
    Content(data + c.bytes, c.error)
  }

  lemma BehindTwice(a: seq<byte>, b: seq<byte>, c: Content)
    ensures Behind(a, Behind(b, c)) == Behind(a + b, c) && Behind([], c) == c
  {
    assert a + (b + c.bytes) == (a + b) + c.bytes;
  }

  function ReadBlocks(cfg: Config, st: DecState, out: nat, r: seq<byte>): Content
    requires !st.info.blockSize.Auto?
    decreases |r|
  {
    match ReadBlock(cfg, st, out, r)
    case Broken(e) => Content([], Some(e))
    case Data(bytes, st1, rest) => Behind(bytes, ReadBlocks(cfg, st1, out + |bytes|, rest))
    case End(rest) => ReadFrames(cfg, out, rest)
  }

  function ReadFrames(cfg: Config, out: nat, r: seq<byte>): Content
    decreases |r|
  {
    match ReadFrameStart(cfg, r)
    case NoFrame => Content([], None)
    case BadFrame(e) => Content([], Some(e))
    case Started(info, rest) => ReadBlocks(cfg, Fresh(info), out, rest)
  }

  /** The output limit holds over all frames together, whatever they contain. */
  lemma {:induction false} OutputLimited(cfg: Config, st: Option<DecState>, out: nat, r: seq<byte>)
    requires out <= cfg.maxOutput && (st.Some? ==> !st.value.info.blockSize.Auto?)
    ensures var c := if st.Some? then ReadBlocks(cfg, st.value, out, r) else ReadFrames(cfg, out, r);
            out + |c.bytes| <= cfg.maxOutput
    decreases |r|
  {
    hide ReadBlock, ReadFrameStart;
    match st
    case None =>
      var f := ReadFrameStart(cfg, r);
      if f.Started? {
        OutputLimited(cfg, Some(Fresh(f.info)), out, f.rest);
      }
    case Some(s) =>
      match ReadBlock(cfg, s, out, r)
      case Broken(_) =>
      case Data(bytes, st1, rest) => OutputLimited(cfg, Some(st1), out + |bytes|, rest);
      case End(rest) => OutputLimited(cfg, None, out, rest);
  }

  // ----- a decoder that has already produced `extra` bytes

  function Lowered(cfg: Config, extra: nat): Config
    requires extra <= cfg.maxOutput
  {
    cfg.(maxOutput := cfg.maxOutput - extra)
  }

  function ShiftError(e: FrameError, extra: nat): FrameError {
    match e
    case DecompressedSizeLimit(limit, actual) => DecompressedSizeLimit(limit + extra, Min(actual + extra, USIZE_MAX))
    case _ => e
  }

  /** The same content, its output counted from `extra` on. */
  function Shifted(c: Content, extra: nat): Content {
    Content(c.bytes, if c.error.Some? then Some(ShiftError(c.error.value, extra)) else None)
  }

  function ShiftedOutcome(b: BlockOutcome, extra: nat): BlockOutcome {
    if b.Broken? then Broken(ShiftError(b.error, extra)) else b
  }

  lemma ShiftedUncompressed(cfg: Config, st: DecState, out: nat, extra: nat, r: seq<byte>, n: nat)
    requires extra <= cfg.maxOutput && !st.info.blockSize.Auto?
    ensures ReadUncompressed(cfg, st, out + extra, r, n)
         == ShiftedOutcome(ReadUncompressed(Lowered(cfg, extra), st, out, r, n), extra)
  {
    hide FromLe;
  }

  lemma ShiftedCompressed(cfg: Config, st: DecState, out: nat, extra: nat, r: seq<byte>, n: nat)
    requires extra <= cfg.maxOutput && !st.info.blockSize.Auto?
    ensures ReadCompressed(cfg, st, out + extra, r, n)
         == ShiftedOutcome(ReadCompressed(Lowered(cfg, extra), st, out, r, n), extra)
  {
    hide Decode, FromLe;
    SameDecoding(cfg, extra, st);
  }

  lemma SameDecoding(cfg: Config, extra: nat, st: DecState)
    requires extra <= cfg.maxOutput
    ensures forall block, limit: nat ::
              DecodeBlock(cfg, st, block, limit) == DecodeBlock(Lowered(cfg, extra), st, block, limit)
  {
    hide Decode;
  }

  lemma ShiftedBlock(cfg: Config, st: DecState, out: nat, extra: nat, r: seq<byte>)
    requires extra <= cfg.maxOutput && !st.info.blockSize.Auto?
    ensures ReadBlock(cfg, st, out + extra, r) == ShiftedOutcome(ReadBlock(Lowered(cfg, extra), st, out, r), extra)
  {
    hide ReadCompressed, ReadUncompressed, Slide, FromLe;
    match ReadBlockInfo(r)
    case Err(_) =>
    case Ok(Uncompressed(n)) => ShiftedUncompressed(cfg, Slide(st), out, extra, r[4..], n);
    case Ok(Compressed(n)) => ShiftedCompressed(cfg, Slide(st), out, extra, r[4..], n);
    case Ok(EndMark) =>
  }

  lemma ShiftedStart(cfg: Config, extra: nat, r: seq<byte>)
    requires extra <= cfg.maxOutput
    ensures var f := ReadFrameStart(Lowered(cfg, extra), r);
            ReadFrameStart(cfg, r) == if f.BadFrame? then BadFrame(ShiftError(f.error, extra)) else f
  {
    hide Decode, FromLe;
  }

  /** Output of earlier frames counts against the limit and is otherwise invisible: what a decoder
      makes of a stream after producing `extra` bytes is what a fresh decoder makes of it whose limit
      is lower by as much, with the limit and the count in the error reported in full. */
  lemma {:induction false} ReusedDecoder(cfg: Config, st: Option<DecState>, out: nat, extra: nat, r: seq<byte>)
    requires extra <= cfg.maxOutput && (st.Some? ==> !st.value.info.blockSize.Auto?)
    ensures if st.Some? then
              ReadBlocks(cfg, st.value, out + extra, r)
              == Shifted(ReadBlocks(Lowered(cfg, extra), st.value, out, r), extra)
            else
              ReadFrames(cfg, out + extra, r) == Shifted(ReadFrames(Lowered(cfg, extra), out, r), extra)
    decreases |r|
  {
    hide ReadBlock, ReadFrameStart, ShiftError;
    match st
    case None =>
      ShiftedStart(cfg, extra, r);
      var f := ReadFrameStart(cfg, r);
      if f.Started? {
        ReusedDecoder(cfg, Some(Fresh(f.info)), out, extra, f.rest);
      }
    case Some(s) =>
      ShiftedBlock(cfg, s, out, extra, r);
      match ReadBlock(Lowered(cfg, extra), s, out, r)
      case Broken(_) =>
      case Data(bytes, st1, rest) => ReusedDecoder(cfg, Some(st1), out + |bytes|, extra, rest);
      case End(rest) => ReusedDecoder(cfg, None, out, extra, rest);
  }
}
