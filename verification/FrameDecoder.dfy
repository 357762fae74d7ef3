/**
  The frame decoder.  It decodes into one reused buffer, in which the history of a linked frame
  moves from in front of the write position to behind it.  Every operation is proved to do what
  `FrameFormat` says of the bytes still to be read.
 */
module FrameDecoders {
  import opened Core
  import opened ReferenceDecoder
  import opened Decompress
  import opened Primitives
  import opened FrameHeader
  import opened FrameFormat
  import FrameLockstep
  import FrameAccept

  /** The result `res` of decoding into `d` at `start`, and the bytes that it has left there. */
  ghost predicate Leaves(res: Result<nat, DecompressError>, produced: Result<seq<byte>, DecompressError>,
                         d: seq<byte>, start: nat, limit: nat)
  {
    match produced
    case Err(e) => res == Err(e)
    case Ok(bytes) =>
      && res == Ok(|bytes|) && |bytes| <= limit && start + |bytes| <= |d|
      && d[start..start + |bytes|] == bytes
  }

  /** Decodes `block` into `dst[start..start + limit]` and nowhere else. */
  method DecodeInto(dst: array<byte>, block: seq<byte>, start: nat, limit: nat, front: seq<byte>, useDict: bool)
    returns (res: Result<nat, DecompressError>)
    requires (useDict || front == []) && start + limit <= dst.Length && start + limit <= ISIZE_MAX
    modifies dst
    ensures dst[..start] == old(dst[..start]) && dst[start + limit..] == old(dst[start + limit..])
    ensures var o := Decode(block, 0, |front|, front + old(dst[..start]), start + limit);
            Leaves(res, Produced(o, |front| + start), dst[..], start, limit)
  {
    hide Decode;
    ghost var was := dst[..start];
    var pos: nat;
    res, pos := DecompressBody(block, dst, start + limit, start, front, useDict);
    assert (front + dst[..pos])[|front| + start..] == dst[start..pos];
  }

  /** The state that a buffer `d` stands for: `end` bytes of prefix, and `len` bytes of kept
      history at `at`. */
  function StateOf(info: FrameInfo, d: seq<byte>, end: nat, at: nat, len: nat, content: seq<byte>): (st: DecState)
    requires end <= |d| && (len > 0 ==> at + len <= |d|)
    ensures st.info == info && st.content == content && st.prefix == d[..end] && |st.ext| == len
  {
    DecState(info, d[..end], if len > 0 then d[at..at + len] else [], content)
  }

  lemma SlideRewinds(info: FrameInfo, d: seq<byte>, end: nat, at: nat, len: nat, content: seq<byte>)
    requires end <= |d| && (len > 0 ==> at + len <= |d|)
    requires !info.blockSize.Auto? && info.linked && end > info.blockSize.Size() + WINDOW_SIZE
    ensures Slide(StateOf(info, d, end, at, len, content))
         == StateOf(info, d, 0, end - WINDOW_SIZE, WINDOW_SIZE, content)
  {
    SubSlice(d, 0, end, end - WINDOW_SIZE, end);
  }

  lemma SlideForgets(info: FrameInfo, d: seq<byte>, end: nat, at: nat, len: nat, content: seq<byte>)
    requires end <= |d| && (len > 0 ==> at + len <= |d|)
    requires !info.blockSize.Auto? && info.linked
    requires end <= info.blockSize.Size() + WINDOW_SIZE < end + len + info.blockSize.Size()
    ensures var delta := Min(len, end + len - WINDOW_SIZE);
            Slide(StateOf(info, d, end, at, len, content)) == StateOf(info, d, end, at + delta, len - delta, content)
  {
    if len > 0 {
      SubSlice(d, at, at + len, at + Min(len, end + len - WINDOW_SIZE), at + len);
    }
  }

  /** Bytes written behind the prefix and in front of the history change neither. */
  lemma StateKept(info: FrameInfo, was: seq<byte>, now: seq<byte>, end: nat, from: nat, at: nat, len: nat,
                  content: seq<byte>)
    requires end <= |was| <= |now| && (len > 0 ==> |now| == |was| && from <= at && at + len <= |was|)
    requires was[..end] == now[..end] && from <= |was|
    requires len > 0 ==> was[from..] == now[from..]
    ensures StateOf(info, was, end, at, len, content) == StateOf(info, now, end, at, len, content)
  {
    if len > 0 {
      TailSlice(was, now, from, at, at + len);
    }
  }

  class FrameDecoder {
    const cfg: Config
    var r: seq<byte>                 // the reader
    var info: Option<FrameInfo>      // the current frame
    var hashed: seq<byte>            // what the content hasher has seen
    var contentLen: nat
    var dst: array<byte>
    var extDictOffset: nat
    var extDictLen: nat
    var dstStart: nat
    var dstEnd: nat
    var bytesOutput: nat
    ghost var content: seq<byte>     // the current frame's content so far

    ghost predicate Valid()
      reads this`info, this`hashed, this`contentLen, this`dst, this`extDictOffset, this`extDictLen,
            this`dstStart, this`dstEnd, this`bytesOutput, this`content
    {
      dstStart <= dstEnd && Consistent()
    }

    /** All of it but the part of the buffer that has been handed out. */
    ghost predicate Consistent()
      reads this`info, this`hashed, this`contentLen, this`dst, this`extDictOffset, this`extDictLen, this`dstEnd,
            this`bytesOutput, this`content
    {
      && dstEnd <= dst.Length
      && bytesOutput <= cfg.maxOutput <= USIZE_MAX
      && (info.Some? ==> FrameValid(info.value))
    }

    /** Between the blocks of a frame.  The kept history lies behind the room for a block. */
    ghost predicate FrameValid(f: FrameInfo)
      reads this`hashed, this`contentLen, this`dst, this`extDictOffset, this`extDictLen, this`dstEnd, this`content
    {
      && !f.blockSize.Auto?
      && contentLen == |content| && (f.contentChecksum ==> hashed == content)
      && extDictLen <= WINDOW_SIZE
      && (!f.linked ==> extDictLen == 0)
      && (f.linked ==> dstEnd <= 2 * f.blockSize.Size() + WINDOW_SIZE)
      && (extDictLen > 0 ==>
            && extDictOffset + extDictLen <= dst.Length
            && f.blockSize.Size() + WINDOW_SIZE <= extDictOffset + extDictLen
            && WINDOW_SIZE <= dstEnd + extDictLen)
    }

    /** The state between two blocks. */
    ghost function State(): (st: DecState)
      reads this`info, this`hashed, this`contentLen, this`dst, this`extDictOffset, this`extDictLen, this`dstEnd,
            this`bytesOutput, this`content, dst
      requires Consistent() && info.Some?
      ensures st.info == info.value && st.content == content && st.prefix == dst[..dstEnd]
      ensures !st.info.blockSize.Auto?
    {
      StateOf(info.value, dst[..], dstEnd, extDictOffset, extDictLen, content)
    }

    /** What is still to come from the reader. */
    ghost function Pending(): Content
      reads this`info, this`hashed, this`contentLen, this`dst, this`extDictOffset, this`extDictLen, this`dstEnd,
            this`bytesOutput, this`content, this`r, dst
      requires Consistent()
    {
      if info.Some? then ReadBlocks(cfg, State(), bytesOutput, r) else ReadFrames(cfg, bytesOutput, r)
    }

    constructor (r: seq<byte>, cfg: Config)
      requires cfg.maxOutput <= USIZE_MAX
      ensures Valid() && this.cfg == cfg && this.r == r && info == None && bytesOutput == 0
      ensures fresh(dst) && Remaining() == ReadFrames(cfg, 0, r)
    {
      this.cfg, this.r := cfg, r;
      info, hashed, content, contentLen := None, [], [], 0;
      dst := new byte[0];
      extDictOffset, extDictLen, dstStart, dstEnd, bytesOutput := 0, 0, 0, 0, 0;
      new;
      NothingBuffered();
    }

    /** Points the decoder at another reader.  Between frames, whether the last one was finished or
        failed, it then behaves as a fresh decoder does, but for the output it has already counted. */
    method SetReader(r: seq<byte>)
      requires Valid() && info == None && dstStart == dstEnd
      modifies this`r
      ensures Valid() && this.r == r
      ensures Remaining() == Shifted(ReadFrames(Lowered(cfg, bytesOutput), 0, r), bytesOutput)
    {
      this.r := r;
      NothingBuffered();
      ReusedDecoder(cfg, None, 0, bytesOutput, r);
    }

    /** Takes `n` bytes from the reader. */
    method TakeExact(n: nat) returns (data: Result<seq<byte>, FrameError>)
      modifies this`r
      ensures if n <= |old(r)| then data == Ok(old(r)[..n]) && r == old(r)[n..]
              else data == Err(UnexpectedEof)
    {
      if |r| < n {
        r := [];
        return Err(UnexpectedEof);
      }
      data := Ok(r[..n]);
      r := r[n..];
    }

    /** Takes the bytes of a frame header from the reader. */
    method TakeHeaderBytes() returns (header: Result<seq<byte>, FrameError>)
      modifies this`r
      ensures match TakeHeader(old(r))
              case Err(e) => header == Err(e)
              case Ok(chunk) => header == Ok(chunk.data) && r == chunk.rest
    {
      var head := TakeExact(MIN_FRAME_INFO_SIZE);
      if head.Err? {
        return Err(head.error);
      }
      var required := ReadSize(head.value);
      if required.Err? {
        return Err(required.error);
      }
      var more := TakeExact(required.value - MIN_FRAME_INFO_SIZE);
      if more.Err? {
        return Err(more.error);
      }
      header := Ok(head.value + more.value);
      assert header.value == old(r)[..required.value];
    }

    /** Reads a frame header, if the stream goes on, and forgets everything about earlier frames. */
    method ReadFrameInfo() returns (res: Result<nat, FrameError>)
      requires Valid() && info == None && dstStart == dstEnd
      modifies this
      ensures Valid() && dst == old(dst) && bytesOutput == old(bytesOutput) && dstStart == dstEnd
      ensures match ReadFrameStart(cfg, old(r))
              case NoFrame => res == Ok(0) && info == None && r == old(r) == []
              case BadFrame(e) => res == Err(e) && info == None
              case Started(f, rest) => res.Ok? && res.value > 0 && info == Some(f) && r == rest && State() == Fresh(f)
    {
      hide TakeHeader, ParseHeader;
      if r == [] {
        return Ok(0);
      }
      var header := TakeHeaderBytes();
      if header.Err? {
        return Err(header.error);
      }
      var parsed := ReadHeader(header.value, cfg.xxh);
      if parsed.Err? {
        return Err(parsed.error);
      }
      var mismatch := CheckDictId(cfg, parsed.value.dictId);
      if mismatch.Some? {
        return Err(mismatch.value);
      }
      HeaderNonEmpty(header.value, cfg.xxh);
      info := Some(parsed.value);
      hashed, content, contentLen := [], [], 0;
      extDictLen, dstStart, dstEnd := 0, 0, 0;
      res := Ok(|header.value|);
    }

    /** There is room for a block of `room` bytes behind the prefix, in front of the kept history. */
    ghost predicate Roomy(room: nat)
      reads this`info, this`hashed, this`contentLen, this`dst, this`extDictOffset, this`extDictLen,
            this`dstStart, this`dstEnd, this`bytesOutput, this`content
    {
      && Valid() && info.Some? && !info.value.blockSize.Auto? && dstStart == dstEnd
      && room <= info.value.blockSize.Size()
      && (extDictLen > 0 ==> dstEnd + info.value.blockSize.Size() <= extDictOffset)
      && (info.value.linked ==> dstEnd <= info.value.blockSize.Size() + WINDOW_SIZE)
      && (!info.value.linked ==> dstEnd == 0)
    }

    /** Makes room for a block in the buffer. */
    method SlideWindow()
      requires Valid() && info.Some? && dstStart == dstEnd
      modifies this`extDictOffset, this`extDictLen, this`dstStart, this`dstEnd
      ensures Valid() && dstStart == dstEnd
      ensures State() == Slide(old(State())) && Roomy(0)
    {
      hide StateOf;
      var max := info.value.blockSize.Size();
      if info.value.linked {
        if dstStart + max > 2 * max + WINDOW_SIZE {
          SlideRewinds(info.value, dst[..], dstEnd, extDictOffset, extDictLen, content);
          extDictOffset := dstStart - WINDOW_SIZE;
          extDictLen := WINDOW_SIZE;
          dstStart, dstEnd := 0, 0;
        } else if dstStart + extDictLen > WINDOW_SIZE {
          var delta := Min(extDictLen, dstStart + extDictLen - WINDOW_SIZE);
          SlideForgets(info.value, dst[..], dstEnd, extDictOffset, extDictLen, content);
          extDictOffset := extDictOffset + delta;
          extDictLen := extDictLen - delta;
        }
      } else {
        dstStart, dstEnd := 0, 0;
      }
    }

    /** The buffer holds at least `end` bytes; it never shrinks, and keeps what it holds. */
    method Grow(end: nat)
      modifies this`dst
      ensures end <= dst.Length && old(dst.Length) <= dst.Length
      ensures dst == old(dst) || fresh(dst)
      ensures dst[..old(dst.Length)] == old(dst[..])
    {
      if dst.Length < end {
        var old_, bigger := dst, new byte[end](_ => 0);
        forall i | 0 <= i < old_.Length {
          bigger[i] := old_[i];
        }
        dst := bigger;
      }
    }

    /** Without kept history, the buffer grows to hold the block. */
    method Reserve(room: nat)
      requires Roomy(room) && extDictLen == 0
      modifies this`dst
      ensures Roomy(room) && State() == old(State()) && (dst == old(dst) || fresh(dst))
      ensures dstEnd + room <= dst.Length
    {
      hide StateOf;
      ghost var was := dst[..];
      Grow(dstEnd + room);
      assert dst[..dstEnd] == was[..dstEnd];
      StateKept(info.value, was, dst[..], dstEnd, 0, extDictOffset, extDictLen, content);
    }

    /** With kept history: it lies in the same buffer, behind the room for the block. */
    method DecompressLinked(block: seq<byte>, limit: nat) returns (res: Result<nat, DecompressError>)
      requires Roomy(limit) && info.value.linked && extDictLen > 0
      modifies dst
      ensures Roomy(limit) && State() == old(State())
      ensures Decoded(res, old(State()), block, limit)
    {
      hide Decode, Leaves;
      ghost var was := dst[..];
      var extDict := dst[extDictOffset..extDictOffset + extDictLen];
      res := DecodeInto(dst, block, dstEnd, limit, extDict, true);
      ghost var now := dst[..];
      assert now[..dstEnd] == was[..dstEnd] && now[dstEnd + limit..] == was[dstEnd + limit..];
      StateKept(info.value, was, now, dstEnd, dstEnd + limit, extDictOffset, extDictLen, content);
    }

    /** Without: the buffer grows to hold the block. */
    method DecompressPlain(block: seq<byte>, limit: nat, useDict: bool) returns (res: Result<nat, DecompressError>)
      requires Roomy(limit) && extDictLen == 0 && (useDict || cfg.dict == [])
      modifies this`dst, dst
      ensures Roomy(limit) && State() == old(State()) && (dst == old(dst) || fresh(dst))
      ensures Decoded(res, old(State()), block, limit)
    {
      hide Decode, FrameValid, StateOf, Leaves;
      Reserve(limit);
      ghost var was := dst[..];
      res := DecodeInto(dst, block, dstEnd, limit, cfg.dict, useDict);
      assert was[..dstEnd] == dst[..][..dstEnd];
      StateKept(info.value, was, dst[..], dstEnd, 0, extDictOffset, extDictLen, content);
    }

    /** The result of decoding `block`, and the bytes that it has left behind the prefix. */
    ghost predicate Decoded(res: Result<nat, DecompressError>, st: DecState, block: seq<byte>, limit: nat)
      reads this, dst
    {
      Leaves(res, DecodeBlock(cfg, st, block, limit), dst[..], dstEnd, limit)
    }

    /** Decodes a compressed block behind the prefix, at most `limit` bytes of it.  The prefix and
        the history keep their bytes, whatever the outcome. */
    method DecompressBlock(block: seq<byte>, limit: nat) returns (res: Result<nat, DecompressError>)
      requires Roomy(limit)
      modifies this`dst, dst
      ensures Roomy(limit) && State() == old(State()) && (dst == old(dst) || fresh(dst))
      ensures Decoded(res, old(State()), block, limit)
    {
      hide Decoded;
      if info.value.linked && extDictLen != 0 {
        res := DecompressLinked(block, limit);
      } else if cfg.dict != [] {
        res := DecompressPlain(block, limit, true);
      } else {
        res := DecompressPlain(block, limit, false);
      }
    }

    /** Whatever is still to come, the bytes handed out over all frames stay within the limit. */
    lemma WithinLimit()
      requires Valid()
      ensures bytesOutput + |Pending().bytes| <= cfg.maxOutput
    {
      hide ReadBlocks, ReadFrames, StateOf;
      OutputLimited(cfg, if info.Some? then Some(State()) else None, bytesOutput, r);
    }

    // ----- one block

    /** Takes `n` bytes of block data, and their checksum if there is one. */
    method TakeData(n: nat) returns (res: Result<seq<byte>, FrameError>)
      requires info.Some?
      modifies this`r
      ensures match ReadData(cfg, info.value, old(r), n)
              case Err(e) => res == Err(e)
              case Ok(chunk) => res == Ok(chunk.data) && r == chunk.rest
      ensures res.Ok? ==>
                old(r) == res.value + FrameLockstep.Checksum(cfg, info.value.blockChecksums, res.value) + r
    {
      hide FrameLockstep.Checksum, FromLe;
      FrameAccept.DataAccepted(cfg, info.value, r, n);
      res := TakeExact(n);
      if res.Err? || !info.value.blockChecksums {
        return;
      }
      var checksum := TakeExact(4);
      if checksum.Err? {
        return Err(checksum.error);
      }
      assert checksum.value == old(r)[n..n + 4];
      if Hash32(cfg, res.value) != FromLe(checksum.value) {
        return Err(BlockChecksumError);
      }
    }

    method CheckOutputLen(n: nat) returns (total: Result<nat, FrameError>)
      requires cfg.maxOutput <= USIZE_MAX
      ensures total == CheckOutput(cfg, bytesOutput, n)
    {
      var actual := bytesOutput + n;
      if actual > USIZE_MAX {
        return Err(DecompressedSizeLimit(cfg.maxOutput, USIZE_MAX));
      }
      if actual > cfg.maxOutput {
        return Err(DecompressedSizeLimit(cfg.maxOutput, actual));
      }
      total := Ok(actual);
    }

    /** Appends the `n` bytes behind the prefix to it. */
    method Append(n: nat)
      requires Roomy(n) && dstEnd + n <= dst.Length && bytesOutput + n <= cfg.maxOutput
      modifies this`dstEnd, this`hashed, this`contentLen, this`content, this`bytesOutput
      ensures Valid() && info == old(info) && dstStart == old(dstStart) && dstEnd == dstStart + n
      ensures State() == Extend(old(State()), dst[dstStart..dstEnd])
      ensures bytesOutput == old(bytesOutput) + n
    {
      bytesOutput := bytesOutput + n;
      dstEnd := dstEnd + n;
      contentLen := contentLen + n;
      content := content + dst[dstStart..dstEnd];
      if info.value.contentChecksum {
        hashed := hashed + dst[dstStart..dstEnd];
      }
      assert dst[..dstEnd] == dst[..dstStart] + dst[dstStart..dstEnd];
    }

    /** Writes `data` behind the prefix. */
    method StoreBehind(data: seq<byte>)
      requires Roomy(|data|)
      modifies this`dst, dst
      ensures Roomy(|data|) && State() == old(State()) && (dst == old(dst) || fresh(dst))
      ensures dstEnd + |data| <= dst.Length && dst[dstEnd..dstEnd + |data|] == data
    {
      hide StateOf, FrameValid;
      if extDictLen == 0 {
        Reserve(|data|);
      }
      RoomBehind(|data|);
      ghost var before := dst[..];
      ghost var end := dstEnd + |data|;
      Store(dst, dstEnd, data);
      ghost var now := dst[..];
      StoredBetween(before, now, dstEnd, data);
      StateKept(info.value, before, now, dstEnd, end, extDictOffset, extDictLen, content);
    }

    /** The kept history lies behind the room, so the buffer reaches that far. */
    lemma RoomBehind(room: nat)
      requires Roomy(room)
      ensures extDictLen > 0 ==> dstEnd + room <= extDictOffset && extDictOffset + extDictLen <= dst.Length
    {
    }

    /** The promise of reading a block. */
    ghost predicate Follows(res: Result<nat, FrameError>, o: BlockOutcome, out: nat)
      reads this, dst
    {
      && Valid()
      && match o
         case Broken(e) => res == Err(e) && dstStart == dstEnd && bytesOutput == out
         case Data(bytes, st, rest) =>
           && res == Ok(|bytes|) && info.Some? && State() == st && r == rest
           && dst[dstStart..dstEnd] == bytes && bytesOutput == out + |bytes|
         case End(rest) =>
           res == Ok(0) && info == None && r == rest && dstStart == dstEnd && bytesOutput == out
    }

    method ReadUncompressedBlock(n: nat) returns (res: Result<nat, FrameError>)
      requires Roomy(0)
      modifies this, dst
      ensures dst == old(dst) || fresh(dst)
      ensures Follows(res, ReadUncompressed(cfg, old(State()), old(bytesOutput), old(r), n), old(bytesOutput))
    {
      hide StateOf, FrameValid, ReadData, Slide, Extend, Hash32;
      if n > info.value.blockSize.Size() {
        return Err(BlockTooBig);
      }
      var total := CheckOutputLen(n);
      if total.Err? {
        return Err(total.error);
      }
      var data := TakeData(n);
      if data.Err? {
        return Err(data.error);
      }
      StoreBehind(data.value);
      Append(n);
      res := Ok(n);
    }

    /** Decodes within what the frame still declares; a block that fails is decoded again with
        the full limit. */
    method DecompressWithRetry(block: seq<byte>) returns (res: Result<nat, DecompressError>)
      requires Roomy(0)
      modifies this`dst, dst
      ensures Roomy(0) && State() == old(State()) && (dst == old(dst) || fresh(dst))
      ensures Decoded(res, old(State()), block, info.value.blockSize.Size())
    {
      var max := info.value.blockSize.Size();
      var remaining := if info.value.contentSize.Some? then SaturatingSub(info.value.contentSize.value, contentLen)
                       else USIZE_MAX;
      var limit := Min(max, remaining);
      hide DecodeBlock;
      res := DecompressBlock(block, limit);
      if res.Err? && limit < max {
        res := DecompressBlock(block, max);
      } else if res.Ok? {
        LimitedBlock(cfg, State(), block, limit, max);
      }
    }

    method ReadCompressedBlock(n: nat) returns (res: Result<nat, FrameError>)
      requires Roomy(0)
      modifies this, dst
      ensures dst == old(dst) || fresh(dst)
      ensures Follows(res, ReadCompressed(cfg, old(State()), old(bytesOutput), old(r), n), old(bytesOutput))
    {
      hide StateOf, FrameValid, ReadData, DecodeBlock, Slide, Extend, Hash32;
      if n > info.value.blockSize.Size() {
        return Err(BlockTooBig);
      }
      var data := TakeData(n);
      if data.Err? {
        return Err(data.error);
      }
      var size := DecompressWithRetry(data.value);
      if size.Err? {
        return Err(DecompressionError(size.error));
      }
      var total := CheckOutputLen(size.value);
      if total.Err? {
        return Err(total.error);
      }
      Append(size.value);
      res := Ok(size.value);
    }

    method ReadEndMark() returns (res: Result<nat, FrameError>)
      requires Roomy(0)
      modifies this
      ensures dst == old(dst)
      ensures Follows(res, ReadEnd(cfg, old(State()), old(r)), old(bytesOutput))
    {
      if info.value.contentSize.Some? && contentLen != info.value.contentSize.value {
        return Err(ContentLengthError(info.value.contentSize.value, contentLen));
      }
      if info.value.contentChecksum {
        var checksum := TakeExact(4);
        if checksum.Err? {
          return Err(checksum.error);
        }
        if Hash32(cfg, hashed) != FromLe(checksum.value) {
          return Err(ContentChecksumError);
        }
      }
      info := None;
      res := Ok(0);
    }

    /** Reads the next block; the caller drops the frame after an error. */
    method ReadBlock() returns (res: Result<nat, FrameError>)
      requires Valid() && info.Some? && dstStart == dstEnd
      modifies this, dst
      ensures dst == old(dst) || fresh(dst)
      ensures Follows(res, FrameFormat.ReadBlock(cfg, old(State()), old(bytesOutput), old(r)), old(bytesOutput))
    {
      hide StateOf, FrameValid, Follows, Slide, FromLe, ReadUncompressed, ReadCompressed, ReadEnd;
      SlideWindow();
      var head := TakeExact(4);
      if head.Err? {
        BrokenFollows(head.error, bytesOutput);
        return Err(head.error);
      }
      assert head.value[..4] == head.value == old(r)[..4];
      var blockInfo := ReadBlockInfo(head.value);
      match blockInfo
      case Err(e) =>
        BrokenFollows(e, bytesOutput);
        res := Err(e);
      case Ok(Uncompressed(n)) =>
        res := ReadUncompressedBlock(n);
      case Ok(Compressed(n)) =>
        res := ReadCompressedBlock(n);
      case Ok(EndMark) =>
        res := ReadEndMark();
    }

    lemma BrokenFollows(e: FrameError, out: nat)
      requires Valid() && dstStart == dstEnd && bytesOutput == out
      ensures Follows(Err(e), Broken(e), out)
    {
    }

    // ----- reading

    /** The decoded bytes that are still to be handed out, and then what is still to come. */
    ghost function Remaining(): Content
      reads this, dst
      requires Valid()
    {
      Behind(dst[dstStart..dstEnd], Pending())
    }

    /** Starts the next frame, if the stream goes on. */
    method NextFrame() returns (res: Result<nat, FrameError>)
      requires Valid() && dstStart == dstEnd && info == None
      modifies this
      ensures Valid() && dstStart == dstEnd && dst == old(dst)
      ensures match res
              case Err(e) => old(Pending()) == Content([], Some(e)) && info == None
              case Ok(n) =>
                && old(Pending()) == Pending() && |r| <= |old(r)|
                && (if n > 0 then info.Some? else info == None && Pending() == Content([], None))
    {
      hide StateOf, FrameValid, ReadFrameStart, ReadBlocks;
      res := ReadFrameInfo();
    }

    /** Reads the next block; after an error, the frame's state is unusable. */
    method NextBlock() returns (res: Result<nat, FrameError>)
      requires Valid() && dstStart == dstEnd && info.Some?
      modifies this, dst
      ensures Valid() && (dst == old(dst) || fresh(dst))
      ensures match res
              case Err(e) => old(Pending()) == Content([], Some(e)) && info == None && dstStart == dstEnd
              case Ok(n) => old(Pending()) == Remaining() && n == dstEnd - dstStart && |r| < |old(r)|
    {
      hide StateOf, FrameValid, FrameFormat.ReadBlock, ReadFrames;
      res := ReadBlock();
      if res.Err? {
        info := None;
      } else {
        BehindTwice([], dst[dstStart..dstEnd], Pending());
        assert res.value == 0 ==> dst[dstStart..dstEnd] == [];
      }
    }

    /** Reads blocks and frames until there are bytes to hand out: there are none only if the stream
        has ended. */
    method ReadMore() returns (res: Result<nat, FrameError>)
      requires Valid() && dstStart == dstEnd
      modifies this, dst
      ensures Valid() && (dst == old(dst) || fresh(dst))
      ensures match res
              case Err(e) => old(Remaining()) == Content([], Some(e)) && info == None && dstStart == dstEnd
              case Ok(n) =>
                && old(Remaining()) == Remaining() && n == dstEnd - dstStart && |r| <= |old(r)|
                && (if n > 0 then |r| < |old(r)| else info == None && Remaining() == Content([], None))
    {
      hide Pending, Consistent;
      while true
        invariant Valid() && dstStart == dstEnd && (dst == old(dst) || fresh(dst))
        invariant Remaining() == old(Remaining()) && |r| <= |old(r)|
        decreases |r|
      {
        NothingBuffered();
        if info.None? {
          var started := NextFrame();
          NothingBuffered();
          if started.Err? {
            return Err(started.error);
          }
          if started.value == 0 {
            return Ok(0);
          }
        }
        res := NextBlock();
        if res.Err? || res.value != 0 {
          return;
        }
      }
    }

    lemma NothingBuffered()
      requires Valid()
      ensures dstStart == dstEnd ==> Remaining() == Pending()
    {
      hide Pending;
      BehindTwice([], [], Pending());
      assert dstStart == dstEnd ==> dst[dstStart..dstEnd] == [];
    }

    /** Hands out the next `n` decoded bytes. */
    method Consume(n: nat) returns (data: seq<byte>)
      requires Valid() && n <= dstEnd - dstStart
      modifies this`dstStart
      ensures Valid() && dstStart == old(dstStart) + n && data == dst[old(dstStart)..dstStart]
      ensures old(Remaining()) == Behind(data, Remaining())
    {
      hide Pending, FrameValid;
      data := dst[dstStart..dstStart + n];
      BehindTwice(data, dst[dstStart + n..dstEnd], Pending());
      assert dst[dstStart..dstEnd] == data + dst[dstStart + n..dstEnd];
      dstStart := dstStart + n;
    }

    /** Hands out at most `room` bytes: no more than are decoded already, and none only if there is
        no room or nothing more to come. */
    method Read(room: nat) returns (res: Result<seq<byte>, FrameError>)
      requires Valid()
      modifies this, dst
      ensures Valid() && (dst == old(dst) || fresh(dst))
      ensures match res
              case Err(e) => old(Remaining()) == Content([], Some(e)) && info == None && dstStart == dstEnd
              case Ok(data) =>
                && old(Remaining()) == Behind(data, Remaining()) && |data| <= room
                && (data == [] ==> room == 0 || old(Remaining()) == Content([], None))
    {
      hide Remaining;
      if dstStart == dstEnd {
        var more := ReadMore();
        if more.Err? {
          return Err(more.error);
        }
        if more.value == 0 {
          BehindTwice([], [], Remaining());
          return Ok([]);
        }
      }
      var data := Consume(Min(dstEnd - dstStart, room));
      res := Ok(data);
    }

    /** All that is left of the stream, up to its end or to an error. */
    method ReadToEnd() returns (data: seq<byte>, error: Option<FrameError>)
      requires Valid()
      modifies this, dst
      ensures Valid() && info == None && dstStart == dstEnd && (dst == old(dst) || fresh(dst))
      ensures Content(data, error) == old(Remaining())
    {
      hide Remaining, Consistent;
      data := [];
      BehindTwice([], [], Remaining());
      while true
        invariant Valid() && (dst == old(dst) || fresh(dst))
        invariant Behind(data, Remaining()) == old(Remaining())
        decreases |r|, dstEnd - dstStart
      {
        if dstStart == dstEnd {
          var more := ReadMore();
          if more.Err? {
            return data, Some(more.error);
          }
          if more.value == 0 {
            return data, None;
          }
        }
        var bytes := Consume(dstEnd - dstStart);
        BehindTwice(data, bytes, Remaining());
        data := data + bytes;
      }
    }
  }

  /** A block that decodes within a smaller limit decodes to the same bytes within a larger one. */
  lemma LimitedBlock(cfg: Config, st: DecState, block: seq<byte>, limit: nat, max: nat)
    requires limit <= max && DecodeBlock(cfg, st, block, limit).Ok?
    ensures DecodeBlock(cfg, st, block, max) == DecodeBlock(cfg, st, block, limit)
  {
    hide Decode;
    var front := Front(cfg, st);
    LimitedThenFull(block, |front|, front + st.prefix, |st.prefix| + limit, |st.prefix| + max);
  }

  lemma StoredBetween(before: seq<byte>, now: seq<byte>, at: nat, data: seq<byte>)
    requires at + |data| <= |before| && now == before[..at] + data + before[at + |data|..]
    ensures |now| == |before| && now[..at] == before[..at]
    ensures now[at..at + |data|] == data && now[at + |data|..] == before[at + |data|..]
  {
  }

  lemma TailSlice(was: seq<byte>, now: seq<byte>, from: nat, i: nat, j: nat)
    requires |was| == |now| && from <= i <= j <= |was| && was[from..] == now[from..]
    ensures was[i..j] == now[i..j]
  {
    forall k | i <= k < j
      ensures was[k] == now[k]
    {
      assert was[k] == was[from..][k - from] && now[k] == now[from..][k - from];
    }
  }

  lemma HeaderNonEmpty(header: seq<byte>, xxh: seq<byte> -> nat)
    requires ParseHeader(header, xxh).Ok?
    ensures |header| > 0 && !ParseHeader(header, xxh).value.blockSize.Auto?
  {
  }
}
