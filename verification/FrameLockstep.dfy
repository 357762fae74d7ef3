/**
  The encoder and the decoder of a linked frame hold different windows of the same content: they
  rewind their buffers at different moments.  What they share is that each holds the end of the
  content, at least a window of it; that is why the blocks of one are read by the other.
 */
module FrameLockstep {
  import opened Core
  import opened BlockFormat
  import opened ReferenceDecoder
  import opened FrameHeader
  import opened FrameFormat

  // ----- two windows of one content

  /** `v` is the end of `s`, at least a window of it. */
  predicate IsTail(v: seq<byte>, s: seq<byte>) {
    Min(|s|, WINDOW_SIZE) <= |v| <= |s| && s[|s| - |v|..] == v
  }

  lemma EmptyTail()
    ensures IsTail([], [])
  {
  }

  lemma TailAppend(v: seq<byte>, s: seq<byte>, x: seq<byte>)
    requires IsTail(v, s)
    ensures IsTail(v + x, s + x)
  {
    assert (s + x)[|s| - |v|..] == s[|s| - |v|..] + x;
  }

  lemma TailDrop(v: seq<byte>, s: seq<byte>, k: nat)
    requires IsTail(v, s) && k + WINDOW_SIZE <= |v|
    ensures IsTail(v[k..], s)
  {
    var i := |s| - |v|;
    assert s[i..][k..] == s[i + k..];
  }

  lemma TailsCover(front: seq<byte>, w: seq<byte>, v: seq<byte>, s: seq<byte>)
    requires IsTail(w, s) && IsTail(v, s)
    ensures Covers(front + w, v)
  {
    var k := Min(|v|, MAX_DISTANCE);
    TailEnd(w, s, k);
    TailEnd(v, s, k);
    assert (front + w)[|front + w| - k..] == w[|w| - k..];
  }

  lemma TailEnd(v: seq<byte>, s: seq<byte>, k: nat)
    requires IsTail(v, s) && k <= |v|
    ensures v[|v| - k..] == s[|s| - k..]
  {
    assert s[|s| - |v|..][|v| - k..] == s[|s| - k..];
  }

  /** Making room keeps the end of the content, however the room is made. */
  lemma SlideKeepsTail(st: DecState, s: seq<byte>)
    requires !st.info.blockSize.Auto? && st.info.linked && IsTail(st.ext + st.prefix, s)
    ensures IsTail(Slide(st).ext + Slide(st).prefix, s)
  {
    hide IsTail;
    var max := st.info.blockSize.Size();
    var w := st.ext + st.prefix;
    if |st.prefix| + max > 2 * max + WINDOW_SIZE {
      TailDrop(w, s, |w| - WINDOW_SIZE);
      assert w[|w| - WINDOW_SIZE..] == Slide(st).ext + Slide(st).prefix;
    } else if |st.prefix| + |st.ext| > WINDOW_SIZE {
      var delta := Min(|st.ext|, |w| - WINDOW_SIZE);
      TailDrop(w, s, delta);
      assert w[delta..] == Slide(st).ext + Slide(st).prefix;
    }
  }

  /** History is kept in front of the prefix only once there is more content than a window. */
  lemma SlideKeepsLength(st: DecState, s: seq<byte>)
    requires !st.info.blockSize.Auto? && st.info.linked && IsTail(st.ext + st.prefix, s)
    requires st.ext != [] ==> WINDOW_SIZE <= |s|
    ensures Slide(st).ext != [] ==> WINDOW_SIZE <= |s|
  {
  }

  /** The state of a decoder that has read the blocks of `content` so far. */
  ghost predicate InStep(st: DecState, info: FrameInfo, content: seq<byte>) {
    && st.info == info && !info.blockSize.Auto? && st.content == content
    && (info.linked ==> IsTail(st.ext + st.prefix, content))
    && (info.linked && st.ext != [] ==> WINDOW_SIZE <= |content|)
  }

  lemma InStepInfo(st: DecState, info: FrameInfo, content: seq<byte>)
    requires InStep(st, info, content)
    ensures st.info == info && !info.blockSize.Auto? && st.content == content
  {
  }

  lemma StepForward(st: DecState, info: FrameInfo, content: seq<byte>, data: seq<byte>)
    requires InStep(st, info, content)
    ensures InStep(Extend(Slide(st), data), info, content + data)
  {
    hide Slide, IsTail;
    if info.linked {
      SlideKeepsTail(st, content);
      SlideKeepsLength(st, content);
      var s := Slide(st);
      TailAppend(s.ext + s.prefix, content, data);
      assert s.ext + s.prefix + data == s.ext + (s.prefix + data);
    }
  }

  /** What a decoder has in front of a block covers what the encoder used as history. */
  lemma WindowCovers(cfg: Config, st: DecState, info: FrameInfo, content: seq<byte>, window: seq<byte>)
    requires InStep(st, info, content)
    requires if info.linked then IsTail(window, content) else window == []
    ensures Covers(Front(cfg, Slide(st)) + Slide(st).prefix, window)
  {
    hide Slide, IsTail, Covers;
    var s := Slide(st);
    if info.linked {
      SlideKeepsTail(st, content);
      if s.ext == [] {
        assert s.ext + s.prefix == s.prefix;
        TailsCover(cfg.dict, s.prefix, window, content);
      } else {
        TailsCover([], s.ext + s.prefix, window, content);
        assert [] + (s.ext + s.prefix) == s.ext + s.prefix;
      }
    } else {
      CoversNothing(Front(cfg, s) + s.prefix);
    }
  }

  lemma CoversNothing(w: seq<byte>)
    ensures Covers(w, [])
  {
  }

  // ----- a block and its reader

  /** `block` holds `data` for every decoder that is in step. */
  ghost predicate Holds(cfg: Config, st: DecState, block: seq<byte>, data: seq<byte>)
    requires !st.info.blockSize.Auto?
  {
    DecodeBlock(cfg, Slide(st), block, st.info.blockSize.Size()) == Ok(data)
  }

  function Checksum(cfg: Config, on: bool, s: seq<byte>): seq<byte> {
    if on then Le(Hash32(cfg, s), 4) else []
  }

  /** The bytes of a block: its header, its data and the checksum of the data. */
  function BlockBytes(cfg: Config, info: FrameInfo, kind: BlockInfo, payload: seq<byte>): seq<byte>
    requires WriteBlockInfo(kind).Ok?
  {
    WriteBlockInfo(kind).value + payload + Checksum(cfg, info.blockChecksums, payload)
  }

  lemma ChecksumRead(cfg: Config, s: seq<byte>, input: seq<byte>, i: nat)
    requires i + 4 <= |input| && input[i..i + 4] == Checksum(cfg, true, s)
    ensures FromLe(input[i..i + 4]) == Hash32(cfg, s)
  {
    hide Le, FromLe, Pow256;
    Widths();
    FromLeOfLe(Hash32(cfg, s), 4);
  }

  lemma DataRead(cfg: Config, info: FrameInfo, payload: seq<byte>, rest: seq<byte>)
    ensures ReadData(cfg, info, payload + Checksum(cfg, info.blockChecksums, payload) + rest, |payload|)
         == Ok(Chunk(payload, rest))
  {
    hide Le, FromLe, Hash32;
    var sum := Checksum(cfg, info.blockChecksums, payload);
    var r := payload + sum + rest;
    var n := |payload|;
    assert r[..n] == payload && r[n + |sum|..] == rest;
    if info.blockChecksums {
      assert r[n..n + 4] == sum;
      ChecksumRead(cfg, payload, r, n);
    }
  }

  /** A written block is read as what it holds. */
  lemma BlockRead(cfg: Config, st: DecState, out: nat, kind: BlockInfo, payload: seq<byte>, data: seq<byte>,
                  rest: seq<byte>)
    requires !st.info.blockSize.Auto? && out + |data| <= cfg.maxOutput
    requires kind == Compressed(|payload|) || (kind == Uncompressed(|payload|) && payload == data)
    requires |payload| <= st.info.blockSize.Size() && (kind.Compressed? ==> payload != [])
    requires kind.Compressed? ==> Holds(cfg, st, payload, data)
    ensures WriteBlockInfo(kind).Ok?
    ensures ReadBlock(cfg, st, out, BlockBytes(cfg, st.info, kind, payload) + rest)
         == Data(data, Extend(Slide(st), data), rest)
  {
    hide DecodeBlock, Slide, ReadData, ReadBlockInfo, Checksum, Le;
    var head := WriteBlockInfo(kind).value;
    var sum := Checksum(cfg, st.info.blockChecksums, payload);
    var r := BlockBytes(cfg, st.info, kind, payload) + rest;
    assert r == head + (payload + sum + rest);
    BlockInfoRoundTrip(kind, payload + sum + rest);
    assert r[4..] == payload + sum + rest;
    DataRead(cfg, st.info, payload, rest);
  }

  /** The bytes that close a frame. */
  function EndBytes(cfg: Config, info: FrameInfo, content: seq<byte>): seq<byte> {
    Le(0, 4) + Checksum(cfg, info.contentChecksum, content)
  }

  lemma EndRead(cfg: Config, st: DecState, out: nat, rest: seq<byte>)
    requires !st.info.blockSize.Auto?
    requires st.info.contentSize.Some? ==> st.info.contentSize.value == |st.content|
    ensures ReadBlock(cfg, st, out, EndBytes(cfg, st.info, st.content) + rest) == End(rest)
  {
    hide Le, FromLe, Hash32, Slide, ReadBlockInfo;
    var sum := Checksum(cfg, st.info.contentChecksum, st.content);
    var r := EndBytes(cfg, st.info, st.content) + rest;
    assert WriteBlockInfo(EndMark) == Ok(Le(0, 4));
    assert r == Le(0, 4) + (sum + rest);
    BlockInfoRoundTrip(EndMark, sum + rest);
    var tail := r[4..];
    assert tail == sum + rest && tail[|sum|..] == rest;
    if st.info.contentChecksum {
      assert tail[..4] == tail[0..0 + 4] == sum;
      ChecksumRead(cfg, st.content, tail, 0);
    }
  }

  lemma HeaderRead(cfg: Config, info: FrameInfo, rest: seq<byte>)
    requires InRange(info) && !info.blockSize.Auto? && cfg.expectedId == info.dictId
    ensures ReadFrameStart(cfg, HeaderBytes(info, cfg.xxh) + rest) == Started(info, rest)
  {
    hide HeaderBytes, ParseHeader, ReadSize;
    var header := HeaderBytes(info, cfg.xxh);
    var r := header + rest;
    SizeRead(info, cfg.xxh, rest);
    assert r[..|header|] == header && r[|header|..] == rest;
    ReadWritten(info, cfg.xxh, []);
    assert header + [] == header;
  }

  // ----- a whole stream and its reader

  /** The decoder with another output limit. */
  function Limited(cfg: Config, limit: nat): Config {
    cfg.(maxOutput := limit)
  }

  /** What follows when the reader is within a frame, or between two. */
  ghost function Following(cfg: Config, st: Option<DecState>, out: nat, rest: seq<byte>): Content
    requires st.Some? ==> !st.value.info.blockSize.Auto?
  {
    if st.Some? then ReadBlocks(cfg, st.value, out, rest) else ReadFrames(cfg, out, rest)
  }

  /** Every decoder whose limit allows it reads `w` as `all`, and is then in state `st`, whatever
      follows. */
  ghost predicate ReadsAs(cfg: Config, w: seq<byte>, all: seq<byte>, st: Option<DecState>) {
    && (st.Some? ==> !st.value.info.blockSize.Auto?)
    && forall limit: nat, rest: seq<byte> :: |all| <= limit ==>
         ReadFrames(Limited(cfg, limit), 0, w + rest) == Behind(all, Following(Limited(cfg, limit), st, |all|, rest))
  }

  lemma NothingWritten(cfg: Config)
    ensures ReadsAs(cfg, [], [], None)
  {
    hide ReadFrames;
    forall limit: nat, rest: seq<byte>
      ensures ReadFrames(Limited(cfg, limit), 0, [] + rest) == Behind([], ReadFrames(Limited(cfg, limit), 0, rest))
    {
      assert [] + rest == rest;
      BehindTwice([], [], ReadFrames(Limited(cfg, limit), 0, rest));
    }
  }

  lemma FrameStarted(cfg: Config, w: seq<byte>, all: seq<byte>, info: FrameInfo)
    requires ReadsAs(cfg, w, all, None)
    requires InRange(info) && !info.blockSize.Auto? && cfg.expectedId == info.dictId
    ensures ReadsAs(cfg, w + HeaderBytes(info, cfg.xxh), all, Some(Fresh(info)))
  {
    hide ReadFrameStart, ReadBlocks, HeaderBytes;
    var header := HeaderBytes(info, cfg.xxh);
    forall limit: nat, rest: seq<byte> | |all| <= limit
      ensures ReadFrames(Limited(cfg, limit), 0, w + header + rest)
           == Behind(all, ReadBlocks(Limited(cfg, limit), Fresh(info), |all|, rest))
    {
      assert w + header + rest == w + (header + rest);
      HeaderRead(Limited(cfg, limit), info, rest);
    }
  }

  lemma BlockWritten(cfg: Config, w: seq<byte>, all: seq<byte>, st: DecState, kind: BlockInfo,
                     payload: seq<byte>, data: seq<byte>)
    requires !st.info.blockSize.Auto? && ReadsAs(cfg, w, all, Some(st))
    requires kind == Compressed(|payload|) || (kind == Uncompressed(|payload|) && payload == data)
    requires 0 < |payload| <= st.info.blockSize.Size()
    requires kind.Compressed? ==> Holds(cfg, st, payload, data)
    ensures WriteBlockInfo(kind).Ok?
    ensures ReadsAs(cfg, w + BlockBytes(cfg, st.info, kind, payload), all + data, Some(Extend(Slide(st), data)))
  {
    hide ReadBlock, ReadFrames, BlockBytes, Slide, Decode;
    var bytes := BlockBytes(cfg, st.info, kind, payload);
    var st1 := Extend(Slide(st), data);
    forall limit: nat, rest: seq<byte> | |all + data| <= limit
      ensures ReadFrames(Limited(cfg, limit), 0, w + bytes + rest)
           == Behind(all + data, ReadBlocks(Limited(cfg, limit), st1, |all + data|, rest))
    {
      var c := Limited(cfg, limit);
      assert w + bytes + rest == w + (bytes + rest);
      SameBlock(cfg, limit, st, kind, payload);
      BlockRead(c, st, |all|, kind, payload, data, rest);
      BehindTwice(all, data, ReadBlocks(c, st1, |all + data|, rest));
    }
  }

  /** The output limit has no part in what a block holds. */
  lemma SameBlock(cfg: Config, limit: nat, st: DecState, kind: BlockInfo, payload: seq<byte>)
    requires !st.info.blockSize.Auto?
    ensures forall data :: Holds(Limited(cfg, limit), st, payload, data) == Holds(cfg, st, payload, data)
    ensures WriteBlockInfo(kind).Ok? ==>
              BlockBytes(Limited(cfg, limit), st.info, kind, payload) == BlockBytes(cfg, st.info, kind, payload)
  {
    hide Decode, Slide, Le;
  }

  lemma FrameEnded(cfg: Config, w: seq<byte>, all: seq<byte>, st: DecState)
    requires ReadsAs(cfg, w, all, Some(st))
    requires st.info.contentSize.Some? ==> st.info.contentSize.value == |st.content|
    ensures ReadsAs(cfg, w + EndBytes(cfg, st.info, st.content), all, None)
  {
    hide ReadBlock, ReadFrames, Le;
    var bytes := EndBytes(cfg, st.info, st.content);
    forall limit: nat, rest: seq<byte> | |all| <= limit
      ensures ReadFrames(Limited(cfg, limit), 0, w + bytes + rest)
           == Behind(all, ReadFrames(Limited(cfg, limit), |all|, rest))
    {
      var c := Limited(cfg, limit);
      assert w + bytes + rest == w + (bytes + rest);
      EndRead(c, st, |all|, rest);
    }
  }

  /** A finished stream decodes to what was written into it. */
  lemma FinishedReads(cfg: Config, w: seq<byte>, all: seq<byte>, limit: nat)
    requires ReadsAs(cfg, w, all, None) && |all| <= limit
    ensures ReadFrames(Limited(cfg, limit), 0, w) == Content(all, None)
  {
    var none: seq<byte> := [];
    assert w + none == w && all + none == all;
  }

  /** An unfinished one decodes to what was flushed, and then ends early. */
  lemma FlushedReads(cfg: Config, w: seq<byte>, all: seq<byte>, st: DecState, limit: nat)
    requires ReadsAs(cfg, w, all, Some(st)) && |all| <= limit
    ensures ReadFrames(Limited(cfg, limit), 0, w) == Content(all, Some(UnexpectedEof))
  {
    hide Slide, ReadCompressed, ReadUncompressed, ReadEnd;
    var none: seq<byte> := [];
    assert w + none == w && all + none == all;
  }
}
