/**
  Which streams a decoder accepts: exactly those made of written headers, blocks and ends, with the
  right sizes and checksums; and what is wrong with a stream that it refuses.
 */
module FrameAccept {
  import opened Core
  import opened ReferenceDecoder
  import opened FrameHeader
  import opened FrameFormat
  import opened FrameLockstep

  // ----- one block

  /** A block that may follow in state `st`: its data is what the decoder makes of it, and fits. */
  ghost predicate Admissible(cfg: Config, st: DecState, out: nat, kind: BlockInfo, payload: seq<byte>, data: seq<byte>)
    requires !st.info.blockSize.Auto?
  {
    && ((kind == Compressed(|payload|) && payload != [] && Holds(cfg, st, payload, data))
        || (kind == Uncompressed(|payload|) && payload == data))
    && |payload| <= st.info.blockSize.Size() && |data| <= st.info.blockSize.Size() && out + |data| <= cfg.maxOutput
  }

  lemma AdmissibleHeader(cfg: Config, st: DecState, out: nat, kind: BlockInfo, payload: seq<byte>, data: seq<byte>)
    requires !st.info.blockSize.Auto? && Admissible(cfg, st, out, kind, payload, data)
    ensures WriteBlockInfo(kind).Ok?
  {
  }

  lemma DecodedFits(cfg: Config, st: DecState, block: seq<byte>, limit: nat)
    ensures var r := DecodeBlock(cfg, st, block, limit);
            r.Ok? ==> |r.value| <= limit
  {
    hide Decode;
  }

  /** A block that is accepted is, byte for byte, a written one: its header, its data, and the checksum of
      the data if the frame has block checksums. */
  lemma BlockAccepted(cfg: Config, st: DecState, out: nat, r: seq<byte>)
    requires !st.info.blockSize.Auto? && ReadBlock(cfg, st, out, r).Data?
    ensures var o := ReadBlock(cfg, st, out, r);
            && 4 <= |r| && ReadBlockInfo(r).Ok? && !ReadBlockInfo(r).value.EndMark?
            && var kind := ReadBlockInfo(r).value;
               && 4 + kind.size <= |r| && WriteBlockInfo(kind).Ok?
               && Admissible(cfg, st, out, kind, r[4..4 + kind.size], o.bytes)
               && r == BlockBytes(cfg, st.info, kind, r[4..4 + kind.size]) + o.rest
  {
    hide DecodeBlock, Slide, ReadData, ReadBlockInfo, Checksum, Le, WriteBlockInfo;
    HeaderThere(r);
    BlockInfoWritten(r);
    var kind := ReadBlockInfo(r).value;
    DataAccepted(cfg, st.info, r[4..], kind.size);
    var payload := r[4..4 + kind.size];
    assert payload == r[4..][..kind.size];
    DecodedFits(cfg, Slide(st), payload, st.info.blockSize.Size());
    assert r == r[..4] + r[4..];
  }

  lemma HeaderThere(r: seq<byte>)
    ensures if 4 <= |r| then ReadBlockInfo(r).Ok? else ReadBlockInfo(r) == Err(UnexpectedEof)
    ensures 4 <= |r| && ReadBlockInfo(r).value.Compressed? ==> ReadBlockInfo(r).value.size > 0
  {
    hide FromLe;
  }

  /** The bytes behind a block header that are taken for a block are its data and their checksum. */
  lemma DataAccepted(cfg: Config, info: FrameInfo, r: seq<byte>, n: nat)
    ensures var c := ReadData(cfg, info, r, n);
            c.Ok? ==>
              && |c.value.data| == n <= |r| && c.value.data == r[..n]
              && r == c.value.data + Checksum(cfg, info.blockChecksums, c.value.data) + c.value.rest
  {
    hide Le, FromLe, Hash32;
    if n <= |r| {
      assert r == r[..n] + [] + r[n..];
      if n + 4 <= |r| {
        LeOfFromLe(r[n..n + 4]);
        assert r == r[..n] + r[n..n + 4] + r[n + 4..];
      }
    }
  }

  lemma EndOf(r: seq<byte>)
    requires 4 <= |r| && ReadBlockInfo(r) == Ok(EndMark)
    ensures r[..4] == Le(0, 4)
  {
    hide Le, FromLe;
    LeOfFromLe(r[..4]);
  }

  /** What is accepted as the end of a frame is the written one: the end mark and the checksum of the
      content; and the content has the declared size. */
  lemma EndAccepted(cfg: Config, st: DecState, out: nat, r: seq<byte>)
    requires !st.info.blockSize.Auto? && ReadBlock(cfg, st, out, r).End?
    ensures st.info.contentSize.Some? ==> st.info.contentSize.value == |st.content|
    ensures r == EndBytes(cfg, st.info, st.content) + ReadBlock(cfg, st, out, r).rest
  {
    hide Le, FromLe, Hash32, Slide, ReadBlockInfo, ReadUncompressed, ReadCompressed;
    HeaderThere(r);
    BlockInfoWritten(r);
    EndOf(r);
    var tail := r[4..];
    assert r == Le(0, 4) + tail;
    if st.info.contentChecksum {
      LeOfFromLe(tail[..4]);
      assert r == Le(0, 4) + tail[..4] + tail[4..];
    } else {
      assert r == Le(0, 4) + [] + tail;
    }
  }

  // ----- the start of a frame

  /** A dictionary id is accepted exactly when it is the expected one, present or not. */
  lemma IdAccepted(cfg: Config, id: Option<nat>)
    ensures CheckDictId(cfg, id) == None <==> id == cfg.expectedId
    ensures match CheckDictId(cfg, id)
            case None => true
            case Some(e) =>
              && (e == DictionaryNotSupported <==> cfg.expectedId == None)
              && (e == DictionaryRequired <==> id == None)
              && (id.Some? && cfg.expectedId.Some? ==> e == DictIdMismatch(cfg.expectedId.value, id.value))
  {
  }

  /** A frame is entered exactly behind a written header with definite settings and the right id. */
  lemma StartAccepted(cfg: Config, r: seq<byte>, info: FrameInfo, rest: seq<byte>)
    ensures ReadFrameStart(cfg, r) == Started(info, rest)
       <==> && InRange(info) && !info.blockSize.Auto? && info.dictId == cfg.expectedId
            && r == HeaderBytes(info, cfg.xxh) + rest
  {
    hide HeaderBytes, ParseHeader, ReadSize;
    if ReadFrameStart(cfg, r) == Started(info, rest) {
      var chunk := TakeHeader(r).value;
      WrittenRead(chunk.data, cfg.xxh);
      IdAccepted(cfg, info.dictId);
      assert chunk.data[..MIN_FRAME_INFO_SIZE] == r[..MIN_FRAME_INFO_SIZE];
      assert chunk.data == chunk.data[..WriteSize(info)];
      assert r == chunk.data + chunk.rest;
    } else if InRange(info) && !info.blockSize.Auto? && info.dictId == cfg.expectedId
              && r == HeaderBytes(info, cfg.xxh) + rest {
      HeaderRead(cfg, info, rest);
    }
  }

  // ----- whole streams

  /** A block as it is sent, and what it decodes to. */
  datatype Part = Part(kind: BlockInfo, payload: seq<byte>, data: seq<byte>)

  datatype Frame = Frame(info: FrameInfo, parts: seq<Part>)

  function DataOf(parts: seq<Part>): seq<byte> {
    if parts == [] then [] else parts[0].data + DataOf(parts[1..])
  }

  predicate Sendable(parts: seq<Part>) {
    forall i :: 0 <= i < |parts| ==> WriteBlockInfo(parts[i].kind).Ok?
  }

  function PartsText(cfg: Config, info: FrameInfo, parts: seq<Part>): seq<byte>
    requires Sendable(parts)
  {
    if parts == [] then []
    else BlockBytes(cfg, info, parts[0].kind, parts[0].payload) + PartsText(cfg, info, parts[1..])
  }

  /** A frame as it is written. */
  function FrameText(cfg: Config, f: Frame): seq<byte>
    requires Sendable(f.parts)
  {
    HeaderBytes(f.info, cfg.xxh) + PartsText(cfg, f.info, f.parts) + EndBytes(cfg, f.info, DataOf(f.parts))
  }

  function StreamText(cfg: Config, frames: seq<Frame>): seq<byte>
    requires forall i :: 0 <= i < |frames| ==> Sendable(frames[i].parts)
  {
    if frames == [] then [] else FrameText(cfg, frames[0]) + StreamText(cfg, frames[1..])
  }

  function StreamData(frames: seq<Frame>): seq<byte> {
    if frames == [] then [] else DataOf(frames[0].parts) + StreamData(frames[1..])
  }

  /** Every block may follow the ones before it, and the content ends with the declared size. */
  ghost predicate PartsFollow(cfg: Config, st: DecState, out: nat, parts: seq<Part>)
    requires !st.info.blockSize.Auto?
    decreases |parts|
  {
    if parts == [] then st.info.contentSize.Some? ==> st.info.contentSize.value == |st.content|
    else
      var p := parts[0];
      && WriteBlockInfo(p.kind).Ok? && Admissible(cfg, st, out, p.kind, p.payload, p.data)
      && PartsFollow(cfg, Extend(Slide(st), p.data), out + |p.data|, parts[1..])
  }

  /** Every frame has definite settings, the expected dictionary id, and blocks that follow each other. */
  ghost predicate FramesFollow(cfg: Config, out: nat, frames: seq<Frame>)
    decreases |frames|
  {
    frames != [] ==>
      var f := frames[0];
      && InRange(f.info) && !f.info.blockSize.Auto? && f.info.dictId == cfg.expectedId
      && PartsFollow(cfg, Fresh(f.info), out, f.parts)
      && FramesFollow(cfg, out + |DataOf(f.parts)|, frames[1..])
  }

  lemma {:induction false} FollowSendable(cfg: Config, st: DecState, out: nat, parts: seq<Part>)
    requires !st.info.blockSize.Auto? && PartsFollow(cfg, st, out, parts)
    ensures Sendable(parts)
    decreases |parts|
  {
    hide Slide, Admissible;
    if parts != [] {
      FollowSendable(cfg, Extend(Slide(st), parts[0].data), out + |parts[0].data|, parts[1..]);
      assert forall i :: 1 <= i < |parts| ==> parts[i] == parts[1..][i - 1];
    }
  }

  lemma {:induction false} FramesSendable(cfg: Config, out: nat, frames: seq<Frame>)
    requires FramesFollow(cfg, out, frames)
    ensures forall i :: 0 <= i < |frames| ==> Sendable(frames[i].parts)
    decreases |frames|
  {
    hide PartsFollow, Sendable;
    if frames != [] {
      FollowSendable(cfg, Fresh(frames[0].info), out, frames[0].parts);
      FramesSendable(cfg, out + |DataOf(frames[0].parts)|, frames[1..]);
      assert forall i :: 1 <= i < |frames| ==> frames[i] == frames[1..][i - 1];
    }
  }

  /** What is accepted can be taken apart into blocks and frames. */
  ghost predicate TakenApart(cfg: Config, st: Option<DecState>, out: nat, r: seq<byte>, c: Content,
                             parts: seq<Part>, frames: seq<Frame>)
    requires st.Some? ==> !st.value.info.blockSize.Auto?
  {
    && Sendable(parts) && (forall i :: 0 <= i < |frames| ==> Sendable(frames[i].parts))
    && FramesFollow(cfg, out + |DataOf(parts)|, frames)
    && c.bytes == DataOf(parts) + StreamData(frames)
    && match st
       case None => parts == [] && r == StreamText(cfg, frames)
       case Some(s) =>
         && PartsFollow(cfg, s, out, parts)
         && r == PartsText(cfg, s.info, parts) + EndBytes(cfg, s.info, s.content + DataOf(parts))
                 + StreamText(cfg, frames)
  }

  lemma ApartNothing(cfg: Config, out: nat)
    ensures TakenApart(cfg, None, out, [], Content([], None), [], [])
  {
  }

  lemma SameBehind(a: seq<byte>, b: seq<byte>, c: seq<byte>)
    ensures a + b == a + c <==> b == c
  {
    assert (a + b)[|a|..] == b && (a + c)[|a|..] == c;
  }

  lemma ApartFrame(cfg: Config, out: nat, info: FrameInfo, rest: seq<byte>, c: Content, parts: seq<Part>,
                   frames: seq<Frame>)
    requires InRange(info) && !info.blockSize.Auto? && info.dictId == cfg.expectedId
    ensures TakenApart(cfg, Some(Fresh(info)), out, rest, c, parts, frames)
       <==> TakenApart(cfg, None, out, HeaderBytes(info, cfg.xxh) + rest, c, [], [Frame(info, parts)] + frames)
  {
    hide HeaderBytes, EndBytes, PartsText, PartsFollow, DataOf, Sendable;
    var all := [Frame(info, parts)] + frames;
    NoData();
    assert all[1..] == frames && [] + DataOf(parts) == DataOf(parts);
    assert [] + (DataOf(parts) + StreamData(frames)) == DataOf(parts) + StreamData(frames);
    assert forall i :: 0 <= i < |frames| ==> all[i + 1] == frames[i];
    SendableFirst(Frame(info, parts), frames);
    if Sendable(parts) && forall i :: 0 <= i < |frames| ==> Sendable(frames[i].parts) {
      var h, b := HeaderBytes(info, cfg.xxh), PartsText(cfg, info, parts);
      var e, f := EndBytes(cfg, info, DataOf(parts)), StreamText(cfg, frames);
      assert StreamText(cfg, all) == h + b + e + f == h + (b + e + f);
      SameBehind(h, rest, b + e + f);
    }
  }

  lemma SendableFirst(first: Frame, frames: seq<Frame>)
    ensures var all := [first] + frames;
            (forall i :: 0 <= i < |all| ==> Sendable(all[i].parts))
            <==> Sendable(first.parts) && forall i :: 0 <= i < |frames| ==> Sendable(frames[i].parts)
  {
    hide Sendable;
    var all := [first] + frames;
    assert all[0] == first && forall i :: 0 <= i < |frames| ==> frames[i] == all[i + 1];
  }

  lemma NoData()
    ensures DataOf([]) == [] && Sendable([])
  {
  }

  lemma ApartEnd(cfg: Config, s: DecState, out: nat, rest: seq<byte>, c: Content, frames: seq<Frame>)
    requires !s.info.blockSize.Auto?
    ensures (s.info.contentSize.Some? ==> s.info.contentSize.value == |s.content|)
         && TakenApart(cfg, None, out, rest, c, [], frames)
       <==> TakenApart(cfg, Some(s), out, EndBytes(cfg, s.info, s.content) + rest, c, [], frames)
  {
    hide EndBytes, StreamText, StreamData, FramesFollow;
    assert s.content + [] == s.content;
    var e := EndBytes(cfg, s.info, s.content);
    assert [] + e == e;
    if forall i :: 0 <= i < |frames| ==> Sendable(frames[i].parts) {
      SameBehind(e, rest, StreamText(cfg, frames));
    }
  }

  lemma ApartBlock(cfg: Config, s: DecState, out: nat, rest: seq<byte>, c: Content, p: Part, parts: seq<Part>,
                   frames: seq<Frame>)
    requires !s.info.blockSize.Auto? && WriteBlockInfo(p.kind).Ok?
    ensures Admissible(cfg, s, out, p.kind, p.payload, p.data)
         && TakenApart(cfg, Some(Extend(Slide(s), p.data)), out + |p.data|, rest, c, parts, frames)
       <==> TakenApart(cfg, Some(s), out, BlockBytes(cfg, s.info, p.kind, p.payload) + rest, Behind(p.data, c),
                       [p] + parts, frames)
  {
    hide EndBytes, StreamText, StreamData, FramesFollow, BlockBytes, Slide, Admissible, WriteBlockInfo;
    var all := [p] + parts;
    assert all[1..] == parts && forall i :: 0 <= i < |parts| ==> parts[i] == all[i + 1];
    assert s.content + DataOf(all) == s.content + p.data + DataOf(parts);
    assert p.data + (DataOf(parts) + StreamData(frames)) == p.data + DataOf(parts) + StreamData(frames);
    SameBehind(p.data, c.bytes, DataOf(parts) + StreamData(frames));
    if Sendable(parts) && forall i :: 0 <= i < |frames| ==> Sendable(frames[i].parts) {
      var a, b := BlockBytes(cfg, s.info, p.kind, p.payload), PartsText(cfg, s.info, parts);
      var e, f := EndBytes(cfg, s.info, s.content + DataOf(all)), StreamText(cfg, frames);
      assert a + (b + e + f) == a + b + e + f;
      SameBehind(a, rest, b + e + f);
    }
  }

  /** Whatever is read without an error is a written stream. */
  lemma {:induction false} Dissect(cfg: Config, st: Option<DecState>, out: nat, r: seq<byte>)
    returns (parts: seq<Part>, frames: seq<Frame>)
    requires st.Some? ==> !st.value.info.blockSize.Auto?
    requires FrameLockstep.Following(cfg, st, out, r).error == None
    ensures TakenApart(cfg, st, out, r, FrameLockstep.Following(cfg, st, out, r), parts, frames)
    decreases |r|
  {
    hide ReadBlock, ReadFrameStart, TakenApart, Admissible, HeaderBytes, EndBytes, BlockBytes, Slide;
    match st
    case None =>
      var f := ReadFrameStart(cfg, r);
      if f.Started? {
        StartAccepted(cfg, r, f.info, f.rest);
        parts, frames := Dissect(cfg, Some(Fresh(f.info)), out, f.rest);
        ApartFrame(cfg, out, f.info, f.rest, ReadFrames(cfg, out, r), parts, frames);
        parts, frames := [], [Frame(f.info, parts)] + frames;
      } else {
        NoFrameLeft(cfg, r);
        ApartNothing(cfg, out);
        parts, frames := [], [];
      }
    case Some(s) =>
      var o := ReadBlock(cfg, s, out, r);
      if o.End? {
        EndAccepted(cfg, s, out, r);
        parts, frames := Dissect(cfg, None, out, o.rest);
        ApartOnlyFrames(cfg, out, o.rest, ReadFrames(cfg, out, o.rest), parts, frames);
        ApartEnd(cfg, s, out, o.rest, ReadFrames(cfg, out, o.rest), frames);
        parts := [];
      } else {
        BlockAccepted(cfg, s, out, r);
        var kind := ReadBlockInfo(r).value;
        var p := Part(kind, r[4..4 + kind.size], o.bytes);
        parts, frames := Dissect(cfg, Some(o.st), out + |o.bytes|, o.rest);
        ApartBlock(cfg, s, out, o.rest, ReadBlocks(cfg, o.st, out + |o.bytes|, o.rest), p, parts, frames);
        parts := [p] + parts;
      }
  }

  lemma ApartOnlyFrames(cfg: Config, out: nat, r: seq<byte>, c: Content, parts: seq<Part>, frames: seq<Frame>)
    requires TakenApart(cfg, None, out, r, c, parts, frames)
    ensures parts == []
  {
  }

  lemma NoFrameLeft(cfg: Config, r: seq<byte>)
    ensures ReadFrameStart(cfg, r).NoFrame? <==> r == []
  {
    hide TakeHeader, AcceptHeader;
  }

  /** Every written stream is read as its data. */
  lemma {:induction false} Reassemble(cfg: Config, st: Option<DecState>, out: nat, r: seq<byte>, parts: seq<Part>,
                                      frames: seq<Frame>)
    requires st.Some? ==> !st.value.info.blockSize.Auto?
    requires TakenApart(cfg, st, out, r, Content(DataOf(parts) + StreamData(frames), None), parts, frames)
    ensures FrameLockstep.Following(cfg, st, out, r) == Content(DataOf(parts) + StreamData(frames), None)
    decreases |r|
  {
    hide ReadBlock, ReadFrameStart, TakenApart, Admissible, HeaderBytes, EndBytes, BlockBytes, Slide;
    match st
    case None =>
      var f, rest := FirstFrame(cfg, out, r, parts, frames);
      if f.Some? {
        var info := f.value.info;
        StartAccepted(cfg, r, info, rest);
        var c := Content(DataOf(f.value.parts) + StreamData(frames[1..]), None);
        ApartFrame(cfg, out, info, rest, c, f.value.parts, frames[1..]);
        Reassemble(cfg, Some(Fresh(info)), out, rest, f.value.parts, frames[1..]);
      } else {
        NoFrameLeft(cfg, r);
      }
    case Some(s) =>
      var p, rest := FirstPart(cfg, s, out, r, parts, frames);
      if p.Some? {
        var c := Content(DataOf(parts[1..]) + StreamData(frames), None);
        ApartBlock(cfg, s, out, rest, c, p.value, parts[1..], frames);
        PartRead(cfg, s, out, p.value, rest);
        Reassemble(cfg, Some(Extend(Slide(s), p.value.data)), out + |p.value.data|, rest, parts[1..], frames);
      } else {
        ApartEnd(cfg, s, out, rest, Content(StreamData(frames), None), frames);
        EndRead(cfg, s, out, rest);
        Reassemble(cfg, None, out, rest, [], frames);
      }
  }

  lemma FirstFrame(cfg: Config, out: nat, r: seq<byte>, parts: seq<Part>, frames: seq<Frame>)
    returns (f: Option<Frame>, rest: seq<byte>)
    requires TakenApart(cfg, None, out, r, Content(DataOf(parts) + StreamData(frames), None), parts, frames)
    ensures parts == [] && (f.None? <==> frames == [])
    ensures DataOf(parts) + StreamData(frames)
         == if f.None? then [] else DataOf(f.value.parts) + StreamData(frames[1..])
    ensures f.None? ==> r == []
    ensures f.Some? ==>
              && frames == [f.value] + frames[1..] && r == HeaderBytes(f.value.info, cfg.xxh) + rest
              && InRange(f.value.info) && !f.value.info.blockSize.Auto? && f.value.info.dictId == cfg.expectedId
  {
    hide HeaderBytes, EndBytes, PartsText, PartsFollow, DataOf;
    NoData();
    if frames == [] {
      f, rest := None, [];
    } else {
      f := Some(frames[0]);
      var h, b := HeaderBytes(f.value.info, cfg.xxh), PartsText(cfg, f.value.info, f.value.parts);
      var e, t := EndBytes(cfg, f.value.info, DataOf(f.value.parts)), StreamText(cfg, frames[1..]);
      rest := b + e + t;
      assert h + b + e + t == h + rest;
    }
  }

  lemma FirstPart(cfg: Config, s: DecState, out: nat, r: seq<byte>, parts: seq<Part>, frames: seq<Frame>)
    returns (p: Option<Part>, rest: seq<byte>)
    requires !s.info.blockSize.Auto?
    requires TakenApart(cfg, Some(s), out, r, Content(DataOf(parts) + StreamData(frames), None), parts, frames)
    ensures p.None? ==>
              && parts == [] && r == EndBytes(cfg, s.info, s.content) + rest
              && DataOf(parts) + StreamData(frames) == StreamData(frames)
    ensures p.Some? ==>
              && parts != [] && parts == [p.value] + parts[1..] && WriteBlockInfo(p.value.kind).Ok?
              && r == BlockBytes(cfg, s.info, p.value.kind, p.value.payload) + rest
              && DataOf(parts) + StreamData(frames) == p.value.data + (DataOf(parts[1..]) + StreamData(frames))
  {
    hide EndBytes, StreamText, StreamData, FramesFollow, BlockBytes, Slide, Admissible, WriteBlockInfo;
    var e, t := EndBytes(cfg, s.info, s.content + DataOf(parts)), StreamText(cfg, frames);
    if parts == [] {
      p, rest := None, t;
      assert s.content + [] == s.content && [] + e + t == e + t;
    } else {
      p := Some(parts[0]);
      rest := PartsText(cfg, s.info, parts[1..]) + e + t;
    }
  }

  lemma PartRead(cfg: Config, s: DecState, out: nat, p: Part, rest: seq<byte>)
    requires !s.info.blockSize.Auto? && WriteBlockInfo(p.kind).Ok?
    requires Admissible(cfg, s, out, p.kind, p.payload, p.data)
    ensures ReadBlock(cfg, s, out, BlockBytes(cfg, s.info, p.kind, p.payload) + rest)
         == Data(p.data, Extend(Slide(s), p.data), rest)
  {
    hide ReadBlock, Holds, BlockBytes, Slide;
    BlockRead(cfg, s, out, p.kind, p.payload, p.data, rest);
  }

  /** `r` is written for `bytes`. */
  ghost predicate WrittenFor(cfg: Config, r: seq<byte>, bytes: seq<byte>, frames: seq<Frame>) {
    && FramesFollow(cfg, 0, frames) && (forall i :: 0 <= i < |frames| ==> Sendable(frames[i].parts))
    && r == StreamText(cfg, frames) && bytes == StreamData(frames)
  }

  /** The streams that a decoder reads without an error are exactly the written ones: frames with a
      header, admissible blocks, and an end, byte for byte.  It reads the data they were written for. */
  lemma AcceptedExactly(cfg: Config, r: seq<byte>, bytes: seq<byte>)
    ensures ReadFrames(cfg, 0, r) == Content(bytes, None) <==> exists frames :: WrittenFor(cfg, r, bytes, frames)
  {
    hide ReadFrames, StreamText, FramesFollow, DataOf;
    NoData();
    if ReadFrames(cfg, 0, r) == Content(bytes, None) {
      var parts, frames := Dissect(cfg, None, 0, r);
      assert [] + StreamData(frames) == StreamData(frames);
      assert WrittenFor(cfg, r, bytes, frames);
    }
    if frames :| WrittenFor(cfg, r, bytes, frames) {
      assert [] + StreamData(frames) == StreamData(frames);
      Reassemble(cfg, None, 0, r, [], frames);
    }
  }

  // ----- what is refused

  /** The size of a block's data and checksum. */
  function Extent(info: FrameInfo, n: nat): nat {
    n + if info.blockChecksums then 4 else 0
  }

  /** Data and checksum of a block of `n` bytes are there and agree. */
  predicate DataSound(cfg: Config, info: FrameInfo, r: seq<byte>, n: nat) {
    4 + Extent(info, n) <= |r|
    && (info.blockChecksums ==> FromLe(r[4 + n..8 + n]) == Hash32(cfg, r[4..4 + n]))
  }

  /** What is wrong with a stored block of `n` bytes that is refused with `e`. */
  predicate RefusesStored(cfg: Config, st: DecState, out: nat, r: seq<byte>, n: nat, e: FrameError)
    requires !st.info.blockSize.Auto?
  {
    var max := st.info.blockSize.Size();
    match e
    case BlockTooBig => max < n
    case DecompressedSizeLimit(limit, size) =>
      n <= max && limit == cfg.maxOutput < out + n && size == Min(out + n, USIZE_MAX)
    case UnexpectedEof => n <= max && out + n <= cfg.maxOutput && |r| < 4 + Extent(st.info, n)
    case BlockChecksumError =>
      && n <= max && out + n <= cfg.maxOutput && st.info.blockChecksums
      && 8 + n <= |r| && !DataSound(cfg, st.info, r, n)
    case _ => false
  }

  /** The same for a compressed block; its data is not looked at before its checksum agrees. */
  predicate RefusesCompressed(cfg: Config, st: DecState, out: nat, r: seq<byte>, n: nat, e: FrameError)
    requires !st.info.blockSize.Auto?
  {
    var max := st.info.blockSize.Size();
    match e
    case BlockTooBig => max < n
    case UnexpectedEof => n <= max && |r| < 4 + Extent(st.info, n)
    case BlockChecksumError =>
      n <= max && st.info.blockChecksums && 8 + n <= |r| && !DataSound(cfg, st.info, r, n)
    case DecompressionError(cause) =>
      && n <= max && DataSound(cfg, st.info, r, n)
      && DecodeBlock(cfg, Slide(st), r[4..4 + n], max) == Err(cause)
    case DecompressedSizeLimit(limit, size) =>
      && n <= max && DataSound(cfg, st.info, r, n)
      && var data := DecodeBlock(cfg, Slide(st), r[4..4 + n], max);
         && data.Ok? && limit == cfg.maxOutput < out + |data.value|
         && size == Min(out + |data.value|, USIZE_MAX)
    case _ => false
  }

  /** The same for the end of a frame. */
  predicate RefusesEnd(cfg: Config, st: DecState, r: seq<byte>, e: FrameError) {
    var sized := st.info.contentSize.Some? ==> st.info.contentSize.value == |st.content|;
    match e
    case ContentLengthError(expected, actual) =>
      st.info.contentSize == Some(expected) && expected != actual == |st.content|
    case UnexpectedEof => sized && st.info.contentChecksum && |r| < 8
    case ContentChecksumError =>
      sized && st.info.contentChecksum && 8 <= |r| && FromLe(r[4..8]) != Hash32(cfg, st.content)
    case _ => false
  }

  /** What is wrong with a block, or with the end of a frame, that is refused with `e`. */
  predicate Refuses(cfg: Config, st: DecState, out: nat, r: seq<byte>, e: FrameError)
    requires !st.info.blockSize.Auto?
  {
    if |r| < 4 then e == UnexpectedEof
    else
      match ReadBlockInfo(r).value
      case Uncompressed(n) => RefusesStored(cfg, st, out, r, n, e)
      case Compressed(n) => RefusesCompressed(cfg, st, out, r, n, e)
      case EndMark => RefusesEnd(cfg, st, r, e)
  }

  lemma StoredRefused(cfg: Config, st: DecState, out: nat, r: seq<byte>, n: nat, e: FrameError)
    requires !st.info.blockSize.Auto? && 4 <= |r|
    ensures ReadUncompressed(cfg, Slide(st), out, r[4..], n) == Broken(e) <==> RefusesStored(cfg, st, out, r, n, e)
  {
    hide Slide, ReadData, DataSound, CheckOutput;
    DataRefused(cfg, st.info, r, n);
    SizeRefused(cfg, out, n);
  }

  lemma CompressedRefused(cfg: Config, st: DecState, out: nat, r: seq<byte>, n: nat, e: FrameError)
    requires !st.info.blockSize.Auto? && 4 <= |r|
    ensures ReadCompressed(cfg, Slide(st), out, r[4..], n) == Broken(e) <==> RefusesCompressed(cfg, st, out, r, n, e)
  {
    hide DecodeBlock, Slide, ReadData, CheckOutput, FromLe, Hash32;
    DataRefused(cfg, st.info, r, n);
    var data := DecodeBlock(cfg, Slide(st), r[4..4 + Min(n, |r| - 4)], st.info.blockSize.Size());
    if data.Ok? {
      SizeRefused(cfg, out, |data.value|);
    }
  }

  lemma EndRefused(cfg: Config, st: DecState, r: seq<byte>, e: FrameError)
    requires !st.info.blockSize.Auto? && 4 <= |r|
    ensures ReadEnd(cfg, Slide(st), r[4..]) == Broken(e) <==> RefusesEnd(cfg, st, r, e)
  {
    hide Slide, FromLe, Hash32;
    if 8 <= |r| {
      assert r[4..][..4] == r[4..8];
    }
  }

  /** A block is refused with an error exactly when the error says what is wrong with it. */
  lemma RefusedExactly(cfg: Config, st: DecState, out: nat, r: seq<byte>, e: FrameError)
    requires !st.info.blockSize.Auto?
    ensures ReadBlock(cfg, st, out, r) == Broken(e) <==> Refuses(cfg, st, out, r, e)
  {
    hide ReadBlockInfo, ReadUncompressed, ReadCompressed, ReadEnd, RefusesStored, RefusesCompressed, RefusesEnd, Slide;
    HeaderThere(r);
    if 4 <= |r| {
      match ReadBlockInfo(r).value
      case Uncompressed(n) => StoredRefused(cfg, st, out, r, n, e);
      case Compressed(n) => CompressedRefused(cfg, st, out, r, n, e);
      case EndMark => EndRefused(cfg, st, r, e);
    }
  }

  lemma DataRefused(cfg: Config, info: FrameInfo, r: seq<byte>, n: nat)
    requires 4 <= |r|
    ensures var c := ReadData(cfg, info, r[4..], n);
            && (c.Ok? <==> DataSound(cfg, info, r, n))
            && (c.Ok? ==> c.value.data == r[4..4 + n])
            && (c == Err(UnexpectedEof) <==> |r| < 4 + Extent(info, n))
            && (c == Err(BlockChecksumError) <==>
                  info.blockChecksums && 8 + n <= |r| && !DataSound(cfg, info, r, n))
            && (c.Err? ==> c.error == UnexpectedEof || c.error == BlockChecksumError)
  {
    hide FromLe, Hash32;
    if 4 + n <= |r| {
      assert r[4..][..n] == r[4..4 + n];
      if 8 + n <= |r| {
        assert r[4..][n..n + 4] == r[4 + n..8 + n];
      }
    }
  }

  lemma SizeRefused(cfg: Config, out: nat, n: nat)
    ensures CheckOutput(cfg, out, n)
         == if cfg.maxOutput < out + n then Err(DecompressedSizeLimit(cfg.maxOutput, Min(out + n, USIZE_MAX)))
            else Ok(out + n)
  {
  }

  // ----- headers that are refused

  predicate HasMagic(r: seq<byte>) {
    7 <= |r| && r[..4] == [0x04, 0x22, 0x4D, 0x18]
  }

  predicate HasSkippableMagic(r: seq<byte>) {
    7 <= |r| && 0x50 <= r[0] <= 0x5F && r[1..4] == [0x2A, 0x4D, 0x18]
  }

  /** The length of a header whose first seven bytes are there. */
  function HeaderSize(r: seq<byte>): (n: nat)
    requires 7 <= |r|
    ensures 7 <= n <= 19
  {
    7 + (if r[4] / 8 % 2 == 1 then 8 else 0) + if r[4] % 2 == 1 then 4 else 0
  }

  predicate Complete(r: seq<byte>) {
    HasMagic(r) && HeaderSize(r) <= |r|
  }

  predicate VersionGood(r: seq<byte>) {
    Complete(r) && r[4] / 64 == 1
  }

  predicate ReservedGood(r: seq<byte>) {
    VersionGood(r) && r[4] / 2 % 2 == 0 && r[5] / 128 == 0 && r[5] % 16 == 0
  }

  predicate SizeGood(r: seq<byte>) {
    ReservedGood(r) && 4 <= r[5] / 16
  }

  predicate HeaderGood(cfg: Config, r: seq<byte>) {
    SizeGood(r) && cfg.xxh(r[4..HeaderSize(r) - 1]) / 256 % 256 == r[HeaderSize(r) - 1]
  }

  function IdIn(r: seq<byte>): Option<nat>
    requires Complete(r)
  {
    if r[4] % 2 == 1 then Some(FromLe(r[HeaderSize(r) - 5..HeaderSize(r) - 1])) else None
  }

  /** What is wrong with the start of a frame that is refused with `e`. */
  predicate RefusesStart(cfg: Config, r: seq<byte>, e: FrameError) {
    match e
    case UnexpectedEof =>
      0 < |r| < 7 || (HasSkippableMagic(r) && |r| < 8) || (HasMagic(r) && |r| < HeaderSize(r))
    case SkippableFrame(n) => 8 <= |r| && HasSkippableMagic(r) && n == FromLe(r[4..8])
    case WrongMagicNumber => 7 <= |r| && !HasMagic(r) && !HasSkippableMagic(r)
    case UnsupportedVersion(bits) => Complete(r) && !VersionGood(r) && bits == r[4] / 64 * 64
    case ReservedBitsSet => VersionGood(r) && !ReservedGood(r)
    case UnsupportedBlocksize(code) => ReservedGood(r) && !SizeGood(r) && code == r[5] / 16
    case HeaderChecksumError => SizeGood(r) && !HeaderGood(cfg, r)
    case DictionaryNotSupported => HeaderGood(cfg, r) && IdIn(r).Some? && cfg.expectedId == None
    case DictionaryRequired => HeaderGood(cfg, r) && IdIn(r) == None && cfg.expectedId.Some?
    case DictIdMismatch(expected, actual) =>
      HeaderGood(cfg, r) && cfg.expectedId == Some(expected) && IdIn(r) == Some(actual) && expected != actual
    case _ => false
  }

  /** What the first seven bytes announce. */
  lemma SizeAnnounced(r: seq<byte>)
    requires 7 <= |r|
    ensures ReadSize(r[..7]) == if HasSkippableMagic(r) then Ok(8)
                                else if HasMagic(r) then Ok(HeaderSize(r)) else Err(WrongMagicNumber)
  {
    hide FromLe;
    assert r[..7][..4] == r[..4];
    MagicRead(r[..4]);
    assert r[1..4] == [r[1], r[2], r[3]];
  }

  /** What the rest of a header says, once it is there. */
  lemma HeaderJudged(cfg: Config, r: seq<byte>)
    requires Complete(r)
    ensures var p := ParseHeader(r[..HeaderSize(r)], cfg.xxh);
            && (p.Ok? <==> HeaderGood(cfg, r)) && (p.Ok? ==> p.value.dictId == IdIn(r))
            && (p.Err? ==> RefusesStart(cfg, r, p.error))
  {
    hide FromLe;
    var n := HeaderSize(r);
    var h := r[..n];
    assert h[..4] == r[..4];
    MagicRead(r[..4]);
    assert h[4..n - 1] == r[4..n - 1];
    if r[4] % 2 == 1 {
      assert h[n - 5..n - 1] == r[n - 5..n - 1];
    }
  }

  lemma SkippableJudged(cfg: Config, r: seq<byte>)
    requires 8 <= |r| && HasSkippableMagic(r)
    ensures ParseHeader(r[..8], cfg.xxh) == Err(SkippableFrame(FromLe(r[4..8])))
  {
    hide FromLe;
    assert r[..8][..4] == r[..4] && r[..8][4..8] == r[4..8] && r[1..4] == [r[1], r[2], r[3]];
    MagicRead(r[..4]);
  }

  lemma OneRefusal(cfg: Config, r: seq<byte>, e: FrameError, f: FrameError)
    requires RefusesStart(cfg, r, e) && RefusesStart(cfg, r, f)
    ensures e == f
  {
    hide FromLe;
  }

  lemma NoRefusal(cfg: Config, r: seq<byte>, e: FrameError)
    ensures r == [] || (HeaderGood(cfg, r) && IdIn(r) == cfg.expectedId) ==> !RefusesStart(cfg, r, e)
  {
    hide FromLe;
  }

  lemma StartRefused(cfg: Config, r: seq<byte>)
    ensures match ReadFrameStart(cfg, r)
            case BadFrame(e) => RefusesStart(cfg, r, e)
            case NoFrame => r == []
            case Started(_, _) => HeaderGood(cfg, r) && IdIn(r) == cfg.expectedId
  {
    hide FromLe, ParseHeader, ReadSize, HeaderGood;
    if 7 <= |r| {
      SizeAnnounced(r);
      if HasSkippableMagic(r) {
        if 8 <= |r| {
          SkippableJudged(cfg, r);
        }
      } else if Complete(r) {
        HeaderJudged(cfg, r);
        IdAccepted(cfg, IdIn(r));
      }
    }
  }

  /** The start of a frame is refused with an error exactly when the error says what is wrong with it. */
  lemma StartRefusedExactly(cfg: Config, r: seq<byte>, e: FrameError)
    ensures ReadFrameStart(cfg, r) == BadFrame(e) <==> RefusesStart(cfg, r, e)
  {
    hide ReadFrameStart, RefusesStart, HeaderGood;
    StartRefused(cfg, r);
    NoRefusal(cfg, r, e);
    var f := ReadFrameStart(cfg, r);
    if f.BadFrame? && RefusesStart(cfg, r, e) {
      OneRefusal(cfg, r, e, f.error);
    }
  }
}
