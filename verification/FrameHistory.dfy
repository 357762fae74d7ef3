/**
  Frames of any encoder.  The decoder looks back through a window of two parts that it keeps moving;
  what it makes of a stream is nevertheless what the format says: the blocks of a linked frame refer
  to everything in front of them, dictionary and content, and independent blocks to the dictionary.
 */
module FrameHistory {
  import opened Core
  import opened BlockFormat
  import opened ReferenceDecoder
  import opened FrameHeader
  import opened FrameFormat
  import opened FrameLockstep

  /** All that a block may refer to. */
  function History(cfg: Config, info: FrameInfo, content: seq<byte>): seq<byte> {
    if info.linked then cfg.dict + content else cfg.dict
  }

  // ----- a block against all of its history

  /** The window in front of a block and the history agree as far back as a match can reach, and
      neither reaches further than the other. */
  lemma WindowIsHistory(cfg: Config, st: DecState, info: FrameInfo, content: seq<byte>)
    requires InStep(st, info, content)
    ensures var w, h := Front(cfg, Slide(st)) + Slide(st).prefix, History(cfg, info, content);
            Covers(w, h) && Covers(h, w)
  {
    var s := Slide(st);
    if !info.linked {
      assert cfg.dict + [] == cfg.dict;
    } else {
      SlideKeepsTail(st, content);
      SlideKeepsLength(st, content);
      hide Slide;
      if s.ext == [] {
        assert s.ext + s.prefix == s.prefix;
        TailReaches(cfg.dict, s.prefix, content);
      } else {
        TailReaches([], s.ext + s.prefix, content);
        assert [] + (s.ext + s.prefix) == s.ext + s.prefix;
        LongHistory(cfg.dict, s.ext + s.prefix, content);
      }
    }
  }

  /** Behind the same front, the end of the content is as good as all of it. */
  lemma TailReaches(front: seq<byte>, w: seq<byte>, content: seq<byte>)
    requires IsTail(w, content)
    ensures Covers(front + w, front + content) && Covers(front + content, front + w)
  {
    if |w| == |content| {
      assert w == content;
    } else {
      LongHistory(front, w, content);
      FrontIsFar(front, w);
      FrontIsFar(front, content);
    }
  }

  /** With a window of content, nothing in front of it is in reach. */
  lemma LongHistory(front: seq<byte>, w: seq<byte>, content: seq<byte>)
    requires IsTail(w, content) && WINDOW_SIZE <= |content|
    ensures Covers(w, front + content) && Covers(front + content, w)
  {
    TailEnd(w, content, MAX_DISTANCE);
    FrontIsFar(front, content);
  }

  lemma FrontIsFar(front: seq<byte>, w: seq<byte>)
    requires MAX_DISTANCE <= |w|
    ensures (front + w)[|front + w| - MAX_DISTANCE..] == w[|w| - MAX_DISTANCE..]
  {
  }

  /** What is parsed is well formed. */
  lemma {:induction false} ParsedWellFormed(b: seq<byte>, p: nat)
    ensures Parse(b, p).Some? ==> WellFormed(Parse(b, p).value)
    decreases |b| - p
  {
    hide ReadRun;
    var t := ParseToken(b, p);
    if t.Full? {
      ParsedWellFormed(b, t.next);
    }
  }

  /** Two windows that cover each other decode alike, in buffers with the same room. */
  lemma DecodesAlike(b: seq<byte>, d: nat, w: seq<byte>, h: seq<byte>, room: nat)
    requires Covers(w, h) && Covers(h, w) && d <= |w|
    ensures var o, p := Decode(b, 0, d, w, |w| - d + room), Decode(b, 0, |h|, h, room);
            && (o.Done? <==> p.Done?)
            && (o.Done? ==> o.w[|w|..] == p.w[|h|..])
  {
    hide Covers, Parse, Run, Decode, WellFormed;
    DecodeMeaning(b, 0, d, w, |w| - d + room);
    DecodeMeaning(b, 0, |h|, h, room);
    ParsedWellFormed(b, 0);
    var block := Parse(b, 0);
    if block.Some? {
      if Run(block.value, h).Some? {
        RunCovered(block.value, w, h);
      } else if Run(block.value, w).Some? {
        RunCovered(block.value, h, w);
      }
    }
  }

  /** The state of a decoder that keeps everything. */
  function Whole(cfg: Config, info: FrameInfo, content: seq<byte>): DecState {
    DecState(info, [], if info.linked then History(cfg, info, content) else [], content)
  }

  /** A block decodes, and to the same bytes, exactly when it does so against all of its history. */
  lemma DecodesAgainstHistory(cfg: Config, st: DecState, info: FrameInfo, content: seq<byte>, block: seq<byte>,
                              limit: nat)
    requires InStep(st, info, content)
    ensures var h := History(cfg, info, content);
            DecodeBlock(cfg, Whole(cfg, info, content), block, limit) == Produced(Decode(block, 0, |h|, h, limit), |h|)
    ensures var a := DecodeBlock(cfg, Slide(st), block, limit);
            var b := DecodeBlock(cfg, Whole(cfg, info, content), block, limit);
            a == b || (a.Err? && b.Err?)
  {
    hide Slide, Decode, Covers, InStep;
    WindowIsHistory(cfg, st, info, content);
    InStepInfo(st, info, content);
    var s, h := Slide(st), History(cfg, info, content);
    assert h + [] == h;
    DecodesAlike(block, |Front(cfg, s)|, Front(cfg, s) + s.prefix, h, limit);
  }

  // ----- whole streams

  /** A block read against all of its history. */
  function ReadBlockWhole(cfg: Config, info: FrameInfo, content: seq<byte>, out: nat, r: seq<byte>): (o: BlockOutcome)
    requires !info.blockSize.Auto?
    ensures !o.Broken? ==> |o.rest| < |r|
  {
    var st := Whole(cfg, info, content);
    match ReadBlockInfo(r)
    case Err(e) => Broken(e)
    case Ok(Uncompressed(n)) => ReadUncompressed(cfg, st, out, r[4..], n)
    case Ok(Compressed(n)) => ReadCompressed(cfg, st, out, r[4..], n)
    case Ok(EndMark) => ReadEnd(cfg, st, r[4..])
  }

  /** A frame in progress: its settings and its content so far. */
  datatype Frame = Frame(info: FrameInfo, content: seq<byte>)

  /** What a stream decodes to by the format: within a frame, or between two. */
  function ReadWhole(cfg: Config, frame: Option<Frame>, out: nat, r: seq<byte>): Content
    requires frame.Some? ==> !frame.value.info.blockSize.Auto?
    decreases |r|
  {
    match frame
    case None =>
      (match ReadFrameStart(cfg, r)
       case NoFrame => Content([], None)
       case BadFrame(e) => Content([], Some(e))
       case Started(info, rest) => ReadWhole(cfg, Some(Frame(info, [])), out, rest))
    case Some(f) =>
      match ReadBlockWhole(cfg, f.info, f.content, out, r)
      case Broken(e) => Content([], Some(e))
      case Data(bytes, _, rest) =>
        Behind(bytes, ReadWhole(cfg, Some(Frame(f.info, f.content + bytes)), out + |bytes|, rest))
      case End(rest) => ReadWhole(cfg, None, out, rest)
  }

  /** Equal, but for the reason that a block does not decode. */
  predicate SameError(a: FrameError, b: FrameError) {
    a == b || (a.DecompressionError? && b.DecompressionError?)
  }

  predicate SameContent(a: Content, b: Content) {
    && a.bytes == b.bytes && a.error.Some? == b.error.Some?
    && (a.error.Some? ==> SameError(a.error.value, b.error.value))
  }

  lemma SameOutcome(cfg: Config, st: DecState, info: FrameInfo, content: seq<byte>, out: nat, r: seq<byte>)
    requires InStep(st, info, content)
    ensures var a, b := ReadBlock(cfg, st, out, r), ReadBlockWhole(cfg, info, content, out, r);
            match a
            case Broken(e) => b.Broken? && SameError(e, b.error)
            case Data(bytes, st1, rest) =>
              b.Data? && b.bytes == bytes && b.rest == rest && st1 == Extend(Slide(st), bytes)
            case End(rest) => b == a
  {
    hide Slide, DecodeBlock, ReadData, FromLe, History;
    InStepInfo(st, info, content);
    forall block, limit: nat
      ensures var a := DecodeBlock(cfg, Slide(st), block, limit);
              var b := DecodeBlock(cfg, Whole(cfg, info, content), block, limit);
              a == b || (a.Err? && b.Err?)
    {
      DecodesAgainstHistory(cfg, st, info, content, block, limit);
    }
  }

  /** Whoever wrote the stream, the moving window never shows: the content is what the format says, and
      it ends in the same way. */
  lemma {:induction false} WindowNeverShows(cfg: Config, st: Option<DecState>, frame: Option<Frame>, out: nat,
                                            r: seq<byte>)
    requires st.Some? == frame.Some? && (st.Some? ==> InStep(st.value, frame.value.info, frame.value.content))
    ensures st.Some? ==> !st.value.info.blockSize.Auto? && !frame.value.info.blockSize.Auto?
    ensures SameContent(if st.Some? then ReadBlocks(cfg, st.value, out, r) else ReadFrames(cfg, out, r),
                        ReadWhole(cfg, frame, out, r))
    decreases |r|
  {
    hide ReadBlock, ReadBlockWhole, ReadFrameStart, InStep, Slide;
    match frame
    case None =>
      var f := ReadFrameStart(cfg, r);
      if f.Started? {
        FreshInStep(f.info);
        WindowNeverShows(cfg, Some(Fresh(f.info)), Some(Frame(f.info, [])), out, f.rest);
      }
    case Some(f) =>
      InStepInfo(st.value, f.info, f.content);
      SameOutcome(cfg, st.value, f.info, f.content, out, r);
      match ReadBlock(cfg, st.value, out, r)
      case Broken(_) =>
      case Data(bytes, st1, rest) =>
        StepForward(st.value, f.info, f.content, bytes);
        WindowNeverShows(cfg, Some(st1), Some(Frame(f.info, f.content + bytes)), out + |bytes|, rest);
      case End(rest) =>
        WindowNeverShows(cfg, None, None, out, rest);
  }

  lemma FreshInStep(info: FrameInfo)
    requires !info.blockSize.Auto?
    ensures InStep(Fresh(info), info, [])
  {
    EmptyTail();
  }
}
