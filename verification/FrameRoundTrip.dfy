/** Whole streams: what any schedule of writes, flushes and finishes produces, and what is read
    back from it. */
module FrameRoundTrips {
  import opened Core
  import opened BlockCompress
  import opened FrameHeader
  import opened FrameFormat
  import opened FrameBytes
  import opened FrameLockstep
  import opened FrameEncoders
  import opened FrameDecoders

  datatype Op = Write(bytes: seq<byte>) | Flush | Finish

  /** Everything that a schedule writes. */
  function Written(ops: seq<Op>): (s: seq<byte>)
    ensures ops == [] ==> s == []
  {
    if ops == [] then []
    else Written(ops[..|ops| - 1]) + if ops[|ops| - 1].Write? then ops[|ops| - 1].bytes else []
  }

  lemma WrittenStep(ops: seq<Op>, i: nat)
    requires i < |ops|
    ensures Written(ops[..i + 1]) == Written(ops[..i]) + if ops[i].Write? then ops[i].bytes else []
  {
    assert ops[..i + 1][..i] == ops[..i];
  }

  // ----- frames

  /** The frames closed so far, each as the pieces between its flushes, and the pieces written since. */
  datatype Layout = Layout(frames: seq<seq<seq<byte>>>, current: seq<seq<byte>>)

  ghost predicate Proper(l: Layout) {
    l.current != [] && forall i :: 0 <= i < |l.frames| ==> l.frames[i] != []
  }

  function Lengthened(pieces: seq<seq<byte>>, more: seq<byte>): (r: seq<seq<byte>>)
    requires pieces != []
    ensures r != []
  {
    pieces[|pieces| - 1 := pieces[|pieces| - 1] + more]
  }

  /** A flush ends a piece, unless nothing has been written since the last one. */
  function Parted(pieces: seq<seq<byte>>): (r: seq<seq<byte>>)
    requires pieces != []
    ensures r != []
  {
    if pieces[|pieces| - 1] == [] then pieces else pieces + [[]]
  }

  /** The end of a frame is a flush in any case. */
  function Trimmed(pieces: seq<seq<byte>>): (r: seq<seq<byte>>)
    requires pieces != []
    ensures r != []
  {
    if |pieces| > 1 && pieces[|pieces| - 1] == [] then pieces[..|pieces| - 1] else pieces
  }

  /** A finish closes a frame, unless nothing has been written since the last one. */
  function Closed(l: Layout): (r: Layout)
    requires Proper(l)
    ensures Proper(r) && r.frames != [] && r.current == [[]]
  {
    if l.current == [[]] && l.frames != [] then l else Layout(l.frames + [Trimmed(l.current)], [[]])
  }

  function Step(l: Layout, op: Op): (r: Layout)
    requires Proper(l)
    ensures Proper(r)
  {
    match op
    case Write(bytes) => l.(current := Lengthened(l.current, bytes))
    case Flush => l.(current := Parted(l.current))
    case Finish => Closed(l)
  }

  function Split(ops: seq<Op>): (l: Layout)
    ensures Proper(l)
  {
    if ops == [] then Layout([], [[]]) else Step(Split(ops[..|ops| - 1]), ops[|ops| - 1])
  }

  /** The frames that a schedule produces, the last of which is finished at the end. */
  function Frames(ops: seq<Op>): (frames: seq<seq<seq<byte>>>)
    ensures forall i :: 0 <= i < |frames| ==> frames[i] != []
  {
    Closed(Split(ops)).frames
  }

  /** The contents of frames, one behind the other. */
  function Contents(frames: seq<seq<seq<byte>>>): seq<byte> {
    if frames == [] then [] else Contents(frames[..|frames| - 1]) + Joined(frames[|frames| - 1])
  }

  lemma SplitStep(ops: seq<Op>, i: nat)
    requires i < |ops|
    ensures Split(ops[..i + 1]) == Step(Split(ops[..i]), ops[i])
  {
    assert ops[..i + 1][..i] == ops[..i];
  }

  lemma JoinedSteps(pieces: seq<seq<byte>>, more: seq<byte>)
    requires pieces != []
    ensures Joined(Lengthened(pieces, more)) == Joined(pieces) + more
    ensures Joined(Parted(pieces)) == Joined(Trimmed(pieces)) == Joined(pieces)
  {
    var last := |pieces| - 1;
    assert Lengthened(pieces, more)[..last] == pieces[..last];
    assert (pieces + [[]])[..|pieces|] == pieces;
    assert Joined(pieces) + [] == Joined(pieces);
    if pieces[last] == [] {
      assert Joined(pieces) == Joined(pieces[..last]) + [];
    }
  }

  lemma ClosedContents(l: Layout)
    requires Proper(l)
    ensures Contents(Closed(l).frames) == Contents(l.frames) + Joined(l.current)
  {
    JoinedSteps(l.current, []);
    var f := Trimmed(l.current);
    assert (l.frames + [f])[..|l.frames|] == l.frames;
    if l.current == [[]] {
      assert Joined(l.current) == [];
      assert Contents(l.frames) + [] == Contents(l.frames);
    }
  }

  lemma {:induction false} SplitKeepsAll(ops: seq<Op>)
    ensures Contents(Split(ops).frames) + Joined(Split(ops).current) == Written(ops)
    decreases |ops|
  {
    hide Joined, Contents, Lengthened, Parted, Trimmed, Closed;
    if ops == [] {
      NothingYet();
    } else {
      var l, op := Split(ops[..|ops| - 1]), ops[|ops| - 1];
      SplitKeepsAll(ops[..|ops| - 1]);
      JoinedSteps(l.current, if op.Write? then op.bytes else []);
      ClosedContents(l);
      NothingYet();
    }
  }

  lemma NothingYet()
    ensures Contents([]) == [] && Joined([[]]) == []
  {
  }

  /** The frames hold everything that is written, in order, and nothing else. */
  lemma FramesHoldAll(ops: seq<Op>)
    ensures Contents(Frames(ops)) == Written(ops)
  {
    SplitKeepsAll(ops);
    ClosedContents(Split(ops));
  }

  /** A frame once closed stays. */
  lemma {:induction false} FrameStays(ops: seq<Op>, i: nat)
    requires i <= |ops|
    ensures Split(ops[..i]).frames <= Frames(ops)
    decreases |ops| - i
  {
    if i == |ops| {
      assert ops[..i] == ops;
    } else {
      SplitStep(ops, i);
      FrameStays(ops, i + 1);
    }
  }

  /** Every frame has the declared content size, if one is declared. */
  predicate AllSized(declared: Option<nat>, frames: seq<seq<seq<byte>>>) {
    declared.Some? ==> forall i :: 0 <= i < |frames| ==> |Joined(frames[i])| == declared.value
  }

  // ----- the bytes of a stream

  /** The length of the write that settles an automatic block size: the first that is not empty, if
      no finish comes before it. */
  function FirstWrite(ops: seq<Op>): nat {
    if ops == [] || ops[0].Finish? then 0
    else if ops[0].Write? && ops[0].bytes != [] then |ops[0].bytes|
    else FirstWrite(ops[1..])
  }

  /** Where an encoder stands: whether a frame has been finished, whether one is open, what that one
      holds, its state, and all bytes so far. */
  datatype Standing = Standing(done: bool, open: bool, inFrame: seq<byte>, f: FrameState, w: seq<byte>)

  ghost predicate Ready(s: Setup, info: FrameInfo) {
    s.tables.n16 > 0 && s.tables.n32 > 0 && !info.blockSize.Auto?
  }

  /** An encoder stands where its schedule has brought it. */
  ghost predicate StandsAt(s: Setup, info: FrameInfo, e: Standing, l: Layout)
    requires Ready(s, info) && Proper(l)
  {
    && (e.done <==> l.frames != []) && (e.open <==> l.current != [[]])
    && (e.open || !e.done ==> e.inFrame == Joined(l.current))
    && (e.open ==> e.f == FrameRun(s, info, l.current).f)
    && e.w == StreamOfFrames(s, info, l.frames)
              + if e.open then HeaderBytes(info, s.cfg.xxh) + FrameRun(s, info, l.current).bytes else []
  }

  lemma AfterWrite(s: Setup, info: FrameInfo, e: Standing, l: Layout, bytes: seq<byte>, e': Standing)
    requires Ready(s, info) && Proper(l) && StandsAt(s, info, e, l)
    requires e'.done == e.done && e'.open == (e.open || bytes != [])
    requires e'.inFrame == (if bytes != [] && !e.open then [] else e.inFrame) + bytes
    requires e.open ==>
               && Sound(s, e.f)
               && var t := Taken(s, e.f, bytes);
                  e'.f == t.f && e'.w == e.w + t.bytes
    requires !e.open && bytes == [] ==> e'.w == e.w
    requires !e.open && bytes != [] ==>
               var t := FrameRun(s, info, [bytes]);
               e'.f == t.f && e'.w == e.w + HeaderBytes(info, s.cfg.xxh) + t.bytes
    ensures StandsAt(s, info, e', Step(l, Write(bytes)))
  {
    hide Taken, FrameRun, Sound, HeaderBytes, StreamOfFrames, Joined;
    JoinedSteps(l.current, bytes);
    if e.open {
      RunGoesOn(s, info, l.current, bytes);
      var frames, header := StreamOfFrames(s, info, l.frames), HeaderBytes(info, s.cfg.xxh);
      Regroup(frames, header, FrameRun(s, info, l.current).bytes, Taken(s, e.f, bytes).bytes);
      assert |l.current| == 1 ==> l.current[0] != [] && Lengthened(l.current, bytes)[0] != [];
    } else {
      NothingYet();
      assert [] + bytes == bytes;
      assert Lengthened(l.current, bytes) == [bytes];
    }
  }

  lemma Regroup(a: seq<byte>, b: seq<byte>, c: seq<byte>, d: seq<byte>)
    ensures a + (b + c) + d == a + (b + (c + d))
  {
  }

  lemma AfterFlush(s: Setup, info: FrameInfo, e: Standing, l: Layout, e': Standing)
    requires Ready(s, info) && Proper(l) && StandsAt(s, info, e, l)
    requires e'.done == e.done && e'.open == e.open && e'.inFrame == e.inFrame
    requires e.open ==>
               && Sound(s, e.f)
               && var t := Flushed(s, e.f);
                  e'.f == t.f && e'.w == e.w + t.bytes
    requires !e.open ==> e'.w == e.w
    ensures StandsAt(s, info, e', Step(l, Flush))
  {
    hide Taken, FrameRun, NextBlock, Sound, HeaderBytes, StreamOfFrames, Joined;
    JoinedSteps(l.current, []);
    if e.open {
      var run := FrameRun(s, info, l.current);
      RunFlushed(s, info, l.current);
      Regroup(StreamOfFrames(s, info, l.frames), HeaderBytes(info, s.cfg.xxh), run.bytes, Flushed(s, e.f).bytes);
      assert l.current[|l.current| - 1] == [] && |l.current| == 1 ==> l.current == [[]];
    }
  }

  lemma AfterFinish(s: Setup, info: FrameInfo, e: Standing, l: Layout, e': Standing)
    requires Ready(s, info) && Proper(l) && StandsAt(s, info, e, l)
    requires e'.done && !e'.open
    requires e.open ==>
               Sound(s, e.f) && e'.w == e.w + Flushed(s, e.f).bytes + EndBytes(s.cfg, info, e.inFrame)
    requires !e.open && e.done ==> e'.w == e.w
    requires !e.open && !e.done ==>
               e'.w == e.w + HeaderBytes(info, s.cfg.xxh) + EndBytes(s.cfg, info, [])
    ensures StandsAt(s, info, e', Closed(l))
  {
    hide Taken, FrameRun, Flushed, Sound, HeaderBytes, EndBytes, Joined;
    if e.open || !e.done {
      var frame := Trimmed(l.current);
      TrimmedFrame(s, info, l.current);
      assert (l.frames + [frame])[..|l.frames|] == l.frames;
      if !e.open {
        EmptyFrame(s, info);
      }
      assert e'.w == StreamOfFrames(s, info, l.frames) + FrameOf(s, info, l.current);
    }
    assert e'.w + [] == e'.w;
  }

  lemma TrimmedFrame(s: Setup, info: FrameInfo, pieces: seq<seq<byte>>)
    requires Ready(s, info) && pieces != []
    ensures FrameOf(s, info, Trimmed(pieces)) == FrameOf(s, info, pieces)
  {
    hide FrameOf;
    var shorter := Trimmed(pieces);
    if shorter != pieces {
      LastFlushLost(s, info, shorter);
      assert shorter + [[]] == pieces;
    }
  }

  lemma EmptyFrame(s: Setup, info: FrameInfo)
    requires Ready(s, info)
    ensures FrameOf(s, info, [[]]) == HeaderBytes(info, s.cfg.xxh) + EndBytes(s.cfg, info, [])
  {
    hide HeaderBytes, EndBytes;
    OnePiece(s, info, []);
    assert Joined([[]]) == [];
    assert FlushedRun(s, FrameRun(s, info, [[]])).bytes == [];
    assert HeaderBytes(info, s.cfg.xxh) + [] == HeaderBytes(info, s.cfg.xxh);
  }

  // ----- encoding and decoding

  /** The decoder that a stream is meant for. */
  function Reader(info: FrameInfo, dictionary: Option<Dictionary>, limit: nat, xxh: seq<byte> -> nat): Config {
    if dictionary.Some? then Config(dictionary.value.bytes, Some(dictionary.value.id), limit, xxh)
    else Config([], info.dictId, limit, xxh)
  }

  /** The settings of the frames of a schedule. */
  function FrameSettings(info: FrameInfo, cfg: Config, ops: seq<Op>): (r: FrameInfo)
    ensures !r.blockSize.Auto?
    ensures !info.blockSize.Auto? ==> r == info.(dictId := cfg.expectedId)
  {
    Settled(info.(dictId := cfg.expectedId), FirstWrite(ops))
  }

  ghost function StreamBytes(s: Setup, info: FrameInfo, ops: seq<Op>): seq<byte>
    requires s.tables.n16 > 0 && s.tables.n32 > 0
  {
    StreamOfFrames(s, FrameSettings(info, s.cfg, ops), Frames(ops))
  }

  /** Where input is cut into writes does not show, once the block size is settled. */
  lemma CutsDoNotShow(s: Setup, info: FrameInfo, a: seq<Op>, x: seq<byte>, y: seq<byte>, b: seq<Op>)
    requires s.tables.n16 > 0 && s.tables.n32 > 0
    requires FrameSettings(info, s.cfg, a + [Write(x), Write(y)] + b)
          == FrameSettings(info, s.cfg, a + [Write(x + y)] + b)
    ensures StreamBytes(s, info, a + [Write(x), Write(y)] + b) == StreamBytes(s, info, a + [Write(x + y)] + b)
  {
    hide Split, StreamOfFrames;
    SplitAcrossCut(a, x, y, b);
  }

  lemma {:induction false} SplitAcrossCut(a: seq<Op>, x: seq<byte>, y: seq<byte>, b: seq<Op>)
    ensures Split(a + [Write(x), Write(y)] + b) == Split(a + [Write(x + y)] + b)
    decreases |b|
  {
    hide Closed, Parted;
    var two, one := a + [Write(x), Write(y)] + b, a + [Write(x + y)] + b;
    if b == [] {
      var l := Split(a);
      assert one[..|a|] == a && one[|a|] == Write(x + y);
      assert two[..|a| + 1] == a + [Write(x)] && two[|a| + 1] == Write(y);
      assert (a + [Write(x)])[..|a|] == a;
      var last := |l.current| - 1;
      assert l.current[last] + x + y == l.current[last] + (x + y);
      assert Lengthened(Lengthened(l.current, x), y) == Lengthened(l.current, x + y);
    } else {
      var c := b[..|b| - 1];
      SplitAcrossCut(a, x, y, c);
      assert two[..|two| - 1] == a + [Write(x), Write(y)] + c;
      assert one[..|one| - 1] == a + [Write(x + y)] + c;
    }
  }

  /** The frames after a finish have the bytes that a fresh encoder gives them, exactly when a fresh
      encoder does not have to begin with an empty frame. */
  lemma LaterFramesAsFresh(s: Setup, info: FrameInfo, ops: seq<Op>, more: seq<Op>)
    requires s.tables.n16 > 0 && s.tables.n32 > 0
    requires FrameSettings(info, s.cfg, more) == FrameSettings(info, s.cfg, ops)
    ensures (StreamBytes(s, info, ops + [Finish] + more) == StreamBytes(s, info, ops) + StreamBytes(s, info, more))
       <==> Frames(more)[0] != [[]]
  {
    hide Split, StreamOfFrames, Step, FrameOf, Following, NoLeadingFlush, Closed;
    var settled := FrameSettings(info, s.cfg, ops);
    var before, frames := Frames(ops), Frames(more);
    FinishEndsSettling(ops, more);
    SplitFollowing(ops, more);
    ClosedFollowing(before, Split(more));
    StreamsJoined(s, settled, before, WithoutEmptyFirst(frames));
    if frames[0] == [[]] {
      StreamsJoined(s, settled, frames[..1], frames[1..]);
      assert frames[..1] + frames[1..] == frames;
      EmptyFrameShows(s, settled);
      assert frames[..1] == [[[]]];
    }
  }

  /** The block size stays settled. */
  lemma {:induction false} FinishEndsSettling(ops: seq<Op>, more: seq<Op>)
    ensures FirstWrite(ops + [Finish] + more) == FirstWrite(ops)
    decreases |ops|
  {
    var whole := ops + [Finish] + more;
    if ops == [] {
      assert whole[0] == Finish;
    } else {
      assert whole[1..] == ops[1..] + [Finish] + more;
      FinishEndsSettling(ops[1..], more);
    }
  }

  function WithoutEmptyFirst(frames: seq<seq<seq<byte>>>): seq<seq<seq<byte>>> {
    if frames != [] && frames[0] == [[]] then frames[1..] else frames
  }

  /** A layout that begins behind other frames. */
  function Following(before: seq<seq<seq<byte>>>, l: Layout): Layout {
    Layout(before + WithoutEmptyFirst(l.frames), l.current)
  }

  /** A frame in progress does not begin with a flush. */
  predicate NoLeadingFlush(l: Layout) {
    l.current != [] && (l.current[0] == [] ==> l.current == [[]])
  }

  lemma StepFollowing(before: seq<seq<seq<byte>>>, l: Layout, op: Op)
    requires Proper(l) && Proper(Following(before, l)) && NoLeadingFlush(l) && before != []
    ensures NoLeadingFlush(Step(l, op)) && Step(Following(before, l), op) == Following(before, Step(l, op))
  {
    if op.Finish? && l.current != [[]] {
      var frame := Trimmed(l.current);
      assert frame[0] != [];
      var frames := l.frames + [frame];
      assert WithoutEmptyFirst(frames) == WithoutEmptyFirst(l.frames) + [frame];
      assert before + (WithoutEmptyFirst(l.frames) + [frame]) == before + WithoutEmptyFirst(l.frames) + [frame];
    }
  }

  lemma ClosedFollowing(before: seq<seq<seq<byte>>>, l: Layout)
    requires Proper(l) && Proper(Following(before, l)) && NoLeadingFlush(l) && before != []
    ensures Closed(Following(before, l)).frames == before + WithoutEmptyFirst(Closed(l).frames)
  {
    hide Closed;
    StepFollowing(before, l, Finish);
    StepFrames(l, Finish);
    StepFrames(Following(before, l), Finish);
  }

  lemma {:induction false} SplitFollowing(ops: seq<Op>, more: seq<Op>)
    ensures NoLeadingFlush(Split(more)) && Split(ops + [Finish] + more) == Following(Frames(ops), Split(more))
    decreases |more|
  {
    hide Step, Closed;
    var whole := ops + [Finish] + more;
    if more == [] {
      assert whole == ops + [Finish] && whole[..|ops|] == ops;
      StepFrames(Split(ops), Finish);
      assert Frames(ops) + [] == Frames(ops);
    } else {
      var n := |more| - 1;
      assert whole[..|whole| - 1] == ops + [Finish] + more[..n];
      SplitFollowing(ops, more[..n]);
      StepFollowing(Frames(ops), Split(more[..n]), more[n]);
    }
  }

  lemma EmptyFrameShows(s: Setup, info: FrameInfo)
    requires Ready(s, info)
    ensures |StreamOfFrames(s, info, [[[]]])| > 0
  {
    hide HeaderBytes;
    EmptyFrame(s, info);
    assert StreamOfFrames(s, info, [[[]]]) == StreamOfFrames(s, info, []) + FrameOf(s, info, [[]]);
  }

  lemma {:induction false} StreamsJoined(s: Setup, info: FrameInfo, a: seq<seq<seq<byte>>>, b: seq<seq<seq<byte>>>)
    requires Ready(s, info) && forall i :: 0 <= i < |a + b| ==> (a + b)[i] != []
    requires (forall i :: 0 <= i < |a| ==> a[i] != []) && (forall i :: 0 <= i < |b| ==> b[i] != [])
    ensures StreamOfFrames(s, info, a + b) == StreamOfFrames(s, info, a) + StreamOfFrames(s, info, b)
    decreases |b|
  {
    hide FrameOf;
    if b == [] {
      assert a + b == a;
      assert StreamOfFrames(s, info, a) + [] == StreamOfFrames(s, info, a);
    } else {
      var n := |b| - 1;
      StreamsJoined(s, info, a, b[..n]);
      assert (a + b)[..|a + b| - 1] == a + b[..n];
    }
  }

  /** Runs a schedule on a fresh encoder and finishes the stream, giving up at the first error.  The
      stream is read back as what was written.  Its bytes are those of its frames, each of which
      depends on its own pieces alone: not on how they were cut into writes, nor on earlier frames.
      Only a declared content size can be an error: it is one exactly when it is not the size of every
      frame. */
  method Encode(info: FrameInfo, dictionary: Option<Dictionary>, tables: Tables, xxh: seq<byte> -> nat, ops: seq<Op>)
    returns (res: Result<seq<byte>, FrameError>)
    requires InRange(info) && tables.n16 > 0 && tables.n32 > 0
    requires dictionary.Some? ==> dictionary.value.id <= U32_MAX
    ensures res.Ok? ==> forall limit: nat :: |Written(ops)| <= limit ==>
              ReadFrames(Reader(info, dictionary, limit, xxh), 0, res.value) == Content(Written(ops), None)
    ensures var s := Setup(Reader(info, dictionary, 0, xxh), tables);
            res.Ok? ==> res.value == StreamBytes(s, info, ops)
    ensures res.Ok? == AllSized(info.contentSize, Frames(ops))
    ensures res.Err? ==> res.error.ContentLengthError? && info.contentSize == Some(res.error.expected)
  {
    hide FrameEncoder.Consistent, ReadFrames, Written, Split, AllSized, StandsAt, Sound, Closed, Settled;
    hide StreamOfFrames, Proper, FirstWrite;
    var enc := new FrameEncoder(info, dictionary, tables, xxh);
    ghost var s := enc.Plan();
    ghost var settled := Settled(enc.frameInfo, FirstWrite(ops));
    var ran := Run(enc, ops, s, settled);
    if ran.Err? {
      return Err(ran.error);
    }
    var finished := DoFinish(enc, s, settled, Split(ops));
    if finished.Err? {
      return Err(finished.error);
    }
    AtTheEnd(s, settled, Now(enc), Closed(Split(ops)));
    res := Ok(enc.w);
    forall limit: nat | |Written(ops)| <= limit
      ensures ReadFrames(Reader(info, dictionary, limit, xxh), 0, enc.w) == Content(Written(ops), None)
    {
      enc.ReadsBack(limit);
    }
  }

  /** Runs a schedule, on a fresh encoder, up to the first error. */
  method Run(enc: FrameEncoder, ops: seq<Op>, ghost s: Setup, ghost info: FrameInfo)
    returns (res: Result<(), FrameError>)
    requires enc.Valid() && !enc.failed && enc.Plan() == s && enc.w == [] && enc.Accepted() == []
    requires !enc.isFrameOpen && !enc.dataToFrameWritten
    requires Ready(s, info) && info == Settled(enc.frameInfo, FirstWrite(ops))
    modifies enc, enc.table.entries
    ensures enc.Valid() && enc.frameInfo.contentSize == old(enc.frameInfo.contentSize)
    ensures res.Ok? ==>
              && !enc.failed && enc.Accepted() == Written(ops) && StandsAt(s, info, Now(enc), Split(ops))
              && AllSized(enc.frameInfo.contentSize, Split(ops).frames)
              && Settles(enc.frameInfo, enc.isFrameOpen || enc.dataToFrameWritten, Finish, info)
    ensures res.Err? ==> !AllSized(enc.frameInfo.contentSize, Frames(ops))
    ensures res.Err? ==> res.error.ContentLengthError? && enc.frameInfo.contentSize == Some(res.error.expected)
  {
    hide FrameEncoder.Consistent, Written, Step, AllSized, StandsAt, Sound, Closed, Settled;
    hide StreamOfFrames, Proper, FirstWrite, Settles;
    ghost var start, declared := enc.frameInfo, enc.frameInfo.contentSize;
    Beginning(s, info, declared, enc.Inner());
    assert ops[0..] == ops;
    for i := 0 to |ops|
      invariant enc.Valid() && !enc.failed && enc.Accepted() == Written(ops[..i])
      invariant enc.frameInfo.contentSize == declared && AllSized(declared, Split(ops[..i]).frames)
      invariant StandsAt(s, info, Now(enc), Split(ops[..i]))
      invariant enc.frameInfo == if enc.isFrameOpen || enc.dataToFrameWritten then info else start
      invariant enc.isFrameOpen || enc.dataToFrameWritten || FirstWrite(ops[i..]) == FirstWrite(ops)
    {
      WrittenStep(ops, i);
      SplitStep(ops, i);
      NextSettles(start, ops, i, enc.frameInfo, enc.isFrameOpen || enc.dataToFrameWritten);
      ghost var l := Split(ops[..i]);
      if ops[i].Finish? {
        StepFrames(l, ops[i]);
        FrameStays(ops, i + 1);
        PrefixSizes(declared, Step(l, ops[i]).frames, Frames(ops));
      }
      var done := Do(enc, ops[i], s, info, l);
      if done.Err? {
        return Err(done.error);
      }
    }
    assert ops[..|ops|] == ops;
    NextSettles(start, ops, |ops|, enc.frameInfo, enc.isFrameOpen || enc.dataToFrameWritten);
    res := Ok(());
  }

  /** The settings for the frame that `op` needs, given those of the encoder. */
  ghost predicate Settles(now: FrameInfo, begun: bool, op: Op, info: FrameInfo) {
    if begun then now == info
    else match op
         case Write(bytes) => bytes != [] ==> info == Settled(now, |bytes|)
         case Flush => true
         case Finish => info == Settled(now, 0)
  }

  /** One step of a schedule. */
  method Do(enc: FrameEncoder, op: Op, ghost s: Setup, ghost info: FrameInfo, ghost l: Layout)
    returns (res: Result<(), FrameError>)
    requires enc.Valid() && !enc.failed && enc.Plan() == s && Ready(s, info) && Proper(l)
    requires StandsAt(s, info, Now(enc), l) && AllSized(enc.frameInfo.contentSize, l.frames)
    requires Settles(enc.frameInfo, enc.isFrameOpen || enc.dataToFrameWritten, op, info)
    modifies enc, enc.table.entries
    ensures enc.Valid() && enc.Accepted() == old(enc.Accepted()) + if op.Write? then op.bytes else []
    ensures enc.frameInfo.contentSize == old(enc.frameInfo.contentSize)
    ensures res.Ok? == AllSized(enc.frameInfo.contentSize, Step(l, op).frames)
    ensures res.Err? ==> res.error.ContentLengthError? && enc.frameInfo.contentSize == Some(res.error.expected)
    ensures res.Err? ==> op.Finish?
    ensures res.Ok? ==> !enc.failed && StandsAt(s, info, Now(enc), Step(l, op))
    ensures res.Ok? && !op.Finish? ==>
              (enc.isFrameOpen || enc.dataToFrameWritten) ==
              (old(enc.isFrameOpen || enc.dataToFrameWritten) || (op.Write? && op.bytes != []))
    ensures res.Ok? && op.Finish? ==> enc.dataToFrameWritten
    ensures res.Ok? ==>
              enc.frameInfo == if enc.isFrameOpen || enc.dataToFrameWritten then info else old(enc.frameInfo)
  {
    hide FrameEncoder.Consistent, StandsAt, Sound, Settled, Step, Closed, AllSized;
    StepFrames(l, op);
    SettledStays(info);
    res := Ok(());
    match op {
      case Write(bytes) => DoWrite(enc, bytes, s, info, l);
      case Flush => DoFlush(enc, s, info, l);
      case Finish => res := DoFinish(enc, s, info, l);
    }
  }

  method DoWrite(enc: FrameEncoder, bytes: seq<byte>, ghost s: Setup, ghost info: FrameInfo, ghost l: Layout)
    requires enc.Valid() && !enc.failed && enc.Plan() == s && Ready(s, info) && Proper(l)
    requires StandsAt(s, info, Now(enc), l)
    requires enc.isFrameOpen ==> enc.frameInfo == info
    requires !enc.isFrameOpen && bytes != [] ==> info == Settled(enc.frameInfo, |bytes|)
    modifies enc, enc.table.entries
    ensures enc.Valid() && !enc.failed && enc.Accepted() == old(enc.Accepted()) + bytes
    ensures StandsAt(s, info, Now(enc), Step(l, Write(bytes)))
    ensures enc.isFrameOpen == (old(enc.isFrameOpen) || bytes != [])
    ensures enc.dataToFrameWritten == old(enc.dataToFrameWritten)
    ensures enc.frameInfo == if enc.isFrameOpen then info else old(enc.frameInfo)
  {
    hide FrameEncoder.Consistent, StandsAt, Sound, Taken, FrameRun, Settled, HeaderBytes, Step;
    ghost var was := Now(enc);
    var _ := enc.Write(bytes);
    AfterWrite(s, info, was, l, bytes, Now(enc));
  }

  method DoFlush(enc: FrameEncoder, ghost s: Setup, ghost info: FrameInfo, ghost l: Layout)
    requires enc.Valid() && !enc.failed && enc.Plan() == s && Ready(s, info) && Proper(l)
    requires StandsAt(s, info, Now(enc), l)
    modifies enc, enc.table.entries
    ensures enc.Valid() && !enc.failed && enc.Accepted() == old(enc.Accepted())
    ensures StandsAt(s, info, Now(enc), Step(l, Flush))
    ensures enc.isFrameOpen == old(enc.isFrameOpen) && enc.frameInfo == old(enc.frameInfo)
    ensures enc.dataToFrameWritten == old(enc.dataToFrameWritten)
  {
    hide FrameEncoder.Consistent, StandsAt, Sound, Flushed, Step;
    ghost var was := Now(enc);
    var _ := enc.Flush();
    AfterFlush(s, info, was, l, Now(enc));
  }

  /** A finish fails exactly when the frame that it closes does not have the declared size. */
  method DoFinish(enc: FrameEncoder, ghost s: Setup, ghost info: FrameInfo, ghost l: Layout)
    returns (res: Result<(), FrameError>)
    requires enc.Valid() && !enc.failed && enc.Plan() == s && Ready(s, info) && Proper(l)
    requires StandsAt(s, info, Now(enc), l) && AllSized(enc.frameInfo.contentSize, l.frames)
    requires enc.isFrameOpen || enc.dataToFrameWritten ==> enc.frameInfo == info
    requires !enc.isFrameOpen && !enc.dataToFrameWritten ==> info == Settled(enc.frameInfo, 0)
    modifies enc, enc.table.entries
    ensures enc.Valid() && enc.Accepted() == old(enc.Accepted())
    ensures enc.frameInfo.contentSize == old(enc.frameInfo.contentSize)
    ensures res.Ok? == AllSized(enc.frameInfo.contentSize, Closed(l).frames)
    ensures res.Err? ==> res.error.ContentLengthError? && enc.frameInfo.contentSize == Some(res.error.expected)
    ensures res.Ok? ==>
              && !enc.failed && !enc.isFrameOpen && enc.dataToFrameWritten && enc.frameInfo == info
              && enc.srcStart == enc.srcEnd && StandsAt(s, info, Now(enc), Closed(l))
  {
    hide FrameEncoder.Consistent, StandsAt, Sound, Flushed, Settled, HeaderBytes, EndBytes, Closed, AllSized;
    ghost var was := Now(enc);
    ClosedSizes(enc.frameInfo.contentSize, s, info, was, l);
    res := enc.TryFinish();
    if res.Ok? {
      AfterFinish(s, info, was, l, Now(enc));
    }
  }

  /** The first write, if it is still to come, settles the block size; otherwise a finish does. */
  lemma NextSettles(start: FrameInfo, ops: seq<Op>, i: nat, now: FrameInfo, begun: bool)
    requires i <= |ops| && now == if begun then Settled(start, FirstWrite(ops)) else start
    requires begun || FirstWrite(ops[i..]) == FirstWrite(ops)
    ensures Settles(now, begun, if i < |ops| then ops[i] else Finish, Settled(start, FirstWrite(ops)))
    ensures begun || i == |ops| || ops[i].Finish? || (ops[i].Write? && ops[i].bytes != [])
         || FirstWrite(ops[i + 1..]) == FirstWrite(ops)
  {
    hide Settled;
    if i < |ops| {
      assert ops[i..][1..] == ops[i + 1..];
    }
  }

  lemma SettledStays(info: FrameInfo)
    requires !info.blockSize.Auto?
    ensures forall n: nat :: Settled(info, n) == info
  {
  }

  ghost function Now(enc: FrameEncoder): Standing
    reads enc, enc.table.entries
    requires enc.srcStart <= enc.srcEnd <= |enc.src|
  {
    Standing(enc.dataToFrameWritten, enc.isFrameOpen, enc.FrameContent(), enc.Inner(), enc.w)
  }

  lemma Beginning(s: Setup, info: FrameInfo, declared: Option<nat>, f: FrameState)
    requires Ready(s, info)
    ensures StandsAt(s, info, Standing(false, false, [], f, []), Split([])) && AllSized(declared, Split([]).frames)
  {
    assert Joined([[]]) == [];
  }

  lemma StepFrames(l: Layout, op: Op)
    requires Proper(l)
    ensures if op.Finish? then Step(l, op) == Closed(l) else Step(l, op).frames == l.frames
  {
  }

  lemma ClosedSizes(declared: Option<nat>, s: Setup, info: FrameInfo, e: Standing, l: Layout)
    requires Ready(s, info) && Proper(l) && StandsAt(s, info, e, l) && AllSized(declared, l.frames)
    ensures AllSized(declared, Closed(l).frames)
       <==> !(declared.Some? && declared.value != |e.inFrame| && (e.open || !e.done))
  {
    hide FrameRun, StreamOfFrames, HeaderBytes, Joined, Trimmed;
    JoinedSteps(l.current, []);
    assert Closed(l) != l ==> Closed(l).frames[|l.frames|] == Trimmed(l.current);
  }

  lemma PrefixSizes(declared: Option<nat>, some: seq<seq<seq<byte>>>, frames: seq<seq<seq<byte>>>)
    requires some <= frames
    ensures AllSized(declared, frames) ==> AllSized(declared, some)
  {
    hide Joined;
  }

  lemma AtTheEnd(s: Setup, info: FrameInfo, e: Standing, l: Layout)
    requires Ready(s, info) && Proper(l) && StandsAt(s, info, e, l) && !e.open
    ensures e.w == StreamOfFrames(s, info, l.frames)
  {
    hide StreamOfFrames, FrameRun;
    assert StreamOfFrames(s, info, l.frames) + [] == StreamOfFrames(s, info, l.frames);
  }

  /** What is written through the encoder is read through the decoder, in pieces of any sizes. */
  method RoundTrip(info: FrameInfo, dictionary: Option<Dictionary>, tables: Tables, xxh: seq<byte> -> nat, ops: seq<Op>,
                   rooms: seq<nat>)
    returns (data: seq<byte>, error: Option<FrameError>)
    requires InRange(info) && tables.n16 > 0 && tables.n32 > 0
    requires dictionary.Some? ==> dictionary.value.id <= U32_MAX
    requires |Written(ops)| <= USIZE_MAX
    requires AllSized(info.contentSize, Frames(ops))
    ensures data == Written(ops) && error == None
  {
    hide ReadFrames, Written, Frames, AllSized, StreamOfFrames, FrameSettings;
    hide FrameDecoder.Remaining, FrameDecoder.Consistent;
    var w := Encode(info, dictionary, tables, xxh, ops);
    var dec := new FrameDecoder(w.value, Reader(info, dictionary, USIZE_MAX, xxh));
    data := [];
    BehindTwice(data, data, dec.Remaining());
    for i := 0 to |rooms|
      invariant fresh(dec) && fresh(dec.dst) && dec.Valid()
      invariant Behind(data, dec.Remaining()) == Content(Written(ops), None)
    {
      var piece := dec.Read(rooms[i]);
      BehindTwice(data, piece.value, dec.Remaining());
      data := data + piece.value;
    }
    var rest: seq<byte>;
    rest, error := dec.ReadToEnd();
    data := data + rest;
  }
}
