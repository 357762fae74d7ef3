/**
  The bytes of a frame, as a function of its settings and of what is written between its flushes.
  The state of a frame in progress moves from block to block; how the input of a block arrives does
  not matter.
 */
module FrameBytes {
  import opened Core
  import opened BlockFormat
  import opened EncoderSpec
  import opened HashTables
  import opened BlockCompress
  import opened FrameHeader
  import opened FrameFormat
  import opened FrameLockstep

  const REPOSITION_THRESHOLD: nat := U32_MAX / 2

  /** What an encoder is set up with, besides the frame's settings. */
  datatype Setup = Setup(cfg: Config, tables: Tables)

  /** A frame in progress: the buffer with the input of the next block at `start..end`, `len` bytes of
      kept history at `at`, the stream offset, the table, and the content of the blocks so far. */
  datatype FrameState = FrameState(info: FrameInfo, src: seq<byte>, start: nat, end: nat, at: nat, len: nat, off: nat,
                                   table: seq<nat>, content: seq<byte>)

  ghost predicate Sound(s: Setup, f: FrameState) {
    && s.tables.n16 > 0 && s.tables.n32 > 0 && !f.info.blockSize.Auto?
    && f.start <= f.end <= |f.src| && f.end <= f.start + f.info.blockSize.Size()
    && f.len <= f.off && (f.len > 0 ==> f.at + f.len <= |f.src|) && |f.table| > 0
  }

  /** A frame that has just been started. */
  function Pristine(s: Setup, info: FrameInfo): FrameState {
    FrameState(info, [], 0, 0, 0, 0, 0, Empty(s.tables.n32), [])
  }

  /** A state, and the bytes written on the way to it. */
  datatype Emitted = Emitted(f: FrameState, bytes: seq<byte>)

  function Prepend(bytes: seq<byte>, e: Emitted): Emitted {
    Emitted(e.f, bytes + e.bytes)
  }

  lemma PrependTwice(a: seq<byte>, b: seq<byte>, e: Emitted)
    ensures Prepend(a, Prepend(b, e)) == Prepend(a + b, e) && Prepend([], e) == e
  {
    assert a + (b + e.bytes) == a + b + e.bytes;
  }

  // ----- one block

  /** The input of the next block. */
  function Buffered(f: FrameState): seq<byte>
    requires f.start <= f.end <= |f.src|
  {
    f.src[f.start..f.end]
  }

  /** Stream positions are moved once they have grown large. */
  ghost function Moved(s: Setup, f: FrameState): (g: FrameState)
    requires Sound(s, f)
    ensures Sound(s, g)
  {
    if f.off + f.info.blockSize.Size() + WINDOW_SIZE >= REPOSITION_THRESHOLD
    then f.(off := f.len, table := Repositioned(f.table, f.off - f.len))
    else f
  }

  /** The frame as a stream for the block encoder. */
  function StreamOf(s: Setup, f: FrameState): Stream
    requires f.end <= |f.src| && (f.len > 0 ==> f.at + f.len <= |f.src|)
  {
    Stream(f.src[..f.end], if f.len > 0 then f.src[f.at..f.at + f.len] else [], f.off, s.tables.hash32, U32_MAX + 1,
           f.len > 0, true, false, false)
  }

  datatype Packed = Packed(block: seq<byte>, table: seq<nat>)

  /** Blocks are always well formed. */
  function Printed(b: Block): (s: seq<byte>)
    ensures s != []
  {
    if WellFormed(b) then Print(b) else [0]
  }

  /** Whether the dictionary is all the history there is. */
  predicate DictOnly(s: Setup, f: FrameState) {
    s.cfg.dict != [] && (!f.info.linked || f.content == [])
  }

  /** The compressed block, and the table it leaves. */
  ghost function Pack(s: Setup, f: FrameState): (p: Packed)
    requires Sound(s, f)
    ensures |p.table| == |f.table| && p.block != []
  {
    if DictOnly(s, f) then Packed(Printed(OneShotBlock(Buffered(f), s.cfg.dict, true, s.tables)), f.table)
    else
      var e := EncodeFrom(StreamOf(s, f), f.table, f.start);
      Packed(Printed(e.block), e.table)
  }

  /** After a first block that went by the dictionary, a linked frame stores its positions. */
  function SeededTable(s: Setup, f: FrameState, table: seq<nat>): (t: seq<nat>)
    requires f.start <= f.end <= |f.src| && |table| > 0
    ensures |t| == |table|
  {
    if f.info.linked && s.cfg.dict != [] && f.content == []
    then Seeded(table, Buffered(f), f.off, s.tables.hash32, U32_MAX + 1, 0)
    else table
  }

  /** The shorter of the two forms of a block. */
  function SentBytes(cfg: Config, info: FrameInfo, data: seq<byte>, block: seq<byte>): seq<byte> {
    var kind := if |block| < |data| then Compressed(|block|) else Uncompressed(|data|);
    if WriteBlockInfo(kind).Ok? then BlockBytes(cfg, info, kind, if |block| < |data| then block else data) else []
  }

  function ChecksumSize(info: FrameInfo): nat {
    if info.blockChecksums then 4 else 0
  }

  /** The shorter form is sent, under a header that says which one it is. */
  lemma SentIsShorter(cfg: Config, info: FrameInfo, data: seq<byte>, block: seq<byte>, rest: seq<byte>)
    requires block != [] && 0 < |data| < UNCOMPRESSED_BIT
    ensures var sent, n := SentBytes(cfg, info, data, block), Min(|data|, |block|);
            && |sent| == 4 + n + ChecksumSize(info)
            && sent[4..4 + n] == (if |block| < |data| then block else data)
            && ReadBlockInfo(sent + rest) == Ok(if |block| < |data| then Compressed(|block|) else Uncompressed(|data|))
  {
    hide Le, ReadBlockInfo;
    var kind := if |block| < |data| then Compressed(|block|) else Uncompressed(|data|);
    var payload := if |block| < |data| then block else data;
    var sum := Checksum(cfg, info.blockChecksums, payload);
    var sent := SentBytes(cfg, info, data, block);
    BlockInfoRoundTrip(kind, payload + sum + rest);
    assert sent == WriteBlockInfo(kind).value + payload + sum;
    assert sent + rest == WriteBlockInfo(kind).value + (payload + sum + rest);
  }

  /** The block becomes history: the buffer is rewound or goes on. */
  function Advanced(f: FrameState): FrameState
    requires !f.info.blockSize.Auto? && f.start <= f.end <= |f.src|
  {
    var g := f.(content := f.content + Buffered(f));
    if !f.info.linked then g.(start := 0, end := 0, off := f.off + (f.end - f.start))
    else if f.end >= f.info.blockSize.Size() + WINDOW_SIZE then
      g.(start := 0, end := 0, at := f.end - WINDOW_SIZE, len := WINDOW_SIZE, off := f.off + f.end)
    else
      var delta := if f.end + f.len > WINDOW_SIZE then Min(f.len, f.end + f.len - WINDOW_SIZE) else 0;
      g.(start := f.end, at := if delta < f.len then f.at + delta else 0, len := f.len - delta)
  }

  ghost function NextBlock(s: Setup, f: FrameState): (e: Emitted)
    requires Sound(s, f) && f.start < f.end
    ensures Sound(s, e.f) && e.f.start == e.f.end && e.f.info == f.info
  {
    var g := Moved(s, f);
    var p := Pack(s, g);
    Emitted(Advanced(g.(table := SeededTable(s, g, p.table))), SentBytes(s.cfg, f.info, Buffered(f), p.block))
  }

  ghost function Flushed(s: Setup, f: FrameState): (e: Emitted)
    requires Sound(s, f)
    ensures Sound(s, e.f) && e.f.start == e.f.end && e.f.info == f.info
  {
    if f.start < f.end then NextBlock(s, f) else Emitted(f, [])
  }

  // ----- input

  /** `target` with `data` at `start`, over what is there and beyond it. */
  function Overwritten(target: seq<byte>, start: nat, data: seq<byte>): (r: seq<byte>)
    requires start <= |target|
    ensures |r| == Max(|target|, start + |data|)
    ensures r[..start] == target[..start] && r[start..start + |data|] == data
    ensures start + |data| <= |target| ==> r[start + |data|..] == target[start + |data|..]
  {
    target[..start] + data + if start + |data| <= |target| then target[start + |data|..] else []
  }

  function WithInput(f: FrameState, data: seq<byte>): FrameState
    requires f.end <= |f.src|
  {
    f.(src := Overwritten(f.src, f.end, data), end := f.end + |data|)
  }

  /** All of `buf` is accepted; a block is written when the next byte finds its room full. */
  ghost function Taken(s: Setup, f: FrameState, buf: seq<byte>): (e: Emitted)
    requires Sound(s, f)
    ensures Sound(s, e.f) && e.f.info == f.info
    decreases |buf|, f.end - f.start
  {
    var room := f.start + f.info.blockSize.Size() - f.end;
    if buf == [] then Emitted(f, [])
    else if room == 0 then
      var e := NextBlock(s, f);
      Prepend(e.bytes, Taken(s, e.f, buf))
    else
      var n := Min(room, |buf|);
      Taken(s, WithInput(f, buf[..n]), buf[n..])
  }

  lemma WithInputTwice(f: FrameState, a: seq<byte>, b: seq<byte>)
    requires f.end <= |f.src|
    ensures WithInput(WithInput(f, a), b) == WithInput(f, a + b)
  {
    var x, y := WithInput(WithInput(f, a), b).src, WithInput(f, a + b).src;
    OverwrittenAt(f.src, f.end, a);
    OverwrittenAt(WithInput(f, a).src, f.end + |a|, b);
    OverwrittenAt(f.src, f.end, a + b);
    assert |x| == |y| && forall i :: 0 <= i < |x| ==> x[i] == y[i];
  }

  lemma OverwrittenAt(target: seq<byte>, start: nat, data: seq<byte>)
    requires start <= |target|
    ensures var r := Overwritten(target, start, data);
            forall i :: 0 <= i < |r| ==>
              r[i] == if start <= i < start + |data| then data[i - start] else target[i]
  {
  }

  lemma TakenStep(s: Setup, f: FrameState, buf: seq<byte>)
    requires Sound(s, f)
    ensures buf == [] ==> Taken(s, f, buf) == Emitted(f, [])
    ensures buf != [] && f.end == f.start + f.info.blockSize.Size() ==>
              var e := NextBlock(s, f);
              Taken(s, f, buf) == Prepend(e.bytes, Taken(s, e.f, buf))
    ensures buf != [] && f.end < f.start + f.info.blockSize.Size() ==>
              var n := Min(f.start + f.info.blockSize.Size() - f.end, |buf|);
              && Sound(s, WithInput(f, buf[..n]))
              && Taken(s, f, buf) == Taken(s, WithInput(f, buf[..n]), buf[n..])
  {
    hide NextBlock;
  }

  /** How the input is cut into writes does not matter. */
  lemma {:induction false} TakenTwice(s: Setup, f: FrameState, a: seq<byte>, b: seq<byte>)
    requires Sound(s, f)
    ensures var e := Taken(s, f, a);
            Taken(s, f, a + b) == Prepend(e.bytes, Taken(s, e.f, b))
    decreases |a|, f.end - f.start
  {
    hide NextBlock, WithInput, Sound;
    var room := Room(s, f);
    if a == [] {
      assert a + b == b;
      PrependTwice([], [], Taken(s, f, b));
    } else if room == 0 {
      var e := NextBlock(s, f);
      TakenTwice(s, e.f, a, b);
      var e' := Taken(s, e.f, a);
      PrependTwice(e.bytes, e'.bytes, Taken(s, e'.f, b));
    } else {
      var n := Min(room, |a|);
      WithInputSound(s, f, a[..n]);
      if n < |a| || room == |a| {
        assert (a + b)[..n] == a[..n] && (a + b)[n..] == a[n..] + b;
        TakenTwice(s, WithInput(f, a[..n]), a[n..], b);
      } else {
        RoomLeft(s, f, a, b);
      }
    }
  }

  function Room(s: Setup, f: FrameState): (room: nat)
    requires Sound(s, f)
    ensures room == f.start + f.info.blockSize.Size() - f.end
  {
    f.start + f.info.blockSize.Size() - f.end
  }

  lemma WithInputSound(s: Setup, f: FrameState, data: seq<byte>)
    requires Sound(s, f) && |data| <= Room(s, f)
    ensures f.end <= |f.src| && Sound(s, WithInput(f, data)) && Room(s, WithInput(f, data)) == Room(s, f) - |data|
  {
  }

  lemma RoomLeft(s: Setup, f: FrameState, a: seq<byte>, b: seq<byte>)
    requires Sound(s, f) && 0 < |a| < Room(s, f)
    ensures Taken(s, f, a) == Emitted(WithInput(f, a), [])
    ensures Taken(s, f, a + b) == Prepend([], Taken(s, WithInput(f, a), b))
  {
    hide NextBlock, WithInput, Sound;
    WithInputSound(s, f, a);
    assert a[..|a|] == a && a[|a|..] == [];
    PrependTwice([], [], Taken(s, WithInput(f, a), b));
    if b == [] {
      assert a + b == a;
    } else {
      var n := Min(Room(s, f), |a + b|);
      var m := n - |a|;
      assert (a + b)[..n] == a + b[..m] && (a + b)[n..] == b[m..];
      WithInputTwice(f, a, b[..m]);
    }
  }

  // ----- frames

  /** A frame in which each piece but the last is followed by a flush. */
  ghost function FrameRun(s: Setup, info: FrameInfo, pieces: seq<seq<byte>>): (e: Emitted)
    requires s.tables.n16 > 0 && s.tables.n32 > 0 && !info.blockSize.Auto? && pieces != []
    ensures Sound(s, e.f) && e.f.info == info
    ensures |pieces| > 1 && pieces[|pieces| - 1] == [] ==> e.f.start == e.f.end
  {
    var last := pieces[|pieces| - 1];
    if |pieces| == 1 then Taken(s, Pristine(s, info), last)
    else
      var e := FlushedRun(s, FrameRun(s, info, pieces[..|pieces| - 1]));
      Prepend(e.bytes, Taken(s, e.f, last))
  }

  lemma OnePiece(s: Setup, info: FrameInfo, piece: seq<byte>)
    requires s.tables.n16 > 0 && s.tables.n32 > 0 && !info.blockSize.Auto?
    ensures Sound(s, Pristine(s, info)) && FrameRun(s, info, [piece]) == Taken(s, Pristine(s, info), piece)
  {
    hide Taken;
  }

  ghost function FlushedRun(s: Setup, e: Emitted): (r: Emitted)
    requires Sound(s, e.f)
    ensures Sound(s, r.f) && r.f.start == r.f.end && r.f.info == e.f.info
  {
    Prepend(e.bytes, Flushed(s, e.f))
  }

  function Joined(pieces: seq<seq<byte>>): seq<byte> {
    if pieces == [] then [] else Joined(pieces[..|pieces| - 1]) + pieces[|pieces| - 1]
  }

  /** The bytes of a whole frame. */
  ghost function FrameOf(s: Setup, info: FrameInfo, pieces: seq<seq<byte>>): seq<byte>
    requires s.tables.n16 > 0 && s.tables.n32 > 0 && !info.blockSize.Auto? && pieces != []
  {
    HeaderBytes(info, s.cfg.xxh)
    + FlushedRun(s, FrameRun(s, info, pieces)).bytes
    + EndBytes(s.cfg, info, Joined(pieces))
  }

  /** The bytes of a stream: every frame has its own, whatever came before it. */
  ghost function StreamOfFrames(s: Setup, info: FrameInfo, frames: seq<seq<seq<byte>>>): seq<byte>
    requires s.tables.n16 > 0 && s.tables.n32 > 0 && !info.blockSize.Auto?
    requires forall i :: 0 <= i < |frames| ==> frames[i] != []
  {
    if frames == [] then []
    else StreamOfFrames(s, info, frames[..|frames| - 1]) + FrameOf(s, info, frames[|frames| - 1])
  }

  /** Writing more to the last piece. */
  lemma RunGoesOn(s: Setup, info: FrameInfo, pieces: seq<seq<byte>>, more: seq<byte>)
    requires s.tables.n16 > 0 && s.tables.n32 > 0 && !info.blockSize.Auto? && pieces != []
    ensures var e, last := FrameRun(s, info, pieces), |pieces| - 1;
            FrameRun(s, info, pieces[last := pieces[last] + more]) == Prepend(e.bytes, Taken(s, e.f, more))
  {
    hide Taken, Sound, FlushedRun;
    var last := |pieces| - 1;
    var longer := pieces[last := pieces[last] + more];
    assert longer[..last] == pieces[..last];
    var before :=
      if last == 0 then Emitted(Pristine(s, info), []) else FlushedRun(s, FrameRun(s, info, pieces[..last]));
    PristineSound(s, info);
    TakenTwice(s, before.f, pieces[last], more);
    var e := Taken(s, before.f, pieces[last]);
    PrependTwice(before.bytes, e.bytes, Taken(s, e.f, more));
    PrependTwice([], [], e);
    PrependTwice([], [], Taken(s, before.f, pieces[last] + more));
  }

  lemma PristineSound(s: Setup, info: FrameInfo)
    requires s.tables.n16 > 0 && s.tables.n32 > 0 && !info.blockSize.Auto?
    ensures Sound(s, Pristine(s, info))
  {
  }

  /** A flush, and nothing after it yet. */
  lemma RunFlushed(s: Setup, info: FrameInfo, pieces: seq<seq<byte>>)
    requires s.tables.n16 > 0 && s.tables.n32 > 0 && !info.blockSize.Auto? && pieces != []
    ensures FrameRun(s, info, pieces + [[]]) == FlushedRun(s, FrameRun(s, info, pieces))
  {
    hide Sound, Flushed;
    var e := FlushedRun(s, FrameRun(s, info, pieces));
    assert (pieces + [[]])[..|pieces|] == pieces;
    assert e.bytes + [] == e.bytes;
  }

  /** At the end of a frame a last flush makes no difference. */
  lemma LastFlushLost(s: Setup, info: FrameInfo, pieces: seq<seq<byte>>)
    requires s.tables.n16 > 0 && s.tables.n32 > 0 && !info.blockSize.Auto? && pieces != []
    ensures FrameOf(s, info, pieces + [[]]) == FrameOf(s, info, pieces)
  {
    hide Sound, FrameRun, HeaderBytes, EndBytes;
    RunFlushed(s, info, pieces);
    var e := FlushedRun(s, FrameRun(s, info, pieces));
    assert FlushedRun(s, e) == e by {
      assert e.bytes + [] == e.bytes;
    }
    assert (pieces + [[]])[..|pieces|] == pieces;
    assert Joined(pieces) + [] == Joined(pieces);
  }
}
