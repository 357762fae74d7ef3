/**
  How large a frame gets: it is its header, its blocks and its end, and each block takes the smaller of
  its data and what the block encoder makes of it.
 */
module FrameSizes {
  import opened Core
  import opened BlockFormat
  import opened EncoderSpec
  import opened BlockCompress
  import opened GreedySearch
  import opened FrameHeader
  import opened FrameLockstep
  import opened FrameBytes

  /** A state with input for a block. */
  ghost predicate Loaded(s: Setup, info: FrameInfo, f: FrameState) {
    Sound(s, f) && f.info == info && f.start < f.end
  }

  ghost predicate AllLoaded(s: Setup, info: FrameInfo, blocks: seq<FrameState>) {
    forall i :: 0 <= i < |blocks| ==> Loaded(s, info, blocks[i])
  }

  /** The bytes of one block. */
  ghost function Text(s: Setup, f: FrameState): seq<byte>
    requires Sound(s, f)
  {
    SentBytes(s.cfg, f.info, Buffered(f), Pack(s, f).block)
  }

  /** Its size. */
  ghost function TextSize(s: Setup, f: FrameState): nat
    requires Sound(s, f)
  {
    4 + Min(|Buffered(f)|, |Pack(s, f).block|) + ChecksumSize(f.info)
  }

  ghost function Texts(s: Setup, info: FrameInfo, blocks: seq<FrameState>): seq<byte>
    requires AllLoaded(s, info, blocks)
  {
    if blocks == [] then [] else Texts(s, info, blocks[..|blocks| - 1]) + Text(s, blocks[|blocks| - 1])
  }

  ghost function TextsSize(s: Setup, info: FrameInfo, blocks: seq<FrameState>): nat
    requires AllLoaded(s, info, blocks)
  {
    if blocks == [] then 0 else TextsSize(s, info, blocks[..|blocks| - 1]) + TextSize(s, blocks[|blocks| - 1])
  }

  ghost function Inputs(s: Setup, info: FrameInfo, blocks: seq<FrameState>): seq<byte>
    requires AllLoaded(s, info, blocks)
  {
    if blocks == [] then [] else Inputs(s, info, blocks[..|blocks| - 1]) + Buffered(blocks[|blocks| - 1])
  }

  lemma OneMore(s: Setup, info: FrameInfo, blocks: seq<FrameState>, f: FrameState)
    requires AllLoaded(s, info, blocks) && Loaded(s, info, f)
    ensures AllLoaded(s, info, blocks + [f])
    ensures Texts(s, info, blocks + [f]) == Texts(s, info, blocks) + Text(s, f)
    ensures TextsSize(s, info, blocks + [f]) == TextsSize(s, info, blocks) + TextSize(s, f)
    ensures Inputs(s, info, blocks + [f]) == Inputs(s, info, blocks) + Buffered(f)
  {
    hide Text, TextSize, Loaded;
    assert (blocks + [f])[..|blocks|] == blocks;
  }

  lemma TextIsSmall(s: Setup, info: FrameInfo, f: FrameState)
    requires Loaded(s, info, f)
    ensures |Text(s, f)| == TextSize(s, f)
  {
    hide Pack;
    SentIsShorter(s.cfg, f.info, Buffered(f), Pack(s, f).block, []);
  }

  lemma {:induction false} TextsAreSmall(s: Setup, info: FrameInfo, blocks: seq<FrameState>)
    requires AllLoaded(s, info, blocks)
    ensures |Texts(s, info, blocks)| == TextsSize(s, info, blocks)
    decreases |blocks|
  {
    hide Text, TextSize, Loaded;
    if blocks != [] {
      TextsAreSmall(s, info, blocks[..|blocks| - 1]);
      TextIsSmall(s, info, blocks[|blocks| - 1]);
    }
  }

  // ----- the blocks of a frame

  lemma Bounds(s: Setup, f: FrameState)
    requires Sound(s, f)
    ensures f.start <= f.end <= |f.src| && !f.info.blockSize.Auto?
    ensures f.start < f.end ==> Loaded(s, f.info, f)
  {
  }

  /** The next block is packed in some state with the same input. */
  lemma BlockPacked(s: Setup, f: FrameState) returns (g: FrameState)
    requires Loaded(s, f.info, f)
    ensures Loaded(s, f.info, g) && Buffered(g) == Buffered(f) && NextBlock(s, f).bytes == Text(s, g)
  {
    hide Pack, SentBytes, SeededTable, Advanced;
    g := Moved(s, f);
  }

  /** The history of a frame so far: blocks, `short` of which hold less than they could. */
  ghost predicate Progress(s: Setup, info: FrameInfo, blocks: seq<FrameState>, short: nat, e: Emitted, all: seq<byte>)
    requires !info.blockSize.Auto?
  {
    && AllLoaded(s, info, blocks) && Sound(s, e.f) && e.f.info == info
    && e.bytes == Texts(s, info, blocks) && all == Inputs(s, info, blocks) + Buffered(e.f)
    && short <= |blocks| && (|blocks| - short) * info.blockSize.Size() <= |Inputs(s, info, blocks)|
  }

  lemma OneMoreFull(n: int, size: nat, sum: nat, more: nat)
    requires n * size <= sum && size <= more
    ensures (n + 1) * size <= sum + more
  {
  }

  /** A block is written: it is full, or one more is short. */
  lemma BlockAdded(s: Setup, info: FrameInfo, blocks: seq<FrameState>, short: nat, e: Emitted, all: seq<byte>)
    returns (blocks': seq<FrameState>, short': nat)
    requires !info.blockSize.Auto? && Progress(s, info, blocks, short, e, all) && e.f.start < e.f.end
    ensures var n := NextBlock(s, e.f);
            Progress(s, info, blocks', short', Emitted(n.f, e.bytes + n.bytes), all)
    ensures short' == if |Buffered(e.f)| == info.blockSize.Size() then short else short + 1
  {
    hide NextBlock, Text, Texts, TextsSize, TextSize, Inputs, Sound, Loaded;
    Bounds(s, e.f);
    var g := BlockPacked(s, e.f);
    blocks' := blocks + [g];
    OneMore(s, info, blocks, g);
    short' := if |Buffered(e.f)| == info.blockSize.Size() then short else short + 1;
    var n := NextBlock(s, e.f);
    Bounds(s, n.f);
    assert Buffered(n.f) == [];
    assert all == Inputs(s, info, blocks') + Buffered(n.f);
    if |Buffered(e.f)| == info.blockSize.Size() {
      OneMoreFull(|blocks| - short, info.blockSize.Size(), |Inputs(s, info, blocks)|, |Buffered(e.f)|);
    }
  }

  /** Input is taken in full blocks. */
  lemma {:induction false} TakenInBlocks(s: Setup, info: FrameInfo, blocks: seq<FrameState>, short: nat, e: Emitted,
                                         all: seq<byte>, buf: seq<byte>)
    returns (blocks': seq<FrameState>)
    requires !info.blockSize.Auto? && Progress(s, info, blocks, short, e, all)
    ensures Progress(s, info, blocks', short, Prepend(e.bytes, Taken(s, e.f, buf)), all + buf)
    decreases |buf|, e.f.end - e.f.start
  {
    hide NextBlock, WithInput, Sound, Texts, Inputs;
    TakenStep(s, e.f, buf);
    Bounds(s, e.f);
    if buf == [] {
      blocks' := blocks;
      assert all + buf == all && e.bytes + [] == e.bytes;
    } else if Room(s, e.f) == 0 {
      var n := NextBlock(s, e.f);
      var blocks1, _ := BlockAdded(s, info, blocks, short, e, all);
      PrependTwice(e.bytes, n.bytes, Taken(s, n.f, buf));
      blocks' := TakenInBlocks(s, info, blocks1, short, Emitted(n.f, e.bytes + n.bytes), all, buf);
    } else {
      var n := Min(Room(s, e.f), |buf|);
      InputAdded(s, e.f, buf[..n]);
      var e1 := Emitted(WithInput(e.f, buf[..n]), e.bytes);
      assert Inputs(s, info, blocks) + Buffered(e.f) + buf[..n] == Inputs(s, info, blocks) + (Buffered(e.f) + buf[..n]);
      assert all + buf[..n] + buf[n..] == all + buf;
      blocks' := TakenInBlocks(s, info, blocks, short, e1, all + buf[..n], buf[n..]);
    }
  }

  lemma InputAdded(s: Setup, f: FrameState, data: seq<byte>)
    requires Sound(s, f) && |data| <= Room(s, f)
    ensures Sound(s, WithInput(f, data)) && Buffered(WithInput(f, data)) == Buffered(f) + data
  {
    var r := Overwritten(f.src, f.end, data);
    assert r[f.start..f.end + |data|] == r[..f.end][f.start..] + r[f.end..f.end + |data|];
    assert f.src[f.start..f.end] == f.src[..f.end][f.start..];
  }

  /** A flush writes what is buffered. */
  lemma FlushInBlocks(s: Setup, info: FrameInfo, blocks: seq<FrameState>, short: nat, e: Emitted, all: seq<byte>)
    returns (blocks': seq<FrameState>, short': nat)
    requires !info.blockSize.Auto? && Progress(s, info, blocks, short, e, all)
    ensures Progress(s, info, blocks', short', FlushedRun(s, e), all) && short' <= short + 1
    ensures all == Inputs(s, info, blocks')
  {
    hide NextBlock, Texts, Inputs, Sound;
    Bounds(s, e.f);
    if e.f.start < e.f.end {
      blocks', short' := BlockAdded(s, info, blocks, short, e, all);
    } else {
      blocks', short' := blocks, short;
      assert e.bytes + [] == e.bytes;
    }
    Bounds(s, FlushedRun(s, e).f);
    assert Inputs(s, info, blocks') + [] == Inputs(s, info, blocks');
  }

  lemma NothingYet(s: Setup, info: FrameInfo)
    requires s.tables.n16 > 0 && s.tables.n32 > 0 && !info.blockSize.Auto?
    ensures Progress(s, info, [], 0, Emitted(Pristine(s, info), []), [])
  {
  }

  /** A frame so far, as its blocks: all are full but at most one for each flush. */
  lemma {:induction false} RunInBlocks(s: Setup, info: FrameInfo, pieces: seq<seq<byte>>)
    returns (blocks: seq<FrameState>, short: nat)
    requires s.tables.n16 > 0 && s.tables.n32 > 0 && !info.blockSize.Auto? && pieces != []
    ensures Progress(s, info, blocks, short, FrameRun(s, info, pieces), Joined(pieces)) && short < |pieces|
    decreases |pieces|
  {
    hide Progress, Taken, FlushedRun, Sound;
    var last := |pieces| - 1;
    if last == 0 {
      NothingYet(s, info);
      blocks := TakenInBlocks(s, info, [], 0, Emitted(Pristine(s, info), []), [], pieces[0]);
      short := 0;
      PristineSound(s, info);
      PrependTwice([], [], Taken(s, Pristine(s, info), pieces[0]));
      assert pieces[..0] == [] && [] + pieces[0] == pieces[0];
    } else {
      blocks, short := RunInBlocks(s, info, pieces[..last]);
      var e := FrameRun(s, info, pieces[..last]);
      blocks, short := FlushInBlocks(s, info, blocks, short, e, Joined(pieces[..last]));
      blocks := TakenInBlocks(s, info, blocks, short, FlushedRun(s, e), Joined(pieces[..last]), pieces[last]);
    }
  }

  /** A whole frame is its header, its blocks and its end.  Every block takes the smaller of its data and
      its compressed form, and all of them are full but at most one for each piece. */
  lemma FrameInBlocks(s: Setup, info: FrameInfo, pieces: seq<seq<byte>>) returns (blocks: seq<FrameState>)
    requires s.tables.n16 > 0 && s.tables.n32 > 0 && !info.blockSize.Auto? && pieces != []
    ensures AllLoaded(s, info, blocks) && Inputs(s, info, blocks) == Joined(pieces)
    ensures FrameOf(s, info, pieces)
         == HeaderBytes(info, s.cfg.xxh) + Texts(s, info, blocks) + EndBytes(s.cfg, info, Joined(pieces))
    ensures |FrameOf(s, info, pieces)|
         == WriteSize(info) + TextsSize(s, info, blocks) + 4 + if info.contentChecksum then 4 else 0
    ensures (|blocks| - |pieces|) * info.blockSize.Size() <= |Joined(pieces)|
  {
    hide Texts, TextsSize, Inputs, FrameRun, Sound, Joined, HeaderBytes, Le;
    var run := FrameRun(s, info, pieces);
    var short: nat;
    blocks, short := RunInBlocks(s, info, pieces);
    blocks, short := FlushInBlocks(s, info, blocks, short, run, Joined(pieces));
    TextsAreSmall(s, info, blocks);
    FewerTimes(|blocks| - |pieces|, |blocks| - short, info.blockSize.Size());
  }

  lemma FewerTimes(a: int, b: int, n: nat)
    requires a <= b
    ensures a * n <= b * n
  {
  }

  // ----- a frame that holds a run of one byte

  lemma RunPrinted(x: byte, n: nat, lits: seq<byte>)
    requires LZ4_MIN_LENGTH <= n && |lits| == 6
    ensures var b := More([x], 1, n - 7, Last(lits));
            WellFormed(b) && |Print(b)| <= n / 255 + 12
  {
    PrintedLength(n - 7 - MINMATCH);
  }

  lemma OneBlockFrame(s: Setup, info: FrameInfo, data: seq<byte>)
    requires s.tables.n16 > 0 && s.tables.n32 > 0 && !info.blockSize.Auto? && 0 < |data| <= info.blockSize.Size()
    ensures var f := WithInput(Pristine(s, info), data);
            && Sound(s, f) && f.src == data && Moved(s, f) == f
            && FlushedRun(s, FrameRun(s, info, [data])).bytes == NextBlock(s, f).bytes
  {
    hide NextBlock;
    var p := Pristine(s, info);
    OnePiece(s, info, data);
    TakenStep(s, p, data);
    assert data[..|data|] == data && data[|data|..] == [];
    TakenStep(s, WithInput(p, data), []);
    assert [] + NextBlock(s, WithInput(p, data)).bytes == NextBlock(s, WithInput(p, data)).bytes;
  }

  lemma RunPacked(s: Setup, info: FrameInfo, x: byte, data: seq<byte>)
    requires s.tables.n16 > 0 && s.tables.n32 > 0 && !info.blockSize.Auto? && s.cfg.dict == []
    requires LZ4_MIN_LENGTH <= |data| <= info.blockSize.Size() && forall i :: 0 <= i < |data| ==> data[i] == x
    ensures var f := WithInput(Pristine(s, info), data);
            Sound(s, f) && Buffered(f) == data && |Pack(s, f).block| <= |data| / 255 + 12
  {
    hide EncodeFrom, Print, WellFormed, Overwritten;
    var f := WithInput(Pristine(s, info), data);
    OneBlockFrame(s, info, data);
    var c := StreamOf(s, f);
    assert c.input == data && f.table == Empty(s.tables.n32);
    RunOfBytes(c, f.table, x);
    RunPrinted(x, |data|, data[|data| - 6..]);
  }

  /** A run of one byte takes a frame of about a 255th of its length. */
  lemma RunFrameIsSmall(s: Setup, info: FrameInfo, x: byte, data: seq<byte>)
    requires s.tables.n16 > 0 && s.tables.n32 > 0 && !info.blockSize.Auto? && s.cfg.dict == []
    requires LZ4_MIN_LENGTH <= |data| <= info.blockSize.Size() && forall i :: 0 <= i < |data| ==> data[i] == x
    ensures |FrameOf(s, info, [data])| <= |data| / 255 + 47
  {
    hide Pack, HeaderBytes, Le, Overwritten, FrameRun, Sound, Moved, SentBytes;
    var f := WithInput(Pristine(s, info), data);
    OneBlockFrame(s, info, data);
    RunPacked(s, info, x, data);
    SentIsShorter(s.cfg, info, data, Pack(s, f).block, []);
    assert NextBlock(s, f).bytes == SentBytes(s.cfg, info, data, Pack(s, f).block);
  }
}
