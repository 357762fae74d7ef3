/**
  The frame encoder.  It collects input in one reused buffer, compresses it block by block against
  the history the buffer still holds, and rewinds the buffer and the hash table's positions as the
  stream grows.  A ghost decoder reads along: at every block boundary the stream written so far is
  read back as what was written into it, whatever comes next.
 */
module FrameEncoders {
  import opened Core
  import opened BlockFormat
  import opened ReferenceDecoder
  import opened EncoderSpec
  import opened HashTables
  import opened Sink
  import opened Emit
  import opened Compress
  import opened BlockCompress
  import opened FrameHeader
  import opened FrameFormat
  import opened FrameLockstep
  import opened FrameBytes

  /** Writes `data` at `start`, over what is there and beyond it. */
  method VecCopyOverwriting(target: seq<byte>, start: nat, data: seq<byte>) returns (r: seq<byte>)
    requires start <= |target|
    ensures |r| == Max(|target|, start + |data|)
    ensures r[..start] == target[..start] && r[start..start + |data|] == data
    ensures start + |data| <= |target| ==> r[start + |data|..] == target[start + |data|..]
    ensures r == Overwritten(target, start, data)
  {
    var n := Min(|target| - start, |data|);
    r := target[..start] + data[..n] + target[start + n..];
    r := r + data[n..];
  }

  // ----- the history in the buffer

  function WindowOf(src: seq<byte>, start: nat, at: nat, len: nat): seq<byte>
    requires start <= |src| && (len > 0 ==> at + len <= |src|)
  {
    (if len > 0 then src[at..at + len] else []) + src[..start]
  }

  /** The buffer holds the end of the content: `start` bytes in front of the next block and, behind
      the room for it, `len` more at `at`.  Independent blocks have no history. */
  ghost predicate HoldsWindow(info: FrameInfo, src: seq<byte>, start: nat, at: nat, len: nat, content: seq<byte>) {
    && !info.blockSize.Auto? && start <= |src|
    && (len > 0 ==> at + len <= |src|)
    && (len > 0 ==> info.blockSize.Size() + WINDOW_SIZE <= at + len && start + len == WINDOW_SIZE)
    && if info.linked then start < info.blockSize.Size() + WINDOW_SIZE && IsTail(WindowOf(src, start, at, len), content)
       else start == 0 && len == 0
  }

  /** Filling the room for a block leaves the history alone. */
  lemma FillKeepsWindow(info: FrameInfo, src: seq<byte>, src': seq<byte>, start: nat, end: nat, at: nat,
                        len: nat, content: seq<byte>)
    requires HoldsWindow(info, src, start, at, len, content)
    requires start <= end <= start + info.blockSize.Size() && end <= |src'| && |src| <= |src'|
    requires src'[..start] == src[..start]
    requires end <= |src| ==> src'[end..] == src[end..]
    ensures HoldsWindow(info, src', start, at, len, content)
  {
    hide IsTail;
    if len > 0 {
      assert src[end..][at - end..at - end + len] == src[at..at + len];
      assert src'[end..][at - end..at - end + len] == src'[at..at + len];
    }
  }

  lemma CopyKeepsWindow(info: FrameInfo, src: seq<byte>, start: nat, end: nat, data: seq<byte>, at: nat, len: nat,
                        content: seq<byte>)
    requires HoldsWindow(info, src, start, at, len, content)
    requires start <= end <= |src| && end + |data| <= start + info.blockSize.Size()
    ensures var src', end' := Overwritten(src, end, data), end + |data|;
            && HoldsWindow(info, src', start, at, len, content) && end' <= |src'|
            && src'[start..end'] == src[start..end] + data
            && (end == |src| ==> end' == |src'|)
  {
    hide HoldsWindow, Overwritten;
    var src' := Overwritten(src, end, data);
    Filled(src, src', start, end, data);
    assert src'[..start] == src[..start] by {
      SubSlice(src, 0, end, 0, start);
      SubSlice(src', 0, end, 0, start);
    }
    FillKeepsWindow(info, src, src', start, end + |data|, at, len, content);
  }

  /** The buffer is rewound: its end becomes history. */
  lemma RewindKeepsWindow(info: FrameInfo, src: seq<byte>, start: nat, end: nat, at: nat, len: nat, content: seq<byte>)
    requires HoldsWindow(info, src, start, at, len, content) && info.linked
    requires start <= end <= |src| && info.blockSize.Size() + WINDOW_SIZE <= end
    ensures HoldsWindow(info, src, 0, end - WINDOW_SIZE, WINDOW_SIZE, content + src[start..end])
  {
    hide IsTail;
    var v := WindowOf(src, start, at, len) + src[start..end];
    TailAppend(WindowOf(src, start, at, len), content, src[start..end]);
    TailDrop(v, content + src[start..end], |v| - WINDOW_SIZE);
    assert v[|v| - WINDOW_SIZE..] == src[end - WINDOW_SIZE..end] == WindowOf(src, 0, end - WINDOW_SIZE, WINDOW_SIZE);
  }

  /** Or it goes on, and forgets history in front of the last window. */
  lemma AdvanceKeepsWindow(info: FrameInfo, src: seq<byte>, start: nat, end: nat, at: nat, len: nat, content: seq<byte>)
    requires HoldsWindow(info, src, start, at, len, content) && info.linked
    requires start < end <= |src| && end < info.blockSize.Size() + WINDOW_SIZE
    ensures len > 0 ==> end + len > WINDOW_SIZE
    ensures var delta := if end + len > WINDOW_SIZE then Min(len, end + len - WINDOW_SIZE) else 0;
            HoldsWindow(info, src, end, at + delta, len - delta, content + src[start..end])
  {
    hide IsTail;
    var delta := if end + len > WINDOW_SIZE then Min(len, end + len - WINDOW_SIZE) else 0;
    var v := WindowOf(src, start, at, len) + src[start..end];
    TailAppend(WindowOf(src, start, at, len), content, src[start..end]);
    assert v == WindowOf(src, end, at, len);
    if len > 0 {
      TailDrop(v, content + src[start..end], delta);
      assert v[delta..] == WindowOf(src, end, at + delta, len - delta);
    }
    assert delta == 0 ==> v[delta..] == v;
  }

  // ----- blocks

  /** A block compressed through the table is read as its data. */
  lemma StreamBlockHolds(cfg: Config, st: DecState, info: FrameInfo, content: seq<byte>, c: Stream, t: Table, pos: nat)
    requires Valid(c) && pos <= |c.input| && FitsStart(c, t, pos)
    requires InStep(st, info, content) && |c.input| - pos <= info.blockSize.Size()
    requires if info.linked then IsTail(c.dict + c.input[..pos], content) else c.dict + c.input[..pos] == []
    ensures var e := EncodeFrom(c, t, pos);
            && WellFormed(e.block) && Holds(cfg, st, Print(e.block), c.input[pos..])
            && FitsStart(c, e.table, |c.input|) && Conforms(e.block, |c.input| - pos, false)
  {
    hide EncodeFrom, Print, WellFormed, FitsStart, Decode, Slide, IsTail, Covers, Run, Conforms;
    EncodeFromIsLossless(c, t, pos);
    WindowCovers(cfg, st, info, content, c.dict + c.input[..pos]);
    var s := Slide(st);
    var front := Front(cfg, s);
    EncodedDecodes(c, t, pos, |front|, front + s.prefix, |s.prefix| + info.blockSize.Size());
    assert (front + s.prefix + c.input[pos..])[|front| + |s.prefix|..] == c.input[pos..];
  }

  /** So is a block compressed with the dictionary, where the dictionary is all the history there
      is: at the start of a frame, or when blocks are independent. */
  lemma DictBlockHolds(cfg: Config, st: DecState, info: FrameInfo, content: seq<byte>, block: seq<byte>,
                       data: seq<byte>)
    requires InStep(st, info, content) && (info.linked ==> content == [])
    requires Encodes(block, cfg.dict, data) && |data| <= info.blockSize.Size()
    ensures Holds(cfg, st, block, data)
  {
    hide Decode;
    var s := Slide(st);
    var cap := info.blockSize.Size();
    assert s.prefix == [] && Front(cfg, s) == cfg.dict;
    assert cfg.dict + s.prefix == cfg.dict;
    assert Decode(block, 0, |cfg.dict|, cfg.dict, cap) == Done(cfg.dict + data);
    assert (cfg.dict + data)[|cfg.dict|..] == data;
  }

  /** Moving the origin of the positions from `off` to `len` moves every position that is still in
      the history or the buffer with it.  All older ones become position 0, which is the first byte
      of the history, or of the buffer when there is no history. */
  lemma RepositionMoves(t: seq<nat>, off: nat, len: nat, start: nat)
    requires len <= off && TableBelow(t, Max(1, off + start))
    ensures var r := Repositioned(t, off - len);
            && TableBelow(r, Max(1, len + start))
            && (forall i :: 0 <= i < |t| && off - len <= t[i] ==> r[i] - len == t[i] - off)
            && (forall i :: 0 <= i < |t| && t[i] < off - len ==> r[i] == 0)
  {
  }

  lemma RepositionedBelow(t: seq<nat>, off: nat, len: nat, start: nat)
    requires len <= off && TableBelow(t, Max(1, off + start))
    ensures TableBelow(Repositioned(t, off - len), Max(1, len + start))
  {
    RepositionMoves(t, off, len, start);
  }

  lemma BlockGrows(cfg: Config, info: FrameInfo, kind: BlockInfo, payload: seq<byte>)
    requires 0 < |payload| < UNCOMPRESSED_BIT && (kind == Compressed(|payload|) || kind == Uncompressed(|payload|))
    ensures WriteBlockInfo(kind).Ok? && |BlockBytes(cfg, info, kind, payload)| <= |payload| + 8
  {
  }

  lemma ZeroTable(t: seq<nat>)
    requires TableBelow(t, 1)
    ensures t == Empty(|t|)
  {
  }

  lemma WindowSmall(info: FrameInfo, src: seq<byte>, start: nat, at: nat, len: nat, content: seq<byte>)
    requires HoldsWindow(info, src, start, at, len, content)
    ensures len <= WINDOW_SIZE && start <= info.blockSize.Size() + WINDOW_SIZE
    ensures (!info.linked ==> len == 0) && (len > 0 ==> at + len <= |src|)
  {
  }

  lemma NoHistory(info: FrameInfo, src: seq<byte>, start: nat, at: nat, len: nat, content: seq<byte>)
    requires HoldsWindow(info, src, start, at, len, content)
    ensures content == [] ==> start == 0 && len == 0
  {
  }

  lemma StreamWindow(info: FrameInfo, src: seq<byte>, start: nat, end: nat, at: nat, len: nat, content: seq<byte>)
    requires HoldsWindow(info, src, start, at, len, content) && start <= end <= |src|
    ensures var v := (if len != 0 then src[at..at + len] else []) + src[..end][..start];
            if info.linked then IsTail(v, content) else v == []
  {
    hide IsTail;
    assert src[..end][..start] == src[..start];
  }

  lemma IndependentWindow(info: FrameInfo, src: seq<byte>, start: nat, at: nat, len: nat, content: seq<byte>,
                          content': seq<byte>)
    requires HoldsWindow(info, src, start, at, len, content) && !info.linked
    ensures start == 0 && HoldsWindow(info, src, 0, at, len, content')
  {
  }

  lemma Filled(was: seq<byte>, src: seq<byte>, start: nat, end: nat, data: seq<byte>)
    requires start <= end <= |was| && end + |data| <= |src|
    requires src[..end] == was[..end] && src[end..end + |data|] == data
    ensures src[start..end + |data|] == was[start..end] + data
  {
    SubSlice(src, 0, end, start, end);
    SubSlice(was, 0, end, start, end);
    assert src[start..end + |data|] == src[start..end] + src[end..end + |data|];
  }

  lemma Appended(a: seq<byte>, b: seq<byte>, c: seq<byte>)
    ensures a + (b + c) == a + b + c
  {
  }

  lemma EmptySink(output: SliceSink)
    requires output.Valid() && output.pos == 0
    ensures output.Contents() == [] && forall s: seq<byte> :: output.Contents() + s == s
  {
  }

  lemma NothingYet(info: FrameInfo, src: seq<byte>, at: nat)
    requires !info.blockSize.Auto?
    ensures HoldsWindow(info, src, 0, at, 0, []) && InStep(Fresh(info), info, [])
  {
    EmptyTail();
    assert WindowOf(src, 0, at, 0) == [];
  }

  lemma PrintNonEmpty(b: Block)
    requires WellFormed(b)
    ensures |Print(b)| > 0
  {
  }

  /** The block size is settled by the first write. */
  function Settled(info: FrameInfo, bufLen: nat): (r: FrameInfo)
    ensures !r.blockSize.Auto? && (InRange(info) ==> InRange(r))
    ensures r == info.(blockSize := r.blockSize) && (!info.blockSize.Auto? ==> r == info)
    ensures info.blockSize.Auto? && bufLen <= 4194304 ==> bufLen <= r.blockSize.Size()
    ensures info.blockSize.Auto? ==>
              forall c: BlockSize :: (c.Max64KB? || c.Max256KB?) && bufLen <= c.Size() ==>
                r.blockSize.Size() <= c.Size()
  {
    if info.blockSize.Auto? then info.(blockSize := FromBufLength(bufLen)) else info
  }

  datatype Dictionary = Dictionary(bytes: seq<byte>, id: nat)

  class FrameEncoder {
    const cfg: Config                // dictionary, its id, and the 32-bit hash
    const tables: Tables             // of blocks that are compressed on their own
    const table: HashTable           // of the frame's stream
    var w: seq<byte>                 // the writer
    var src: seq<byte>
    var srcStart: nat
    var srcEnd: nat
    var extDictOffset: nat
    var extDictLen: nat
    var srcStreamOffset: nat
    var hashed: seq<byte>            // what the content hasher has seen
    var contentLen: nat
    var isFrameOpen: bool
    var failed: bool
    var dataToFrameWritten: bool
    var frameInfo: FrameInfo
    ghost var content: seq<byte>     // of the current frame's blocks
    ghost var all: seq<byte>         // of all blocks so far
    ghost var peer: DecState         // a decoder that has read them

    ghost function Plan(): Setup {
      Setup(cfg, tables)
    }

    /** The frame in progress. */
    ghost function Inner(): FrameState
      reads this`src, this`srcStart, this`srcEnd, this`extDictOffset, this`extDictLen, this`srcStreamOffset,
            this`frameInfo, this`content, table.entries
    {
      FrameState(frameInfo, src, srcStart, srcEnd, if extDictLen > 0 then extDictOffset else 0, extDictLen,
                 srcStreamOffset, table.entries[..], content)
    }

    ghost predicate Valid()
      reads this`w, this`src, this`srcStart, this`srcEnd, this`extDictOffset, this`extDictLen,
            this`srcStreamOffset, this`hashed, this`contentLen, this`isFrameOpen, this`dataToFrameWritten,
            this`frameInfo, this`content, this`all, this`peer, table.entries
    {
      && srcStart <= srcEnd <= |src|
      && (isFrameOpen ==> Sound(Plan(), Inner()))
      && (!isFrameOpen ==> srcStart == srcEnd && (dataToFrameWritten || content == []))
      && Consistent()
    }

    ghost predicate Consistent()
      reads this`w, this`src, this`srcStart, this`srcEnd, this`extDictOffset, this`extDictLen,
            this`srcStreamOffset, this`hashed, this`contentLen, this`isFrameOpen, this`frameInfo, this`content,
            this`all, this`peer, table.entries
    {
      && Settings() && table.Valid()
      && contentLen == |content| && (frameInfo.contentChecksum ==> hashed == content)
      && if isFrameOpen then Open() else Closed()
    }

    /** What stays the same from frame to frame. */
    ghost predicate Settings()
      reads this`frameInfo
    {
      && tables.n16 > 0 && tables.n32 > 0
      && table.width == U32_MAX + 1 && table.hash == tables.hash32 && table.entries.Length == tables.n32
      && InRange(frameInfo) && frameInfo.dictId == cfg.expectedId
    }

    ghost predicate Closed()
      reads this`w, this`src, this`srcEnd, this`extDictLen, this`srcStreamOffset, this`content, this`all,
            table.entries
    {
      && ReadsAs(cfg, w, all, None)
      && (content == [] ==>
            && src == [] && srcEnd == 0 && extDictLen == 0 && srcStreamOffset == 0
            && TableBelow(table.entries[..], 1))
    }

    ghost predicate Open()
      reads this`w, this`src, this`srcStart, this`srcEnd, this`extDictOffset, this`extDictLen,
            this`srcStreamOffset, this`frameInfo, this`content, this`all, this`peer, table.entries
    {
      && !frameInfo.blockSize.Auto?
      && HoldsWindow(frameInfo, src, srcStart, extDictOffset, extDictLen, content)
      && ReadsAs(cfg, w, all, Some(peer)) && InStep(peer, frameInfo, content)
      && PositionsFit() && (content == [] ==> srcStreamOffset == 0 && srcEnd == |src|)
    }

    /** Stored positions are those of bytes in front of the next block, and all that the next block
        adds fit 32 bits. */
    ghost predicate PositionsFit()
      reads this`srcStart, this`extDictLen, this`srcStreamOffset, this`frameInfo, table.entries
      requires !frameInfo.blockSize.Auto?
    {
      && extDictLen <= srcStreamOffset
      && srcStreamOffset < REPOSITION_THRESHOLD + frameInfo.blockSize.Size()
      && TableBelow(table.entries[..], Max(1, srcStreamOffset + srcStart))
    }

    /** Everything accepted so far, whether it is in a block yet or not. */
    ghost function Accepted(): seq<byte>
      reads this`src, this`srcStart, this`srcEnd, this`all
      requires srcStart <= srcEnd <= |src|
    {
      all + src[srcStart..srcEnd]
    }

    /** The content of the current frame, whether it is in a block yet or not. */
    ghost function FrameContent(): seq<byte>
      reads this`src, this`srcStart, this`srcEnd, this`content
      requires srcStart <= srcEnd <= |src|
    {
      content + src[srcStart..srcEnd]
    }

    constructor (info: FrameInfo, dictionary: Option<Dictionary>, tables: Tables, xxh: seq<byte> -> nat)
      requires InRange(info) && tables.n16 > 0 && tables.n32 > 0
      requires dictionary.Some? ==> dictionary.value.id <= U32_MAX
      ensures Valid() && !failed && Accepted() == FrameContent() == [] && w == []
      ensures !isFrameOpen && !dataToFrameWritten && frameInfo.contentSize == info.contentSize
      ensures cfg.dict == (if dictionary.Some? then dictionary.value.bytes else []) && cfg.xxh == xxh
      ensures cfg.expectedId == if dictionary.Some? then Some(dictionary.value.id) else info.dictId
      ensures cfg.maxOutput == 0 && this.tables == tables && frameInfo == info.(dictId := cfg.expectedId)
      ensures fresh(table) && fresh(table.entries)
    {
      var id := if dictionary.Some? then Some(dictionary.value.id) else info.dictId;
      cfg := Config(if dictionary.Some? then dictionary.value.bytes else [], id, 0, xxh);
      this.tables := tables;
      table := new HashTable(tables.n32, U32_MAX + 1, tables.hash32);
      w, src, hashed, contentLen := [], [], [], 0;
      srcStart, srcEnd, extDictOffset, extDictLen, srcStreamOffset := 0, 0, 0, 0, 0;
      isFrameOpen, failed, dataToFrameWritten := false, false, false;
      frameInfo := info.(dictId := id);
      content, all, peer := [], [], Fresh(info);
      new;
      NothingWritten(cfg);
    }

    /** Settles the block size and writes the frame header. */
    method WriteFrameHeader(bufLen: nat)
      modifies this`w, this`frameInfo
      ensures frameInfo == Settled(old(frameInfo), bufLen) && w == old(w) + HeaderBytes(frameInfo, cfg.xxh)
    {
      hide HeaderBytes;
      if frameInfo.blockSize.Auto? {
        frameInfo := frameInfo.(blockSize := FromBufLength(bufLen));
      }
      var buffer := new byte[MAX_FRAME_INFO_SIZE](_ => 0);
      var size := WriteHeader(frameInfo, cfg.xxh, buffer);
      w := w + buffer[..size.value];
    }

    method ForgetContent()
      modifies this`contentLen, this`srcStreamOffset, this`src, this`srcStart, this`srcEnd, this`extDictLen,
               this`hashed, this`content
      ensures content == hashed == [] && contentLen == srcStreamOffset == 0
      ensures src == [] && srcStart == srcEnd == extDictLen == 0
    {
      contentLen, srcStreamOffset, src, srcStart, srcEnd, extDictLen, hashed := 0, 0, [], 0, 0, 0, [];
      content := [];
    }

    method ClearTable()
      requires table.Valid()
      modifies table.entries
      ensures table.Valid() && TableBelow(table.entries[..], 1)
    {
      table.Clear();
    }

    /** Forgets the stream of the frame before, if it had any content. */
    method ResetStream()
      requires Valid() && !isFrameOpen
      modifies this`contentLen, this`srcStreamOffset, this`src, this`srcStart, this`srcEnd, this`extDictLen,
               this`hashed, this`content, table.entries
      ensures Valid() && content == [] && srcStart == srcEnd == 0 && extDictLen == 0 && srcStreamOffset == 0
      ensures src == [] && TableBelow(table.entries[..], 1)
    {
      hide ReadsAs, Open, Settings, TableBelow, HashTable.Valid;
      if contentLen != 0 {
        ForgetContent();
        ClearTable();
      }
    }

    method BeginFrame(bufLen: nat)
      requires Valid() && !isFrameOpen
      modifies this, table.entries
      ensures Valid() && isFrameOpen && srcStart == srcEnd && FrameContent() == content == []
      ensures tables.n16 > 0 && tables.n32 > 0
      ensures all == old(all) && Accepted() == old(Accepted())
      ensures failed == old(failed) && dataToFrameWritten == old(dataToFrameWritten)
      ensures frameInfo == Settled(old(frameInfo), bufLen) && w == old(w) + HeaderBytes(frameInfo, cfg.xxh)
      ensures Inner() == Pristine(Plan(), frameInfo)
    {
      hide ReadsAs, IsTail, InStep, HoldsWindow, HeaderBytes, TableBelow, HashTable.Valid, Settled;
      ResetStream();
      FrameStarted(cfg, w, all, Settled(frameInfo, bufLen));
      WriteFrameHeader(bufLen);
      isFrameOpen := true;
      peer := Fresh(frameInfo);
      NothingYet(frameInfo, src, extDictOffset);
      ZeroTable(table.entries[..]);
    }

    // ----- one block

    /** Keeps the positions small: a stream may be of any length. */
    method RepositionTable()
      requires Valid() && isFrameOpen
      modifies this`srcStreamOffset, table.entries
      ensures Valid()
      ensures srcStreamOffset + frameInfo.blockSize.Size() + WINDOW_SIZE < REPOSITION_THRESHOLD
      ensures srcStreamOffset + srcEnd <= U32_MAX
      ensures Inner() == Moved(Plan(), old(Inner()))
    {
      hide ReadsAs, InStep, HoldsWindow, TableBelow, Repositioned, InRange, Closed;
      var max := frameInfo.blockSize.Size();
      WindowSmall(frameInfo, src, srcStart, extDictOffset, extDictLen, content);
      if srcStreamOffset + max + WINDOW_SIZE >= REPOSITION_THRESHOLD {
        RepositionedBelow(table.entries[..], srcStreamOffset, extDictLen, srcStart);
        table.Reposition((srcStreamOffset - extDictLen) % (U32_MAX + 1));
        srcStreamOffset := extDictLen;
      }
    }

    /** Compresses through the stream's table, against the history in the buffer. */
    method CompressThroughTable() returns (block: seq<byte>)
      requires Valid() && isFrameOpen
      requires srcStreamOffset + frameInfo.blockSize.Size() + WINDOW_SIZE < REPOSITION_THRESHOLD
      modifies table.entries
      ensures table.Valid() && TableBelow(table.entries[..], Max(1, srcStreamOffset + srcEnd))
      ensures block != [] && Holds(cfg, peer, block, src[srcStart..srcEnd])
      ensures var e := EncodeFrom(StreamOf(Plan(), Inner()), old(table.entries[..]), srcStart);
              WellFormed(e.block) && block == Print(e.block) && table.entries[..] == e.table
    {
      hide ReadsAs, InStep, HoldsWindow, Holds, EncodeFrom, Print, WellFormed, IsTail;
      WindowSmall(frameInfo, src, srcStart, extDictOffset, extDictLen, content);
      StreamWindow(frameInfo, src, srcStart, srcEnd, extDictOffset, extDictLen, content);
      var input := src[..srcEnd];
      var extDict := if extDictLen != 0 then src[extDictOffset..extDictOffset + extDictLen] else [];
      var c := Stream(input, extDict, srcStreamOffset, table.hash, U32_MAX + 1, extDictLen != 0, true, false, false);
      StreamBlockHolds(cfg, peer, frameInfo, content, c, table.entries[..], srcStart);
      PrintNonEmpty(EncodeFrom(c, table.entries[..], srcStart).block);
      var dst := new byte[MaxOutputSize(srcEnd - srcStart)];
      var output := new SliceSink(dst, 0);
      EmptySink(output);
      var size := CompressInternal(c, srcStart, output, table);
      block := dst[..size.value];
      assert block == output.Contents();
      assert input[srcStart..] == src[srcStart..srcEnd];
    }

    /** Compresses the buffered input: with the dictionary where there is no other history, against
        the history otherwise. */
    method CompressBlock() returns (block: seq<byte>)
      requires Valid() && isFrameOpen
      requires srcStreamOffset + frameInfo.blockSize.Size() + WINDOW_SIZE < REPOSITION_THRESHOLD
      modifies table.entries
      ensures table.Valid() && TableBelow(table.entries[..], Max(1, srcStreamOffset + srcEnd))
      ensures block != [] && Holds(cfg, peer, block, src[srcStart..srcEnd])
      ensures Packed(block, table.entries[..]) == Pack(Plan(), old(Inner()))
    {
      hide ReadsAs, InStep, HoldsWindow, Holds, OneShotBlock, Print, WellFormed, Encodes, EncodeFrom;
      if cfg.dict != [] && (!frameInfo.linked || contentLen == 0) {
        var data := src[srcStart..srcEnd];
        var dst := new byte[MaxOutputSize(|data|)];
        var output := new SliceSink(dst, 0);
        EmptySink(output);
        var size := CompressIntoSinkWithDict(data, output, cfg.dict, true, tables);
        block := dst[..size.value];
        assert block == output.Contents();
        PrintNonEmpty(OneShotBlock(data, cfg.dict, true, tables));
        DictBlockHolds(cfg, peer, frameInfo, content, block, data);
      } else {
        block := CompressThroughTable();
      }
    }

    /** Writes a block and its checksum. */
    method PutBlock(kind: BlockInfo, payload: seq<byte>)
      requires WriteBlockInfo(kind).Ok?
      modifies this`w
      ensures w == old(w) + BlockBytes(cfg, frameInfo, kind, payload)
    {
      hide Le, Hash32;
      var head := WriteBlockInfo(kind).value;
      ghost var was := w;
      w := w + head;
      w := w + payload;
      if frameInfo.blockChecksums {
        w := w + Le(Hash32(cfg, payload), 4);
      }
      assert w == was + BlockBytes(cfg, frameInfo, kind, payload);
    }

    /** Makes the block just written part of the history. */
    method AdvanceWindow()
      requires !frameInfo.blockSize.Auto? && HoldsWindow(frameInfo, src, srcStart, extDictOffset, extDictLen, content)
      requires srcStart < srcEnd <= |src| && srcEnd <= srcStart + frameInfo.blockSize.Size()
      requires extDictLen <= srcStreamOffset
      requires srcStreamOffset + frameInfo.blockSize.Size() + WINDOW_SIZE < REPOSITION_THRESHOLD
      requires TableBelow(table.entries[..], Max(1, srcStreamOffset + srcEnd))
      modifies this`srcStart, this`srcEnd, this`extDictOffset, this`extDictLen, this`srcStreamOffset, this`content
      ensures content == old(content) + old(src[srcStart..srcEnd])
      ensures HoldsWindow(frameInfo, src, srcStart, extDictOffset, extDictLen, content)
      ensures srcStart == srcEnd <= |src| && PositionsFit()
      ensures srcStreamOffset + srcStart == old(srcStreamOffset + srcEnd)
      ensures Inner() == Advanced(old(Inner()))
    {
      hide HoldsWindow, TableBelow, IsTail, InRange;
      var max := frameInfo.blockSize.Size();
      var len := srcEnd - srcStart;
      WindowSmall(frameInfo, src, srcStart, extDictOffset, extDictLen, content);
      ghost var data := src[srcStart..srcEnd];
      srcStart := srcStart + len;
      if frameInfo.linked {
        if srcStart >= max + WINDOW_SIZE {
          RewindKeepsWindow(frameInfo, src, old(srcStart), srcEnd, extDictOffset, extDictLen, content);
          extDictOffset := srcEnd - WINDOW_SIZE;
          extDictLen := WINDOW_SIZE;
          srcStreamOffset := srcStreamOffset + srcEnd;
          srcStart, srcEnd := 0, 0;
        } else {
          AdvanceKeepsWindow(frameInfo, src, old(srcStart), srcEnd, extDictOffset, extDictLen, content);
          if srcStart + extDictLen > WINDOW_SIZE {
            var delta := Min(extDictLen, srcStart + extDictLen - WINDOW_SIZE);
            extDictOffset := extDictOffset + delta;
            extDictLen := extDictLen - delta;
          }
        }
      } else {
        IndependentWindow(frameInfo, src, old(srcStart), extDictOffset, extDictLen, content, content + data);
        srcStart, srcEnd := 0, 0;
        srcStreamOffset := srcStreamOffset + len;
      }
      content := content + data;
    }

    /** Later blocks of a linked frame find the first one in the table, which the dictionary kept
        it out of. */
    method SeedFirstBlock(data: seq<byte>)
      requires table.Valid() && TableBelow(table.entries[..], Max(1, srcStreamOffset + srcEnd)) && |data| <= srcEnd
      modifies table.entries
      ensures table.Valid() && TableBelow(table.entries[..], Max(1, srcStreamOffset + srcEnd))
      ensures table.entries[..] ==
              if frameInfo.linked && cfg.dict != [] && contentLen == 0
              then Seeded(old(table.entries[..]), data, srcStreamOffset, table.hash, table.width, 0)
              else old(table.entries[..])
    {
      hide TableBelow, Seeded;
      if frameInfo.linked && cfg.dict != [] && contentLen == 0 {
        SeededBelow(table.entries[..], data, srcStreamOffset, table.hash, table.width, 0,
                    Max(1, srcStreamOffset + srcEnd));
        SeedTable(table, data, srcStreamOffset);
      }
    }

    /** Compresses the buffered input, with positions that fit, and leaves a table for what follows. */
    method PrepareBlock() returns (block: seq<byte>)
      requires Valid() && isFrameOpen
      modifies this`srcStreamOffset, table.entries
      ensures block != [] && Holds(cfg, peer, block, src[srcStart..srcEnd])
      ensures table.Valid() && TableBelow(table.entries[..], Max(1, srcStreamOffset + srcEnd))
      ensures extDictLen <= srcStreamOffset
      ensures srcStreamOffset + frameInfo.blockSize.Size() + WINDOW_SIZE < REPOSITION_THRESHOLD
      ensures var f := Moved(Plan(), old(Inner()));
              var p := Pack(Plan(), f);
              block == p.block && Inner() == f.(table := SeededTable(Plan(), f, p.table))
    {
      hide ReadsAs, InStep, HoldsWindow, Holds, TableBelow, InRange, HashTable.Valid, Moved, Pack, Seeded;
      RepositionTable();
      block := CompressBlock();
      SeedFirstBlock(src[srcStart..srcEnd]);
    }

    /** Writes `data`, as `block` if that is shorter, and counts it. */
    method SendBlock(data: seq<byte>, block: seq<byte>)
      requires ReadsAs(cfg, w, all, Some(peer)) && InStep(peer, frameInfo, content)
      requires 0 < |data| <= frameInfo.blockSize.Size() && block != [] && Holds(cfg, peer, block, data)
      modifies this`w, this`hashed, this`contentLen, this`all, this`peer
      ensures ReadsAs(cfg, w, all, Some(peer)) && InStep(peer, frameInfo, content + data) && all == old(all) + data
      ensures hashed == (if frameInfo.contentChecksum then old(hashed) + data else old(hashed))
      ensures contentLen == old(contentLen) + |data| && |w| <= |old(w)| + 8 + |data|
      ensures w == old(w) + SentBytes(cfg, frameInfo, data, block)
      ensures |w| == |old(w)| + 4 + Min(|data|, |block|) + ChecksumSize(frameInfo)
    {
      hide ReadsAs, InStep, Holds, BlockBytes;
      SentIsShorter(cfg, frameInfo, data, block, []);
      var kind, payload := Uncompressed(|data|), data;
      if |block| < |data| {
        kind, payload := Compressed(|block|), block;
      }
      InStepInfo(peer, frameInfo, content);
      FrameLockstep.BlockWritten(cfg, w, all, peer, kind, payload, data);
      StepForward(peer, frameInfo, content, data);
      PutBlock(kind, payload);
      BlockGrows(cfg, frameInfo, kind, payload);
      if frameInfo.contentChecksum {
        hashed := hashed + data;
      }
      contentLen := contentLen + |data|;
      peer := FrameFormat.Extend(Slide(peer), data);
      all := all + data;
    }

    /** Writes the buffered input as one block, which the decoder that has read everything before it
        reads as that input. */
    method WriteBlock()
      requires Valid() && isFrameOpen && srcStart < srcEnd
      modifies this, table.entries
      ensures Valid() && isFrameOpen && srcStart == srcEnd && all == old(Accepted())
      ensures content == old(FrameContent())
      ensures frameInfo == old(frameInfo) && failed == old(failed) && dataToFrameWritten == old(dataToFrameWritten)
      ensures |w| <= |old(w)| + 8 + old(srcEnd - srcStart)
      ensures var e := NextBlock(Plan(), old(Inner()));
              Inner() == e.f && w == old(w) + e.bytes
    {
      hide ReadsAs, InStep, HoldsWindow, Holds, TableBelow, InRange, HashTable.Valid, Slide, BlockBytes;
      hide Moved, Pack, SeededTable, Advanced, SentBytes;
      var data := src[srcStart..srcEnd];
      var block := PrepareBlock();
      InStepInfo(peer, frameInfo, content);
      SendBlock(data, block);
      AdvanceWindow();
      assert Inner() == NextBlock(Plan(), old(Inner())).f;
    }

    // ----- the writer

    /** Copies `data` behind what is buffered. */
    method CopyIn(data: seq<byte>)
      requires Valid() && isFrameOpen && srcEnd + |data| <= srcStart + frameInfo.blockSize.Size()
      modifies this`src, this`srcEnd
      ensures Valid() && src[srcStart..srcEnd] == old(src[srcStart..srcEnd]) + data
      ensures Inner() == WithInput(old(Inner()), data)
    {
      hide ReadsAs, InStep, HoldsWindow, TableBelow, InRange, HashTable.Valid, Sound, Overwritten;
      WithInputSound(Plan(), Inner(), data);
      CopyKeepsWindow(frameInfo, src, srcStart, srcEnd, data, extDictOffset, extDictLen, content);
      src := VecCopyOverwriting(src, srcEnd, data);
      srcEnd := srcEnd + |data|;
    }

    /** Copies as much of `buf` into the buffer as the room for the block holds. */
    method Fill(buf: seq<byte>) returns (n: nat)
      requires Valid() && isFrameOpen && srcEnd < srcStart + frameInfo.blockSize.Size() && buf != []
      modifies this`src, this`srcEnd
      ensures Valid() && 0 < n <= |buf| && n == Min(frameInfo.blockSize.Size() - old(srcEnd - srcStart), |buf|)
      ensures Inner() == WithInput(old(Inner()), buf[..n])
      ensures Accepted() == old(Accepted()) + buf[..n] && FrameContent() == old(FrameContent()) + buf[..n]
    {
      hide Consistent;
      var maxFillLen := frameInfo.blockSize.Size() - (srcEnd - srcStart);
      n := Min(maxFillLen, |buf|);
      ghost var buffered := src[srcStart..srcEnd];
      CopyIn(buf[..n]);
      Appended(all, buffered, buf[..n]);
      Appended(content, buffered, buf[..n]);
    }

    /** Buffers all of `buf`, writing a block whenever the room for it is full. */
    method Accept(buf: seq<byte>)
      requires Valid() && isFrameOpen
      modifies this, table.entries
      ensures Valid() && isFrameOpen && failed == old(failed)
      ensures Accepted() == old(Accepted()) + buf && FrameContent() == old(FrameContent()) + buf
      ensures frameInfo == old(frameInfo) && dataToFrameWritten == old(dataToFrameWritten)
      ensures var e := Taken(Plan(), old(Inner()), buf);
              Inner() == e.f && w == old(w) + e.bytes
    {
      hide Consistent, Taken, NextBlock, WithInput;
      ghost var goal, done := Taken(Plan(), Inner(), buf), [];
      PrependTwice([], [], goal);
      var rest := buf;
      while rest != []
        invariant Valid() && isFrameOpen && failed == old(failed)
        invariant Accepted() + rest == old(Accepted()) + buf && FrameContent() + rest == old(FrameContent()) + buf
        invariant frameInfo == old(frameInfo) && dataToFrameWritten == old(dataToFrameWritten)
        invariant goal == Prepend(done, Taken(Plan(), Inner(), rest)) && w == old(w) + done
        decreases |rest|, srcEnd - srcStart
      {
        TakenStep(Plan(), Inner(), rest);
        if srcEnd - srcStart == frameInfo.blockSize.Size() {
          ghost var e := NextBlock(Plan(), Inner());
          WriteBlock();
          PrependTwice(done, e.bytes, Taken(Plan(), e.f, rest));
          done := done + e.bytes;
        } else {
          ghost var accepted, inFrame := Accepted(), FrameContent();
          var n := Fill(rest);
          assert rest == rest[..n] + rest[n..];
          Appended(accepted, rest[..n], rest[n..]);
          Appended(inFrame, rest[..n], rest[n..]);
          rest := rest[n..];
        }
      }
      TakenStep(Plan(), Inner(), []);
    }

    /** Accepts all of `buf`. */
    method Write(buf: seq<byte>) returns (res: Result<nat, FrameError>)
      requires Valid()
      modifies this, table.entries
      ensures Valid()
      ensures old(failed) ==> res == Err(EncoderFailed) && failed && Accepted() == old(Accepted()) && w == old(w)
      ensures !old(failed) ==> res == Ok(|buf|) && !failed && Accepted() == old(Accepted()) + buf
      ensures !old(failed) ==>
                FrameContent() == (if buf != [] && !old(isFrameOpen) then [] else old(FrameContent())) + buf
      ensures !old(failed) ==> isFrameOpen == (old(isFrameOpen) || buf != [])
      ensures frameInfo.contentSize == old(frameInfo.contentSize) && dataToFrameWritten == old(dataToFrameWritten)
      ensures !old(failed) && old(isFrameOpen) ==>
                var e := Taken(Plan(), old(Inner()), buf);
                Inner() == e.f && w == old(w) + e.bytes && frameInfo == old(frameInfo)
      ensures !old(failed) && !old(isFrameOpen) && buf == [] ==> w == old(w) && frameInfo == old(frameInfo)
      ensures !old(failed) && !old(isFrameOpen) && buf != [] ==>
                && tables.n16 > 0 && tables.n32 > 0 && frameInfo == Settled(old(frameInfo), |buf|)
                && var e := FrameRun(Plan(), frameInfo, [buf]);
                   Inner() == e.f && w == old(w) + HeaderBytes(frameInfo, cfg.xxh) + e.bytes
    {
      hide Consistent, Sound, Taken, Settled, HeaderBytes, FrameRun;
      if failed {
        return Err(EncoderFailed);
      }
      failed := true;
      if !isFrameOpen && buf != [] {
        BeginFrame(|buf|);
        OnePiece(Plan(), frameInfo, buf);
      }
      if buf != [] {
        Accept(buf);
      } else if isFrameOpen {
        TakenStep(Plan(), Inner(), []);
      }
      failed := false;
      res := Ok(|buf|);
    }

    /** Writes what is buffered. */
    method Flush() returns (res: Result<(), FrameError>)
      requires Valid()
      modifies this, table.entries
      ensures Valid() && Accepted() == old(Accepted())
      ensures old(failed) ==> res == Err(EncoderFailed) && failed && w == old(w)
      ensures !old(failed) ==> res == Ok(()) && !failed && srcStart == srcEnd
      ensures !old(failed) ==> content == FrameContent() == old(FrameContent())
      ensures old(srcStart == srcEnd) ==> w == old(w)
      ensures isFrameOpen == old(isFrameOpen) && frameInfo == old(frameInfo)
      ensures dataToFrameWritten == old(dataToFrameWritten)
      ensures !old(failed) && isFrameOpen ==>
                var e := Flushed(Plan(), old(Inner()));
                Inner() == e.f && w == old(w) + e.bytes
    {
      hide Consistent, Sound, NextBlock;
      if failed {
        return Err(EncoderFailed);
      }
      failed := true;
      if srcStart != srcEnd {
        WriteBlock();
      }
      failed := false;
      res := Ok(());
    }

    /** Closes the frame, unless its declared content size is wrong. */
    method EndFrame() returns (res: Result<(), FrameError>)
      requires Valid() && isFrameOpen && srcStart == srcEnd
      modifies this`w, this`isFrameOpen
      ensures Accepted() == old(Accepted())
      ensures var expected := frameInfo.contentSize;
              if expected.Some? && expected.value != |content| then
                res == Err(ContentLengthError(expected.value, |content|)) && isFrameOpen && Valid()
              else
                res == Ok(()) && !isFrameOpen && Consistent() && w == old(w) + EndBytes(cfg, frameInfo, content)
    {
      hide ReadsAs, HoldsWindow, InRange, HashTable.Valid, InStep, Le, Hash32;
      InStepInfo(peer, frameInfo, content);
      NoHistory(frameInfo, src, srcStart, extDictOffset, extDictLen, content);
      var expected := frameInfo.contentSize;
      if expected.Some? && expected.value != contentLen {
        return Err(ContentLengthError(expected.value, contentLen));
      }
      FrameEnded(cfg, w, all, peer);
      ghost var was := w;
      w := w + WriteBlockInfo(EndMark).value;
      if frameInfo.contentChecksum {
        w := w + Le(Hash32(cfg, hashed), 4);
      }
      assert w == was + EndBytes(cfg, frameInfo, content);
      isFrameOpen := false;
      res := Ok(());
    }

    /** Completes the stream: closes the frame, or writes an empty one if there has been none.  It
        fails, and leaves the encoder failed, exactly when the frame's declared content size is not
        the size of what was written into it. */
    method TryFinish() returns (res: Result<(), FrameError>)
      requires Valid()
      modifies this, table.entries
      ensures Valid() && Accepted() == old(Accepted())
      ensures old(failed) ==> res == Err(EncoderFailed) && failed && w == old(w)
      ensures !old(failed) ==>
                var expected, n := old(frameInfo.contentSize), |old(FrameContent())|;
                res == if expected.Some? && expected.value != n && (old(isFrameOpen) || !old(dataToFrameWritten))
                       then Err(ContentLengthError(expected.value, n)) else Ok(())
      ensures res.Ok? ==> !failed && !isFrameOpen && srcStart == srcEnd && dataToFrameWritten
      ensures (failed <==> res.Err?) && frameInfo.contentSize == old(frameInfo.contentSize)
      ensures res.Ok? && old(isFrameOpen) ==>
                && frameInfo == old(frameInfo)
                && w == old(w) + Flushed(Plan(), old(Inner())).bytes + EndBytes(cfg, frameInfo, old(FrameContent()))
      ensures res.Ok? && !old(isFrameOpen) && old(dataToFrameWritten) ==> w == old(w) && frameInfo == old(frameInfo)
      ensures res.Ok? && !old(isFrameOpen) && !old(dataToFrameWritten) ==>
                && frameInfo == Settled(old(frameInfo), 0)
                && w == old(w) + HeaderBytes(frameInfo, cfg.xxh) + EndBytes(cfg, frameInfo, [])
    {
      hide Consistent, EndBytes, HeaderBytes, Settled, Sound, Flushed, Inner;
      res := Flush();
      if res.Err? || (!isFrameOpen && dataToFrameWritten) {
        return;
      }
      failed := true;
      if !isFrameOpen {
        BeginFrame(0);
      }
      res := EndFrame();
      if res.Ok? {
        dataToFrameWritten := true;
        failed := false;
      }
    }

    /** Between two writes: encoder and decoder each hold the end of the frame's content, at least a
        window of it, and the encoder's history lies behind the room for the next block. */
    lemma Lockstep()
      requires Valid() && isFrameOpen && frameInfo.linked
      ensures srcStart <= |src| && (extDictLen > 0 ==> extDictOffset + extDictLen <= |src|)
      ensures IsTail(WindowOf(src, srcStart, extDictOffset, extDictLen), content)
      ensures peer.content == content && IsTail(peer.ext + peer.prefix, content)
      ensures extDictLen > 0 ==> srcStart + frameInfo.blockSize.Size() <= extDictOffset
    {
    }

    /** What has been written so far can be read: all that was accepted, if it has been flushed. */
    lemma ReadsBack(limit: nat)
      requires Valid() && |all| <= limit
      ensures ReadFrames(Limited(cfg, limit), 0, w) == Content(all, if isFrameOpen then Some(UnexpectedEof) else None)
      ensures srcStart == srcEnd ==> all == Accepted()
    {
      hide ReadsAs, ReadFrames, HoldsWindow, InStep;
      if isFrameOpen {
        FlushedReads(cfg, w, all, peer, limit);
      } else {
        FinishedReads(cfg, w, all, limit);
      }
    }
  }
}
