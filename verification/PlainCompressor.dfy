/**
  The reusable compressor without dictionary.  Small inputs reuse the table: each call's
  positions start `WINDOW_SIZE` above everything stored before, so what earlier calls left
  behind is below the current input and never taken for a position of it.
 */
module PlainCompressors {
  import opened Core
  import opened BlockFormat
  import opened ReferenceDecoder
  import opened EncoderSpec
  import opened HashTables
  import opened Compress
  import opened BlockCompress
  import opened Emit
  import opened Sink

  const EPOCH_THRESHOLD: nat := 1024

  /** The stream of one call at stream offset `off`. */
  function PlainStream(input: seq<byte>, off: nat, hash: seq<byte> -> nat): Stream {
    Stream(input, [], off, hash, U32_MAX + 1, false, off > 0, false, off > 0 || |input| <= MAX_DISTANCE + 1)
  }

  /** The stream offset of a call, and whether it clears the table. */
  datatype Epoch = Epoch(off: nat, clear: bool)

  function NextEpoch(streamOffset: nat, len: nat): (e: Epoch)
    ensures e.clear ==> e.off == 0
  {
    if len > EPOCH_THRESHOLD || streamOffset + len + MAX_DISTANCE + 1 > U32_MAX then Epoch(0, true)
    else Epoch(streamOffset, false)
  }

  class PlainCompressor {
    const table: HashTable
    var streamOffset: nat

    /** Everything in the table is below the next epoch. */
    ghost predicate Valid()
      reads this, table.entries
    {
      table.Valid() && table.width == U32_MAX + 1 && TableBelow(table.entries[..], Max(1, streamOffset))
    }

    constructor (n: nat, hash: seq<byte> -> nat)
      requires n > 0
      ensures Valid() && fresh(table.entries) && streamOffset == 0 && table.hash == hash
      ensures table.entries.Length == n
    {
      table := new HashTable(n, U32_MAX + 1, hash);
      streamOffset := 0;
    }

    /** Chooses the stream offset of a call, and moves the next epoch behind the call's window. */
    method PreparePlainTable(inputLen: nat) returns (offset: nat)
      requires Valid() && inputLen <= ISIZE_MAX
      modifies this, table.entries
      ensures table.Valid() && TableBelow(table.entries[..], Max(1, offset))
      ensures offset == NextEpoch(old(streamOffset), inputLen).off <= U32_MAX
      ensures offset > 0 ==> inputLen <= EPOCH_THRESHOLD
      ensures table.entries[..] == if NextEpoch(old(streamOffset), inputLen).clear
                                   then Empty(table.entries.Length) else old(table.entries[..])
      ensures streamOffset == offset + inputLen + WINDOW_SIZE
    {
      if inputLen > EPOCH_THRESHOLD {
        table.Clear();
        streamOffset := inputLen + MAX_DISTANCE + 1;
        return 0;
      }
      offset := streamOffset;
      var next := offset + inputLen + (MAX_DISTANCE + 1);
      if next <= U32_MAX {
        streamOffset := next;
      } else {
        table.Clear();
        streamOffset := inputLen + MAX_DISTANCE + 1;
        offset := 0;
      }
    }

    /** Compresses `input` into a block that decodes to it without any history: no earlier message
        is needed. */
    method CompressInto(input: seq<byte>, output: array<byte>) returns (r: Result<nat, CompressError>)
      requires Valid() && |input| <= ISIZE_MAX
      modifies this, table.entries, output
      ensures Valid() && streamOffset == NextEpoch(old(streamOffset), |input|).off + |input| + WINDOW_SIZE
      ensures r.Err? <==> output.Length < MaxOutputSize(|input|)
      ensures var epoch := NextEpoch(old(streamOffset), |input|);
              var t := if epoch.clear then Empty(table.entries.Length) else old(table.entries[..]);
              var b := EncodeFrom(PlainStream(input, epoch.off, table.hash), t, 0).block;
              r.Ok? ==> WellFormed(b) && r.value == |Print(b)| <= output.Length && output[..r.value] == Print(b)
      ensures r.Ok? ==> Encodes(output[..r.value], [], input)
    {
      hide WellFormed, Print, EncodeFrom, Encodes, Conforms, Run;
      var offset := PreparePlainTable(|input|);
      var c := PlainStream(input, offset, table.hash);
      ghost var t := table.entries[..];
      EncodeFromIsLossless(c, t, 0);
      PlainDecodes(c, t);
      var sink := new SliceSink(output, 0);
      r := CompressInternal(c, 0, sink, table);
    }
  }

  lemma PlainDecodes(c: Stream, t: Table)
    requires Valid(c) && c.dict == [] && FitsStart(c, t, 0)
    ensures WellFormed(EncodeFrom(c, t, 0).block)
    ensures Encodes(Print(EncodeFrom(c, t, 0).block), [], c.input)
  {
    hide EncodeFrom, FitsStart, Print, Decode;
    EncodeFromIsLossless(c, t, 0);
    var none: seq<byte> := [];
    assert c.dict + c.input[..0] == none && none + c.input == c.input;
    assert Covers(none, none);
    RunsEncodes(EncodeFrom(c, t, 0).block, none, none, c.input);
  }

  /** Across any sequence of calls on one compressor, every block decodes on its own. */
  method CompressEach(n: nat, hash: seq<byte> -> nat, messages: seq<seq<byte>>) returns (blocks: seq<seq<byte>>)
    requires n > 0 && forall i :: 0 <= i < |messages| ==> |messages[i]| <= ISIZE_MAX
    ensures |blocks| == |messages|
    ensures forall i :: 0 <= i < |messages| ==> Encodes(blocks[i], [], messages[i])
  {
    hide Encodes, EncodeFrom, Print, WellFormed, TableBelow;
    blocks := [];
    var c := new PlainCompressor(n, hash);
    for i := 0 to |messages|
      invariant fresh(c) && fresh(c.table.entries) && c.Valid() && |blocks| == i
      invariant forall k :: 0 <= k < i ==> Encodes(blocks[k], [], messages[k])
    {
      var output := new byte[MaxOutputSize(|messages[i]|)];
      var len := c.CompressInto(messages[i], output);
      blocks := blocks + [output[..len.value]];
    }
  }
}
