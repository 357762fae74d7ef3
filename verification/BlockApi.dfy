/** The one-shot functions on whole blocks, and what they do together. */
module BlockApi {
  import opened Core
  import opened BlockFormat
  import opened ReferenceDecoder
  import opened DecodeErrors
  import opened Decompress
  import opened Emit
  import opened Sink
  import opened BlockCompress

  /** Compresses `input` into `output`, with `dict` as dictionary when `useDict`. */
  method CompressInto(input: seq<byte>, output: array<byte>, dict: seq<byte>, useDict: bool, tables: Tables)
    returns (r: Result<nat, CompressError>)
    requires tables.n16 > 0 && tables.n32 > 0 && InBounds(input, dict)
    requires useDict || dict == []
    modifies output
    ensures r.Err? <==> output.Length < MaxOutputSize(|input|)
    ensures r.Err? ==> r.error == CompressedOutputTooSmall && output[..] == old(output[..])
    ensures r.Ok? ==> r.value <= output.Length && Encodes(output[..r.value], dict, input)
  {
    hide OneShotBlock, Print, WellFormed, Encodes;
    var sink := new SliceSink(output, 0);
    r := CompressIntoSinkWithDict(input, sink, dict, useDict, tables);
    if r.Ok? {
      ghost var block := Print(OneShotBlock(input, dict, useDict, tables));
      assert output[..r.value] == block;
    }
  }

  /** Compresses `input` into a buffer of the promised size, which never runs out. */
  method Compress(input: seq<byte>, dict: seq<byte>, useDict: bool, tables: Tables) returns (block: seq<byte>)
    requires tables.n16 > 0 && tables.n32 > 0 && InBounds(input, dict)
    requires useDict || dict == []
    ensures Encodes(block, dict, input) && |block| <= MaxOutputSize(|input|)
  {
    hide Encodes;
    var compressed := new byte[MaxOutputSize(|input|)](_ => 0);
    var len := CompressInto(input, compressed, dict, useDict, tables);
    block := compressed[..len.value];
  }

  /** Appends what `input` decodes to, at most `maxSize` bytes of it; after an error, nothing. */
  method DecompressAppend(input: seq<byte>, output: seq<byte>, maxSize: nat, dict: seq<byte>, useDict: bool)
    returns (r: Result<nat, DecompressError>, output': seq<byte>)
    requires (useDict || dict == []) && maxSize <= ISIZE_MAX
    ensures match Decode(input, 0, |dict|, dict, maxSize)
            case Failed(_, e) => r == Err(e) && output' == output
            case Done(w) => r == Ok(|w| - |dict|) && output' == output + w[|dict|..]
    ensures r.Err? ==> Explained(r.error, input, 0, 0, |dict|, maxSize)
  {
    hide Decode, Explained;
    var added := new byte[maxSize](_ => 0);
    var pos: nat;
    assert dict + added[..0] == dict;
    r, pos := DecompressBody(input, added, maxSize, 0, dict, useDict);
    assert (dict + added[..pos])[|dict|..] == added[..pos];
    output' := output + if r.Ok? then added[..r.value] else [];
  }

  /** A block compressed on its own comes back whole, with the same untrimmed dictionary and a limit
      that is not below its size, wherever it is appended. */
  method RoundTrip(input: seq<byte>, dict: seq<byte>, useDict: bool, tables: Tables, output: seq<byte>, maxSize: nat)
    returns (r: Result<nat, DecompressError>, output': seq<byte>)
    requires tables.n16 > 0 && tables.n32 > 0 && InBounds(input, dict)
    requires (useDict || dict == []) && |input| <= maxSize <= ISIZE_MAX
    ensures r == Ok(|input|) && output' == output + input
  {
    hide Decode;
    var block := Compress(input, dict, useDict, tables);
    r, output' := DecompressAppend(block, output, maxSize, dict, useDict);
    assert (dict + input)[|dict|..] == input;
  }
}
