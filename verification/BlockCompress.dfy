/** One-shot block compression, with and without a dictionary, and its round trip. */
module BlockCompress {
  import opened Core
  import opened BlockFormat
  import opened ReferenceDecoder
  import opened EncoderSpec
  import opened HashTables
  import opened Compress
  import opened Emit
  import opened Sink

  // ----- what a compressed stream decodes to

  /** The block for `input[pos..]` decodes to it on every window that covers the encoder's, and in
      every buffer that holds it. */
  lemma EncodedDecodes(c: Stream, t: Table, pos: nat, d: nat, w: seq<byte>, cap: nat)
    requires Valid(c) && pos <= |c.input| && FitsStart(c, t, pos)
    requires Covers(w, c.dict + c.input[..pos])
    requires d <= |w| && |w| + (|c.input| - pos) <= d + cap
    ensures WellFormed(EncodeFrom(c, t, pos).block)
    ensures Decode(Print(EncodeFrom(c, t, pos).block), 0, d, w, cap) == Done(w + c.input[pos..])
  {
    hide Covers, Run, Decode, EncodeFrom, Print, FitsStart;
    EncodeFromIsLossless(c, t, pos);
    var v := c.dict + c.input[..pos];
    assert c.dict + c.input == v + c.input[pos..];
    DecodePrinted(EncodeFrom(c, t, pos).block, v, c.input[pos..], d, w, cap);
  }

  /** `block` decodes to `content` with dictionary `dict`, in every buffer that holds it, and keeps
      the end-of-block rules. */
  ghost predicate Encodes(block: seq<byte>, dict: seq<byte>, content: seq<byte>) {
    && Parse(block, 0).Some? && Conforms(Parse(block, 0).value, |content|, false)
    && forall cap: nat :: |content| <= cap ==> Decode(block, 0, |dict|, dict, cap) == Done(dict + content)
  }

  /** A block that runs to `content` encodes it, for every window that covers its own. */
  lemma RunsEncodes(b: Block, v: seq<byte>, w: seq<byte>, content: seq<byte>)
    requires WellFormed(b) && Conforms(b, |content|, false) && Run(b, v) == Some(v + content) && Covers(w, v)
    ensures Encodes(Print(b), w, content)
  {
    hide Run, Covers, WellFormed, Print, Decode, Parse, Conforms;
    PrintParse(b);
    forall cap: nat | |content| <= cap
      ensures Decode(Print(b), 0, |w|, w, cap) == Done(w + content)
    {
      DecodePrinted(b, v, content, |w|, w, cap);
    }
  }

  // ----- dictionaries

  /** The part of a dictionary that the encoder uses. */
  function Trim(dict: seq<byte>): (r: seq<byte>)
    ensures |r| <= WINDOW_SIZE
  {
    if |dict| > WINDOW_SIZE then dict[|dict| - WINDOW_SIZE..] else dict
  }

  /** The encoder's own bound on what it compresses: twice the dictionary and the input fit a slice. */
  predicate InBounds(input: seq<byte>, dict: seq<byte>) {
    |input| + 2 * |Trim(dict)| <= ISIZE_MAX
  }

  lemma TrimCovers(dict: seq<byte>)
    ensures Covers(dict, Trim(dict)) && Covers(dict, [])
  {
  }

  /** And the trimmed part has all that they can reach. */
  lemma TrimKeepsReach(dict: seq<byte>)
    ensures Covers(Trim(dict), dict)
  {
  }

  /** The table after every third position of `bytes` has been stored, from `i` on. */
  function Seeded(t: Table, bytes: seq<byte>, base: nat, hash: seq<byte> -> nat, width: nat, i: nat): (r: Table)
    requires width > 0
    ensures |r| == |t|
    decreases |bytes| - i
  {
    if i + 8 > |bytes| then t
    else Seeded(Put(t, hash(bytes[i..i + 8]) % |t|, i + base, width), bytes, base, hash, width, i + 3)
  }

  lemma {:induction false} SeededBelow(t: Table, bytes: seq<byte>, base: nat, hash: seq<byte> -> nat,
                                       width: nat, i: nat, bound: nat)
    requires width > 0 && TableBelow(t, bound) && base + |bytes| <= bound
    ensures TableBelow(Seeded(t, bytes, base, hash, width, i), bound)
    decreases |bytes| - i
  {
    if i + 8 <= |bytes| {
      ModBelow(i + base, width);
      SeededBelow(Put(t, hash(bytes[i..i + 8]) % |t|, i + base, width), bytes, base, hash, width, i + 3, bound);
    }
  }

  /** Position `k` of `bytes` is stored, counting from `i`, and lies in `slot` of a table of `n` entries. */
  predicate Seed(bytes: seq<byte>, hash: seq<byte> -> nat, n: nat, i: nat, slot: nat, k: int) {
    n > 0 && i <= k && (k - i) % 3 == 0 && k + 8 <= |bytes| && hash(bytes[k..k + 8]) % n == slot
  }

  lemma SeedNext(bytes: seq<byte>, hash: seq<byte> -> nat, n: nat, i: nat, slot: nat, k: int)
    requires n > 0 && i + 8 <= |bytes|
    ensures Seed(bytes, hash, n, i, hash(bytes[i..i + 8]) % n, i)
    ensures Seed(bytes, hash, n, i, slot, k) <==>
              Seed(bytes, hash, n, i + 3, slot, k) || (k == i && hash(bytes[i..i + 8]) % n == slot)
  {
  }

  lemma PutExact(t: Table, slot: nat, val: nat, width: nat)
    requires slot < |t| && val < width
    ensures Put(t, slot, val, width) == t[slot := val]
  {
  }

  /** A slot holds what it held, or the place of one of the positions that lie in it. */
  lemma {:induction false} SeededFrom(t: Table, bytes: seq<byte>, base: nat, hash: seq<byte> -> nat,
                                      width: nat, i: nat, slot: nat)
    requires width > 0 && base + |bytes| <= width && slot < |t|
    ensures var v := Seeded(t, bytes, base, hash, width, i)[slot];
            v == t[slot] || Seed(bytes, hash, |t|, i, slot, v - base)
    decreases |bytes| - i
  {
    if i + 8 <= |bytes| {
      var here := hash(bytes[i..i + 8]) % |t|;
      PutExact(t, here, i + base, width);
      var t1 := Put(t, here, i + base, width);
      SeededFrom(t1, bytes, base, hash, width, i + 3, slot);
      var v := Seeded(t1, bytes, base, hash, width, i + 3)[slot];
      assert v == Seeded(t, bytes, base, hash, width, i)[slot];
      hide Seed, Seeded, Put;
      SeedNext(bytes, hash, |t|, i, slot, v - base);
    }
  }

  /** A slot in which positions lie holds the place of the last of them. */
  lemma {:induction false} SeededHolds(t: Table, bytes: seq<byte>, base: nat, hash: seq<byte> -> nat,
                                       width: nat, i: nat, slot: nat, k: nat)
    requires width > 0 && base + |bytes| <= width && Seed(bytes, hash, |t|, i, slot, k)
    ensures var v := Seeded(t, bytes, base, hash, width, i)[slot];
            k <= v - base && Seed(bytes, hash, |t|, i, slot, v - base)
    decreases |bytes| - i
  {
    var here := hash(bytes[i..i + 8]) % |t|;
    PutExact(t, here, i + base, width);
    var t1 := Put(t, here, i + base, width);
    var v := Seeded(t1, bytes, base, hash, width, i + 3)[slot];
    assert v == Seeded(t, bytes, base, hash, width, i)[slot];
    SeedAhead(bytes, hash, |t|, i, slot, k);
    hide Seed, Seeded, Put;
    SeedNext(bytes, hash, |t|, i, slot, k);
    SeedNext(bytes, hash, |t|, i, slot, v - base);
    if Seed(bytes, hash, |t|, i + 3, slot, k) {
      SeededHolds(t1, bytes, base, hash, width, i + 3, slot, k);
    } else {
      SeededFrom(t1, bytes, base, hash, width, i + 3, slot);
      SeedAhead(bytes, hash, |t|, i + 3, slot, v - base);
    }
  }

  lemma SeedAhead(bytes: seq<byte>, hash: seq<byte> -> nat, n: nat, i: nat, slot: nat, k: int)
    ensures Seed(bytes, hash, n, i, slot, k) ==> i <= k
  {
  }

  /** The table holds the position of every third byte, or a later one that has displaced it. */
  ghost predicate HoldsSeeds(t: seq<nat>, bytes: seq<byte>, base: nat, hash: seq<byte> -> nat) {
    |t| > 0 && forall k :: 0 <= k && k % 3 == 0 && k + 8 <= |bytes| ==>
      base + k <= t[hash(bytes[k..k + 8]) % |t|] < base + |bytes|
  }

  lemma SeedsHeld(t: Table, bytes: seq<byte>, base: nat, hash: seq<byte> -> nat, width: nat)
    requires width > 0 && base + |bytes| <= width
    ensures HoldsSeeds(Seeded(t, bytes, base, hash, width, 0), bytes, base, hash)
  {
    hide Seeded;
    forall k | 0 <= k && k % 3 == 0 && k + 8 <= |bytes|
      ensures base + k <= Seeded(t, bytes, base, hash, width, 0)[hash(bytes[k..k + 8]) % |t|] < base + |bytes|
    {
      SeededHolds(t, bytes, base, hash, width, 0, hash(bytes[k..k + 8]) % |t|, k);
    }
  }

  /** Stores every third position of `bytes`, the first of which is position `base`. */
  method SeedTable(table: HashTable, bytes: seq<byte>, base: nat)
    requires table.Valid()
    modifies table.entries
    ensures table.Valid()
    ensures table.entries[..] == Seeded(old(table.entries[..]), bytes, base, table.hash, table.width, 0)
    ensures base + |bytes| <= table.width ==> HoldsSeeds(table.entries[..], bytes, base, table.hash)
  {
    hide HoldsSeeds;
    if base + |bytes| <= table.width {
      SeedsHeld(table.entries[..], bytes, base, table.hash, table.width);
    }
    var i := 0;
    ghost var goal := Seeded(table.entries[..], bytes, base, table.hash, table.width, 0);
    while i + 8 <= |bytes|
      invariant table.Valid()
      invariant goal == Seeded(table.entries[..], bytes, base, table.hash, table.width, i)
      decreases |bytes| - i
    {
      table.PutAt(table.Slot(bytes[i..i + 8]), i + base);
      i := i + 3;
    }
  }

  function Empty(n: nat): seq<nat> {
    seq(n, _ => 0)
  }

  // ----- one call, one table

  /** The stream of a single call: dictionary first, then the input. */
  function OneShot(input: seq<byte>, dict: seq<byte>, useDict: bool, wide: bool, hash: seq<byte> -> nat): Stream {
    Stream(input, dict, |dict|, hash, if wide then U32_MAX + 1 else U16_MAX + 1, useDict, useDict, false, !wide)
  }

  lemma OneShotDecodes(input: seq<byte>, dict: seq<byte>, useDict: bool, wide: bool, hash: seq<byte> -> nat,
                       n: nat, w: seq<byte>)
    requires n > 0 && |dict| <= WINDOW_SIZE && |dict| + |input| + |dict| <= ISIZE_MAX && Covers(w, dict)
    requires (!useDict ==> dict == []) && (!wide ==> |dict| + |input| <= MAX_DISTANCE + 1)
    ensures var c := OneShot(input, dict, useDict, wide, hash);
            var t := Seeded(Empty(n), dict, 0, hash, c.width, 0);
            && Valid(c) && FitsStart(c, t, 0) && WellFormed(EncodeFrom(c, t, 0).block)
            && Encodes(Print(EncodeFrom(c, t, 0).block), w, input)
  {
    var c := OneShot(input, dict, useDict, wide, hash);
    SeededBelow(Empty(n), dict, 0, hash, c.width, 0, Max(1, |dict|));
    var t := Seeded(Empty(n), dict, 0, hash, c.width, 0);
    EncodeFromIsLossless(c, t, 0);
    assert c.dict + c.input[..0] == dict;
    hide EncodeFrom;
    RunsEncodes(EncodeFrom(c, t, 0).block, dict, w, input);
  }

  /** The hash tables of a build: their sizes and hash functions. */
  datatype Tables = Tables(n16: nat, hash16: seq<byte> -> nat, n32: nat, hash32: seq<byte> -> nat)

  /** The block that a single call writes: with 16-bit positions when dictionary and input are
      short, with 32-bit positions otherwise. */
  function OneShotBlock(input: seq<byte>, dict: seq<byte>, useDict: bool, tables: Tables): Block
    requires tables.n16 > 0 && tables.n32 > 0
  {
    var used := if useDict && MINMATCH <= |dict| then dict else [];
    var wide := |used| + |input| >= U16_MAX;
    var n, hash := if wide then tables.n32 else tables.n16, if wide then tables.hash32 else tables.hash16;
    var c := OneShot(input, Trim(used), used != [], wide, hash);
    EncodeFrom(c, Seeded(Empty(n), Trim(used), 0, hash, c.width, 0), 0).block
  }

  method InitDict(dict: seq<byte>, n: nat, width: nat, hash: seq<byte> -> nat) returns (table: HashTable,
                  trimmed: seq<byte>)
    requires n > 0 && 0 < width <= U32_MAX + 1
    ensures fresh(table) && fresh(table.entries) && table.Valid() && table.hash == hash && table.width == width
    ensures trimmed == Trim(dict)
    ensures table.entries[..] == Seeded(Empty(n), trimmed, 0, hash, width, 0)
    ensures |trimmed| <= width ==> HoldsSeeds(table.entries[..], trimmed, 0, hash)
  {
    hide Seeded, HoldsSeeds;
    table := new HashTable(n, width, hash);
    trimmed := if |dict| > WINDOW_SIZE then dict[|dict| - WINDOW_SIZE..] else dict;
    SeedTable(table, trimmed, 0);
  }

  /** Compresses `input` with a table of its own. */
  method CompressOnce(input: seq<byte>, output: SliceSink, dict: seq<byte>, useDict: bool, wide: bool, n: nat,
                      hash: seq<byte> -> nat)
    returns (r: Result<nat, CompressError>)
    requires output.Valid() && n > 0 && InBounds(input, dict)
    requires (!useDict ==> dict == []) && (!wide ==> |dict| + |input| < U16_MAX)
    modifies output, output.output
    ensures output.Valid()
    ensures r.Err? <==> output.output.Length - old(output.pos) < MaxOutputSize(|input|)
    ensures r.Err? ==> r.error == CompressedOutputTooSmall && output.pos == old(output.pos)
    ensures r.Err? ==> output.output[..] == old(output.output[..])
    ensures var c := OneShot(input, Trim(dict), useDict, wide, hash);
            var b := EncodeFrom(c, Seeded(Empty(n), Trim(dict), 0, hash, c.width, 0), 0).block;
            r.Ok? ==>
              && WellFormed(b) && r.value == |Print(b)|
              && output.Contents() == old(output.Contents()) + Print(b)
              && Encodes(Print(b), dict, input)
  {
    hide Covers, HoldsSeeds;
    var width := if wide then U32_MAX + 1 else U16_MAX + 1;
    var table, trimmed := InitDict(dict, n, width, hash);
    TrimCovers(dict);
    var c := OneShot(input, trimmed, useDict, wide, hash);
    OneShotDecodes(input, trimmed, useDict, wide, hash, n, dict);
    r := CompressInternal(c, 0, output, table);
  }

  /** Compresses `input` into `output`, with `dict` as dictionary when `useDict`; the result
      decodes, with the same untrimmed dictionary, to `input`. */
  method CompressIntoSinkWithDict(input: seq<byte>, output: SliceSink, dict: seq<byte>, useDict: bool, tables: Tables)
    returns (r: Result<nat, CompressError>)
    requires output.Valid() && tables.n16 > 0 && tables.n32 > 0 && InBounds(input, dict)
    requires useDict || dict == []
    modifies output, output.output
    ensures output.Valid()
    ensures r.Err? <==> output.output.Length - old(output.pos) < MaxOutputSize(|input|)
    ensures r.Err? ==> r.error == CompressedOutputTooSmall && output.pos == old(output.pos)
    ensures r.Err? ==> output.output[..] == old(output.output[..])
    ensures r.Ok? ==>
              var b := OneShotBlock(input, dict, useDict, tables);
              && WellFormed(b) && r.value == |Print(b)|
              && output.Contents() == old(output.Contents()) + Print(b)
              && Encodes(Print(b), dict, input)
    decreases useDict
  {
    if useDict && |dict| < MINMATCH {
      r := CompressIntoSinkWithDict(input, output, [], false, tables);
      if r.Ok? {
        ShortDictDecodes(input, dict, tables);
      }
      return;
    }
    if |dict| + |input| < U16_MAX {
      r := CompressOnce(input, output, dict, useDict, false, tables.n16, tables.hash16);
    } else {
      r := CompressOnce(input, output, dict, useDict, true, tables.n32, tables.hash32);
    }
  }

  lemma ShortDictDecodes(input: seq<byte>, dict: seq<byte>, tables: Tables)
    requires tables.n16 > 0 && tables.n32 > 0 && InBounds(input, dict)
    requires |dict| < MINMATCH
    ensures OneShotBlock(input, dict, true, tables) == OneShotBlock(input, [], false, tables)
    ensures var b := OneShotBlock(input, [], false, tables);
            WellFormed(b) && Encodes(Print(b), dict, input)
  {
    TrimCovers(dict);
    var wide := |input| >= U16_MAX;
    OneShotDecodes(input, [], false, wide, if wide then tables.hash32 else tables.hash16,
                   if wide then tables.n32 else tables.n16, dict);
  }

  // ----- calls on a reused compressor

  /** One call: its input and the size of its output buffer. */
  datatype Call = Call(input: seq<byte>, room: nat)
}
