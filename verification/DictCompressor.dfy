/**
  The reusable dictionary compressor.  Its main table is not cleared between small inputs:
  positions of each call start at a new `mainBase`, above everything stored before.  What a
  call writes is proved to depend on the dictionary and the input alone.
 */
module DictCompressors {
  import opened Core
  import opened BlockFormat
  import opened MatchFinder
  import opened EncoderSpec
  import opened DictEncoderSpec
  import opened SearchCost
  import opened HashTables
  import opened Compress
  import opened BlockCompress
  import opened Emit
  import opened Sink

  const DICT_READONLY_LIMIT: nat := 256
  const DICT_EPOCH_THRESHOLD: nat := 1024

  /** The tables belong together and to the stream. */
  ghost predicate Dual(c: Stream, table: HashTable, pristine: HashTable, base: nat)
    reads table.entries, pristine.entries
  {
    && Valid(c) && c.readonly && c.width == U16_MAX + 1 && Owns(c, table) && Owns(c, pristine)
    && table.entries != pristine.entries && table.entries.Length == pristine.entries.Length
    && base + |c.input| <= U16_MAX
  }

  /** Stores input position `i` at `base + i`. */
  method NoteAt(c: Stream, table: HashTable, pristine: HashTable, base: nat, i: nat, bytes: seq<byte>, ghost bound: nat)
    requires Dual(c, table, pristine, base) && i + 8 <= |c.input| && bytes == c.input[i..i + 8]
    requires TableBelow(table.entries[..], base + bound) && i < bound
    modifies table.entries
    ensures Dual(c, table, pristine, base) && TableBelow(table.entries[..], base + bound)
    ensures View(table.entries[..], base) == Note(c, View(old(table.entries[..]), base), i)
  {
    ViewOfPut(table.entries[..], base, table.Slot(bytes), i);
    table.PutAt(table.Slot(bytes), i + base);
  }

  /** Tests the two candidates of one position. */
  method TestDual(c: Stream, cur: nat, next: nat, base: nat, mainCandidate: nat, dictCandidate: nat)
    returns (r: Option<Hit>)
    requires Valid(c) && cur < next && cur + 4 <= |c.input| && next + 4 <= |c.input|
    requires base <= U16_MAX && mainCandidate < base + cur && mainCandidate <= U32_MAX && dictCandidate <= U32_MAX
    requires c.readonly
    ensures r == DualProbe(c, cur, next, if mainCandidate >= base then mainCandidate - base else -1, dictCandidate)
  {
    var mainPos := WrappingSub(mainCandidate, base);
    if mainCandidate >= base && mainPos < next {
      if c.input[mainPos..mainPos + 4] == c.input[cur..cur + 4] {
        return Some(Hit((cur - mainPos) % (U16_MAX + 1), mainPos, false));
      }
    }
    if dictCandidate + 4 <= |c.dict| {
      if c.dict[dictCandidate..dictCandidate + 4] == c.input[cur..cur + 4] {
        return Some(Hit((c.off + cur - dictCandidate) % (U16_MAX + 1), dictCandidate, true));
      }
    }
    r := None;
  }

  /** One step of the search, on the table as it is. */
  lemma SearchStep(c: Stream, pristine: seq<nat>, entries: seq<nat>, base: nat, cur: nat, misses: nat,
                   main: nat, other: nat)
    requires |pristine| == |entries| > 0 && LZ4_MIN_LENGTH <= |c.input| && SKIP_SHIFT <= misses
    requires cur + misses / SKIP_SHIFT <= |c.input| - MFLIMIT + 1
    requires main == entries[SlotOf(c, |entries|, cur)] && other == pristine[SlotOf(c, |entries|, cur)]
    ensures var slots, next := View(entries, base), cur + misses / SKIP_SHIFT;
            var hit := DualProbe(c, cur, next, if main >= base then main - base else -1, other);
            var found := DualSearch(c, pristine, slots, cur, misses);
            var probes := DualProbes(c, pristine, slots, cur, misses);
            if hit.Some? then
              found == DualFoundAt(Note(c, slots, cur), cur, hit.value) && probes == 1
            else
              && found == DualSearch(c, pristine, Note(c, slots, cur), next, misses + 1)
              && probes == 1 + DualProbes(c, pristine, Note(c, slots, cur), next, misses + 1)
  {
    hide DualProbe, Note, SlotOf;
  }

  lemma SearchEnds(c: Stream, pristine: seq<nat>, slots: Slots, cur: nat, misses: nat)
    requires |pristine| == |slots| && LZ4_MIN_LENGTH <= |c.input| && SKIP_SHIFT <= misses
    requires cur + misses / SKIP_SHIFT > |c.input| - MFLIMIT + 1
    ensures DualSearch(c, pristine, slots, cur, misses) == DualMissed(slots)
    ensures DualProbes(c, pristine, slots, cur, misses) == 0
  {
  }

  /** The search loop over both tables; `probes` counts the positions it looks up. */
  method FindDual(c: Stream, table: HashTable, pristine: HashTable, base: nat, start: nat, bytes: seq<byte>)
    returns (r: Option<Start>, ghost probes: nat)
    requires Dual(c, table, pristine, base) && LZ4_MIN_LENGTH <= |c.input|
    requires TableBelow(table.entries[..], base + start) && start <= |c.input|
    requires start + MFLIMIT <= |c.input| ==> bytes == c.input[start..start + 8]
    modifies table.entries
    ensures Dual(c, table, pristine, base)
    ensures match DualSearch(c, pristine.entries[..], View(old(table.entries[..]), base), start, SKIP_SHIFT)
            case DualMissed(slots) => r == None && View(table.entries[..], base) == slots
            case DualFoundAt(slots, cur, hit) => r == Some(Start(cur, hit)) && View(table.entries[..], base) == slots
    ensures TableBelow(table.entries[..], base + if r.Some? then r.value.cur + 1 else |c.input|)
    ensures probes == DualProbes(c, pristine.entries[..], View(old(table.entries[..]), base), start, SKIP_SHIFT)
    ensures if r.None? then probes * (probes + 1) <= 16 * (|c.input| - start)
            else (probes - 1) * probes <= 16 * (r.value.cur - start)
  {
    hide DualProbe, DualSearch, DualProbes, Note, Valid, TableBelow, View;
    var cur, misses, forward := start, SKIP_SHIFT, bytes;
    probes := 0;
    ghost var total := DualProbes(c, pristine.entries[..], View(table.entries[..], base), start, SKIP_SHIFT);
    DualProbesBounded(c, pristine.entries[..], View(table.entries[..], base), start);
    ghost var goal := DualSearch(c, pristine.entries[..], View(table.entries[..], base), start, SKIP_SHIFT);
    while true
      invariant Dual(c, table, pristine, base) && SKIP_SHIFT <= misses && start <= cur <= |c.input|
      invariant cur + MFLIMIT <= |c.input| ==> forward == c.input[cur..cur + 8]
      invariant TableBelow(table.entries[..], base + cur)
      invariant goal == DualSearch(c, pristine.entries[..], View(table.entries[..], base), cur, misses)
      invariant total == probes + DualProbes(c, pristine.entries[..], View(table.entries[..], base), cur, misses)
      decreases |c.input| - cur
    {
      var step := misses / SKIP_SHIFT;
      misses := misses + 1;
      var next := cur + step;
      if next > |c.input| - MFLIMIT + 1 {
        BelowLater(table.entries[..], base + cur, base + |c.input|);
        SearchEnds(c, pristine.entries[..], View(table.entries[..], base), cur, misses - 1);
        return None, probes;
      }
      probes := probes + 1;
      BelowLater(table.entries[..], base + cur, base + cur + 1);
      var slot := table.Slot(forward);
      var here := forward;
      forward := c.input[next..next + 8];
      var mainCandidate := table.GetAt(slot);
      CandidateBelowBase(table.entries[..], slot, base + cur);
      SearchStep(c, pristine.entries[..], table.entries[..], base, cur, misses - 1, mainCandidate,
                 pristine.entries[slot]);
      NoteAt(c, table, pristine, base, cur, here, cur + 1);
      var dictCandidate := pristine.GetAt(slot);
      var hit := TestDual(c, cur, next, base, mainCandidate, dictCandidate);
      if hit.Some? {
        return Some(Start(cur, hit.value)), probes;
      }
      BelowLater(table.entries[..], base + (cur + 1), base + next);
      cur := next;
    }
  }

  lemma BelowLater(t: seq<nat>, bound: nat, later: nat)
    requires TableBelow(t, bound) && bound <= later
    ensures TableBelow(t, later)
  {
  }

  lemma CandidateBelowBase(t: seq<nat>, slot: nat, bound: nat)
    requires TableBelow(t, bound) && slot < |t|
    ensures t[slot] < bound
  {
  }

  // ----- the compress loop

  ghost predicate Left(done: seq<byte>, e: DualEncoding, whole: seq<byte>) {
    WellFormed(e.block) && done + Print(e.block) == whole
  }

  lemma LeftBehind(c: Stream, pristine: seq<nat>, slots: Slots, cur: nat, literalStart: nat, hit: Hit,
                   done: seq<byte>, whole: seq<byte>)
    requires |pristine| == |slots| && LZ4_MIN_LENGTH <= |c.input|
    requires literalStart <= cur && cur + MFLIMIT <= |c.input| && InSource(c, hit)
    requires Left(done, DualExtend(c, pristine, slots, cur, literalStart, hit), whole)
    ensures hit.offset <= MAX_DISTANCE && |done| + |Piece(c, cur, literalStart, hit)| <= |whole|
    ensures var end := MatchSpan(c.dict, c.input, cur, literalStart, hit).end;
            Left(done + Piece(c, cur, literalStart, hit),
                 DualEncode(c, pristine, Note(c, slots, end - 2), end, end), whole)
  {
    hide MatchSpan, PrintSequence, DualEncode, Note;
    var s := MatchSpan(c.dict, c.input, cur, literalStart, hit);
    var e := DualEncode(c, pristine, Note(c, slots, s.end - 2), s.end, s.end);
    assert DualExtend(c, pristine, slots, cur, literalStart, hit).block
        == More(c.input[literalStart..s.start], hit.offset, s.end - s.start, e.block);
    assert done + (Piece(c, cur, literalStart, hit) + Print(e.block))
        == done + Piece(c, cur, literalStart, hit) + Print(e.block);
  }

  lemma LeftLast(c: Stream, slots: Slots, literalStart: nat, done: seq<byte>, whole: seq<byte>)
    requires literalStart <= |c.input|
    requires Left(done, DualEncoding(Last(c.input[literalStart..]), slots), whole)
    ensures whole == done + PrintRun(c.input[literalStart..], 0)
  {
  }

  /** Emits one match and notes the position two bytes in front of its end. */
  method EmitDual(c: Stream, table: HashTable, pristine: HashTable, base: nat, out: array<byte>, w: nat,
                  cur: nat, literalStart: nat, hit: Hit)
    returns (w': nat, end: nat)
    requires Dual(c, table, pristine, base) && LZ4_MIN_LENGTH <= |c.input|
    requires literalStart <= cur && cur + MFLIMIT <= |c.input| && InSource(c, hit) && GoodHit(c.dict, c.input, cur, hit)
    requires TableBelow(table.entries[..], base + cur + 1)
    requires hit.offset <= MAX_DISTANCE && w + |Piece(c, cur, literalStart, hit)| <= out.Length
    modifies table.entries, out
    ensures Dual(c, table, pristine, base) && end == MatchSpan(c.dict, c.input, cur, literalStart, hit).end
    ensures TableBelow(table.entries[..], base + end)
    ensures View(table.entries[..], base) == Note(c, View(old(table.entries[..]), base), end - 2)
    ensures w' == w + |Piece(c, cur, literalStart, hit)|
    ensures out[..w'] == old(out[..w]) + Piece(c, cur, literalStart, hit)
  {
    hide Valid, TableBelow, View, MatchSpan, Note, PrintSequence, Same;
    var start: nat;
    start, end := StretchMatch(c, cur, literalStart, hit);
    var _ := SpanIsGood(c.dict, c.input, cur, literalStart, hit);
    BelowLater(table.entries[..], base + cur + 1, base + end);
    var at := Min(end - 2, |c.input| - 8);
    NoteAt(c, table, pristine, base, end - 2, c.input[at..at + 8], end);
    w' := EmitSequence(out, w, c.input, literalStart, start - literalStart, hit.offset, end - start - MINMATCH);
  }

  /** The same, as progress towards the whole output. */
  method ExtendDual(c: Stream, table: HashTable, pristine: HashTable, base: nat, out: array<byte>, w: nat,
                    cur: nat, literalStart: nat, hit: Hit, ghost whole: seq<byte>)
    returns (w': nat, end: nat)
    requires Dual(c, table, pristine, base) && LZ4_MIN_LENGTH <= |c.input|
    requires literalStart <= cur && cur + MFLIMIT <= |c.input| && InSource(c, hit) && GoodHit(c.dict, c.input, cur, hit)
    requires TableBelow(table.entries[..], base + cur + 1)
    requires w <= out.Length && |whole| <= out.Length
    requires Left(out[..w], DualExtend(c, pristine.entries[..], View(table.entries[..], base), cur, literalStart, hit),
                  whole)
    modifies table.entries, out
    ensures Dual(c, table, pristine, base) && literalStart < end && end + END_OFFSET <= |c.input| && w' <= out.Length
    ensures TableBelow(table.entries[..], base + end)
    ensures Left(out[..w'], DualEncode(c, pristine.entries[..], View(table.entries[..], base), end, end), whole)
  {
    hide TableBelow, View, Left, Valid, MatchSpan, Note, GoodHit, Piece, DualExtend, DualEncode;
    LeftBehind(c, pristine.entries[..], View(table.entries[..], base), cur, literalStart, hit, out[..w], whole);
    w', end := EmitDual(c, table, pristine, base, out, w, cur, literalStart, hit);
  }

  method DualLoop(c: Stream, table: HashTable, pristine: HashTable, base: nat, out: array<byte>, w: nat,
                  ghost whole: seq<byte>)
    returns (w': nat)
    requires Dual(c, table, pristine, base) && LZ4_MIN_LENGTH <= |c.input|
    requires TableBelow(table.entries[..], base + 1)
    requires w <= out.Length && |whole| <= out.Length
    requires Left(out[..w], DualEncode(c, pristine.entries[..], View(table.entries[..], base), 1, 0), whole)
    modifies table.entries, out
    ensures Dual(c, table, pristine, base) && TableBelow(table.entries[..], base + |c.input|)
    ensures w' == |whole| && out[..w'] == whole
  {
    assert Valid(c) && c.readonly && table.entries != pristine.entries;
    assert table.entries.Length == pristine.entries.Length && table.entries.Length > 0;
    hide Dual, TableBelow, View, Left, Valid, DualSearch, DualExtend, GoodHit;
    var cur, literalStart, bytes: seq<byte> := 1, 0, c.input[1..9];
    w' := w;
    while true
      invariant Dual(c, table, pristine, base)
      invariant literalStart <= cur && cur <= |c.input|
      invariant TableBelow(table.entries[..], base + cur)
      invariant cur + MFLIMIT <= |c.input| ==> bytes == c.input[cur..cur + 8]
      invariant w' <= out.Length
      invariant Left(out[..w'], DualEncode(c, pristine.entries[..], View(table.entries[..], base), cur, literalStart),
                     whole)
      decreases |c.input| - literalStart
    {
      ghost var slots := View(table.entries[..], base);
      SlotsOfView(table.entries[..], base, cur);
      DualSearchIsGood(c, pristine.entries[..], slots, cur, SKIP_SHIFT);
      var found, _ := FindDual(c, table, pristine, base, cur, bytes);
      if found.None? {
        LeftLast(c, View(table.entries[..], base), literalStart, out[..w'], whole);
        w' := HandleLastLiterals(out, w', c.input, literalStart);
        return;
      }
      var end: nat;
      w', end := ExtendDual(c, table, pristine, base, out, w', found.value.cur, literalStart, found.value.hit, whole);
      cur, literalStart := end, end;
      if cur <= |c.input| - MFLIMIT {
        bytes := c.input[cur..cur + 8];
      }
    }
  }

  /** Compresses `input` with its positions stored from `base` on, above everything in the table. */
  method CompressWithDictTable(c: Stream, output: SliceSink, table: HashTable, pristine: HashTable, base: nat)
    returns (r: Result<nat, CompressError>)
    requires Dual(c, table, pristine, base) && output.Valid() && TableBelow(table.entries[..], base)
    modifies output, output.output, table.entries
    ensures Dual(c, table, pristine, base) && output.Valid() && TableBelow(table.entries[..], base + |c.input|)
    ensures r.Err? <==> output.output.Length - old(output.pos) < MaxOutputSize(|c.input|)
    ensures r.Err? ==> r.error == CompressedOutputTooSmall && output.pos == old(output.pos)
    ensures r.Err? ==> output.output[..] == old(output.output[..])
    ensures var b := DualEncodeAll(c, pristine.entries[..], NoSlots(pristine.entries.Length)).block;
            r.Ok? ==>
              && WellFormed(b) && r.value == |Print(b)|
              && output.Contents() == old(output.Contents()) + Print(b)
  {
    var out, start := output.output, output.pos;
    BelowLater(table.entries[..], base, base + |c.input|);
    if out.Length - start < MaxOutputSize(|c.input|) {
      return Err(CompressedOutputTooSmall);
    }
    ghost var slots := NoSlots(pristine.entries.Length);
    StaleView(table.entries[..], base);
    DualIsLossless(c, pristine.entries[..], slots);
    ghost var e := DualEncodeAll(c, pristine.entries[..], slots);
    DualFits(c, e.block);
    ghost var whole := out[..start] + Print(e.block);
    hide TableBelow, View, WellFormed, Print, Run, DualEncode, Note, Conforms;
    var w: nat;
    if |c.input| < LZ4_MIN_LENGTH {
      assert c.input[0..] == c.input;
      LeftLast(c, slots, 0, out[..start], whole);
      w := HandleLastLiterals(out, start, c.input, 0);
    } else {
      BelowLater(table.entries[..], base, base + 1);
      NoteAt(c, table, pristine, base, 0, c.input[0..8], 1);
      w := DualLoop(c, table, pristine, base, out, start, whole);
    }
    output.pos := w;
    r := Ok(w - start);
  }

  lemma DualFits(c: Stream, b: Block)
    requires WellFormed(b) && Run(b, c.dict) == Some(c.dict + c.input)
    ensures |Print(b)| <= MaxOutputSize(|c.input|)
  {
    RunLength(b, c.dict);
    BlockFits(b);
  }

  lemma SlotsOfView(entries: seq<nat>, base: nat, bound: nat)
    requires TableBelow(entries, base + bound)
    ensures SlotsBelow(View(entries, base), bound)
  {
  }

  // ----- the compressor

  function DictStream(dict: seq<byte>, input: seq<byte>, hash: seq<byte> -> nat): Stream {
    Stream(input, dict, |dict|, hash, U16_MAX + 1, true, true, true, true)
  }

  /** The table of dictionary positions. */
  function Pristine(dict: seq<byte>, n: nat, hash: seq<byte> -> nat, width: nat): Table
    requires n > 0 && width > 0
  {
    Seeded(Empty(n), dict, 0, hash, width, 0)
  }

  /** The block that the compressor writes for `input`: the dictionary table alone for tiny
      inputs, both tables for small ones, and a 32-bit table when positions outgrow 16 bits.
      It is a function of the dictionary and the input, whatever was compressed before. */
  function DictBlock(dict: seq<byte>, n: nat, hash: seq<byte> -> nat, input: seq<byte>): Block
    requires n > 0
  {
    if |dict| + |input| < U16_MAX then
      var c := DictStream(dict, input, hash);
      if |input| <= DICT_READONLY_LIMIT then EncodeFrom(c, Pristine(dict, n, hash, U16_MAX + 1), 0).block
      else DualEncodeAll(c, Pristine(dict, n, hash, U16_MAX + 1), NoSlots(n)).block
    else
      EncodeFrom(OneShot(input, dict, true, true, hash), Pristine(dict, n, hash, U32_MAX + 1), 0).block
  }

  /** Every block decodes to its input, on every window that covers the dictionary. */
  lemma DictBlockDecodes(dict: seq<byte>, n: nat, hash: seq<byte> -> nat, input: seq<byte>, w: seq<byte>)
    requires n > 0 && |dict| <= WINDOW_SIZE && InBounds(input, dict) && Covers(w, dict)
    ensures var b := DictBlock(dict, n, hash, input);
            WellFormed(b) && Conforms(b, |input|, false) && Run(b, dict) == Some(dict + input)
    ensures Encodes(Print(DictBlock(dict, n, hash, input)), w, input)
  {
    DictBlockLossless(dict, n, hash, input);
    var b := DictBlock(dict, n, hash, input);
    hide DictBlock, Covers, WellFormed, Run, Print;
    RunsEncodes(b, dict, w, input);
  }

  lemma DictBlockLossless(dict: seq<byte>, n: nat, hash: seq<byte> -> nat, input: seq<byte>)
    requires n > 0 && |dict| <= WINDOW_SIZE && InBounds(input, dict)
    ensures var b := DictBlock(dict, n, hash, input);
            WellFormed(b) && Conforms(b, |input|, false) && Run(b, dict) == Some(dict + input)
  {
    hide WellFormed, Run, Conforms, EncodeFrom, DualEncodeAll, Seeded;
    assert dict + input[..0] == dict;
    if |dict| + |input| < U16_MAX {
      var c := DictStream(dict, input, hash);
      if |input| <= DICT_READONLY_LIMIT {
        EncodeFromIsLossless(c, Pristine(dict, n, hash, U16_MAX + 1), 0);
      } else {
        DualIsLossless(c, Pristine(dict, n, hash, U16_MAX + 1), NoSlots(n));
      }
    } else {
      var c := OneShot(input, dict, true, true, hash);
      SeededBelow(Empty(n), dict, 0, hash, U32_MAX + 1, 0, Max(1, |dict|));
      EncodeFromIsLossless(c, Pristine(dict, n, hash, U32_MAX + 1), 0);
    }
  }

  class DictCompressor {
    const table: HashTable
    const pristine: HashTable
    const dict: seq<byte>
    var mainBase: nat

    /** Everything in the main table is below the next call's positions. */
    ghost predicate Valid()
      reads this, table.entries, pristine.entries
    {
      && table.Valid() && pristine.Valid() && table.entries != pristine.entries
      && table.width == U16_MAX + 1 == pristine.width && table.hash == pristine.hash
      && table.entries.Length == pristine.entries.Length
      && |dict| <= WINDOW_SIZE
      && pristine.entries[..] == Pristine(dict, pristine.entries.Length, pristine.hash, U16_MAX + 1)
      && 1 <= mainBase <= U16_MAX && TableBelow(table.entries[..], mainBase)
    }

    constructor (dict: seq<byte>, n: nat, hash: seq<byte> -> nat)
      requires n > 0
      ensures Valid() && fresh(table.entries) && fresh(pristine.entries)
      ensures this.dict == if |dict| < MINMATCH then [] else Trim(dict)
      ensures pristine.entries.Length == n && pristine.hash == hash
    {
      var trimmed := if |dict| < MINMATCH then [] else Trim(dict);
      var pristine', dict' := InitDict(trimmed, n, U16_MAX + 1, hash);
      pristine := pristine';
      table := new HashTable(n, U16_MAX + 1, hash);
      mainBase := 1;
      this.dict := dict';
    }

    /** The promise of every path: the block for `input`, or an error when the buffer is small. */
    ghost predicate Wrote(r: Result<nat, CompressError>, input: seq<byte>, output: array<byte>)
      reads output
      requires pristine.entries.Length > 0
    {
      && (r.Err? <==> output.Length < MaxOutputSize(|input|))
      && (r.Ok? ==>
            var b := DictBlock(dict, pristine.entries.Length, pristine.hash, input);
            && WellFormed(b) && r.value == |Print(b)| <= output.Length
            && output[..r.value] == Print(b))
    }

    /** Tiny inputs: the dictionary table alone, unchanged. */
    method CompressTiny(input: seq<byte>, output: array<byte>) returns (r: Result<nat, CompressError>)
      requires Valid() && |input| <= DICT_READONLY_LIMIT && |dict| + |input| < U16_MAX
      modifies pristine.entries, output
      ensures Valid() && Wrote(r, input, output)
    {
      hide WellFormed, Print, EncodeFrom, Seeded;
      var sink := new SliceSink(output, 0);
      var c := DictStream(dict, input, pristine.hash);
      ReadonlyKeepsTable(c, pristine.entries[..], 0);
      r := CompressInternal(c, 0, sink, pristine);
    }

    /** Small inputs: the main table, cleared or reused above everything stored before. */
    method CompressSmall(input: seq<byte>, output: array<byte>) returns (r: Result<nat, CompressError>)
      requires Valid() && |input| > DICT_READONLY_LIMIT && |dict| + |input| < U16_MAX
      modifies this, table.entries, output
      ensures Valid() && Wrote(r, input, output)
    {
      hide WellFormed, Print, DualEncodeAll, Seeded;
      if |input| > DICT_EPOCH_THRESHOLD || mainBase + |input| > U16_MAX {
        table.Clear();
        mainBase := 1;
      }
      var base := mainBase;
      mainBase := mainBase + |input|;
      var sink := new SliceSink(output, 0);
      var c := DictStream(dict, input, pristine.hash);
      r := CompressWithDictTable(c, sink, table, pristine, base);
    }

    /** Large inputs: a 32-bit table of their own. */
    method CompressLarge(input: seq<byte>, output: array<byte>) returns (r: Result<nat, CompressError>)
      requires Valid() && |dict| + |input| >= U16_MAX && InBounds(input, dict)
      modifies output
      ensures Valid() && Wrote(r, input, output)
    {
      hide WellFormed, Print, EncodeFrom, Seeded;
      var n := table.entries.Length;
      var sink := new SliceSink(output, 0);
      var table32, trimmed := InitDict(dict, n, U32_MAX + 1, table.hash);
      var c := OneShot(input, trimmed, true, true, table.hash);
      SeededBelow(Empty(n), dict, 0, table.hash, U32_MAX + 1, 0, Max(1, |dict|));
      r := CompressInternal(c, 0, sink, table32);
    }

    /** Compresses `input`.  What is written depends on the dictionary and the input alone, and
        decodes to the input on every window that covers the dictionary. */
    method CompressInto(input: seq<byte>, output: array<byte>) returns (r: Result<nat, CompressError>)
      requires Valid() && InBounds(input, dict)
      modifies this, table.entries, pristine.entries, output
      ensures Valid()
      ensures r.Err? <==> output.Length < MaxOutputSize(|input|)
      ensures r.Ok? ==>
                var b := DictBlock(dict, pristine.entries.Length, pristine.hash, input);
                && WellFormed(b) && r.value == |Print(b)| <= output.Length
                && output[..r.value] == Print(b)
      ensures r.Ok? ==> forall w :: Covers(w, dict) ==> Encodes(output[..r.value], w, input)
    {
      if |input| <= DICT_READONLY_LIMIT && |dict| + |input| < U16_MAX {
        r := CompressTiny(input, output);
      } else if |dict| + |input| < U16_MAX {
        r := CompressSmall(input, output);
      } else {
        r := CompressLarge(input, output);
      }
      hide DictBlock, Print, Encodes, Covers;
      if r.Ok? {
        forall w | Covers(w, dict)
          ensures Encodes(output[..r.value], w, input)
        {
          DictBlockDecodes(dict, pristine.entries.Length, pristine.hash, input, w);
        }
      }
    }
  }

  /** After any sequence of earlier calls, a reused compressor emits byte for byte what a fresh one
      emits, and the block decodes with the dictionary as it was given. */
  method ReuseIsInvisible(dict: seq<byte>, n: nat, hash: seq<byte> -> nat, earlier: seq<Call>, input: seq<byte>)
    returns (reused: seq<byte>, fresh_: seq<byte>)
    requires n > 0 && InBounds(input, dict)
    requires forall i :: 0 <= i < |earlier| ==> InBounds(earlier[i].input, dict)
    ensures reused == fresh_ && Encodes(reused, dict, input)
  {
    hide DictBlock, Encodes, Print, WellFormed, Covers;
    TrimCovers(dict);
    ghost var used := if |dict| < MINMATCH then [] else Trim(dict);
    var c := new DictCompressor(dict, n, hash);
    for i := 0 to |earlier|
      invariant fresh(c) && fresh(c.table.entries) && fresh(c.pristine.entries) && c.Valid()
      invariant c.dict == used && c.pristine.entries.Length == n && c.pristine.hash == hash
    {
      var output := new byte[earlier[i].room];
      var _ := c.CompressInto(earlier[i].input, output);
    }
    var output := new byte[MaxOutputSize(|input|)];
    var len := c.CompressInto(input, output);
    reused := output[..len.value];
    var c' := new DictCompressor(dict, n, hash);
    var output' := new byte[MaxOutputSize(|input|)];
    var len' := c'.CompressInto(input, output');
    fresh_ := output'[..len'.value];
  }
}
