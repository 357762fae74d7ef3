/**
  Dictionaries are used: input that repeats a dictionary from one of its stored positions starts with a
  match into it, whichever of the compressors takes it.
 */
module DictionaryUse {
  import opened Core
  import opened BlockFormat
  import opened MatchFinder
  import opened EncoderSpec
  import opened DictEncoderSpec
  import opened GreedySearch
  import opened BlockCompress
  import opened DictCompressors
  import opened FrameBytes

  ghost predicate NoneLater(dict: seq<byte>, hash: seq<byte> -> nat, n: nat, slot: nat, k: nat) {
    forall later :: Seed(dict, hash, n, 0, slot, later) ==> later <= k
  }

  /** Eight bytes of the dictionary at `k` are stored, and no later ones share their slot. */
  ghost predicate LastInSlot(dict: seq<byte>, hash: seq<byte> -> nat, n: nat, k: nat) {
    && n > 0 && k + 8 <= |dict| && k % 3 == 0
    && NoneLater(dict, hash, n, hash(dict[k..k + 8]) % n, k)
  }

  /** The table names `k` for every window that repeats the dictionary there. */
  lemma LastIsNamed(dict: seq<byte>, hash: seq<byte> -> nat, n: nat, width: nat, k: nat)
    requires LastInSlot(dict, hash, n, k) && |dict| <= width
    ensures width > 0 && Seeded(Empty(n), dict, 0, hash, width, 0)[hash(dict[k..k + 8]) % n] == k
  {
    hide Seeded;
    SeededHolds(Empty(n), dict, 0, hash, width, 0, hash(dict[k..k + 8]) % n, k);
  }

  /** The input at `at` repeats the dictionary at `k`, for eight bytes at least. */
  predicate Repeats(input: seq<byte>, at: nat, dict: seq<byte>, k: nat) {
    at + LZ4_MIN_LENGTH <= |input| && k + 8 <= |dict| && input[at..at + 8] == dict[k..k + 8]
  }

  /** A block that begins with a match as far back as `offset`, for as long as `input` repeats `dict` at
      `k`, short of the bytes that must be literals. */
  ghost predicate BeginsWith(b: Block, offset: nat, input: seq<byte>, dict: seq<byte>, k: nat) {
    && b.More? && b.lits == [] && b.offset == offset
    && forall m: nat :: Same(input, 0, dict, k, m) && m + END_OFFSET <= |input| ==> m <= b.len
  }

  lemma RealInDict(c: Stream, at: nat, k: nat)
    requires Valid(c) && c.useDict && c.off == |c.dict| && Repeats(c.input, at, c.dict, k)
    requires |c.dict| - k + at <= MAX_DISTANCE
    ensures RealHit(c, at, k, Hit(|c.dict| - k + at, k, true))
  {
    SamePart(c.input, at, c.dict, k, 8, 0, 4);
  }

  /** A search in the table of a dictionary. */
  lemma SeededMatched(c: Stream, n: nat, k: nat)
    requires Valid(c) && c.useDict && c.off == |c.dict| <= c.width && n > 0
    requires LastInSlot(c.dict, c.hash, n, k) && Repeats(c.input, 0, c.dict, k) && |c.dict| - k <= MAX_DISTANCE
    ensures var t := Seeded(Empty(n), c.dict, 0, c.hash, c.width, 0);
            BeginsWith(EncodeFrom(c, t, 0).block, |c.dict| - k, c.input, c.dict, k)
  {
    hide EncodeFrom, Seeded, LastInSlot, RealHit, Valid;
    var t := Seeded(Empty(n), c.dict, 0, c.hash, c.width, 0);
    assert n > 0 && c.width > 0;
    LastIsNamed(c.dict, c.hash, n, c.width, k);
    SeededBelow(Empty(n), c.dict, 0, c.hash, c.width, 0, Max(1, |c.dict|));
    RealInDict(c, 0, k);
    var h := Hit(|c.dict| - k, k, true);
    NamedMatchTaken(c, t, 0, h);
    assert Source(c.dict, c.input, h) == c.dict;
    var b := EncodeFrom(c, t, 0).block;
    assert b.More? && b.lits == [] && b.offset == |c.dict| - k;
  }

  // ----- one call

  /** Which of the two tables a call takes depends on the sizes of dictionary and input. */
  function TakesWide(input: seq<byte>, dict: seq<byte>): bool {
    |dict| + |input| >= 65535
  }

  /** The other table has no part in the block. */
  lemma OneTable(input: seq<byte>, dict: seq<byte>, tables: Tables, other: Tables)
    requires tables.n16 > 0 && tables.n32 > 0 && other.n16 > 0 && other.n32 > 0 && MINMATCH <= |dict|
    requires if TakesWide(input, dict) then tables.n32 == other.n32 && tables.hash32 == other.hash32
             else tables.n16 == other.n16 && tables.hash16 == other.hash16
    ensures OneShotBlock(input, dict, true, tables) == OneShotBlock(input, dict, true, other)
  {
  }

  lemma OneShotMatched(input: seq<byte>, dict: seq<byte>, tables: Tables, k: nat)
    requires tables.n16 > 0 && tables.n32 > 0 && InBounds(input, dict) && MINMATCH <= |dict|
    requires var n := if TakesWide(input, dict) then tables.n32 else tables.n16;
             var hash := if TakesWide(input, dict) then tables.hash32 else tables.hash16;
             LastInSlot(Trim(dict), hash, n, k)
    requires Repeats(input, 0, Trim(dict), k) && |Trim(dict)| - k <= MAX_DISTANCE
    ensures BeginsWith(OneShotBlock(input, dict, true, tables), |Trim(dict)| - k, input, Trim(dict), k)
  {
    hide LastInSlot, Repeats, BeginsWith, EncodeFrom, Seeded;
    var wide := TakesWide(input, dict);
    var n, hash := if wide then tables.n32 else tables.n16, if wide then tables.hash32 else tables.hash16;
    SeededMatched(OneShot(input, Trim(dict), true, wide, hash), n, k);
  }

  /** What lies in front of the part in reach does not show. */
  lemma OnlyTrimmedPart(input: seq<byte>, dict: seq<byte>, tables: Tables)
    requires tables.n16 > 0 && tables.n32 > 0
    ensures OneShotBlock(input, dict, true, tables) == OneShotBlock(input, Trim(dict), true, tables)
  {
    assert Trim(Trim(dict)) == Trim(dict);
  }

  // ----- a reused compressor

  /** Both tables: the search begins at the second byte, where the first is not repeated. */
  lemma DualMatched(c: Stream, n: nat, k: nat)
    requires Valid(c) && c.readonly && |c.dict| <= c.width && n > 0
    requires LastInSlot(c.dict, c.hash, n, k) && Repeats(c.input, 1, c.dict, k)
    requires c.input[1..5] != c.input[0..4]
    ensures var b := DualEncodeAll(c, Seeded(Empty(n), c.dict, 0, c.hash, c.width, 0), NoSlots(n)).block;
            b.More? && |b.lits| <= 1 && b.offset == |c.dict| - k + 1
  {
    hide Seeded, LastInSlot, GoodHit, MatchSpan, DualProbe, Same, DualExtend;
    var pristine := Seeded(Empty(n), c.dict, 0, c.hash, c.width, 0);
    var slots := Note(c, NoSlots(n), 0);
    LastIsNamed(c.dict, c.hash, n, c.width, k);
    RealInDict(c, 1, k);
    var slot := SlotOf(c, n, 1);
    var h := Hit(|c.dict| - k + 1, k, true);
    assert slots[slot] <= 0 && pristine[slot] == k;
    NotRepeated(c, slots[slot]);
    DualProbeExactly(c, 1, 2, slots[slot], pristine[slot]);
    assert DualProbe(c, 1, 2, slots[slot], k) == Some(h);
    assert DualSearch(c, pristine, slots, 1, SKIP_SHIFT) == DualFoundAt(Note(c, slots, 1), 1, h);
    DualFoundFirst(c, pristine, slots, h);
  }

  lemma NotRepeated(c: Stream, main: int)
    requires main <= 0 && 5 <= |c.input| && c.input[1..5] != c.input[0..4]
    ensures !(0 <= main && Same(c.input, 1, c.input, main, 4))
  {
  }

  lemma DualFoundFirst(c: Stream, pristine: seq<nat>, slots: Slots, h: Hit)
    requires |pristine| == |slots| && LZ4_MIN_LENGTH <= |c.input|
    requires DualSearch(c, pristine, slots, 1, SKIP_SHIFT).DualFoundAt?
    requires var f := DualSearch(c, pristine, slots, 1, SKIP_SHIFT);
             f.cur == 1 && f.hit == h
    ensures var b := DualEncode(c, pristine, slots, 1, 0).block;
            b.More? && |b.lits| <= 1 && b.offset == h.offset
  {
    hide DualSearch, MatchSpan, DualEncode, Note;
    var f := DualSearch(c, pristine, slots, 1, SKIP_SHIFT);
    DualEncodeFound(c, pristine, slots);
    var s := MatchSpan(c.dict, c.input, 1, 0, h);
    assert |c.input[0..s.start]| == s.start;
  }

  lemma DualEncodeFound(c: Stream, pristine: seq<nat>, slots: Slots)
    requires |pristine| == |slots| && LZ4_MIN_LENGTH <= |c.input|
    requires DualSearch(c, pristine, slots, 1, SKIP_SHIFT).DualFoundAt?
    ensures var f := DualSearch(c, pristine, slots, 1, SKIP_SHIFT);
            DualEncode(c, pristine, slots, 1, 0) == DualExtend(c, pristine, f.slots, f.cur, 0, f.hit)
  {
    hide DualSearch, DualExtend;
  }

  /** Inputs up to 256 bytes are searched in the table of the dictionary alone, longer ones in both
      tables, from the second byte on, and those that outgrow 16 bits in a table of their own. */
  function FirstLookup(dict: seq<byte>, input: seq<byte>): nat {
    if 256 < |input| && |dict| + |input| < 65535 then 1 else 0
  }

  /** The reused compressor uses its dictionary in all three cases. */
  lemma DictBlockMatched(dict: seq<byte>, n: nat, hash: seq<byte> -> nat, input: seq<byte>, k: nat)
    requires n > 0 && |dict| <= WINDOW_SIZE && InBounds(input, dict)
    requires var at := FirstLookup(dict, input);
             && LastInSlot(dict, hash, n, k) && Repeats(input, at, dict, k) && |dict| - k + at <= MAX_DISTANCE
             && (at == 1 ==> input[1..5] != input[0..4])
    ensures var at, b := FirstLookup(dict, input), DictBlock(dict, n, hash, input);
            b.More? && |b.lits| <= at && b.offset == |dict| - k + at
  {
    hide LastInSlot, EncodeFrom, DualEncodeAll, Seeded;
    if |dict| + |input| >= U16_MAX {
      SeededMatched(OneShot(input, dict, true, true, hash), n, k);
    } else if |input| <= DICT_READONLY_LIMIT {
      SeededMatched(DictStream(dict, input, hash), n, k);
    } else {
      DualMatched(DictStream(dict, input, hash), n, k);
    }
  }

  // ----- frames

  /** Where a dictionary is all the history there is - in independent blocks, and in the first block of a
      linked frame - the block of a frame uses it. */
  lemma FrameBlockMatched(s: Setup, f: FrameState, k: nat)
    requires Sound(s, f) && (!f.info.linked || f.content == []) && MINMATCH <= |s.cfg.dict|
    requires InBounds(Buffered(f), s.cfg.dict)
    requires var wide := TakesWide(Buffered(f), s.cfg.dict);
             LastInSlot(Trim(s.cfg.dict), if wide then s.tables.hash32 else s.tables.hash16,
                        if wide then s.tables.n32 else s.tables.n16, k)
    requires Repeats(Buffered(f), 0, Trim(s.cfg.dict), k) && |Trim(s.cfg.dict)| - k <= MAX_DISTANCE
    ensures var b := Parse(Pack(s, f).block, 0);
            b.Some? && BeginsWith(b.value, |Trim(s.cfg.dict)| - k, Buffered(f), Trim(s.cfg.dict), k)
  {
    hide LastInSlot, Repeats, BeginsWith, Print, Parse, OneShotBlock;
    OneShotMatched(Buffered(f), s.cfg.dict, s.tables, k);
    OneShotWellFormed(Buffered(f), s.cfg.dict, s.tables);
    PrintParse(OneShotBlock(Buffered(f), s.cfg.dict, true, s.tables));
  }

  lemma OneShotWellFormed(input: seq<byte>, dict: seq<byte>, tables: Tables)
    requires tables.n16 > 0 && tables.n32 > 0 && InBounds(input, dict) && MINMATCH <= |dict|
    ensures WellFormed(OneShotBlock(input, dict, true, tables))
  {
    hide EncodeFrom, Seeded, WellFormed, Covers;
    var wide := TakesWide(input, dict);
    TrimCovers(dict);
    OneShotDecodes(input, Trim(dict), true, wide, if wide then tables.hash32 else tables.hash16,
                   if wide then tables.n32 else tables.n16, dict);
  }
}
