/**
  What earlier calls on a plain compressor leave visible in its output.  At stream offset 0 an empty
  slot reads as position 0 and the search starts behind it; at a later offset it does not.  Apart
  from that, the block of a call depends on its input alone.
 */
module PlainReuse {
  import opened Core
  import opened BlockFormat
  import opened MatchFinder
  import opened EncoderSpec
  import opened HashTables
  import opened Emit
  import opened BlockCompress
  import opened PlainCompressors

  // ----- at later offsets, only distances show

  /** An offset other than 0 that leaves all positions within 32 bits. */
  predicate Later(input: seq<byte>, off: nat) {
    0 < off && off + |input| <= U32_MAX
  }

  /** Two tables that look alike from two offsets. */
  ghost predicate Alike(t: seq<nat>, off: nat, u: seq<nat>, off': nat) {
    |t| == |u| > 0 && View(t, off) == View(u, off')
  }

  lemma AlikeAt(t: seq<nat>, off: nat, u: seq<nat>, off': nat, slot: nat)
    requires Alike(t, off, u, off') && slot < |t|
    ensures (t[slot] >= off <==> u[slot] >= off') && (t[slot] >= off ==> t[slot] - off == u[slot] - off')
  {
    assert View(t, off)[slot] == View(u, off')[slot];
  }

  /** No position is truncated. */
  lemma RecordStores(input: seq<byte>, hash: seq<byte> -> nat, off: nat, t: Table, i: nat)
    requires Later(input, off) && i + 8 <= |input|
    ensures var c := PlainStream(input, off, hash);
            Record(c, t, i) == t[Slot(c, t, i) := off + i]
  {
    hide Slot;
  }

  lemma SameSlot(input: seq<byte>, hash: seq<byte> -> nat, off: nat, off': nat, t: Table, u: Table, i: nat)
    requires |t| == |u| && i + 8 <= |input|
    ensures Slot(PlainStream(input, off, hash), t, i) == Slot(PlainStream(input, off', hash), u, i)
  {
  }

  lemma RecordAlike(input: seq<byte>, hash: seq<byte> -> nat, off: nat, off': nat, t: Table, u: Table, i: nat)
    requires Later(input, off) && Later(input, off') && Alike(t, off, u, off') && i + 8 <= |input|
    ensures Alike(Record(PlainStream(input, off, hash), t, i), off, Record(PlainStream(input, off', hash), u, i), off')
  {
    hide View, Slot;
    var slot := Slot(PlainStream(input, off, hash), t, i);
    RecordStores(input, hash, off, t, i);
    RecordStores(input, hash, off', u, i);
    SameSlot(input, hash, off, off', t, u, i);
    ViewOfPut(t, off, slot, i);
    ViewOfPut(u, off', slot, i);
  }

  lemma {:induction false} SearchAlike(input: seq<byte>, hash: seq<byte> -> nat, off: nat, off': nat, t: Table,
                                       u: Table, cur: nat, misses: nat)
    requires Later(input, off) && Later(input, off') && Alike(t, off, u, off')
    requires LZ4_MIN_LENGTH <= |input| && SKIP_SHIFT <= misses
    ensures var f := Search(PlainStream(input, off, hash), t, cur, misses);
            var g := Search(PlainStream(input, off', hash), u, cur, misses);
            && Alike(f.table, off, g.table, off') && f.FoundAt? == g.FoundAt?
            && (f.FoundAt? ==> f.cur == g.cur && f.hit == g.hit)
    decreases |input| - cur
  {
    hide Alike, Record, Later;
    var c, d := PlainStream(input, off, hash), PlainStream(input, off', hash);
    var next := cur + misses / SKIP_SHIFT;
    if next <= |input| - MFLIMIT + 1 {
      var slot := Slot(c, t, cur);
      SameSize(t, off, u, off');
      AlikeAt(t, off, u, off', slot);
      ProbeAlike(input, hash, off, off', cur, next, t[slot], u[slot]);
      RecordAlike(input, hash, off, off', t, u, cur);
      if Probe(c, cur, next, t[slot]).None? {
        SearchAlike(input, hash, off, off', Record(c, t, cur), Record(d, u, cur), next, misses + 1);
      }
    }
  }

  lemma SameSize(t: seq<nat>, off: nat, u: seq<nat>, off': nat)
    requires Alike(t, off, u, off')
    ensures |t| == |u|
  {
  }

  lemma ProbeAlike(input: seq<byte>, hash: seq<byte> -> nat, off: nat, off': nat, cur: nat, next: nat, x: nat, y: nat)
    requires Later(input, off) && Later(input, off') && cur + 4 <= |input| && next + 4 <= |input|
    requires (x >= off <==> y >= off') && (x >= off ==> x - off == y - off')
    ensures Probe(PlainStream(input, off, hash), cur, next, x) == Probe(PlainStream(input, off', hash), cur, next, y)
  {
  }

  lemma RematchAlike(input: seq<byte>, hash: seq<byte> -> nat, off: nat, off': nat, t: Table, u: Table, end: nat)
    requires Later(input, off) && Later(input, off') && Alike(t, off, u, off') && end + 4 <= |input|
    ensures Rematch(PlainStream(input, off, hash), t, end) == Rematch(PlainStream(input, off', hash), u, end)
  {
    if end + MFLIMIT <= |input| {
      AlikeAt(t, off, u, off', Slot(PlainStream(input, off, hash), t, end));
    }
  }

  lemma {:induction false} EncodeAlike(input: seq<byte>, hash: seq<byte> -> nat, off: nat, off': nat, t: Table,
                                       u: Table, cur: nat, literalStart: nat)
    requires Later(input, off) && Later(input, off') && Alike(t, off, u, off')
    requires LZ4_MIN_LENGTH <= |input| && literalStart <= cur && literalStart <= |input|
    ensures Encode(PlainStream(input, off, hash), t, cur, literalStart).block
         == Encode(PlainStream(input, off', hash), u, cur, literalStart).block
    decreases |input| - literalStart, 1
  {
    hide Alike, Search, Extend, Later;
    SearchAlike(input, hash, off, off', t, u, cur, SKIP_SHIFT);
    var f := Search(PlainStream(input, off, hash), t, cur, SKIP_SHIFT);
    var g := Search(PlainStream(input, off', hash), u, cur, SKIP_SHIFT);
    if f.FoundAt? {
      ExtendAlike(input, hash, off, off', f.table, g.table, f.cur, literalStart, f.hit);
    }
  }

  lemma {:induction false} ExtendAlike(input: seq<byte>, hash: seq<byte> -> nat, off: nat, off': nat, t: Table,
                                       u: Table, cur: nat, literalStart: nat, hit: Hit)
    requires Later(input, off) && Later(input, off') && Alike(t, off, u, off')
    requires LZ4_MIN_LENGTH <= |input| && literalStart <= cur && cur + MFLIMIT <= |input|
    requires InSource(PlainStream(input, off, hash), hit) && InSource(PlainStream(input, off', hash), hit)
    ensures Extend(PlainStream(input, off, hash), t, cur, literalStart, hit).block
         == Extend(PlainStream(input, off', hash), u, cur, literalStart, hit).block
    decreases |input| - literalStart, 0
  {
    hide Alike, MatchSpan, Record, Rematch, Encode, Later;
    var c, d := PlainStream(input, off, hash), PlainStream(input, off', hash);
    var end := MatchSpan([], input, cur, literalStart, hit).end;
    RecordAlike(input, hash, off, off', t, u, end - 2);
    var t1, u1 := RecordTail(c, t, end), RecordTail(d, u, end);
    RematchAlike(input, hash, off, off', t1, u1, end);
    var r := Rematch(c, t1, end);
    if r.Some? {
      RecordAlike(input, hash, off, off', t1, u1, end);
      ExtendAlike(input, hash, off, off', Record(c, t1, end), Record(d, u1, end), end, end, r.value);
    } else {
      EncodeAlike(input, hash, off, off', t1, u1, end, end);
    }
  }

  /** At every later offset, and from every table of earlier calls, the block is the same. */
  lemma LaterOffsetsAgree(input: seq<byte>, hash: seq<byte> -> nat, off: nat, off': nat, t: Table, u: Table)
    requires Later(input, off) && Later(input, off') && |t| == |u|
    requires TableBelow(t, off) && TableBelow(u, off')
    ensures EncodeFrom(PlainStream(input, off, hash), t, 0).block
         == EncodeFrom(PlainStream(input, off', hash), u, 0).block
  {
    hide Encode, TableBelow;
    StaleView(t, off);
    StaleView(u, off');
    if LZ4_MIN_LENGTH <= |input| {
      EncodeAlike(input, hash, off, off', t, u, 0, 0);
    }
  }

  // ----- offset 0 against later ones

  /** Five zeros and then ones. */
  function Witness(len: nat): (s: seq<byte>)
    ensures |s| == len && forall i :: 0 <= i < len ==> s[i] == if i < 5 then 0 else 1
  {
    seq(len, i => if i < 5 then 0 else 1)
  }

  /** Whether a table of `n` entries keeps the first two windows of the witness apart. */
  predicate Separates(hash: seq<byte> -> nat, n: nat, len: nat)
    requires n > 0 && LZ4_MIN_LENGTH <= len
  {
    hash(Witness(len)[0..8]) % n != hash(Witness(len)[1..9]) % n
  }

  /** Whether a block starts with a match behind one literal. */
  predicate OneLiteral(b: Block) {
    b.More? && |b.lits| == 1
  }

  /** At offset 0 the window at position 1 finds position 0, if only in an empty slot, which reads as
      such. */
  lemma FreshWitness(len: nat, hash: seq<byte> -> nat, n: nat)
    requires LZ4_MIN_LENGTH <= len && n > 0
    ensures OneLiteral(EncodeFrom(PlainStream(Witness(len), 0, hash), Empty(n), 0).block)
  {
    hide Slot;
    var input := Witness(len);
    var c := PlainStream(input, 0, hash);
    var t := Record(c, Empty(n), 0);
    assert t == Empty(n);
    assert input[0..4] == input[1..5];
    var f := Search(c, t, 1, SKIP_SHIFT);
    assert f == FoundAt(Record(c, t, 1), 1, Hit(1, 0, false));
    assert MatchSpan([], input, 1, 0, f.hit).start == 1;
    hide MatchSpan, Search;
    assert EncodeFrom(c, Empty(n), 0) == Extend(c, f.table, 1, 0, f.hit);
  }

  /** The witness does not repeat its start one position on, for as much as five bytes. */
  lemma WitnessChanges(len: nat, n: nat)
    requires 5 <= n < len
    ensures !Same(Witness(len), 1, Witness(len), 0, n)
  {
    assert Witness(len)[1..1 + n][4] == 1 && Witness(len)[0..n][4] == 0;
  }

  /** At a later offset it finds nothing, and no later match reaches back to it. */
  lemma LaterWitness(len: nat, hash: seq<byte> -> nat, off: nat, t: Table)
    requires LZ4_MIN_LENGTH <= len <= EPOCH_THRESHOLD && 0 < off && off + len <= ISIZE_MAX
    requires Separates(hash, |t|, len) && TableBelow(t, off)
    ensures !OneLiteral(EncodeFrom(PlainStream(Witness(len), off, hash), t, 0).block)
  {
    hide MatchSpan, Search;
    var input := Witness(len);
    var c := PlainStream(input, off, hash);
    var f := Search(c, t, 0, SKIP_SHIFT);
    TwoMisses(len, hash, off, t);
    if f.FoundAt? {
      assert EncodeFrom(c, t, 0) == Extend(c, f.table, f.cur, 0, f.hit);
      var s := MatchSpan([], input, f.cur, 0, f.hit);
      var from := SpanIsGood([], input, f.cur, 0, f.hit);
      WitnessChanges(len, s.end - 1);
    } else {
      assert EncodeFrom(c, t, 0).block.Last?;
    }
  }

  lemma StaleMiss(c: Stream, t: Table, cur: nat, misses: nat)
    requires Valid(c) && !c.useDict && !c.readonly && SKIP_SHIFT <= misses && LZ4_MIN_LENGTH <= |c.input|
    requires cur + misses / SKIP_SHIFT <= |c.input| - MFLIMIT + 1 && t[Slot(c, t, cur)] < c.off
    ensures Search(c, t, cur, misses) == Search(c, Record(c, t, cur), cur + misses / SKIP_SHIFT, misses + 1)
  {
    hide Slot, Record;
  }

  /** Entries of earlier calls give no candidate, so the search gets to position 2. */
  lemma TwoMisses(len: nat, hash: seq<byte> -> nat, off: nat, t: Table)
    requires LZ4_MIN_LENGTH <= len <= EPOCH_THRESHOLD && 0 < off && off + len <= ISIZE_MAX
    requires Separates(hash, |t|, len) && TableBelow(t, off)
    ensures var f := Search(PlainStream(Witness(len), off, hash), t, 0, SKIP_SHIFT);
            f.FoundAt? ==> 2 <= f.cur && GoodHit([], Witness(len), f.cur, f.hit)
  {
    hide Search, GoodHit, Probe;
    var c := PlainStream(Witness(len), off, hash);
    var t1 := Record(c, t, 0);
    var t2 := Record(c, t1, 1);
    RecordFits(c, t, 0, 2);
    RecordFits(c, t1, 1, 2);
    SearchIsGood(c, t2, 2, SKIP_SHIFT + 2);
    assert Slot(c, t, 0) != Slot(c, t1, 1);
    StaleMiss(c, t, 0, SKIP_SHIFT);
    StaleMiss(c, t1, 1, SKIP_SHIFT + 1);
  }

  // ----- exactly when reuse shows

  /** The block of a call: at the epoch that earlier calls have left, with the table they have left. */
  function ReusedBlock(input: seq<byte>, hash: seq<byte> -> nat, streamOffset: nat, t: Table): Block {
    var epoch := NextEpoch(streamOffset, |input|);
    EncodeFrom(PlainStream(input, epoch.off, hash), if epoch.clear then Empty(|t|) else t, 0).block
  }

  /** The block of a fresh compressor. */
  function FreshBlock(input: seq<byte>, hash: seq<byte> -> nat, n: nat): Block
    requires n > 0
  {
    ReusedBlock(input, hash, 0, Empty(n))
  }

  /** Whether every call on `len` bytes writes what a fresh compressor writes, whatever the bytes and
      the table of earlier calls. */
  ghost predicate WritesFresh(hash: seq<byte> -> nat, n: nat, streamOffset: nat, len: nat)
    requires n > 0
  {
    forall input, t: Table :: |input| == len && |t| == n && TableBelow(t, Max(1, streamOffset)) ==>
      ReusedBlock(input, hash, streamOffset, t) == FreshBlock(input, hash, n)
  }

  /** A call from offset 0 finds an empty table, whether it has cleared it or it is the first. */
  lemma OffsetZeroIsFresh(input: seq<byte>, hash: seq<byte> -> nat, streamOffset: nat, t: Table)
    requires TableBelow(t, Max(1, streamOffset)) && NextEpoch(streamOffset, |input|).off == 0
    ensures ReusedBlock(input, hash, streamOffset, t) == FreshBlock(input, hash, |t|)
  {
    hide EncodeFrom;
    if streamOffset == 0 {
      assert t == Empty(|t|);
    }
  }

  /** Inputs that are too short for a match are literals. */
  lemma ShortIsFresh(input: seq<byte>, hash: seq<byte> -> nat, streamOffset: nat, t: Table)
    requires |input| < LZ4_MIN_LENGTH
    ensures ReusedBlock(input, hash, streamOffset, t) == FreshBlock(input, hash, |t|) == Last(input)
  {
    hide Encode;
    assert input[0..] == input;
  }

  lemma ReuseShows(hash: seq<byte> -> nat, streamOffset: nat, len: nat, t: Table)
    requires NextEpoch(streamOffset, len).off != 0 && LZ4_MIN_LENGTH <= len
    requires Separates(hash, |t|, len) && TableBelow(t, streamOffset)
    ensures ReusedBlock(Witness(len), hash, streamOffset, t) != FreshBlock(Witness(len), hash, |t|)
  {
    hide EncodeFrom, Separates;
    FreshWitness(len, hash, |t|);
    LaterWitness(len, hash, streamOffset, t);
  }

  /** Calls that start from offset 0, and those that are too short for a match, write what a fresh
      compressor writes, for every hash and table size. */
  lemma ReuseIsInvisible(hash: seq<byte> -> nat, n: nat, streamOffset: nat, len: nat)
    requires n > 0 && (NextEpoch(streamOffset, len).off == 0 || len < LZ4_MIN_LENGTH)
    ensures WritesFresh(hash, n, streamOffset, len)
  {
    hide ReusedBlock, FreshBlock, TableBelow;
    forall input, t: Table | |input| == len && |t| == n && TableBelow(t, Max(1, streamOffset))
      ensures ReusedBlock(input, hash, streamOffset, t) == FreshBlock(input, hash, n)
    {
      if len < LZ4_MIN_LENGTH {
        ShortIsFresh(input, hash, streamOffset, t);
      } else {
        OffsetZeroIsFresh(input, hash, streamOffset, t);
      }
    }
  }

  /** With a hash that keeps two windows apart, these are the only calls. */
  lemma ReuseIsVisible(hash: seq<byte> -> nat, n: nat, streamOffset: nat, len: nat)
    requires n > 0 && (LZ4_MIN_LENGTH <= len ==> Separates(hash, n, len))
    ensures WritesFresh(hash, n, streamOffset, len)
       <==> NextEpoch(streamOffset, len).off == 0 || len < LZ4_MIN_LENGTH
  {
    hide ReusedBlock, FreshBlock, TableBelow, Separates;
    if NextEpoch(streamOffset, len).off == 0 || len < LZ4_MIN_LENGTH {
      ReuseIsInvisible(hash, n, streamOffset, len);
    } else {
      EmptyBelow(n, streamOffset);
      ReuseShows(hash, streamOffset, len, Empty(n));
    }
  }

  lemma EmptyBelow(n: nat, bound: nat)
    requires bound > 0
    ensures TableBelow(Empty(n), bound)
  {
  }

  // ----- over calls

  /** The stream offset after calls on inputs of these lengths, failed ones included. */
  function OffsetAfter(calls: seq<Call>): nat {
    if calls == [] then 0
    else
      var len := |calls[|calls| - 1].input|;
      NextEpoch(OffsetAfter(calls[..|calls| - 1]), len).off + len + WINDOW_SIZE
  }

  lemma OffsetStep(calls: seq<Call>, i: nat)
    requires i < |calls|
    ensures OffsetAfter(calls[..i + 1])
         == NextEpoch(OffsetAfter(calls[..i]), |calls[i].input|).off + |calls[i].input| + WINDOW_SIZE
  {
    assert calls[..i + 1][..i] == calls[..i];
  }

  /** Runs calls on a fresh compressor and then one more, whose output it returns. */
  method CompressAfter(n: nat, hash: seq<byte> -> nat, earlier: seq<Call>, input: seq<byte>)
    returns (block: seq<byte>, ghost t: Table)
    requires n > 0 && |input| <= ISIZE_MAX && forall i :: 0 <= i < |earlier| ==> |earlier[i].input| <= ISIZE_MAX
    ensures |t| == n && TableBelow(t, Max(1, OffsetAfter(earlier)))
    ensures var b := ReusedBlock(input, hash, OffsetAfter(earlier), t);
            WellFormed(b) && block == Print(b)
    ensures Encodes(block, [], input)
  {
    hide EncodeFrom, Encodes, Print, WellFormed, TableBelow, NextEpoch, OffsetAfter;
    var c := new PlainCompressor(n, hash);
    NoCalls(earlier);
    for i := 0 to |earlier|
      invariant fresh(c) && fresh(c.table.entries) && c.Valid()
      invariant c.table.entries.Length == n && c.table.hash == hash && c.streamOffset == OffsetAfter(earlier[..i])
    {
      OffsetStep(earlier, i);
      var output := new byte[earlier[i].room];
      var _ := c.CompressInto(earlier[i].input, output);
    }
    assert earlier[..|earlier|] == earlier;
    t := c.table.entries[..];
    var output := new byte[MaxOutputSize(|input|)];
    var len := c.CompressInto(input, output);
    block := output[..len.value];
  }

  lemma NoCalls(calls: seq<Call>)
    ensures OffsetAfter(calls[..0]) == 0
  {
  }

  /** Whatever two compressors have been used for, they write the same bytes if both are at offset 0,
      as a fresh one is, or both are at later ones; and on inputs that are too short for a match. */
  method HistoriesAgree(n: nat, hash: seq<byte> -> nat, earlier: seq<Call>, other: seq<Call>, input: seq<byte>)
    returns (first: seq<byte>, second: seq<byte>)
    requires n > 0 && |input| <= ISIZE_MAX
    requires forall i :: 0 <= i < |earlier| ==> |earlier[i].input| <= ISIZE_MAX
    requires forall i :: 0 <= i < |other| ==> |other[i].input| <= ISIZE_MAX
    ensures var atZero := NextEpoch(OffsetAfter(earlier), |input|).off == 0;
            var otherAtZero := NextEpoch(OffsetAfter(other), |input|).off == 0;
            (atZero <==> otherAtZero) || |input| < LZ4_MIN_LENGTH ==> first == second
  {
    hide ReusedBlock, NextEpoch, OffsetAfter, Print, WellFormed, Encodes, TableBelow;
    ghost var t, u;
    first, t := CompressAfter(n, hash, earlier, input);
    second, u := CompressAfter(n, hash, other, input);
    if (NextEpoch(OffsetAfter(earlier), |input|).off == 0 <==> NextEpoch(OffsetAfter(other), |input|).off == 0)
       || |input| < LZ4_MIN_LENGTH {
      SameBlocks(input, hash, OffsetAfter(earlier), t, OffsetAfter(other), u);
    }
  }

  lemma SameBlocks(input: seq<byte>, hash: seq<byte> -> nat, streamOffset: nat, t: Table, streamOffset': nat, u: Table)
    requires |t| == |u| && TableBelow(t, Max(1, streamOffset)) && TableBelow(u, Max(1, streamOffset'))
    requires (NextEpoch(streamOffset, |input|).off == 0 <==> NextEpoch(streamOffset', |input|).off == 0)
          || |input| < LZ4_MIN_LENGTH
    ensures ReusedBlock(input, hash, streamOffset, t) == ReusedBlock(input, hash, streamOffset', u)
  {
    hide EncodeFrom, TableBelow, FreshBlock;
    if |input| < LZ4_MIN_LENGTH {
      ShortIsFresh(input, hash, streamOffset, t);
      ShortIsFresh(input, hash, streamOffset', u);
    } else if NextEpoch(streamOffset, |input|).off == 0 {
      OffsetZeroIsFresh(input, hash, streamOffset, t);
      OffsetZeroIsFresh(input, hash, streamOffset', u);
    } else {
      LaterOffsetsAgree(input, hash, streamOffset, streamOffset', t, u);
    }
  }

  /** After any calls that leave the compressor at a later offset, the witness is written differently
      from what a fresh compressor writes. */
  method HistoriesDiffer(n: nat, hash: seq<byte> -> nat, earlier: seq<Call>, len: nat)
    returns (reused: seq<byte>, fresh_: seq<byte>)
    requires n > 0 && LZ4_MIN_LENGTH <= len <= ISIZE_MAX && Separates(hash, n, len)
    requires forall i :: 0 <= i < |earlier| ==> |earlier[i].input| <= ISIZE_MAX
    requires NextEpoch(OffsetAfter(earlier), len).off != 0
    ensures reused != fresh_
  {
    hide ReusedBlock, Print, WellFormed, Encodes, Separates;
    ghost var t, u;
    reused, t := CompressAfter(n, hash, earlier, Witness(len));
    fresh_, u := CompressAfter(n, hash, [], Witness(len));
    ReuseShows(hash, OffsetAfter(earlier), len, t);
    OffsetZeroIsFresh(Witness(len), hash, 0, u);
    PrintParse(ReusedBlock(Witness(len), hash, OffsetAfter(earlier), t));
    PrintParse(FreshBlock(Witness(len), hash, n));
  }

  // ----- the program's own hash

  const PRIME5: nat := 889_523_592_379

  /** The first five of eight little-endian bytes, multiplied modulo 2^64. */
  function Product(v: nat): (p: nat)
    ensures p <= USIZE_MAX
  {
    v * 0x100_0000 % (USIZE_MAX + 1) * PRIME5 % (USIZE_MAX + 1)
  }

  /** The hash onto 2^k buckets: the upper `k` bits of the product. */
  function HashOnto(k: nat): (hash: seq<byte> -> nat)
    requires k <= 64
  {
    (window: seq<byte>) => Quotient(Product(FromLe(window)), Pow2(64 - k))
  }

  function Quotient(a: nat, d: nat): nat
    requires d > 0
  {
    a / d
  }

  lemma Doubled(a: nat, b: nat)
    ensures 2 * a * b == 2 * (a * b)
  {
  }

  lemma {:induction false} PowersMultiply(i: nat, j: nat)
    ensures Pow2(i) * Pow2(j) == Pow2(i + j)
    decreases i
  {
    if i > 0 {
      PowersMultiply(i - 1, j);
      Doubled(Pow2(i - 1), Pow2(j));
    }
  }

  lemma WordPowers()
    ensures Pow2(56) == 0x100_0000_0000_0000 && Pow2(64) == USIZE_MAX + 1
  {
    hide Pow2;
    PowersOf2();
    PowersMultiply(8, 8);
    PowersMultiply(16, 8);
    PowersMultiply(16, 16);
    PowersMultiply(32, 24);
    PowersMultiply(32, 32);
  }

  lemma QuotientBelow(a: nat, m: nat, d: nat)
    requires d > 0 && a < m * d
    ensures Quotient(a, d) < m && (d <= a ==> 1 <= Quotient(a, d))
  {
    var q := Quotient(a, d);
    assert q * d <= a < (q + 1) * d;
    if q >= m {
      MoreTimes(m, q, d);
    }
    if d <= a && q < 1 {
      MoreTimes(q + 1, 1, d);
    }
  }

  lemma MoreTimes(i: nat, j: nat, d: nat)
    requires i <= j
    ensures i * d <= j * d
  {
  }

  /** The hash is a bucket of the table, so that no reduction takes place when it is looked up. */
  lemma HashInTable(k: nat, window: seq<byte>)
    requires k <= 64
    ensures HashOnto(k)(window) < Pow2(k)
  {
    hide Product;
    WordPowers();
    PowersMultiply(k, 64 - k);
    QuotientBelow(Product(FromLe(window)), Pow2(k), Pow2(64 - k));
  }

  lemma WitnessProducts()
    ensures Product(0x0101_0100_0000_0000) == 0 && Product(0x0101_0101_0000_0000) == 0xBB00_0000_0000_0000
  {
    var word := USIZE_MAX + 1;
    Remainder(0x0101_0100_0000_0000 * 0x100_0000, 0x1_0101, word, 0);
    Remainder(0x0101_0101_0000_0000 * 0x100_0000, 0x1_0101, word, 0x100_0000_0000_0000);
    Remainder(0x100_0000_0000_0000 * PRIME5, PRIME5 / 256, word, 0xBB00_0000_0000_0000);
  }

  lemma Remainder(a: nat, q: nat, m: nat, r: nat)
    requires a == q * m + r && r < m
    ensures a % m == r
  {
    if a / m < q {
      MoreTimes(a / m + 1, q, m);
    } else if a / m > q {
      MoreTimes(q + 1, a / m, m);
    }
  }

  lemma WitnessWindows(len: nat)
    requires LZ4_MIN_LENGTH <= len
    ensures FromLe(Witness(len)[0..8]) == 0x0101_0100_0000_0000
    ensures FromLe(Witness(len)[1..9]) == 0x0101_0101_0000_0000
  {
    hide FromLe;
    assert Witness(len)[0..8] == [0, 0, 0, 0, 0, 1, 1, 1];
    assert Witness(len)[1..9] == [0, 0, 0, 0, 1, 1, 1, 1];
    EightBytes(0);
    EightBytes(1);
  }

  lemma LowByte(b: byte, s: seq<byte>)
    ensures FromLe([b] + s) == b + 256 * FromLe(s)
  {
    assert ([b] + s)[1..] == s;
  }

  lemma EightBytes(b: byte)
    ensures FromLe([0, 0, 0, 0, b, 1, 1, 1]) == 0x0101_0100_0000_0000 + 0x1_0000_0000 * b
  {
    var none: seq<byte> := [];
    assert FromLe(none) == 0;
    hide FromLe;
    LowByte(1, none);
    LowByte(1, [1]);
    LowByte(1, [1, 1]);
    LowByte(b, [1, 1, 1]);
    assert [1] + none == [1] && [1] + [1] == [1, 1] && [1] + [1, 1] == [1, 1, 1] && [b] + [1, 1, 1] == [b, 1, 1, 1];
    FourZeros([b, 1, 1, 1]);
    assert [0, 0, 0, 0] + [b, 1, 1, 1] == [0, 0, 0, 0, b, 1, 1, 1];
  }

  lemma FourZeros(s: seq<byte>)
    ensures FromLe([0, 0, 0, 0] + s) == 0x1_0000_0000 * FromLe(s)
  {
    hide FromLe;
    LowByte(0, s);
    LowByte(0, [0] + s);
    LowByte(0, [0, 0] + s);
    LowByte(0, [0, 0, 0] + s);
    assert [0] + ([0] + s) == [0, 0] + s && [0] + ([0, 0] + s) == [0, 0, 0] + s;
    assert [0] + ([0, 0, 0] + s) == [0, 0, 0, 0] + s;
  }

  /** The program's hash keeps the two windows apart in every table the program can have, from 256
      entries on. */
  lemma ProgramSeparates(k: nat, len: nat)
    requires 8 <= k <= 64 && LZ4_MIN_LENGTH <= len
    ensures Separates(HashOnto(k), Pow2(k), len)
  {
    hide Product, Quotient, Pow2, FromLe;
    WitnessWindows(len);
    WitnessProducts();
    HashInTable(k, Witness(len)[0..8]);
    HashInTable(k, Witness(len)[1..9]);
    UpperBits(k);
    var zero, some := Quotient(0, Pow2(64 - k)), Quotient(0xBB00_0000_0000_0000, Pow2(64 - k));
    assert HashOnto(k)(Witness(len)[0..8]) == zero && HashOnto(k)(Witness(len)[1..9]) == some;
    NoReduction(zero, Pow2(k));
    NoReduction(some, Pow2(k));
  }

  lemma UpperBits(k: nat)
    requires 8 <= k <= 64
    ensures Quotient(0, Pow2(64 - k)) == 0 && 1 <= Quotient(0xBB00_0000_0000_0000, Pow2(64 - k))
  {
    WordPowers();
    PowersMultiply(k, 64 - k);
    PowersMultiply(k - 8, 64 - k);
    hide Pow2, Quotient;
    MoreTimes(1, Pow2(k - 8), Pow2(64 - k));
    QuotientBelow(0xBB00_0000_0000_0000, Pow2(k), Pow2(64 - k));
    ZeroQuotient(Pow2(64 - k));
  }

  lemma ZeroQuotient(d: nat)
    requires d > 0
    ensures Quotient(0, d) == 0
  {
  }

  lemma NoReduction(a: nat, m: nat)
    requires a < m
    ensures a % m == a
  {
  }

  /** Positions go on from the last call for inputs up to 1024 bytes, while 32 bits hold them and a
      window behind them; otherwise they start over. */
  lemma EpochGoesOn(streamOffset: nat, len: nat)
    ensures var on := len <= 1024 && streamOffset + len + 65536 <= 4294967295;
            NextEpoch(streamOffset, len) == if on then Epoch(streamOffset, false) else Epoch(0, true)
  {
  }

  /** With the program's hash, at every table size: reuse is invisible exactly in calls that start from
      offset 0 and in those that are too short for a match. */
  lemma ProgramReuse(k: nat, streamOffset: nat, len: nat)
    requires 8 <= k <= 64
    ensures WritesFresh(HashOnto(k), Pow2(k), streamOffset, len)
       <==> len < 13 || len > 1024 || streamOffset == 0 || streamOffset + len + 65536 > 4294967295
  {
    hide WritesFresh, Separates, NextEpoch;
    EpochGoesOn(streamOffset, len);
    if LZ4_MIN_LENGTH <= len {
      ProgramSeparates(k, len);
    }
    ReuseIsVisible(HashOnto(k), Pow2(k), streamOffset, len);
  }
}
