/**
  What the block encoder computes, step by step: a greedy search through a hash table of
  earlier positions.  The table is a hint, and every candidate is checked against the bytes,
  but not an arbitrary one: `TableBelow` is what keeps the offsets honest.
 */
module EncoderSpec {
  import opened Core
  import opened BlockFormat
  import opened MatchFinder

  const SKIP_SHIFT: nat := 8  // the search step grows by one every 8 misses

  /** The input of one call.  Position `i` of the input is stored as `off + i`; the dictionary
      ends where the input starts.  `width` is the number of values a table entry can hold. */
  datatype Stream = Stream(
    input: seq<byte>, dict: seq<byte>, off: nat, hash: seq<byte> -> nat, width: nat,
    useDict: bool, hasOffset: bool, readonly: bool, near: bool)

  ghost predicate Valid(c: Stream) {
    && c.width > 0
    && c.off + |c.input| + |c.dict| <= ISIZE_MAX
    && (c.useDict ==> |c.dict| <= WINDOW_SIZE && |c.dict| <= c.off)
    && (!c.useDict ==> c.dict == [])
    && (!c.hasOffset ==> c.off == 0)
    && (c.readonly ==> c.useDict && c.off == |c.dict| && |c.dict| + |c.input| < U16_MAX)
    && (c.near ==> |c.dict| + |c.input| <= MAX_DISTANCE + 1)
  }

  type Table = t: seq<nat> | |t| > 0 witness [0]

  function Slot(c: Stream, t: Table, i: nat): (s: nat)
    requires i + 8 <= |c.input|
    ensures s < |t|
  {
    c.hash(c.input[i..i + 8]) % |t|
  }

  function Put(t: Table, slot: nat, val: nat, width: nat): (r: Table)
    requires slot < |t| && width > 0
    ensures |r| == |t|
  {
    t[slot := val % width]
  }

  /** Every stored position is below `bound`. */
  ghost predicate TableBelow(t: seq<nat>, bound: nat) {
    forall i :: 0 <= i < |t| ==> t[i] < bound
  }

  // ----- the search

  /** A candidate with four readable bytes. */
  predicate InSource(c: Stream, h: Hit) {
    h.candidate + 4 <= |Source(c.dict, c.input, h)|
  }

  /** The test of one candidate position. */
  function Probe(c: Stream, cur: nat, next: nat, cand: nat): (r: Option<Hit>)
    requires cur + 4 <= |c.input| && next + 4 <= |c.input| && |c.dict| <= c.off
    ensures r.Some? ==> InSource(c, r.value)
  {
    if c.readonly then
      if cand + 4 <= |c.dict| && c.dict[cand..cand + 4] == c.input[cur..cur + 4]
      then Some(Hit((c.off + cur - cand) % (U16_MAX + 1), cand, true))
      else None
    else if c.off <= cand < c.off + next
            && (!(c.hasOffset && !c.useDict) || cur - (cand - c.off) <= MAX_DISTANCE) then
      var p := cand - c.off;
      if c.input[p..p + 4] == c.input[cur..cur + 4] && (c.near || cur - p <= MAX_DISTANCE)
      then Some(Hit((cur - p) % (U16_MAX + 1), p, false))
      else None
    else if c.useDict && cand >= c.off - |c.dict| && cand - (c.off - |c.dict|) + 4 <= |c.dict| then
      var p := cand - (c.off - |c.dict|);
      if c.dict[p..p + 4] == c.input[cur..cur + 4] && (c.near || c.off + cur - cand <= MAX_DISTANCE)
      then Some(Hit((c.off + cur - cand) % (U16_MAX + 1), p, true))
      else None
    else None
  }

  datatype Found =
    | Missed(table: Table)
    | FoundAt(table: Table, cur: nat, hit: Hit)

  /** Positions up to `len - MFLIMIT` start a match. */
  function Record(c: Stream, t: Table, i: nat): (r: Table)
    requires c.width > 0 && i + 8 <= |c.input|
    ensures |r| == |t|
  {
    if c.readonly then t else Put(t, Slot(c, t, i), c.off + i, c.width)
  }

  /** The search from `cur`: looks up and records positions, in growing steps, until a
      candidate passes or the input ends. */
  function Search(c: Stream, t: Table, cur: nat, misses: nat): (f: Found)
    requires c.width > 0 && |c.dict| <= c.off && LZ4_MIN_LENGTH <= |c.input| && SKIP_SHIFT <= misses
    ensures |f.table| == |t|
    ensures f.FoundAt? ==> cur <= f.cur && f.cur + MFLIMIT <= |c.input| && InSource(c, f.hit)
    decreases |c.input| - cur
  {
    var next := cur + misses / SKIP_SHIFT;
    if next > |c.input| - MFLIMIT + 1 then Missed(t)
    else
      var cand := t[Slot(c, t, cur)];
      var t' := Record(c, t, cur);
      match Probe(c, cur, next, cand)
      case Some(hit) => FoundAt(t', cur, hit)
      case None => Search(c, t', next, misses + 1)
  }

  // ----- one match after another

  /** After a match that ends at `end`: the position two bytes in front of `end`. */
  function RecordTail(c: Stream, t: Table, end: nat): (r: Table)
    requires c.width > 0 && 2 <= end && end + END_OFFSET <= |c.input|
    ensures |r| == |t|
  {
    Record(c, t, end - 2)
  }

  /** The test of a candidate for the position right behind a match. */
  function ProbeBehind(c: Stream, end: nat, cand: nat): (r: Option<Hit>)
    requires end + 4 <= |c.input|
    ensures r.Some? ==> InSource(c, r.value)
  {
    if c.off <= cand < c.off + end
       && c.input[end..end + 4] == c.input[cand - c.off..cand - c.off + 4]
       && (c.near || end - (cand - c.off) <= MAX_DISTANCE)
    then Some(Hit((end - (cand - c.off)) % (U16_MAX + 1), cand - c.off, false))
    else None
  }

  /** Without a dictionary, the position right behind a match is tried at once. */
  function Rematch(c: Stream, t: Table, end: nat): (r: Option<Hit>)
    requires end + 4 <= |c.input|
    ensures r.Some? ==> InSource(c, r.value) && end + MFLIMIT <= |c.input|
  {
    if c.useDict || end + MFLIMIT > |c.input| then None
    else ProbeBehind(c, end, t[Slot(c, t, end)])
  }

  datatype Encoding = Encoding(block: Block, table: Table)

  /** Encodes `input[literalStart..]`, searching from `cur`. */
  function Encode(c: Stream, t: Table, cur: nat, literalStart: nat): (e: Encoding)
    requires c.width > 0 && |c.dict| <= c.off && LZ4_MIN_LENGTH <= |c.input|
    requires literalStart <= cur && literalStart <= |c.input|
    ensures |e.table| == |t|
    decreases |c.input| - literalStart, 1
  {
    match Search(c, t, cur, SKIP_SHIFT)
    case Missed(t1) => Encoding(Last(c.input[literalStart..]), t1)
    case FoundAt(t1, at, hit) => Extend(c, t1, at, literalStart, hit)
  }

  /** Emits the match found at `cur` and encodes what follows it. */
  function Extend(c: Stream, t: Table, cur: nat, literalStart: nat, hit: Hit): (e: Encoding)
    requires c.width > 0 && |c.dict| <= c.off && LZ4_MIN_LENGTH <= |c.input|
    requires literalStart <= cur && cur + MFLIMIT <= |c.input| && InSource(c, hit)
    ensures |e.table| == |t|
    decreases |c.input| - literalStart, 0
  {
    var s := MatchSpan(c.dict, c.input, cur, literalStart, hit);
    var t1 := RecordTail(c, t, s.end);
    var e :=
      match Rematch(c, t1, s.end)
      case Some(h) => Extend(c, Record(c, t1, s.end), s.end, s.end, h)
      case None => Encode(c, t1, s.end, s.end);
    Encoding(More(c.input[literalStart..s.start], hit.offset, s.end - s.start, e.block), e.table)
  }

  /** Encodes `input[pos..]`, with `input[..pos]` as history. */
  function EncodeFrom(c: Stream, t: Table, pos: nat): (e: Encoding)
    requires c.width > 0 && |c.dict| <= c.off && pos <= |c.input|
    ensures |e.table| == |t|
  {
    if |c.input| - pos < LZ4_MIN_LENGTH then Encoding(Last(c.input[pos..]), t)
    else if pos == 0 && c.off == 0 then Encode(c, Record(c, t, 0), 1, 0)
    else Encode(c, t, pos, pos)
  }

  // ----- the table never runs ahead

  /** The table fits a lookup at input position `cur`.  A read-only table is never written and
      holds dictionary positions, whose candidates are checked one by one. */
  ghost predicate Fits(c: Stream, t: seq<nat>, cur: nat) {
    c.readonly || TableBelow(t, c.off + cur)
  }

  lemma RecordFits(c: Stream, t: Table, i: nat, cur: nat)
    requires c.width > 0 && i + 8 <= |c.input| && i < cur && Fits(c, t, cur)
    ensures Fits(c, Record(c, t, i), cur)
  {
    if !c.readonly {
      ModBelow(c.off + i, c.width);
    }
  }

  lemma ModBelow(a: nat, m: nat)
    requires m > 0
    ensures a % m <= a
  {
    if a >= m {
      assert a % m < m;
    }
  }

  lemma FitsLater(c: Stream, t: Table, cur: nat, later: nat)
    requires cur <= later && Fits(c, t, cur)
    ensures Fits(c, t, later)
  {
  }

  lemma CandidateBelow(c: Stream, t: Table, slot: nat, cur: nat)
    requires slot < |t| && Fits(c, t, cur)
    ensures c.readonly || t[slot] < c.off + cur
  {
  }

  /** Every candidate that passes is a real match: also where no distance is tested, because
      everything within reach is near, and the cast of the offset to 16 bits loses nothing. */
  lemma ProbeIsGood(c: Stream, cur: nat, next: nat, cand: nat)
    requires Valid(c) && cur + 4 <= |c.input| && next + 4 <= |c.input|
    requires c.readonly || cand < c.off + cur
    requires Probe(c, cur, next, cand).Some?
    ensures GoodHit(c.dict, c.input, cur, Probe(c, cur, next, cand).value)
  {
    var h := Probe(c, cur, next, cand).value;
    assert Same(c.input, cur, Source(c.dict, c.input, h), h.candidate, 4);
  }

  /** `h` is a real match for the input at `cur`, with its source at position `cand`. */
  ghost predicate RealHit(c: Stream, cur: nat, cand: nat, h: Hit) {
    GoodHit(c.dict, c.input, cur, h) && cand + h.offset == c.off + cur && (c.readonly ==> h.inDict)
  }

  /** A candidate passes exactly when it is a real match. */
  lemma ProbeExactly(c: Stream, cur: nat, next: nat, cand: nat)
    requires Valid(c) && cur <= next && cur + 4 <= |c.input| && next + 4 <= |c.input|
    requires c.readonly || cand < c.off + cur
    ensures forall h :: Probe(c, cur, next, cand) == Some(h) <==> RealHit(c, cur, cand, h)
  {
    forall h
      ensures Probe(c, cur, next, cand) == Some(h) <==> RealHit(c, cur, cand, h)
    {
      if Probe(c, cur, next, cand) == Some(h) {
        ProbeIsGood(c, cur, next, cand);
      } else if RealHit(c, cur, cand, h) {
        RealPasses(c, cur, next, cand, h);
      }
    }
  }

  lemma RealPasses(c: Stream, cur: nat, next: nat, cand: nat, h: Hit)
    requires Valid(c) && cur <= next && cur + 4 <= |c.input| && next + 4 <= |c.input|
    requires (c.readonly || cand < c.off + cur) && RealHit(c, cur, cand, h)
    ensures Probe(c, cur, next, cand) == Some(h)
  {
  }

  /** So does the candidate behind a match, where one is tried. */
  lemma RematchExactly(c: Stream, t: Table, end: nat)
    requires Valid(c) && 2 <= end && end + END_OFFSET <= |c.input| && Fits(c, t, end)
    ensures c.useDict || end + MFLIMIT > |c.input| ==> Rematch(c, t, end) == None
    ensures !c.useDict && end + MFLIMIT <= |c.input| ==>
              forall h :: Rematch(c, t, end) == Some(h) <==> RealHit(c, end, t[Slot(c, t, end)], h)
  {
    if !c.useDict && end + MFLIMIT <= |c.input| {
      ProbeExactly(c, end, end + 1, t[Slot(c, t, end)]);
      SameProbe(c, end, t[Slot(c, t, end)]);
    }
  }

  /** Behind a match the test is the one of the search. */
  lemma SameProbe(c: Stream, end: nat, cand: nat)
    requires Valid(c) && !c.useDict && end + MFLIMIT <= |c.input| && cand < c.off + end
    ensures ProbeBehind(c, end, cand) == Probe(c, end, end + 1, cand)
  {
  }

  lemma RematchIsGood(c: Stream, t: Table, end: nat)
    requires Valid(c) && end + 4 <= |c.input| && Fits(c, t, end)
    requires Rematch(c, t, end).Some?
    ensures GoodHit(c.dict, c.input, end, Rematch(c, t, end).value)
  {
    var h := Rematch(c, t, end).value;
    assert Same(c.input, end, c.input, h.candidate, 4);
  }

  lemma {:induction false} SearchIsGood(c: Stream, t: Table, cur: nat, misses: nat)
    requires Valid(c) && LZ4_MIN_LENGTH <= |c.input| && SKIP_SHIFT <= misses
    requires Fits(c, t, cur)
    ensures var f := Search(c, t, cur, misses);
            match f
            case Missed(t1) => cur <= |c.input| ==> Fits(c, t1, |c.input|)
            case FoundAt(t1, at, hit) => Fits(c, t1, at + 1) && GoodHit(c.dict, c.input, at, hit)
    decreases |c.input| - cur
  {
    hide Probe, Record, GoodHit, Fits, Slot;
    var next := cur + misses / SKIP_SHIFT;
    if next > |c.input| - MFLIMIT + 1 {
      if cur <= |c.input| {
        FitsLater(c, t, cur, |c.input|);
      }
    } else {
      var cand := t[Slot(c, t, cur)];
      var t1 := Record(c, t, cur);
      FitsLater(c, t, cur, cur + 1);
      RecordFits(c, t, cur, cur + 1);
      CandidateBelow(c, t, Slot(c, t, cur), cur);
      if Probe(c, cur, next, cand).Some? {
        ProbeIsGood(c, cur, next, cand);
      } else {
        FitsLater(c, t1, cur + 1, next);
        SearchIsGood(c, t1, next, misses + 1);
      }
    }
  }

  // ----- what an encoding is worth

  /** The end-of-block rules on a block of `n` bytes: literals close it, every match starts at
      least `MFLIMIT` bytes before its end, and behind a match at least `END_OFFSET` follow. */
  predicate Conforms(b: Block, n: nat, afterMatch: bool) {
    match b
    case Last(lits) => |lits| == n && (afterMatch ==> END_OFFSET <= n)
    case More(lits, _, len, rest) =>
      |lits| + MFLIMIT <= n && |lits| + len <= n && Conforms(rest, n - |lits| - len, true)
  }

  /** `e` encodes `input[literalStart..]` behind the dictionary and the input in front of it. */
  ghost predicate Correct(c: Stream, e: Encoding, literalStart: nat, afterMatch: bool)
    requires literalStart <= |c.input|
  {
    && WellFormed(e.block)
    && Run(e.block, c.dict + c.input[..literalStart]) == Some(c.dict + c.input)
    && Conforms(e.block, |c.input| - literalStart, afterMatch)
    && Fits(c, e.table, |c.input|)
  }

  lemma CorrectLast(c: Stream, t: Table, literalStart: nat, afterMatch: bool)
    requires literalStart <= |c.input| && (afterMatch ==> literalStart + END_OFFSET <= |c.input|)
    requires Fits(c, t, |c.input|)
    ensures Correct(c, Encoding(Last(c.input[literalStart..]), t), literalStart, afterMatch)
  {
    assert c.dict + c.input[..literalStart] + c.input[literalStart..] == c.dict + c.input;
  }

  lemma CorrectMore(c: Stream, literalStart: nat, afterMatch: bool, hit: Hit, s: Span, e: Encoding)
    requires literalStart <= s.start && s.start + MFLIMIT <= |c.input|
    requires s.start + MINMATCH <= s.end <= |c.input|
    requires 1 <= hit.offset <= MAX_DISTANCE && hit.offset <= |c.dict| + s.start
    requires Copy(c.dict + c.input[..s.start], hit.offset, s.end - s.start) == c.dict + c.input[..s.end]
    requires Correct(c, e, s.end, true)
    ensures Correct(c, Encoding(More(c.input[literalStart..s.start], hit.offset, s.end - s.start, e.block), e.table),
                    literalStart, afterMatch)
  {
    hide Copy;
    assert c.dict + c.input[..literalStart] + c.input[literalStart..s.start] == c.dict + c.input[..s.start];
  }

  lemma {:induction false} EncodeIsCorrect(c: Stream, t: Table, cur: nat, literalStart: nat, afterMatch: bool)
    requires Valid(c) && LZ4_MIN_LENGTH <= |c.input|
    requires literalStart <= cur <= |c.input| && (afterMatch ==> literalStart + END_OFFSET <= |c.input|)
    requires Fits(c, t, cur)
    ensures Correct(c, Encode(c, t, cur, literalStart), literalStart, afterMatch)
    decreases |c.input| - literalStart, 1
  {
    hide Correct, Fits, GoodHit, Search, Extend;
    SearchIsGood(c, t, cur, SKIP_SHIFT);
    match Search(c, t, cur, SKIP_SHIFT)
    case Missed(t1) => CorrectLast(c, t1, literalStart, afterMatch);
    case FoundAt(t1, at, hit) => ExtendIsCorrect(c, t1, at, literalStart, afterMatch, hit);
  }

  lemma {:induction false} ExtendIsCorrect(c: Stream, t: Table, cur: nat, literalStart: nat, afterMatch: bool, hit: Hit)
    requires Valid(c) && LZ4_MIN_LENGTH <= |c.input|
    requires literalStart <= cur && cur + MFLIMIT <= |c.input|
    requires Fits(c, t, cur + 1) && GoodHit(c.dict, c.input, cur, hit)
    ensures InSource(c, hit)
    ensures Correct(c, Extend(c, t, cur, literalStart, hit), literalStart, afterMatch)
    decreases |c.input| - literalStart, 0
  {
    hide Correct, Fits, MatchSpan, Copy, Same, Encode, Rematch, Record;
    var from := SpanIsGood(c.dict, c.input, cur, literalStart, hit);
    var s := MatchSpan(c.dict, c.input, cur, literalStart, hit);
    SpanRuns(c.dict, c.input, hit, s, from);
    var t1 := RecordTail(c, t, s.end);
    FitsLater(c, t, cur + 1, s.end);
    RecordFits(c, t, s.end - 2, s.end);
    var r := Rematch(c, t1, s.end);
    if r.Some? {
      RematchIsGood(c, t1, s.end);
      FitsLater(c, t1, s.end, s.end + 1);
      RecordFits(c, t1, s.end, s.end + 1);
      ExtendIsCorrect(c, Record(c, t1, s.end), s.end, s.end, true, r.value);
      CorrectMore(c, literalStart, afterMatch, hit, s, Extend(c, Record(c, t1, s.end), s.end, s.end, r.value));
    } else {
      EncodeIsCorrect(c, t1, s.end, s.end, true);
      CorrectMore(c, literalStart, afterMatch, hit, s, Encode(c, t1, s.end, s.end));
    }
  }

  /** At the very start of a stream an empty slot reads as position 0, which is real only once
      it has been passed. */
  ghost predicate FitsStart(c: Stream, t: seq<nat>, pos: nat) {
    c.readonly || TableBelow(t, Max(1, c.off + pos))
  }

  /** `e` encodes `input[pos..]` and leaves a table from which the stream can go on. */
  ghost predicate Lossless(c: Stream, e: Encoding, pos: nat)
    requires pos <= |c.input|
  {
    && WellFormed(e.block)
    && Run(e.block, c.dict + c.input[..pos]) == Some(c.dict + c.input)
    && Conforms(e.block, |c.input| - pos, false)
    && FitsStart(c, e.table, |c.input|)
  }

  /** Losslessness, whatever the table holds, as long as it does not run ahead. */
  lemma EncodeFromIsLossless(c: Stream, t: Table, pos: nat)
    requires Valid(c) && pos <= |c.input| && FitsStart(c, t, pos)
    ensures Lossless(c, EncodeFrom(c, t, pos), pos)
  {
    hide Encode, Correct, TableBelow, Record;
    if |c.input| - pos < LZ4_MIN_LENGTH {
      CorrectShort(c, t, pos);
    } else if pos == 0 && c.off == 0 {
      RecordFits(c, t, 0, 1);
      EncodeIsCorrect(c, Record(c, t, 0), 1, 0, false);
      CorrectStart(c, Encode(c, Record(c, t, 0), 1, 0), 0);
    } else {
      EncodeIsCorrect(c, t, pos, pos, false);
      CorrectStart(c, Encode(c, t, pos, pos), pos);
    }
  }

  lemma CorrectStart(c: Stream, e: Encoding, pos: nat)
    requires pos <= |c.input| && Correct(c, e, pos, false)
    ensures Lossless(c, e, pos)
  {
  }

  lemma CorrectShort(c: Stream, t: Table, pos: nat)
    requires pos <= |c.input| && FitsStart(c, t, pos)
    ensures Lossless(c, Encoding(Last(c.input[pos..]), t), pos)
  {
    assert c.dict + c.input[..pos] + c.input[pos..] == c.dict + c.input;
  }

  /** The bound on the table is tight: one entry that is a single position ahead, as a table of
      another stream may hold, and the block starts with a match at distance zero. */
  lemma ForeignTable(c: Stream, t: Table, pos: nat)
    requires Valid(c) && !c.readonly && pos + LZ4_MIN_LENGTH <= |c.input| && (pos != 0 || c.off != 0)
    requires t[Slot(c, t, pos)] == c.off + pos
    ensures !FitsStart(c, t, pos) && !WellFormed(EncodeFrom(c, t, pos).block)
  {
    hide MatchSpan, Slot;
    var next := pos + SKIP_SHIFT / SKIP_SHIFT;
    assert Probe(c, pos, next, c.off + pos) == Some(Hit(0, pos, false));
    var f := Search(c, t, pos, SKIP_SHIFT);
    assert f == FoundAt(Record(c, t, pos), pos, Hit(0, pos, false));
    assert EncodeFrom(c, t, pos) == Extend(c, f.table, pos, pos, f.hit);
  }

  // ----- a table as a later call sees it

  /** Table entries as seen from an input that starts at position `base`: entries of earlier
      calls are below it, and no position. */
  function View(entries: seq<nat>, base: nat): (r: seq<int>)
    ensures |r| == |entries|
  {
    seq(|entries|, i requires 0 <= i < |entries| => if entries[i] >= base then entries[i] - base else -1)
  }

  function NoSlots(n: nat): seq<int> {
    seq(n, _ => -1)
  }

  lemma StaleView(entries: seq<nat>, base: nat)
    requires TableBelow(entries, base)
    ensures View(entries, base) == NoSlots(|entries|)
  {
  }

  /** Storing a position and looking at the table from `base` is noting it. */
  lemma ViewOfPut(entries: seq<nat>, base: nat, slot: nat, i: nat)
    requires slot < |entries|
    ensures View(entries[slot := base + i], base) == View(entries, base)[slot := i]
  {
  }

  // ----- a read-only table stays as it is

  lemma {:induction false} SearchKeepsTable(c: Stream, t: Table, cur: nat, misses: nat)
    requires c.width > 0 && |c.dict| <= c.off && LZ4_MIN_LENGTH <= |c.input| && SKIP_SHIFT <= misses
    requires c.readonly
    ensures Search(c, t, cur, misses).table == t
    decreases |c.input| - cur
  {
    hide Probe;
    var next := cur + misses / SKIP_SHIFT;
    if next <= |c.input| - MFLIMIT + 1 && Probe(c, cur, next, t[Slot(c, t, cur)]).None? {
      SearchKeepsTable(c, t, next, misses + 1);
    }
  }

  lemma {:induction false} EncodeKeepsTable(c: Stream, t: Table, cur: nat, literalStart: nat)
    requires c.width > 0 && |c.dict| <= c.off && LZ4_MIN_LENGTH <= |c.input|
    requires literalStart <= cur && literalStart <= |c.input|
    requires c.readonly && c.useDict
    ensures Encode(c, t, cur, literalStart).table == t
    decreases |c.input| - literalStart
  {
    hide MatchSpan;
    SearchKeepsTable(c, t, cur, SKIP_SHIFT);
    match Search(c, t, cur, SKIP_SHIFT)
    case Missed(_) =>
    case FoundAt(_, at, hit) =>
      var end := MatchSpan(c.dict, c.input, at, literalStart, hit).end;
      EncodeKeepsTable(c, t, end, end);
  }

  lemma ReadonlyKeepsTable(c: Stream, t: Table, pos: nat)
    requires Valid(c) && c.readonly && pos <= |c.input|
    ensures EncodeFrom(c, t, pos).table == t
  {
    hide Encode;
    if |c.input| - pos >= LZ4_MIN_LENGTH {
      EncodeKeepsTable(c, t, if pos == 0 && c.off == 0 then 1 else pos, pos);
    }
  }
}
