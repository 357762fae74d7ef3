/**
  The dual-table encoder: a table of positions in the current input in front of a pristine
  table of dictionary positions.  It is stated on positions relative to the start of the
  input, with -1 for a slot that holds none, so that where earlier calls left off cannot show.
 */
module DictEncoderSpec {
  import opened Core
  import opened BlockFormat
  import opened MatchFinder
  import opened EncoderSpec

  /** Slots with a position of the current input, or -1. */
  type Slots = s: seq<int> | |s| > 0 witness [-1]

  function SlotOf(c: Stream, n: nat, i: nat): (s: nat)
    requires n > 0 && i + 8 <= |c.input|
    ensures s < n
  {
    c.hash(c.input[i..i + 8]) % n
  }

  function Note(c: Stream, slots: Slots, i: nat): (r: Slots)
    requires i + 8 <= |c.input|
    ensures |r| == |slots|
  {
    slots[SlotOf(c, |slots|, i) := i]
  }

  /** Probes the input first, then the dictionary. */
  function DualProbe(c: Stream, cur: nat, next: nat, main: int, dictCand: nat): (r: Option<Hit>)
    requires cur + 4 <= |c.input| && next + 4 <= |c.input|
    ensures r.Some? ==> InSource(c, r.value)
  {
    if 0 <= main < next && c.input[main..main + 4] == c.input[cur..cur + 4]
    then Some(Hit((cur - main) % (U16_MAX + 1), main, false))
    else if dictCand + 4 <= |c.dict| && c.dict[dictCand..dictCand + 4] == c.input[cur..cur + 4]
    then Some(Hit((c.off + cur - dictCand) % (U16_MAX + 1), dictCand, true))
    else None
  }

  datatype DualFound =
    | DualMissed(slots: Slots)
    | DualFoundAt(slots: Slots, cur: nat, hit: Hit)

  function DualSearch(c: Stream, pristine: seq<nat>, slots: Slots, cur: nat, misses: nat): (f: DualFound)
    requires |pristine| == |slots| && LZ4_MIN_LENGTH <= |c.input| && SKIP_SHIFT <= misses
    ensures |f.slots| == |slots|
    ensures f.DualFoundAt? ==> cur <= f.cur && f.cur + MFLIMIT <= |c.input| && InSource(c, f.hit)
    decreases |c.input| - cur
  {
    var next := cur + misses / SKIP_SHIFT;
    if next > |c.input| - MFLIMIT + 1 then DualMissed(slots)
    else
      var slot := SlotOf(c, |slots|, cur);
      var slots' := Note(c, slots, cur);
      match DualProbe(c, cur, next, slots[slot], pristine[slot])
      case Some(hit) => DualFoundAt(slots', cur, hit)
      case None => DualSearch(c, pristine, slots', next, misses + 1)
  }

  datatype DualEncoding = DualEncoding(block: Block, slots: Slots)

  function DualEncode(c: Stream, pristine: seq<nat>, slots: Slots, cur: nat, literalStart: nat): (e: DualEncoding)
    requires |pristine| == |slots| && LZ4_MIN_LENGTH <= |c.input|
    requires literalStart <= cur && literalStart <= |c.input|
    ensures |e.slots| == |slots|
    decreases |c.input| - literalStart, 1
  {
    match DualSearch(c, pristine, slots, cur, SKIP_SHIFT)
    case DualMissed(slots1) => DualEncoding(Last(c.input[literalStart..]), slots1)
    case DualFoundAt(slots1, at, hit) => DualExtend(c, pristine, slots1, at, literalStart, hit)
  }

  function DualExtend(c: Stream, pristine: seq<nat>, slots: Slots, cur: nat, literalStart: nat,
                      hit: Hit): (e: DualEncoding)
    requires |pristine| == |slots| && LZ4_MIN_LENGTH <= |c.input|
    requires literalStart <= cur && cur + MFLIMIT <= |c.input| && InSource(c, hit)
    ensures |e.slots| == |slots|
    decreases |c.input| - literalStart, 0
  {
    var s := MatchSpan(c.dict, c.input, cur, literalStart, hit);
    var e := DualEncode(c, pristine, Note(c, slots, s.end - 2), s.end, s.end);
    DualEncoding(More(c.input[literalStart..s.start], hit.offset, s.end - s.start, e.block), e.slots)
  }

  function DualEncodeAll(c: Stream, pristine: seq<nat>, slots: Slots): (e: DualEncoding)
    requires |pristine| == |slots|
    ensures |e.slots| == |slots|
  {
    if |c.input| < LZ4_MIN_LENGTH then DualEncoding(Last(c.input), slots)
    else DualEncode(c, pristine, Note(c, slots, 0), 1, 0)
  }

  // ----- losslessness

  ghost predicate SlotsBelow(slots: seq<int>, bound: nat) {
    forall i :: 0 <= i < |slots| ==> slots[i] < bound
  }

  lemma NoteBelow(c: Stream, slots: Slots, i: nat, bound: nat)
    requires i + 8 <= |c.input| && i < bound && SlotsBelow(slots, bound)
    ensures SlotsBelow(Note(c, slots, i), bound)
  {
  }

  /** Dictionary and input fit 16 bits together, so no distance needs a test. */
  lemma DualProbeIsGood(c: Stream, cur: nat, next: nat, main: int, dictCand: nat)
    requires Valid(c) && c.readonly && cur + 4 <= |c.input| && next + 4 <= |c.input| && main < cur
    requires DualProbe(c, cur, next, main, dictCand).Some?
    ensures GoodHit(c.dict, c.input, cur, DualProbe(c, cur, next, main, dictCand).value)
  {
    var h := DualProbe(c, cur, next, main, dictCand).value;
    assert Same(c.input, cur, Source(c.dict, c.input, h), h.candidate, 4);
  }

  /** `h` is a real match for the input at `cur`, in the input at `main` or, if there is none, in the
      dictionary at `dictCand`. */
  ghost predicate RealDualHit(c: Stream, cur: nat, main: int, dictCand: nat, h: Hit) {
    && GoodHit(c.dict, c.input, cur, h)
    && if 0 <= main && Same(c.input, cur, c.input, main, 4) then !h.inDict && h.candidate == main
       else h.inDict && h.candidate == dictCand
  }

  /** Of the two candidates, exactly the real ones pass, the one in the input first. */
  lemma DualProbeExactly(c: Stream, cur: nat, next: nat, main: int, dictCand: nat)
    requires Valid(c) && c.readonly && cur <= next && cur + 4 <= |c.input| && next + 4 <= |c.input| && main < cur
    ensures forall h :: DualProbe(c, cur, next, main, dictCand) == Some(h) <==> RealDualHit(c, cur, main, dictCand, h)
  {
    forall h
      ensures DualProbe(c, cur, next, main, dictCand) == Some(h) <==> RealDualHit(c, cur, main, dictCand, h)
    {
      if DualProbe(c, cur, next, main, dictCand) == Some(h) {
        DualProbeIsGood(c, cur, next, main, dictCand);
      }
    }
  }

  lemma {:induction false} DualSearchIsGood(c: Stream, pristine: seq<nat>, slots: Slots, cur: nat, misses: nat)
    requires Valid(c) && c.readonly && |pristine| == |slots| && LZ4_MIN_LENGTH <= |c.input| && SKIP_SHIFT <= misses
    requires SlotsBelow(slots, cur)
    ensures var f := DualSearch(c, pristine, slots, cur, misses);
            f.DualFoundAt? ==> SlotsBelow(f.slots, f.cur + 1) && GoodHit(c.dict, c.input, f.cur, f.hit)
    decreases |c.input| - cur
  {
    hide GoodHit, DualProbe, Note, SlotOf;
    var next := cur + misses / SKIP_SHIFT;
    if next <= |c.input| - MFLIMIT + 1 {
      var slot := SlotOf(c, |slots|, cur);
      NoteBelow(c, slots, cur, cur + 1);
      if DualProbe(c, cur, next, slots[slot], pristine[slot]).Some? {
        DualProbeIsGood(c, cur, next, slots[slot], pristine[slot]);
      } else {
        DualSearchIsGood(c, pristine, Note(c, slots, cur), next, misses + 1);
      }
    }
  }

  lemma {:induction false} DualEncodeIsCorrect(c: Stream, pristine: seq<nat>, slots: Slots, cur: nat,
                                               literalStart: nat, afterMatch: bool)
    requires Valid(c) && c.readonly && |pristine| == |slots| && LZ4_MIN_LENGTH <= |c.input|
    requires literalStart <= cur <= |c.input| && (afterMatch ==> literalStart + END_OFFSET <= |c.input|)
    requires SlotsBelow(slots, cur)
    ensures Correct(c, Encoding(DualEncode(c, pristine, slots, cur, literalStart).block, [0]), literalStart, afterMatch)
    decreases |c.input| - literalStart
  {
    hide Correct, GoodHit, DualSearch, MatchSpan, Same, Copy, Note, SlotsBelow;
    DualSearchIsGood(c, pristine, slots, cur, SKIP_SHIFT);
    match DualSearch(c, pristine, slots, cur, SKIP_SHIFT)
    case DualMissed(slots1) => CorrectLast(c, [0], literalStart, afterMatch);
    case DualFoundAt(slots1, at, hit) =>
      var from := SpanIsGood(c.dict, c.input, at, literalStart, hit);
      var s := MatchSpan(c.dict, c.input, at, literalStart, hit);
      HitOffset(c, at, hit);
      SpanRuns(c.dict, c.input, hit, s, from);
      var slots2 := Note(c, slots1, s.end - 2);
      NotedTail(c, slots1, at, s.end);
      DualEncodeIsCorrect(c, pristine, slots2, s.end, s.end, true);
      var e := DualEncode(c, pristine, slots2, s.end, s.end);
      CorrectMore(c, literalStart, afterMatch, hit, s, Encoding(e.block, [0]));
  }

  lemma NotedTail(c: Stream, slots: Slots, cur: nat, end: nat)
    requires SlotsBelow(slots, cur + 1) && cur + 4 <= end && end + END_OFFSET <= |c.input|
    ensures SlotsBelow(Note(c, slots, end - 2), end)
  {
    NoteBelow(c, slots, end - 2, end);
  }

  lemma HitOffset(c: Stream, cur: nat, hit: Hit)
    requires GoodHit(c.dict, c.input, cur, hit)
    ensures 1 <= hit.offset <= MAX_DISTANCE
  {
  }

  /** Losslessness of the dual-table encoder, from slots without a position. */
  lemma DualIsLossless(c: Stream, pristine: seq<nat>, slots: Slots)
    requires Valid(c) && c.readonly && |pristine| == |slots| && SlotsBelow(slots, 0)
    ensures var b := DualEncodeAll(c, pristine, slots).block;
            && WellFormed(b)
            && Run(b, c.dict) == Some(c.dict + c.input)
            && Conforms(b, |c.input|, false)
  {
    assert c.dict + c.input[..0] == c.dict;
    if |c.input| >= LZ4_MIN_LENGTH {
      NoteBelow(c, slots, 0, 1);
      DualEncodeIsCorrect(c, pristine, Note(c, slots, 0), 1, 0, false);
    }
  }
}
