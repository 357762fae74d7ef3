/**
  The search misses nothing: it ends at the first position it looks up whose slot names a real match,
  and a slot names the position that was stored there last.
 */
module GreedySearch {
  import opened Core
  import opened BlockFormat
  import opened MatchFinder
  import opened EncoderSpec
  import opened DictEncoderSpec
  import opened SearchCost

  // ----- what a slot holds

  /** A stored position is found in its slot, and no other slot changes. */
  lemma RecordHolds(c: Stream, t: Table, i: nat)
    requires Valid(c) && i + 8 <= |c.input|
    ensures var r := Record(c, t, i);
            if c.readonly then r == t
            else
              && r[Slot(c, t, i)] == (c.off + i) % c.width
              && forall s :: 0 <= s < |t| && s != Slot(c, t, i) ==> r[s] == t[s]
  {
    hide Slot;
  }

  lemma RecordExact(c: Stream, t: Table, i: nat)
    requires Valid(c) && !c.readonly && i + 8 <= |c.input| && c.off + i < c.width
    ensures Record(c, t, i)[Slot(c, t, i)] == c.off + i
  {
    hide Slot;
  }

  /** Slots depend on the number of entries alone. */
  lemma SlotStays(c: Stream, t: Table, u: Table, i: nat)
    requires |t| == |u| && i + 8 <= |c.input|
    ensures Slot(c, t, i) == Slot(c, u, i)
  {
  }

  // ----- the trail of a search

  /** The position that a search from `cur` looks up after `j` misses. */
  function Visit(cur: nat, misses: nat, j: nat): nat {
    cur + Travel(misses, j)
  }

  /** The table after the first `k` positions have been looked up and stored. */
  function Recorded(c: Stream, t: Table, cur: nat, misses: nat, k: nat): (r: Table)
    requires c.width > 0
    ensures |r| == |t|
    decreases k
  {
    if k == 0 || cur + 8 > |c.input| then t
    else Recorded(c, Record(c, t, cur), cur + misses / SKIP_SHIFT, misses + 1, k - 1)
  }

  /** What the slot of a position names when the position is looked up. */
  function Named(c: Stream, t: Table, cur: nat, misses: nat, j: nat): nat
    requires c.width > 0 && Visit(cur, misses, j) + 8 <= |c.input|
  {
    var r := Recorded(c, t, cur, misses, j);
    r[Slot(c, r, Visit(cur, misses, j))]
  }

  /** The `j`th position is looked up, and its slot names no real match. */
  ghost predicate Misses(c: Stream, t: Table, cur: nat, misses: nat, j: nat)
    requires c.width > 0
  {
    && Visit(cur, misses, j + 1) + MFLIMIT <= |c.input| + 1 && Visit(cur, misses, j) + 8 <= |c.input|
    && forall h :: !RealHit(c, Visit(cur, misses, j), Named(c, t, cur, misses, j), h)
  }

  lemma VisitNext(cur: nat, misses: nat, j: nat)
    ensures Visit(cur, misses, 0) == cur
    ensures Visit(cur, misses, j + 1) == Visit(cur + misses / SKIP_SHIFT, misses + 1, j)
  {
  }

  lemma MissesNext(c: Stream, t: Table, cur: nat, misses: nat, j: nat)
    requires c.width > 0 && cur + 8 <= |c.input|
    ensures Misses(c, t, cur, misses, j + 1)
        <==> Misses(c, Record(c, t, cur), cur + misses / SKIP_SHIFT, misses + 1, j)
  {
    hide RealHit, Record, Slot, Named;
    VisitNext(cur, misses, j);
    VisitNext(cur, misses, j + 1);
    if Visit(cur, misses, j + 1) + 8 <= |c.input| {
      NamedNext(c, t, cur, misses, j);
    }
  }

  /** Where a search ends, and what it leaves: it passes over exactly the positions whose slot names no
      real match, stores each position that it looks up, and ends at the first real match or where the
      next step would leave less than a match needs. */
  ghost predicate Trail(c: Stream, t: Table, cur: nat, misses: nat, k: nat, f: Found)
    requires c.width > 0
  {
    match f
    case Missed(t1) =>
      && (forall j: nat :: j < k ==> Misses(c, t, cur, misses, j))
      && Visit(cur, misses, k + 1) + MFLIMIT > |c.input| + 1
      && t1 == Recorded(c, t, cur, misses, k)
    case FoundAt(t1, at, hit) =>
      && k > 0 && (forall j: nat :: j < k - 1 ==> Misses(c, t, cur, misses, j))
      && at == Visit(cur, misses, k - 1) && at + 8 <= |c.input|
      && RealHit(c, at, Named(c, t, cur, misses, k - 1), hit)
      && t1 == Recorded(c, t, cur, misses, k)
  }

  lemma TrailNext(c: Stream, t: Table, cur: nat, misses: nat, k: nat, f: Found)
    requires c.width > 0 && cur + 8 <= |c.input| && Misses(c, t, cur, misses, 0)
    requires Trail(c, Record(c, t, cur), cur + misses / SKIP_SHIFT, misses + 1, k, f)
    ensures Trail(c, t, cur, misses, k + 1, f)
  {
    hide Misses, RealHit, Record, Slot;
    var t1, next := Record(c, t, cur), cur + misses / SKIP_SHIFT;
    VisitNext(cur, misses, k + 1);
    var passed := if f.Missed? then k else k - 1;
    forall j: nat | j < passed + 1
      ensures Misses(c, t, cur, misses, j)
    {
      if j > 0 {
        assert Misses(c, t1, next, misses + 1, j - 1);
        MissesNext(c, t, cur, misses, j - 1);
      }
    }
    if f.FoundAt? {
      NamedNext(c, t, cur, misses, k - 1);
    }
  }

  lemma NamedNext(c: Stream, t: Table, cur: nat, misses: nat, j: nat)
    requires c.width > 0 && cur + 8 <= |c.input| && Visit(cur, misses, j + 1) + 8 <= |c.input|
    ensures Visit(cur, misses, j + 1) == Visit(cur + misses / SKIP_SHIFT, misses + 1, j)
    ensures Named(c, t, cur, misses, j + 1)
         == Named(c, Record(c, t, cur), cur + misses / SKIP_SHIFT, misses + 1, j)
  {
    hide Record, Slot;
    VisitNext(cur, misses, j);
  }

  lemma {:induction false} SearchTrail(c: Stream, t: Table, cur: nat, misses: nat)
    requires Valid(c) && LZ4_MIN_LENGTH <= |c.input| && SKIP_SHIFT <= misses && Fits(c, t, cur)
    ensures Trail(c, t, cur, misses, Probes(c, t, cur, misses), Search(c, t, cur, misses))
    decreases |c.input| - cur
  {
    hide Probe, Record, Fits, Slot, RealHit, Trail, Misses;
    var next := cur + misses / SKIP_SHIFT;
    if next > |c.input| - MFLIMIT + 1 {
      TrailEnds(c, t, cur, misses);
    } else {
      var cand := t[Slot(c, t, cur)];
      CandidateBelow(c, t, Slot(c, t, cur), cur);
      ProbeExactly(c, cur, next, cand);
      TrailBegins(c, t, cur, misses);
      if Probe(c, cur, next, cand).None? {
        var t1 := Record(c, t, cur);
        FitsLater(c, t, cur, cur + 1);
        RecordFits(c, t, cur, cur + 1);
        FitsLater(c, t1, cur + 1, next);
        SearchTrail(c, t1, next, misses + 1);
        TrailNext(c, t, cur, misses, Probes(c, t1, next, misses + 1), Search(c, t1, next, misses + 1));
      }
    }
  }

  lemma TrailEnds(c: Stream, t: Table, cur: nat, misses: nat)
    requires c.width > 0 && cur + misses / SKIP_SHIFT > |c.input| - MFLIMIT + 1
    ensures Trail(c, t, cur, misses, 0, Missed(t))
  {
    VisitNext(cur, misses, 0);
    VisitNext(cur + misses / SKIP_SHIFT, misses + 1, 0);
  }

  lemma TrailBegins(c: Stream, t: Table, cur: nat, misses: nat)
    requires c.width > 0 && SKIP_SHIFT <= misses && cur + misses / SKIP_SHIFT + MFLIMIT <= |c.input| + 1
    ensures (forall h :: !RealHit(c, cur, t[Slot(c, t, cur)], h)) <==> Misses(c, t, cur, misses, 0)
    ensures forall hit :: RealHit(c, cur, t[Slot(c, t, cur)], hit) ==>
              Trail(c, t, cur, misses, 1, FoundAt(Record(c, t, cur), cur, hit))
  {
    hide RealHit, Record, Slot;
    VisitNext(cur, misses, 0);
    VisitNext(cur + misses / SKIP_SHIFT, misses + 1, 0);
    assert Recorded(c, t, cur, misses, 0) == t;
    assert Recorded(c, t, cur, misses, 1) == Record(c, t, cur);
    assert Named(c, t, cur, misses, 0) == t[Slot(c, t, cur)];
    forall hit | RealHit(c, cur, t[Slot(c, t, cur)], hit)
      ensures Trail(c, t, cur, misses, 1, FoundAt(Record(c, t, cur), cur, hit))
    {
    }
  }

  // ----- repeats

  /** Whether the positions visited from `from` to `to` lie in other slots than `slot`. */
  predicate Elsewhere(c: Stream, t: Table, cur: nat, misses: nat, from: nat, to: nat, slot: nat) {
    forall j: nat :: from <= j < to ==>
      Visit(cur, misses, j) + 8 <= |c.input| && Slot(c, t, Visit(cur, misses, j)) != slot
  }

  lemma ElsewhereNext(c: Stream, t: Table, cur: nat, misses: nat, from: nat, to: nat, slot: nat)
    requires c.width > 0 && 0 < from && cur + 8 <= |c.input| && Elsewhere(c, t, cur, misses, from, to, slot)
    ensures to > 0 ==>
              Elsewhere(c, Record(c, t, cur), cur + misses / SKIP_SHIFT, misses + 1, from - 1, to - 1, slot)
  {
    hide Record;
    var t1, next, later := Record(c, t, cur), cur + misses / SKIP_SHIFT, misses + 1;
    forall j: nat | from - 1 <= j < to - 1
      ensures Visit(next, later, j) + 8 <= |c.input| && Slot(c, t1, Visit(next, later, j)) != slot
    {
      VisitNext(cur, misses, j);
      assert Visit(cur, misses, j + 1) + 8 <= |c.input|;
      SlotStays(c, t, t1, Visit(cur, misses, j + 1));
    }
  }

  lemma {:induction false} SlotKept(c: Stream, t: Table, cur: nat, misses: nat, k: nat, slot: nat)
    requires Valid(c) && slot < |t| && Elsewhere(c, t, cur, misses, 0, k, slot)
    ensures Recorded(c, t, cur, misses, k)[slot] == t[slot]
    decreases k
  {
    hide Slot, Record, Elsewhere;
    if k > 0 && cur + 8 <= |c.input| {
      ElsewhereRest(c, t, cur, misses, k, slot);
      ElsewhereNext(c, t, cur, misses, 1, k, slot);
      RecordHolds(c, t, cur);
      SlotKept(c, Record(c, t, cur), cur + misses / SKIP_SHIFT, misses + 1, k - 1, slot);
    }
  }

  lemma ElsewhereRest(c: Stream, t: Table, cur: nat, misses: nat, k: nat, slot: nat)
    requires k > 0 && Elsewhere(c, t, cur, misses, 0, k, slot)
    ensures cur + 8 <= |c.input| && Slot(c, t, cur) != slot && Elsewhere(c, t, cur, misses, 1, k, slot)
  {
    VisitNext(cur, misses, 0);
    assert Visit(cur, misses, 0) == cur;
  }

  lemma {:induction false} VisitGrows(cur: nat, misses: nat, i: nat, j: nat)
    requires i <= j
    ensures Visit(cur, misses, i) <= Visit(cur, misses, j)
    decreases i
  {
    if i > 0 {
      VisitNext(cur, misses, i - 1);
      VisitNext(cur, misses, j - 1);
      VisitGrows(cur + misses / SKIP_SHIFT, misses + 1, i - 1, j - 1);
    }
  }

  /** A slot names the last of the visited positions that lie in it. */
  lemma {:induction false} LastStored(c: Stream, t: Table, cur: nat, misses: nat, i: nat, k: nat)
    requires Valid(c) && !c.readonly && i < k && Visit(cur, misses, i) + 8 <= |c.input|
    requires c.off + Visit(cur, misses, i) < c.width
    requires Elsewhere(c, t, cur, misses, i + 1, k, Slot(c, t, Visit(cur, misses, i)))
    ensures Recorded(c, t, cur, misses, k)[Slot(c, t, Visit(cur, misses, i))] == c.off + Visit(cur, misses, i)
    decreases k
  {
    hide Slot, Record, Elsewhere, Valid;
    var at := Visit(cur, misses, i);
    var slot := Slot(c, t, at);
    VisitNext(cur, misses, 0);
    VisitGrows(cur, misses, 0, i);
    var t1, next := Record(c, t, cur), cur + misses / SKIP_SHIFT;
    SlotStays(c, t, t1, at);
    ElsewhereNext(c, t, cur, misses, i + 1, k, slot);
    if i == 0 {
      RecordExact(c, t, cur);
      SlotKept(c, t1, next, misses + 1, k - 1, slot);
    } else {
      VisitNext(cur, misses, i - 1);
      LastStored(c, t1, next, misses + 1, i - 1, k - 1);
    }
  }

  /** A search does not pass over a repeat of a position that it has looked up and that no later one has
      displaced: it ends there, if not before. */
  lemma RepeatsAreFound(c: Stream, t: Table, cur: nat, misses: nat, i: nat, j: nat)
    requires Valid(c) && !c.readonly && LZ4_MIN_LENGTH <= |c.input| && SKIP_SHIFT <= misses && Fits(c, t, cur)
    requires i < j && Visit(cur, misses, j + 1) + MFLIMIT <= |c.input| + 1 && c.off + |c.input| <= c.width
    requires var x, y := Visit(cur, misses, i), Visit(cur, misses, j);
             x < y <= x + MAX_DISTANCE && y + 8 <= |c.input| && c.input[y..y + 8] == c.input[x..x + 8]
    requires Elsewhere(c, t, cur, misses, i + 1, j, Slot(c, t, Visit(cur, misses, i)))
    ensures var f := Search(c, t, cur, misses);
            f.FoundAt? && f.cur <= Visit(cur, misses, j)
  {
    hide Search, Record, Recorded, Fits, Elsewhere, Probes, Slot, Visit, Named, Misses, RealHit;
    var f, k := Search(c, t, cur, misses), Probes(c, t, cur, misses);
    SearchTrail(c, t, cur, misses);
    RepeatNamed(c, t, cur, misses, i, j);
    NotMissed(c, t, cur, misses, j, Visit(cur, misses, i));
    if f.Missed? {
      VisitGrows(cur, misses, k + 1, j + 1);
    } else if k - 1 <= j {
      VisitGrows(cur, misses, k - 1, j);
    }
  }

  lemma RepeatNamed(c: Stream, t: Table, cur: nat, misses: nat, i: nat, j: nat)
    requires Valid(c) && !c.readonly && i < j && c.off + |c.input| <= c.width
    requires var x, y := Visit(cur, misses, i), Visit(cur, misses, j);
             x < y && y + 8 <= |c.input| && c.input[y..y + 8] == c.input[x..x + 8]
    requires Elsewhere(c, t, cur, misses, i + 1, j, Slot(c, t, Visit(cur, misses, i)))
    ensures Named(c, t, cur, misses, j) == c.off + Visit(cur, misses, i)
  {
    hide Recorded, Elsewhere;
    LastStored(c, t, cur, misses, i, j);
  }

  lemma NotMissed(c: Stream, t: Table, cur: nat, misses: nat, j: nat, x: nat)
    requires Valid(c) && !c.readonly && x < Visit(cur, misses, j) <= x + MAX_DISTANCE
    requires var y := Visit(cur, misses, j);
             && y + 8 <= |c.input| && c.input[y..y + 8] == c.input[x..x + 8]
             && Named(c, t, cur, misses, j) == c.off + x
    ensures !Misses(c, t, cur, misses, j)
  {
    hide Named, Visit, RealHit;
    RealRepeat(c, x, Visit(cur, misses, j));
  }

  lemma RealRepeat(c: Stream, x: nat, y: nat)
    requires !c.readonly && x < y <= x + MAX_DISTANCE && y + 8 <= |c.input| && c.input[y..y + 8] == c.input[x..x + 8]
    ensures RealHit(c, y, c.off + x, Hit(y - x, x, false))
  {
    SamePart(c.input, y, c.input, x, 8, 0, 4);
  }

  /** The first eight misses advance by one position each. */
  lemma FirstSteps(cur: nat, j: nat)
    requires j <= 8
    ensures Visit(cur, SKIP_SHIFT, j) == cur + j
  {
    UnitSteps(SKIP_SHIFT, j);
  }

  lemma {:induction false} UnitSteps(misses: nat, j: nat)
    requires SKIP_SHIFT <= misses && misses + j <= 2 * SKIP_SHIFT
    ensures Travel(misses, j) == j
    decreases j
  {
    if j > 0 {
      assert misses / SKIP_SHIFT == 1;
      UnitSteps(misses + 1, j - 1);
    }
  }

  /** An input that repeats its first eight bytes after `q` of them is matched by then, if the windows in
      between do not take the slot of the first. */
  lemma PeriodFound(c: Stream, t: Table, q: nat)
    requires Valid(c) && !c.readonly && FitsStart(c, t, 0) && c.off + |c.input| <= c.width
    requires 1 <= q <= 8 && q + LZ4_MIN_LENGTH <= |c.input| && c.input[q..q + 8] == c.input[0..8]
    requires forall i :: 0 < i < q ==> Slot(c, t, i) != Slot(c, t, 0)
    ensures var b := EncodeFrom(c, t, 0).block;
            b.More? && |b.lits| <= q
  {
    hide Search, Record, Slot, Fits, MatchSpan, Visit, Valid, FitsStart;
    StartReady(c, t);
    if c.off == 0 {
      var t1 := Record(c, t, 0);
      RecordExact(c, t, 0);
      SlotStays(c, t, t1, 0);
      NearElsewhere(c, t, t1, 1, q);
      StoredRepeatFound(c, t1, q);
      MatchFoundFirst(c, t, t1, 1);
    } else {
      NearElsewhere(c, t, t, 0, q);
      NearRepeatFound(c, t, q);
      MatchFoundFirst(c, t, t, 0);
    }
  }

  /** Positions up to the eighth are looked up one by one. */
  lemma NearElsewhere(c: Stream, t: Table, t1: Table, start: nat, q: nat)
    requires |t| == |t1| && start <= 1 <= q <= 8 && q + LZ4_MIN_LENGTH <= |c.input|
    requires forall i :: 0 < i < q ==> Slot(c, t, i) != Slot(c, t, 0)
    ensures Elsewhere(c, t1, start, SKIP_SHIFT, 1 - start, q - start, Slot(c, t1, 0))
  {
    hide Slot, Visit;
    forall j: nat | 1 - start <= j < q - start
      ensures Visit(start, SKIP_SHIFT, j) + 8 <= |c.input|
      ensures Slot(c, t1, Visit(start, SKIP_SHIFT, j)) != Slot(c, t1, 0)
    {
      FirstSteps(start, j);
      SlotStays(c, t, t1, start + j);
      SlotStays(c, t, t1, 0);
    }
  }

  lemma NearRepeatFound(c: Stream, t: Table, q: nat)
    requires Valid(c) && !c.readonly && Fits(c, t, 0) && c.off + |c.input| <= c.width
    requires 1 <= q <= 8 && q + LZ4_MIN_LENGTH <= |c.input| && c.input[q..q + 8] == c.input[0..8]
    requires Elsewhere(c, t, 0, SKIP_SHIFT, 1, q, Slot(c, t, 0))
    ensures var f := Search(c, t, 0, SKIP_SHIFT);
            f.FoundAt? && f.cur <= q
  {
    hide Search, Record, Slot, Fits, Visit, Elsewhere;
    FirstSteps(0, 0);
    FirstSteps(0, q);
    VisitAfter(0, q);
    RepeatsAreFound(c, t, 0, SKIP_SHIFT, 0, q);
  }

  lemma VisitAfter(cur: nat, j: nat)
    requires j <= 8
    ensures Visit(cur, SKIP_SHIFT, j + 1) <= cur + j + 2
  {
    if j < 8 {
      FirstSteps(cur, j + 1);
    } else {
      assert Travel(16, 1) == 2;
      TravelSplit(SKIP_SHIFT, 8);
      UnitSteps(SKIP_SHIFT, 8);
    }
  }

  lemma {:induction false} TravelSplit(misses: nat, k: nat)
    ensures Travel(misses, k + 1) == Travel(misses, k) + Travel(misses + k, 1)
    decreases k
  {
    if k > 0 {
      TravelSplit(misses + 1, k - 1);
    }
  }

  lemma MatchFoundFirst(c: Stream, t: Table, t1: Table, start: nat)
    requires Valid(c) && LZ4_MIN_LENGTH <= |c.input|
    requires if c.off == 0 then start == 1 && t1 == Record(c, t, 0) else start == 0 && t1 == t
    requires Search(c, t1, start, SKIP_SHIFT).FoundAt?
    ensures var b := EncodeFrom(c, t, 0).block;
            b.More? && |b.lits| <= Search(c, t1, start, SKIP_SHIFT).cur
  {
    hide Search, Record, MatchSpan, Encode;
    var f := Search(c, t1, start, SKIP_SHIFT);
    FoundExtends(c, t1, start, 0);
    assert EncodeFrom(c, t, 0) == Encode(c, t1, start, 0);
  }

  lemma FoundExtends(c: Stream, t: Table, cur: nat, literalStart: nat)
    requires Valid(c) && LZ4_MIN_LENGTH <= |c.input| && literalStart <= cur && literalStart <= |c.input|
    requires Search(c, t, cur, SKIP_SHIFT).FoundAt?
    ensures var f := Search(c, t, cur, SKIP_SHIFT);
            var s := MatchSpan(c.dict, c.input, f.cur, literalStart, f.hit);
            var b := Encode(c, t, cur, literalStart).block;
            && b.More? && b.lits == c.input[literalStart..s.start] && b.offset == f.hit.offset
            && b.len == s.end - s.start && literalStart <= s.start <= f.cur
  {
    hide Search, MatchSpan;
  }

  lemma StartReady(c: Stream, t: Table)
    requires Valid(c) && 8 <= |c.input| && FitsStart(c, t, 0)
    ensures if c.off == 0 then Fits(c, Record(c, t, 0), 1) else Fits(c, t, 0)
  {
    if c.off == 0 {
      RecordFits(c, t, 0, 1);
    }
  }

  /** The same at the start of a stream, where position 0 is stored before the search. */
  lemma StoredRepeatFound(c: Stream, t: Table, q: nat)
    requires Valid(c) && !c.readonly && Fits(c, t, 1) && c.off == 0
    requires 1 <= q <= 8 && q + LZ4_MIN_LENGTH <= |c.input| && c.input[q..q + 8] == c.input[0..8]
    requires t[Slot(c, t, 0)] == 0 && Elsewhere(c, t, 1, SKIP_SHIFT, 0, q - 1, Slot(c, t, 0))
    ensures var f := Search(c, t, 1, SKIP_SHIFT);
            f.FoundAt? && f.cur <= q
  {
    hide Search, Record, Recorded, Fits, Elsewhere, Probes, Visit, Misses, RealHit;
    var f, k := Search(c, t, 1, SKIP_SHIFT), Probes(c, t, 1, SKIP_SHIFT);
    SearchTrail(c, t, 1, SKIP_SHIFT);
    SlotKept(c, t, 1, SKIP_SHIFT, q - 1, Slot(c, t, 0));
    FirstSteps(1, q - 1);
    FirstSteps(1, q);
    assert Named(c, t, 1, SKIP_SHIFT, q - 1) == 0;
    NotMissed(c, t, 1, SKIP_SHIFT, q - 1, 0);
    if f.Missed? {
      VisitGrows(1, SKIP_SHIFT, k + 1, q);
    } else if k - 1 <= q - 1 {
      VisitGrows(1, SKIP_SHIFT, k - 1, q - 1);
    }
  }

  /** Where the slot of the first position names a real match, the block starts with it, for as long as
      the bytes agree. */
  lemma NamedMatchTaken(c: Stream, t: Table, pos: nat, h: Hit)
    requires Valid(c) && FitsStart(c, t, pos) && (pos != 0 || c.off != 0) && pos + LZ4_MIN_LENGTH <= |c.input|
    requires RealHit(c, pos, t[Slot(c, t, pos)], h)
    ensures var b := EncodeFrom(c, t, pos).block;
            && b.More? && b.lits == [] && b.offset == h.offset
            && forall m: nat ::
                 Same(c.input, pos, Source(c.dict, c.input, h), h.candidate, m) && pos + m + END_OFFSET <= |c.input|
                 ==> m <= b.len
  {
    hide Probe, Record, Slot, MatchSpan, Same, TableBelow;
    CandidateBelow(c, t, Slot(c, t, pos), pos);
    ProbeExactly(c, pos, pos + 1, t[Slot(c, t, pos)]);
    assert Search(c, t, pos, SKIP_SHIFT) == FoundAt(Record(c, t, pos), pos, h);
    FoundExtends(c, t, pos, pos);
    hide Search, Encode, Fits, GoodHit;
    forall m: nat | Same(c.input, pos, Source(c.dict, c.input, h), h.candidate, m) && pos + m + END_OFFSET <= |c.input|
      ensures m <= EncodeFrom(c, t, pos).block.len
    {
      SpanHoldsAll(c.dict, c.input, pos, h, m);
    }
  }

  lemma SpanHoldsAll(dict: seq<byte>, input: seq<byte>, cur: nat, h: Hit, m: nat)
    requires cur + MFLIMIT <= |input| && GoodHit(dict, input, cur, h)
    requires Same(input, cur, Source(dict, input, h), h.candidate, m) && cur + m + END_OFFSET <= |input|
    ensures cur + m <= MatchSpan(dict, input, cur, cur, h).end
  {
    hide MatchSpan, GoodHit;
    SpanIsLongest(dict, input, cur, cur, h);
    var _ := SpanIsGood(dict, input, cur, cur, h);
    SameBytes(input, cur, Source(dict, input, h), h.candidate, m);
  }

  lemma SameBytes(a: seq<byte>, i: nat, b: seq<byte>, j: nat, m: nat)
    requires Same(a, i, b, j, m)
    ensures i + m <= |a| && j + m <= |b| && forall x, y :: i <= x < i + m && y == x - i + j ==> a[x] == b[y]
  {
    forall x, y | i <= x < i + m && y == x - i + j
      ensures a[x] == b[y]
    {
      assert a[i..i + m][x - i] == b[j..j + m][x - i];
    }
  }

  // ----- behind a match

  /** Trying the position behind a match at once is a shortcut: encoding goes on as if the search had
      started there.  What a match leaves behind is the position two bytes in front of its end. */
  lemma RematchIsShortcut(c: Stream, t: Table, cur: nat, literalStart: nat, hit: Hit)
    requires Valid(c) && LZ4_MIN_LENGTH <= |c.input| && literalStart <= cur && cur + MFLIMIT <= |c.input|
    requires Fits(c, t, cur + 1) && GoodHit(c.dict, c.input, cur, hit)
    ensures InSource(c, hit)
    ensures var s := MatchSpan(c.dict, c.input, cur, literalStart, hit);
            var e := Encode(c, Record(c, t, s.end - 2), s.end, s.end);
            Extend(c, t, cur, literalStart, hit)
            == Encoding(More(c.input[literalStart..s.start], hit.offset, s.end - s.start, e.block), e.table)
  {
    hide MatchSpan, Fits, Record, Rematch, Encode, Extend, GoodHit, Same;
    HitInSource(c.dict, c.input, cur, hit);
    var _ := SpanIsGood(c.dict, c.input, cur, literalStart, hit);
    var end := MatchSpan(c.dict, c.input, cur, literalStart, hit).end;
    var t1 := Record(c, t, end - 2);
    FitsLater(c, t, cur + 1, end);
    RecordFits(c, t, end - 2, end);
    ExtendCases(c, t, cur, literalStart, hit);
    if Rematch(c, t1, end).Some? {
      SearchedAtOnce(c, t1, end);
    }
  }

  lemma ExtendCases(c: Stream, t: Table, cur: nat, literalStart: nat, hit: Hit)
    requires c.width > 0 && |c.dict| <= c.off && LZ4_MIN_LENGTH <= |c.input|
    requires literalStart <= cur && cur + MFLIMIT <= |c.input| && InSource(c, hit)
    ensures var s := MatchSpan(c.dict, c.input, cur, literalStart, hit);
            var t1 := Record(c, t, s.end - 2);
            var r := Rematch(c, t1, s.end);
            var e := if r.Some? then Extend(c, Record(c, t1, s.end), s.end, s.end, r.value)
                     else Encode(c, t1, s.end, s.end);
            Extend(c, t, cur, literalStart, hit)
            == Encoding(More(c.input[literalStart..s.start], hit.offset, s.end - s.start, e.block), e.table)
  {
    hide MatchSpan, Record, Rematch, Encode;
  }

  lemma SearchedAtOnce(c: Stream, t: Table, end: nat)
    requires Valid(c) && LZ4_MIN_LENGTH <= |c.input| && 2 <= end && end + END_OFFSET <= |c.input| && Fits(c, t, end)
    requires Rematch(c, t, end).Some?
    ensures Encode(c, t, end, end) == Extend(c, Record(c, t, end), end, end, Rematch(c, t, end).value)
  {
    hide ProbeBehind, Probe, Fits, Record, Slot, Extend;
    CandidateBelow(c, t, Slot(c, t, end), end);
    SameProbe(c, end, t[Slot(c, t, end)]);
    assert Search(c, t, end, SKIP_SHIFT) == FoundAt(Record(c, t, end), end, Rematch(c, t, end).value);
  }

  // ----- a run of one byte

  /** A run of one byte is a single match: one literal, and six behind it. */
  lemma RunOfBytes(c: Stream, t: Table, x: byte)
    requires Valid(c) && !c.readonly && c.off == 0 && c.dict == [] && LZ4_MIN_LENGTH <= |c.input|
    requires (forall i :: 0 <= i < |c.input| ==> c.input[i] == x) && TableBelow(t, 1)
    ensures var n := |c.input|;
            EncodeFrom(c, t, 0).block == More([x], 1, n - 7, Last(c.input[n - 6..]))
  {
    hide Slot, MatchSpan, Search, Encode, Extend, Probe, Fits, Record, GoodHit;
    var n, h, t1 := |c.input|, Hit(1, 0, false), Record(c, t, 0);
    FirstIsRepeated(c, t);
    FoundAtOnce(c, t1);
    var f := Search(c, t1, 1, SKIP_SHIFT);
    EncodeFound(c, t1);
    var s := MatchSpan(c.dict, c.input, 1, 0, h);
    RematchIsShortcut(c, f.table, 1, 0, h);
    SpanIsLongest(c.dict, c.input, 1, 0, h);
    assert s.start == 1 && s.end == n - 6;
    assert c.input[0..1] == [x];
    EncodeEnds(c, Record(c, f.table, s.end - 2), s.end);
  }

  lemma FirstIsRepeated(c: Stream, t: Table)
    requires Valid(c) && !c.readonly && c.off == 0 && LZ4_MIN_LENGTH <= |c.input| && TableBelow(t, 1)
    requires forall i :: 0 <= i < |c.input| ==> c.input[i] == c.input[0]
    ensures TableBelow(Record(c, t, 0), 1) && Fits(c, Record(c, t, 0), 1)
    ensures RealHit(c, 1, 0, Hit(1, 0, false))
  {
    hide Slot;
    assert c.input[1..5] == c.input[0..4];
  }

  lemma FoundAtOnce(c: Stream, t: Table)
    requires Valid(c) && !c.readonly && c.off == 0 && LZ4_MIN_LENGTH <= |c.input| && TableBelow(t, 1)
    requires RealHit(c, 1, 0, Hit(1, 0, false))
    ensures var t1 := Record(c, t, 1);
            Search(c, t, 1, SKIP_SHIFT) == FoundAt(t1, 1, Hit(1, 0, false)) && Fits(c, t1, 2)
  {
    hide Slot, Probe, Record, RealHit;
    assert t[Slot(c, t, 1)] == 0;
    ProbeExactly(c, 1, 2, 0);
    RecordFits(c, t, 1, 2);
  }

  lemma EncodeFound(c: Stream, t: Table)
    requires Valid(c) && LZ4_MIN_LENGTH <= |c.input| && Search(c, t, 1, SKIP_SHIFT).FoundAt?
    ensures var f := Search(c, t, 1, SKIP_SHIFT);
            Encode(c, t, 1, 0) == Extend(c, f.table, f.cur, 0, f.hit)
  {
    hide Search, Extend;
  }

  lemma EncodeEnds(c: Stream, t: Table, end: nat)
    requires Valid(c) && LZ4_MIN_LENGTH <= |c.input| && |c.input| - MFLIMIT < end <= |c.input|
    ensures Encode(c, t, end, end) == Encoding(Last(c.input[end..]), t)
  {
  }

  // ----- two tables

  /** The slots after the first `k` positions have been looked up and noted. */
  function Noted(c: Stream, slots: Slots, cur: nat, misses: nat, k: nat): (r: Slots)
    ensures |r| == |slots|
    decreases k
  {
    if k == 0 || cur + 8 > |c.input| then slots
    else Noted(c, Note(c, slots, cur), cur + misses / SKIP_SHIFT, misses + 1, k - 1)
  }

  /** `h` is what the two slots of the `j`th position name, the one in the input first. */
  ghost predicate NamesBoth(c: Stream, pristine: seq<nat>, slots: Slots, cur: nat, misses: nat, j: nat, h: Hit)
    requires |pristine| == |slots| && Visit(cur, misses, j) + 8 <= |c.input|
  {
    var at, r := Visit(cur, misses, j), Noted(c, slots, cur, misses, j);
    var slot := SlotOf(c, |slots|, at);
    RealDualHit(c, at, r[slot], pristine[slot], h)
  }

  ghost predicate DualMisses(c: Stream, pristine: seq<nat>, slots: Slots, cur: nat, misses: nat, j: nat)
    requires |pristine| == |slots|
  {
    && Visit(cur, misses, j + 1) + MFLIMIT <= |c.input| + 1 && Visit(cur, misses, j) + 8 <= |c.input|
    && forall h :: !NamesBoth(c, pristine, slots, cur, misses, j, h)
  }

  /** Where a search through both tables ends, and what it leaves in the one it writes. */
  ghost predicate DualTrail(c: Stream, pristine: seq<nat>, slots: Slots, cur: nat, misses: nat, k: nat, f: DualFound)
    requires |pristine| == |slots|
  {
    && f.slots == Noted(c, slots, cur, misses, k)
    && match f
       case DualMissed(_) =>
         && (forall j: nat :: j < k ==> DualMisses(c, pristine, slots, cur, misses, j))
         && Visit(cur, misses, k + 1) + MFLIMIT > |c.input| + 1
       case DualFoundAt(_, at, hit) =>
         && k > 0 && (forall j: nat :: j < k - 1 ==> DualMisses(c, pristine, slots, cur, misses, j))
         && at == Visit(cur, misses, k - 1) && at + 8 <= |c.input|
         && NamesBoth(c, pristine, slots, cur, misses, k - 1, hit)
  }

  lemma NamesNext(c: Stream, pristine: seq<nat>, slots: Slots, cur: nat, misses: nat, j: nat)
    requires |pristine| == |slots| && cur + 8 <= |c.input| && Visit(cur, misses, j + 1) + 8 <= |c.input|
    ensures var slots1, next, i, later := Note(c, slots, cur), cur + misses / SKIP_SHIFT, j + 1, misses + 1;
            && Visit(cur, misses, i) == Visit(next, later, j)
            && forall h :: NamesBoth(c, pristine, slots, cur, misses, i, h)
                      <==> NamesBoth(c, pristine, slots1, next, later, j, h)
  {
    hide Note, SlotOf, RealDualHit;
    VisitNext(cur, misses, j);
  }

  lemma DualMissesNext(c: Stream, pristine: seq<nat>, slots: Slots, cur: nat, misses: nat, j: nat)
    requires |pristine| == |slots| && cur + 8 <= |c.input|
    ensures DualMisses(c, pristine, slots, cur, misses, j + 1)
        <==> DualMisses(c, pristine, Note(c, slots, cur), cur + misses / SKIP_SHIFT, misses + 1, j)
  {
    hide Note, NamesBoth;
    VisitNext(cur, misses, j);
    VisitNext(cur, misses, j + 1);
    if Visit(cur, misses, j + 1) + 8 <= |c.input| {
      NamesNext(c, pristine, slots, cur, misses, j);
    }
  }

  lemma DualTrailNext(c: Stream, pristine: seq<nat>, slots: Slots, cur: nat, misses: nat, k: nat, f: DualFound)
    requires |pristine| == |slots| && cur + 8 <= |c.input| && DualMisses(c, pristine, slots, cur, misses, 0)
    requires DualTrail(c, pristine, Note(c, slots, cur), cur + misses / SKIP_SHIFT, misses + 1, k, f)
    ensures DualTrail(c, pristine, slots, cur, misses, k + 1, f)
  {
    hide DualMisses, NamesBoth, Note;
    VisitNext(cur, misses, k + 1);
    var passed := if f.DualMissed? then k else k - 1;
    forall j: nat | j < passed + 1
      ensures DualMisses(c, pristine, slots, cur, misses, j)
    {
      if j > 0 {
        DualMissesNext(c, pristine, slots, cur, misses, j - 1);
      }
    }
    if f.DualFoundAt? {
      VisitNext(cur, misses, k - 1);
      NamesNext(c, pristine, slots, cur, misses, k - 1);
    }
  }

  lemma DualTrailBegins(c: Stream, pristine: seq<nat>, slots: Slots, cur: nat, misses: nat)
    requires |pristine| == |slots| && SKIP_SHIFT <= misses && cur + misses / SKIP_SHIFT + MFLIMIT <= |c.input| + 1
    ensures var slot := SlotOf(c, |slots|, cur);
            && ((forall h :: !RealDualHit(c, cur, slots[slot], pristine[slot], h))
                <==> DualMisses(c, pristine, slots, cur, misses, 0))
            && forall hit :: RealDualHit(c, cur, slots[slot], pristine[slot], hit) ==>
                 DualTrail(c, pristine, slots, cur, misses, 1, DualFoundAt(Note(c, slots, cur), cur, hit))
  {
    hide RealDualHit, Note, SlotOf;
    VisitNext(cur, misses, 0);
    VisitNext(cur + misses / SKIP_SHIFT, misses + 1, 0);
    assert Noted(c, slots, cur, misses, 0) == slots;
    assert Noted(c, slots, cur, misses, 1) == Note(c, slots, cur);
    var slot := SlotOf(c, |slots|, cur);
    forall h
      ensures NamesBoth(c, pristine, slots, cur, misses, 0, h)
         <==> RealDualHit(c, cur, slots[slot], pristine[slot], h)
    {
    }
  }

  lemma {:induction false} DualSearchTrail(c: Stream, pristine: seq<nat>, slots: Slots, cur: nat, misses: nat)
    requires Valid(c) && c.readonly && |pristine| == |slots| && LZ4_MIN_LENGTH <= |c.input| && SKIP_SHIFT <= misses
    requires SlotsBelow(slots, cur)
    ensures DualTrail(c, pristine, slots, cur, misses, DualProbes(c, pristine, slots, cur, misses),
                      DualSearch(c, pristine, slots, cur, misses))
    decreases |c.input| - cur
  {
    hide DualProbe, Note, SlotOf, RealDualHit, DualTrail, DualMisses;
    var next := cur + misses / SKIP_SHIFT;
    if next > |c.input| - MFLIMIT + 1 {
      DualTrailEnds(c, pristine, slots, cur, misses);
    } else {
      var slot := SlotOf(c, |slots|, cur);
      DualProbeExactly(c, cur, next, slots[slot], pristine[slot]);
      DualTrailBegins(c, pristine, slots, cur, misses);
      if DualProbe(c, cur, next, slots[slot], pristine[slot]).None? {
        var slots1 := Note(c, slots, cur);
        NoteBelow(c, slots, cur, cur + 1);
        DualSearchTrail(c, pristine, slots1, next, misses + 1);
        DualTrailNext(c, pristine, slots, cur, misses, DualProbes(c, pristine, slots1, next, misses + 1),
                      DualSearch(c, pristine, slots1, next, misses + 1));
      }
    }
  }

  lemma DualTrailEnds(c: Stream, pristine: seq<nat>, slots: Slots, cur: nat, misses: nat)
    requires |pristine| == |slots| && cur + misses / SKIP_SHIFT > |c.input| - MFLIMIT + 1
    ensures DualTrail(c, pristine, slots, cur, misses, 0, DualMissed(slots))
  {
    VisitNext(cur, misses, 0);
    VisitNext(cur + misses / SKIP_SHIFT, misses + 1, 0);
  }

  /** Behind a match the search through both tables goes on at its end, with the position two bytes in
      front of it noted and nothing else changed. */
  lemma DualGoesOn(c: Stream, pristine: seq<nat>, slots: Slots, cur: nat, literalStart: nat, hit: Hit)
    requires |pristine| == |slots| && LZ4_MIN_LENGTH <= |c.input|
    requires literalStart <= cur && cur + MFLIMIT <= |c.input| && InSource(c, hit)
    ensures var s := MatchSpan(c.dict, c.input, cur, literalStart, hit);
            var slots1: Slots := slots[SlotOf(c, |slots|, s.end - 2) := s.end - 2];
            var e := DualEncode(c, pristine, slots1, s.end, s.end);
            DualExtend(c, pristine, slots, cur, literalStart, hit)
            == DualEncoding(More(c.input[literalStart..s.start], hit.offset, s.end - s.start, e.block), e.slots)
  {
    hide MatchSpan, DualEncode;
  }

  /** The search through both tables begins at the second byte, with the first position noted. */
  lemma DualStarts(c: Stream, pristine: seq<nat>, slots: Slots)
    requires |pristine| == |slots| && LZ4_MIN_LENGTH <= |c.input|
    ensures var slots1: Slots := slots[SlotOf(c, |slots|, 0) := 0];
            DualEncodeAll(c, pristine, slots) == DualEncode(c, pristine, slots1, 1, 0)
  {
    hide DualEncode;
  }
}
