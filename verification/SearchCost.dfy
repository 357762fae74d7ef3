/**
  How long a search takes.  Its steps grow by one every eight misses, so a stretch without a match
  costs a number of probes that grows only with the square root of its length.
 */
module SearchCost {
  import opened Core
  import opened EncoderSpec
  import opened DictEncoderSpec

  /** How far `k` misses advance the cursor, after `misses` before them. */
  function Travel(misses: nat, k: nat): nat
    decreases k
  {
    if k == 0 then 0 else misses / SKIP_SHIFT + Travel(misses + 1, k - 1)
  }

  lemma {:induction false} TravelGrows(misses: nat, k: nat)
    requires SKIP_SHIFT <= misses
    ensures k * (k - 1) + 2 * k * (misses - 7) <= 16 * Travel(misses, k)
    decreases k
  {
    if k > 0 {
      TravelGrows(misses + 1, k - 1);
      assert 2 * (misses - 7) <= 16 * (misses / SKIP_SHIFT);
      OneStepMore(k, misses - 7);
    }
  }

  lemma OneStepMore(k: int, m: int)
    ensures k * (k - 1) + 2 * k * m == (k - 1) * ((k - 1) - 1) + 2 * (k - 1) * (m + 1) + 2 * m
  {
  }

  /** From the start of a search, `k` misses advance by at least `k * (k + 1) / 16`. */
  lemma MissesAdvance(k: nat)
    ensures k * (k + 1) <= 16 * Travel(SKIP_SHIFT, k)
  {
    TravelGrows(SKIP_SHIFT, k);
  }

  /** The number of candidates that a search looks up. */
  function Probes(c: Stream, t: Table, cur: nat, misses: nat): nat
    requires c.width > 0 && |c.dict| <= c.off && LZ4_MIN_LENGTH <= |c.input| && SKIP_SHIFT <= misses
    decreases |c.input| - cur
  {
    var next := cur + misses / SKIP_SHIFT;
    if next > |c.input| - MFLIMIT + 1 then 0
    else if Probe(c, cur, next, t[Slot(c, t, cur)]).Some? then 1
    else 1 + Probes(c, Record(c, t, cur), next, misses + 1)
  }

  function DualProbes(c: Stream, pristine: seq<nat>, slots: Slots, cur: nat, misses: nat): nat
    requires |pristine| == |slots| && LZ4_MIN_LENGTH <= |c.input| && SKIP_SHIFT <= misses
    decreases |c.input| - cur
  {
    var next := cur + misses / SKIP_SHIFT;
    if next > |c.input| - MFLIMIT + 1 then 0
    else
      var slot := SlotOf(c, |slots|, cur);
      if DualProbe(c, cur, next, slots[slot], pristine[slot]).Some? then 1
      else 1 + DualProbes(c, pristine, Note(c, slots, cur), next, misses + 1)
  }

  lemma {:induction false} SearchTravels(c: Stream, t: Table, cur: nat, misses: nat)
    requires c.width > 0 && |c.dict| <= c.off && LZ4_MIN_LENGTH <= |c.input| && SKIP_SHIFT <= misses
    ensures var k := Probes(c, t, cur, misses);
            match Search(c, t, cur, misses)
            case Missed(_) => k > 0 ==> cur + Travel(misses, k) + MFLIMIT <= |c.input| + 1
            case FoundAt(_, at, _) => k > 0 && at == cur + Travel(misses, k - 1)
    decreases |c.input| - cur
  {
    hide Probe, Record, Slot;
    var next := cur + misses / SKIP_SHIFT;
    if next <= |c.input| - MFLIMIT + 1 && Probe(c, cur, next, t[Slot(c, t, cur)]).None? {
      SearchTravels(c, Record(c, t, cur), next, misses + 1);
    }
  }

  lemma {:induction false} DualSearchTravels(c: Stream, pristine: seq<nat>, slots: Slots, cur: nat, misses: nat)
    requires |pristine| == |slots| && LZ4_MIN_LENGTH <= |c.input| && SKIP_SHIFT <= misses
    ensures var k := DualProbes(c, pristine, slots, cur, misses);
            match DualSearch(c, pristine, slots, cur, misses)
            case DualMissed(_) => k > 0 ==> cur + Travel(misses, k) + MFLIMIT <= |c.input| + 1
            case DualFoundAt(_, at, _) => k > 0 && at == cur + Travel(misses, k - 1)
    decreases |c.input| - cur
  {
    hide DualProbe, Note, SlotOf;
    var next := cur + misses / SKIP_SHIFT;
    if next <= |c.input| - MFLIMIT + 1 {
      var slot := SlotOf(c, |slots|, cur);
      if DualProbe(c, cur, next, slots[slot], pristine[slot]).None? {
        DualSearchTravels(c, pristine, Note(c, slots, cur), next, misses + 1);
      }
    }
  }

  /** A search that runs to the end of the input over `n` bytes probes at most `4 * sqrt(n)` times,
      and one that finds a match `n` bytes on, at most once more. */
  lemma ProbesBounded(c: Stream, t: Table, cur: nat)
    requires Valid(c) && LZ4_MIN_LENGTH <= |c.input| && cur <= |c.input|
    ensures var k := Probes(c, t, cur, SKIP_SHIFT);
            match Search(c, t, cur, SKIP_SHIFT)
            case Missed(_) => k * (k + 1) <= 16 * (|c.input| - cur)
            case FoundAt(_, at, _) => (k - 1) * k <= 16 * (at - cur)
  {
    var k := Probes(c, t, cur, SKIP_SHIFT);
    SearchTravels(c, t, cur, SKIP_SHIFT);
    if k > 0 {
      MissesAdvance(k);
      MissesAdvance(k - 1);
    }
  }

  /** The same for the search through two tables. */
  lemma DualProbesBounded(c: Stream, pristine: seq<nat>, slots: Slots, cur: nat)
    requires |pristine| == |slots| && LZ4_MIN_LENGTH <= |c.input| && cur <= |c.input|
    ensures var k := DualProbes(c, pristine, slots, cur, SKIP_SHIFT);
            match DualSearch(c, pristine, slots, cur, SKIP_SHIFT)
            case DualMissed(_) => k * (k + 1) <= 16 * (|c.input| - cur)
            case DualFoundAt(_, at, _) => (k - 1) * k <= 16 * (at - cur)
  {
    var k := DualProbes(c, pristine, slots, cur, SKIP_SHIFT);
    DualSearchTravels(c, pristine, slots, cur, SKIP_SHIFT);
    if k > 0 {
      MissesAdvance(k);
      MissesAdvance(k - 1);
    }
  }
}
