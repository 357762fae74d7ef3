/**
  The block encoder: the search loop, the stretching of matches and the sequence writer, on a
  hash table and an output slice updated in place.  It is proved to write exactly the printed
  form of what `EncoderSpec.EncodeFrom` computes, and to leave exactly its table.
 */
module Compress {
  import opened Core
  import opened BlockFormat
  import opened MatchFinder
  import opened EncoderSpec
  import opened SearchCost
  import opened HashTables
  import opened Emit
  import opened Sink

  /** The table belongs to the stream: same hash, same entry width. */
  ghost predicate Owns(c: Stream, table: HashTable)
    reads table.entries
  {
    table.Valid() && table.hash == c.hash && table.width == c.width
  }

  method BacktrackMatch(input: seq<byte>, cur: nat, literalStart: nat, source: seq<byte>, candidate: nat)
    returns (cur': nat, candidate': nat)
    requires literalStart <= cur <= |input| && candidate <= |source|
    ensures var n := Backtrack(input, cur, literalStart, source, candidate);
            cur' == cur - n && candidate' == candidate - n
  {
    cur', candidate' := cur, candidate;
    while candidate' > 0 && cur' > literalStart && input[cur' - 1] == source[candidate' - 1]
      invariant literalStart <= cur' <= cur && candidate' <= candidate
      invariant cur - cur' == candidate - candidate'
      invariant Backtrack(input, cur, literalStart, source, candidate)
             == cur - cur' + Backtrack(input, cur', literalStart, source, candidate')
    {
      cur', candidate' := cur' - 1, candidate' - 1;
    }
  }

  /** Tests one candidate.  Subtractions wrap around; the table invariant keeps them harmless. */
  method TestCandidate(c: Stream, cur: nat, next: nat, candidate: nat) returns (r: Option<Hit>)
    requires Valid(c) && cur < next && cur + 4 <= |c.input| && next + 4 <= |c.input|
    requires c.readonly || candidate < c.off + cur
    requires candidate <= U32_MAX
    ensures r == Probe(c, cur, next, candidate)
    ensures forall h :: r == Some(h) <==> RealHit(c, cur, candidate, h)
  {
    hide RealHit;
    ProbeExactly(c, cur, next, candidate);
    var inputPos := WrappingSub(candidate, c.off);
    if c.readonly {
      if candidate + 4 > |c.dict| {
        return None;
      }
      var offset := (c.off + cur - candidate) % (U16_MAX + 1);
      if c.dict[candidate..candidate + 4] == c.input[cur..cur + 4] {
        return Some(Hit(offset, candidate, true));
      }
      return None;
    } else if inputPos < next && (!(c.hasOffset && !c.useDict) || cur - inputPos <= MAX_DISTANCE) {
      if c.input[inputPos..inputPos + 4] == c.input[cur..cur + 4]
         && (c.near || cur - inputPos <= MAX_DISTANCE) {
        return Some(Hit((cur - inputPos) % (U16_MAX + 1), inputPos, false));
      }
      return None;
    } else if c.useDict && candidate >= c.off - |c.dict|
              && candidate - (c.off - |c.dict|) + 4 <= |c.dict| {
      var dictPos := candidate - (c.off - |c.dict|);
      if c.dict[dictPos..dictPos + 4] == c.input[cur..cur + 4]
         && (c.near || c.off + cur - candidate <= MAX_DISTANCE) {
        return Some(Hit((c.off + cur - candidate) % (U16_MAX + 1), dictPos, true));
      }
      return None;
    } else {
      return None;
    }
  }

  /** Stores position `i`, unless the table is read-only. */
  method RecordAt(c: Stream, table: HashTable, i: nat, bytes: seq<byte>)
    requires Valid(c) && Owns(c, table) && i + 8 <= |c.input| && bytes == c.input[i..i + 8]
    modifies table.entries
    ensures Owns(c, table) && table.entries[..] == Record(c, old(table.entries[..]), i)
  {
    if !c.readonly {
      table.PutAt(table.Slot(bytes), i + c.off);
    }
  }

  /** A place to start a match. */
  datatype Start = Start(cur: nat, hit: Hit)

  /** The search loop.  `bytes` are the eight bytes at `start`, if the search gets to read them;
      `probes` counts the candidates it looks up. */
  method FindMatch(c: Stream, table: HashTable, start: nat, bytes: seq<byte>)
    returns (r: Option<Start>, ghost probes: nat)
    requires Valid(c) && Owns(c, table) && LZ4_MIN_LENGTH <= |c.input|
    requires Fits(c, table.entries[..], start)
    requires start + MFLIMIT <= |c.input| ==> bytes == c.input[start..start + 8]
    modifies table.entries
    ensures Owns(c, table)
    ensures match Search(c, old(table.entries[..]), start, SKIP_SHIFT)
            case Missed(t) => r == None && table.entries[..] == t
            case FoundAt(t, cur, hit) => r == Some(Start(cur, hit)) && table.entries[..] == t
    ensures probes == Probes(c, old(table.entries[..]), start, SKIP_SHIFT)
    ensures start <= |c.input| ==>
              if r.None? then probes * (probes + 1) <= 16 * (|c.input| - start)
              else (probes - 1) * probes <= 16 * (r.value.cur - start)
  {
    hide Probe, Record, GoodHit;
    var cur, misses, forward := start, SKIP_SHIFT, bytes;
    probes := 0;
    ghost var goal := Search(c, table.entries[..], start, SKIP_SHIFT);
    ghost var total := Probes(c, table.entries[..], start, SKIP_SHIFT);
    if start <= |c.input| {
      ProbesBounded(c, table.entries[..], start);
    }
    while true
      invariant Owns(c, table) && SKIP_SHIFT <= misses && start <= cur
      invariant cur + MFLIMIT <= |c.input| ==> forward == c.input[cur..cur + 8]
      invariant Fits(c, table.entries[..], cur)
      invariant goal == Search(c, table.entries[..], cur, misses)
      invariant total == probes + Probes(c, table.entries[..], cur, misses)
      decreases |c.input| - cur
    {
      var step := misses / SKIP_SHIFT;
      misses := misses + 1;
      var next := cur + step;
      if next > |c.input| - MFLIMIT + 1 {
        return None, probes;
      }
      ghost var t := table.entries[..];
      probes := probes + 1;
      var candidate := table.GetAt(table.Slot(forward));
      var here := forward;
      forward := c.input[next..next + 8];
      RecordAt(c, table, cur, here);
      RecordFits(c, t, cur, next);
      var hit := TestCandidate(c, cur, next, candidate);
      if hit.Some? {
        return Some(Start(cur, hit.value)), probes;
      }
      cur := next;
    }
  }

  /** What one match adds to the output. */
  function Piece(c: Stream, cur: nat, literalStart: nat, hit: Hit): seq<byte>
    requires literalStart <= cur && cur + MFLIMIT <= |c.input| && InSource(c, hit) && hit.offset <= MAX_DISTANCE
  {
    var s := MatchSpan(c.dict, c.input, cur, literalStart, hit);
    PrintSequence(c.input[literalStart..s.start], hit.offset, s.end - s.start)
  }

  /** Stretches the match found at `cur` and measures it. */
  method StretchMatch(c: Stream, cur: nat, literalStart: nat, hit: Hit) returns (start: nat, end: nat)
    requires literalStart <= cur && cur + MFLIMIT <= |c.input| && InSource(c, hit)
    ensures Span(start, end) == MatchSpan(c.dict, c.input, cur, literalStart, hit)
  {
    var source := Source(c.dict, c.input, hit);
    var candidate: nat;
    start, candidate := BacktrackMatch(c.input, cur, literalStart, source, hit.candidate);
    var length: nat;
    length, end := CountSameBytes(c.input, start + MINMATCH, source, candidate + MINMATCH, END_OFFSET);
  }

  /** Emits the match found at `cur` and records the position two bytes in front of its end. */
  method EmitMatch(c: Stream, table: HashTable, out: array<byte>, w: nat, cur: nat, literalStart: nat, hit: Hit)
    returns (w': nat, end: nat)
    requires Valid(c) && Owns(c, table) && LZ4_MIN_LENGTH <= |c.input|
    requires literalStart <= cur && cur + MFLIMIT <= |c.input| && InSource(c, hit) && hit.offset <= MAX_DISTANCE
    requires w + |Piece(c, cur, literalStart, hit)| <= out.Length
    modifies table.entries, out
    ensures Owns(c, table) && end == MatchSpan(c.dict, c.input, cur, literalStart, hit).end
    ensures table.entries[..] == RecordTail(c, old(table.entries[..]), end)
    ensures w' == w + |Piece(c, cur, literalStart, hit)|
    ensures out[..w'] == old(out[..w]) + Piece(c, cur, literalStart, hit)
  {
    hide Owns, Valid, InSource, MatchSpan, Record, PrintSequence;
    var start: nat;
    start, end := StretchMatch(c, cur, literalStart, hit);
    var at := Min(end - 2, |c.input| - 8);
    RecordAt(c, table, end - 2, c.input[at..at + 8]);
    w' := EmitSequence(out, w, c.input, literalStart, start - literalStart, hit.offset, end - start - MINMATCH);
  }

  method TestBehind(c: Stream, end: nat, rematch: nat) returns (r: Option<Hit>)
    requires Valid(c) && end + 4 <= |c.input| && rematch < c.off + end
    ensures r == ProbeBehind(c, end, rematch)
  {
    var rc := WrappingSub(rematch, c.off);
    if rc < end && c.input[end..end + 4] == c.input[rc..rc + 4] && (c.near || end - rc <= MAX_DISTANCE) {
      return Some(Hit((end - rc) % (U16_MAX + 1), rc, false));
    }
    r := None;
  }

  /** Tries the position behind a match.  Returns the eight bytes there for the next search. */
  method TryRematch(c: Stream, table: HashTable, end: nat) returns (r: Option<Hit>, bytes: seq<byte>)
    requires Valid(c) && Owns(c, table) && LZ4_MIN_LENGTH <= |c.input| && end + END_OFFSET <= |c.input|
    requires Fits(c, table.entries[..], end)
    modifies table.entries
    ensures Owns(c, table)
    ensures r == Rematch(c, old(table.entries[..]), end)
    ensures table.entries[..]
         == if r.Some? then Record(c, old(table.entries[..]), end) else old(table.entries[..])
    ensures end + MFLIMIT <= |c.input| ==> bytes == c.input[end..end + 8]
  {
    hide ProbeBehind;
    r, bytes := None, [];
    if !c.useDict && end <= |c.input| - MFLIMIT {
      bytes := c.input[end..end + 8];
      var slot := table.Slot(bytes);
      var rematch := table.GetAt(slot);
      r := TestBehind(c, end, rematch);
      if r.Some? {
        table.PutAt(slot, end + c.off);
      }
    } else if end <= |c.input| - MFLIMIT {
      bytes := c.input[end..end + 8];
    }
  }

  // ----- the compress loop

  /** `e` is what remains to be written behind `done`, to make the output `whole` and the table
      `table`. */
  ghost predicate Remains(done: seq<byte>, e: Encoding, whole: seq<byte>, table: seq<nat>) {
    WellFormed(e.block) && done + Print(e.block) == whole && e.table == table
  }

  /** One step of the encoding: the piece at `cur`, then the match behind it or a new search. */
  lemma RemainsBehind(c: Stream, t: Table, cur: nat, literalStart: nat, hit: Hit, done: seq<byte>,
                      whole: seq<byte>, table: seq<nat>)
    requires Valid(c) && LZ4_MIN_LENGTH <= |c.input|
    requires literalStart <= cur && cur + MFLIMIT <= |c.input| && InSource(c, hit)
    requires Remains(done, Extend(c, t, cur, literalStart, hit), whole, table)
    ensures hit.offset <= MAX_DISTANCE && |done| + |Piece(c, cur, literalStart, hit)| <= |whole|
    ensures var s := MatchSpan(c.dict, c.input, cur, literalStart, hit);
            var t1 := RecordTail(c, t, s.end);
            var r := Rematch(c, t1, s.end);
            Remains(done + Piece(c, cur, literalStart, hit),
                    if r.Some? then Extend(c, Record(c, t1, s.end), s.end, s.end, r.value)
                    else Encode(c, t1, s.end, s.end),
                    whole, table)
  {
    hide MatchSpan, Rematch, Record, Encode, PrintSequence;
    var s := MatchSpan(c.dict, c.input, cur, literalStart, hit);
    var t1 := RecordTail(c, t, s.end);
    var r := Rematch(c, t1, s.end);
    var e := if r.Some? then Extend(c, Record(c, t1, s.end), s.end, s.end, r.value) else Encode(c, t1, s.end, s.end);
    assert Extend(c, t, cur, literalStart, hit)
        == Encoding(More(c.input[literalStart..s.start], hit.offset, s.end - s.start, e.block), e.table);
    assert done + (Piece(c, cur, literalStart, hit) + Print(e.block))
        == done + Piece(c, cur, literalStart, hit) + Print(e.block);
  }

  /** Emits one match and tries the position behind it. */
  method EmitAndTry(c: Stream, table: HashTable, out: array<byte>, w: nat, cur: nat, literalStart: nat, hit: Hit,
                    ghost whole: seq<byte>, ghost final: seq<nat>)
    returns (w': nat, end: nat, r: Option<Hit>, bytes: seq<byte>)
    requires Valid(c) && Owns(c, table) && LZ4_MIN_LENGTH <= |c.input|
    requires literalStart <= cur && cur + MFLIMIT <= |c.input| && InSource(c, hit)
    requires GoodHit(c.dict, c.input, cur, hit) && Fits(c, table.entries[..], cur + 1)
    requires w <= out.Length && |whole| <= out.Length
    requires Remains(out[..w], Extend(c, table.entries[..], cur, literalStart, hit), whole, final)
    modifies table.entries, out
    ensures Owns(c, table) && literalStart < end && end + END_OFFSET <= |c.input| && w' <= out.Length
    ensures r.Some? ==>
              && end + MFLIMIT <= |c.input| && InSource(c, r.value) && GoodHit(c.dict, c.input, end, r.value)
              && Fits(c, table.entries[..], end + 1)
              && Remains(out[..w'], Extend(c, table.entries[..], end, end, r.value), whole, final)
    ensures r.None? ==>
              && (end + MFLIMIT <= |c.input| ==> bytes == c.input[end..end + 8])
              && Fits(c, table.entries[..], end)
              && Remains(out[..w'], Encode(c, table.entries[..], end, end), whole, final)
  {
    hide Remains, GoodHit, Fits, MatchSpan, Encode, Extend, Record, RecordTail, Rematch, Piece;
    ghost var t := table.entries[..];
    RemainsBehind(c, t, cur, literalStart, hit, out[..w], whole, final);
    w', end := EmitMatch(c, table, out, w, cur, literalStart, hit);
    EndFits(c, t, cur, literalStart, hit);
    ghost var t1 := table.entries[..];
    r, bytes := TryRematch(c, table, end);
    if r.Some? {
      RematchFits(c, t1, end);
    }
  }

  /** The inner loop: emits the match found at `start`, and every match found right behind one. */
  method EmitMatches(c: Stream, table: HashTable, out: array<byte>, w: nat, start: nat, literalStart: nat, first: Hit,
                     ghost whole: seq<byte>, ghost final: seq<nat>)
    returns (w': nat, end: nat, bytes: seq<byte>)
    requires Valid(c) && Owns(c, table) && LZ4_MIN_LENGTH <= |c.input|
    requires literalStart <= start && start + MFLIMIT <= |c.input| && InSource(c, first)
    requires GoodHit(c.dict, c.input, start, first) && Fits(c, table.entries[..], start + 1)
    requires w <= out.Length && |whole| <= out.Length
    requires Remains(out[..w], Extend(c, table.entries[..], start, literalStart, first), whole, final)
    modifies table.entries, out
    ensures Owns(c, table) && literalStart < end && end + END_OFFSET <= |c.input|
    ensures Fits(c, table.entries[..], end)
    ensures end + MFLIMIT <= |c.input| ==> bytes == c.input[end..end + 8]
    ensures w' <= out.Length && Remains(out[..w'], Encode(c, table.entries[..], end, end), whole, final)
  {
    hide Owns, Remains, GoodHit, Fits, Encode, Extend;
    var cur, from, hit := start, literalStart, first;
    w' := w;
    while true
      invariant Owns(c, table) && literalStart <= from <= cur && cur + MFLIMIT <= |c.input|
      invariant InSource(c, hit) && GoodHit(c.dict, c.input, cur, hit) && Fits(c, table.entries[..], cur + 1)
      invariant w' <= out.Length
      invariant Remains(out[..w'], Extend(c, table.entries[..], cur, from, hit), whole, final)
      decreases |c.input| - from
    {
      var r: Option<Hit>;
      w', end, r, bytes := EmitAndTry(c, table, out, w', cur, from, hit, whole, final);
      if r.None? {
        return;
      }
      cur, from, hit := end, end, r.value;
    }
  }

  lemma EndFits(c: Stream, t: Table, cur: nat, literalStart: nat, hit: Hit)
    requires Valid(c) && literalStart <= cur && cur + MFLIMIT <= |c.input|
    requires GoodHit(c.dict, c.input, cur, hit) && Fits(c, t, cur + 1)
    ensures var end := MatchSpan(c.dict, c.input, cur, literalStart, hit).end;
            Fits(c, RecordTail(c, t, end), end)
  {
    hide MatchSpan, Record, Fits;
    var _ := SpanIsGood(c.dict, c.input, cur, literalStart, hit);
    var end := MatchSpan(c.dict, c.input, cur, literalStart, hit).end;
    FitsLater(c, t, cur + 1, end);
    RecordFits(c, t, end - 2, end);
  }

  lemma RematchFits(c: Stream, t: Table, end: nat)
    requires Valid(c) && end + 4 <= |c.input| && Fits(c, t, end) && Rematch(c, t, end).Some?
    ensures Fits(c, Record(c, t, end), end + 1) && GoodHit(c.dict, c.input, end, Rematch(c, t, end).value)
  {
    hide Record, Fits, Rematch, GoodHit;
    RematchIsGood(c, t, end);
    FitsLater(c, t, end, end + 1);
    RecordFits(c, t, end, end + 1);
  }

  /** The end of the input: the rest is literals. */
  lemma RemainsLast(c: Stream, t: Table, literalStart: nat, done: seq<byte>, whole: seq<byte>, table: seq<nat>)
    requires literalStart <= |c.input|
    requires Remains(done, Encoding(Last(c.input[literalStart..]), t), whole, table)
    ensures whole == done + PrintRun(c.input[literalStart..], 0) && table == t
  {
  }

  /** The outer loop: search, emit, and search again. */
  method CompressLoop(c: Stream, table: HashTable, out: array<byte>, w: nat, start: nat, first: nat,
                      ghost whole: seq<byte>, ghost final: seq<nat>)
    returns (w': nat)
    requires Valid(c) && Owns(c, table) && LZ4_MIN_LENGTH <= |c.input|
    requires first <= start && start + MFLIMIT <= |c.input| && Fits(c, table.entries[..], start)
    requires w <= out.Length && |whole| <= out.Length
    requires Remains(out[..w], Encode(c, table.entries[..], start, first), whole, final)
    modifies table.entries, out
    ensures Owns(c, table) && table.entries[..] == final
    ensures w' == |whole| && out[..w'] == whole
  {
    hide Owns, Remains, GoodHit, Fits, Search, Extend;
    var cur, literalStart, bytes := start, first, c.input[start..start + 8];
    w' := w;
    while true
      invariant Owns(c, table) && literalStart <= cur && literalStart <= |c.input|
      invariant Fits(c, table.entries[..], cur)
      invariant cur + MFLIMIT <= |c.input| ==> bytes == c.input[cur..cur + 8]
      invariant w' <= out.Length
      invariant Remains(out[..w'], Encode(c, table.entries[..], cur, literalStart), whole, final)
      decreases |c.input| - literalStart
    {
      ghost var t := table.entries[..];
      SearchIsGood(c, t, cur, SKIP_SHIFT);
      var found, _ := FindMatch(c, table, cur, bytes);
      if found.None? {
        RemainsLast(c, table.entries[..], literalStart, out[..w'], whole, final);
        w' := HandleLastLiterals(out, w', c.input, literalStart);
        return;
      }
      var end: nat;
      w', end, bytes := EmitMatches(c, table, out, w', found.value.cur, literalStart, found.value.hit, whole, final);
      cur, literalStart := end, end;
    }
  }

  /** Compresses `input[inputPos..]` behind the dictionary and `input[..inputPos]`. */
  method CompressInternal(c: Stream, inputPos: nat, output: SliceSink, table: HashTable)
    returns (r: Result<nat, CompressError>)
    requires Valid(c) && Owns(c, table) && output.Valid() && inputPos <= |c.input|
    requires FitsStart(c, table.entries[..], inputPos)
    modifies output, output.output, table.entries
    ensures Owns(c, table) && output.Valid()
    ensures r.Err? <==> output.output.Length - old(output.pos) < MaxOutputSize(|c.input| - inputPos)
    ensures r.Err? ==> r.error == CompressedOutputTooSmall && table.entries[..] == old(table.entries[..])
    ensures r.Err? ==> output.pos == old(output.pos) && output.output[..] == old(output.output[..])
    ensures var e := EncodeFrom(c, old(table.entries[..]), inputPos);
            r.Ok? ==>
              && WellFormed(e.block) && r.value == |Print(e.block)|
              && output.Contents() == old(output.Contents()) + Print(e.block)
              && table.entries[..] == e.table
  {
    var out, start := output.output, output.pos;
    var total := out.Length - start;
    if total < MaxOutputSize(|c.input| - inputPos) {
      return Err(CompressedOutputTooSmall);
    }
    ghost var t := table.entries[..];
    EncodeFromIsLossless(c, t, inputPos);
    ghost var e := EncodeFrom(c, t, inputPos);
    EncodingFits(c, e, inputPos);
    ghost var whole := out[..start] + Print(e.block);
    hide WellFormed, Print, Run, Conforms, Encode, EncodeFrom, FitsStart, Record;
    EncodeFromCases(c, t, inputPos);
    var w: nat;
    if |c.input| < LZ4_MIN_LENGTH || |c.input| - inputPos < LZ4_MIN_LENGTH {
      RemainsLast(c, t, inputPos, out[..start], whole, t);
      w := HandleLastLiterals(out, start, c.input, inputPos);
    } else {
      var cur := inputPos;
      if cur == 0 && c.off == 0 {
        RecordAt(c, table, 0, c.input[0..8]);
        FirstRecordFits(c, t);
        cur := 1;
      } else {
        StartFits(c, t, inputPos);
      }
      w := CompressLoop(c, table, out, start, cur, inputPos, whole, e.table);
    }
    output.pos := w;
    r := Ok(w - start);
  }

  lemma EncodeFromCases(c: Stream, t: Table, pos: nat)
    requires c.width > 0 && |c.dict| <= c.off && pos <= |c.input|
    ensures |c.input| - pos < LZ4_MIN_LENGTH ==> EncodeFrom(c, t, pos) == Encoding(Last(c.input[pos..]), t)
    ensures LZ4_MIN_LENGTH <= |c.input| - pos && pos == 0 && c.off == 0 ==>
              EncodeFrom(c, t, pos) == Encode(c, Record(c, t, 0), 1, 0)
    ensures LZ4_MIN_LENGTH <= |c.input| - pos && (pos != 0 || c.off != 0) ==>
              EncodeFrom(c, t, pos) == Encode(c, t, pos, pos)
  {
    hide Encode, Record;
  }

  lemma FirstRecordFits(c: Stream, t: Table)
    requires c.width > 0 && 8 <= |c.input| && c.off == 0 && FitsStart(c, t, 0)
    ensures Fits(c, Record(c, t, 0), 1)
  {
    RecordFits(c, t, 0, 1);
  }

  lemma StartFits(c: Stream, t: Table, pos: nat)
    requires FitsStart(c, t, pos) && (pos != 0 || c.off != 0)
    ensures Fits(c, t, pos)
  {
  }

  /** A lossless encoding has the size of what it encodes, so it fits the promised buffer. */
  lemma EncodingFits(c: Stream, e: Encoding, pos: nat)
    requires pos <= |c.input| && Lossless(c, e, pos)
    ensures WellFormed(e.block) && |Print(e.block)| <= MaxOutputSize(|c.input| - pos)
  {
    RunLength(e.block, c.dict + c.input[..pos]);
    BlockFits(e.block);
  }
}
