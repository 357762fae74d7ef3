/**
  Copies inside the output buffer.  A wild copy moves whole chunks and may write past the
  requested length, by less than a chunk that its caller has reserved.  Every match copy is
  proved equal to the byte-by-byte copy `BlockFormat.Copy` on what was requested.
 */
module Primitives {
  import opened Core
  import opened BlockFormat

  const MATCH_CHUNK: nat := 8
  const WIDE_CHUNK: nat := 2 * MATCH_CHUNK
  const LONG_CHUNK: nat := 2 * WIDE_CHUNK
  const MIN_COPY_OFFSET: nat := 2
  const LONG_UNROLLED: nat := 2 * LONG_CHUNK
  /** The greatest match length that fits the nibble of a token. */
  const SHORT_MATCH_MAX: nat := MINMATCH + 14

  /** A position truncated to 32 bits. */
  function Idx(i: nat): (r: nat)
    ensures i <= U32_MAX ==> r == i
  {
    i % (U32_MAX + 1)
  }

  // ----- chunks

  /** Writes `chunk` at `at`. */
  method Store(buf: array<byte>, at: nat, chunk: seq<byte>)
    requires at + |chunk| <= buf.Length
    modifies buf
    ensures buf[..] == old(buf[..at]) + chunk + old(buf[at + |chunk|..])
    ensures forall i :: 0 <= i < buf.Length ==>
              buf[i] == if at <= i < at + |chunk| then chunk[i - at] else old(buf[i])
  {
    forall i | 0 <= i < |chunk| {
      buf[at + i] := chunk[i];
    }
  }

  /** Moves `n` bytes from `src` to `dst`, reading all of them before writing any. */
  method CopyChunk(buf: array<byte>, src: nat, dst: nat, n: nat)
    requires src + n <= buf.Length && dst + n <= buf.Length
    modifies buf
    ensures forall i :: 0 <= i < buf.Length ==>
              buf[i] == if dst <= i < dst + n then old(buf[i - dst + src]) else old(buf[i])
  {
    Store(buf, dst, buf[src..src + n]);
  }

  // ----- partial match copies

  /** `now` is `was` with the first `n` bytes of a match `offset` back written at `dst`, and
      nothing changed outside `[dst, end)`. */
  ghost predicate Repeats(was: seq<byte>, now: seq<byte>, dst: nat, offset: nat, n: nat, end: nat) {
    && |now| == |was| && offset <= dst && dst + n <= end <= |was|
    && (forall i :: 0 <= i < dst ==> now[i] == was[i])
    && (forall i :: dst <= i < dst + n ==> now[i] == now[i - offset])
    && (forall i :: end <= i < |was| ==> now[i] == was[i])
  }

  lemma RepeatsIsCopy(was: seq<byte>, now: seq<byte>, dst: nat, offset: nat, n: nat, end: nat)
    requires Repeats(was, now, dst, offset, n, end) && 1 <= offset
    ensures now[..dst + n] == Copy(was[..dst], offset, n) && now[end..] == was[end..]
  {
    CopyUnique(was[..dst], offset, n, now[..dst + n]);
  }

  /** One chunk of a match copy: extends `done` copied bytes by `n <= offset` more. */
  method RepeatChunk(buf: array<byte>, dst: nat, offset: nat, done: nat, n: nat, ghost was: seq<byte>, ghost end: nat)
    requires n <= offset && dst + done + n <= end
    requires Repeats(was, buf[..], dst, offset, done, end)
    modifies buf
    ensures Repeats(was, buf[..], dst, offset, done + n, end)
  {
    CopyChunk(buf, dst - offset + done, dst + done, n);
  }

  // ----- match copies

  /** Three chunks for a match of at most `SHORT_MATCH_MAX` bytes. */
  method WildMatchCopy18(buf: array<byte>, dst: nat, offset: nat, advance: nat) returns (end: nat)
    requires MATCH_CHUNK <= offset <= dst && advance <= SHORT_MATCH_MAX
    requires dst + SHORT_MATCH_MAX <= buf.Length
    modifies buf
    ensures end == dst + advance
    ensures buf[..end] == Copy(old(buf[..dst]), offset, advance)
    ensures buf[dst + SHORT_MATCH_MAX..] == old(buf[dst + SHORT_MATCH_MAX..])
  {
    ghost var was := buf[..];
    ghost var top := dst + SHORT_MATCH_MAX;
    RepeatChunk(buf, dst, offset, 0, MATCH_CHUNK, was, top);
    RepeatChunk(buf, dst, offset, MATCH_CHUNK, MATCH_CHUNK, was, top);
    RepeatChunk(buf, dst, offset, 2 * MATCH_CHUNK, SHORT_MATCH_MAX - 2 * MATCH_CHUNK, was, top);
    RepeatsIsCopy(was, buf[..], dst, offset, advance, top);
    end := dst + advance;
  }

  /** Long match: `LONG_CHUNK` bytes a step, or one exact copy when the match is long and does
      not overlap its source. */
  method WildCopyMatchLong(buf: array<byte>, dst: nat, offset: nat, len: nat)
    requires WIDE_CHUNK <= offset <= dst && dst + len + LONG_CHUNK <= buf.Length
    modifies buf
    ensures buf[..dst + len] == Copy(old(buf[..dst]), offset, len)
    ensures buf[dst + len + LONG_CHUNK..] == old(buf[dst + len + LONG_CHUNK..])
  {
    ghost var was := buf[..];
    ghost var top := dst + len + LONG_CHUNK;
    if len > LONG_UNROLLED && offset >= len {
      RepeatChunk(buf, dst, offset, 0, len, was, top);
    } else {
      RepeatChunk(buf, dst, offset, 0, WIDE_CHUNK, was, top);
      RepeatChunk(buf, dst, offset, WIDE_CHUNK, WIDE_CHUNK, was, top);
      if len > LONG_CHUNK {
        RepeatChunk(buf, dst, offset, LONG_CHUNK, WIDE_CHUNK, was, top);
        RepeatChunk(buf, dst, offset, LONG_CHUNK + WIDE_CHUNK, WIDE_CHUNK, was, top);
        var done := LONG_UNROLLED;
        while done < len
          invariant done < len + LONG_CHUNK
          invariant Repeats(was, buf[..], dst, offset, done, top)
        {
          RepeatChunk(buf, dst, offset, done, WIDE_CHUNK, was, top);
          RepeatChunk(buf, dst, offset, done + WIDE_CHUNK, WIDE_CHUNK, was, top);
          done := done + LONG_CHUNK;
        }
      }
    }
    RepeatsIsCopy(was, buf[..], dst, offset, len, top);
  }

  /** Match in chunks of `step` bytes, for offsets of at least `step`. */
  method WildCopyMatch(buf: array<byte>, src: nat, dst: nat, len: nat, step: nat) returns (end: nat)
    requires 1 <= step && src + step <= dst && dst + len + step <= buf.Length
    modifies buf
    ensures end == dst + len
    ensures buf[..end] == Copy(old(buf[..dst]), dst - src, len)
    ensures buf[dst + len + step..] == old(buf[dst + len + step..])
  {
    ghost var was := buf[..];
    ghost var top := dst + len + step;
    var offset := dst - src;
    var done := 0;
    while true
      invariant 0 <= done < len || done == 0
      invariant Repeats(was, buf[..], dst, offset, done, top)
      decreases len - done
    {
      RepeatChunk(buf, dst, offset, done, step, was, top);
      done := done + step;
      if done >= len {
        break;
      }
    }
    RepeatsIsCopy(was, buf[..], dst, offset, len, top);
    end := dst + len;
  }

  method WildCopyMatch8(buf: array<byte>, src: nat, dst: nat, len: nat) returns (end: nat)
    requires src + MATCH_CHUNK <= dst && dst + len + MATCH_CHUNK <= buf.Length
    modifies buf
    ensures end == dst + len && buf[..end] == Copy(old(buf[..dst]), dst - src, len)
    ensures buf[dst + len + MATCH_CHUNK..] == old(buf[dst + len + MATCH_CHUNK..])
  {
    end := WildCopyMatch(buf, src, dst, len, MATCH_CHUNK);
  }

  method WildCopyMatch16(buf: array<byte>, src: nat, dst: nat, len: nat) returns (end: nat)
    requires src + WIDE_CHUNK <= dst && dst + len + WIDE_CHUNK <= buf.Length
    modifies buf
    ensures end == dst + len && buf[..end] == Copy(old(buf[..dst]), dst - src, len)
    ensures buf[dst + len + WIDE_CHUNK..] == old(buf[dst + len + WIDE_CHUNK..])
  {
    end := WildCopyMatch(buf, src, dst, len, WIDE_CHUNK);
  }

  method WildCopyMatch32(buf: array<byte>, src: nat, dst: nat, len: nat) returns (end: nat)
    requires src + WIDE_CHUNK <= dst && dst + len + LONG_CHUNK <= buf.Length
    modifies buf
    ensures end == dst + len && buf[..end] == Copy(old(buf[..dst]), dst - src, len)
    ensures buf[dst + len + LONG_CHUNK..] == old(buf[dst + len + LONG_CHUNK..])
  {
    WildCopyMatchLong(buf, dst, dst - src, len);
    end := dst + len;
  }

  /** Exact copy of a match that does not overlap its source. */
  method CopyWithinNonoverlap(buf: array<byte>, src: nat, dst: nat, len: nat) returns (end: nat)
    requires src + len <= dst && src < dst && dst + len <= buf.Length
    modifies buf
    ensures end == dst + len && buf[..end] == Copy(old(buf[..dst]), dst - src, len)
    ensures buf[end..] == old(buf[end..])
  {
    ghost var was := buf[..];
    RepeatChunk(buf, dst, dst - src, 0, len, was, dst + len);
    RepeatsIsCopy(was, buf[..], dst, dst - src, len, dst + len);
    end := dst + len;
  }

  /** A match at offset 1 repeats one byte. */
  method FillLast(buf: array<byte>, start: nat, dst: nat, len: nat) returns (end: nat)
    requires dst == start + 1 && dst + len <= buf.Length
    modifies buf
    ensures end == dst + len && buf[..end] == Copy(old(buf[..dst]), 1, len)
    ensures buf[end..] == old(buf[end..])
  {
    ghost var was := buf[..];
    var val := buf[start];
    forall i | dst <= i < dst + len {
      buf[i] := val;
    }
    RepeatsIsCopy(was, buf[..], dst, 1, len, dst + len);
    end := dst + len;
  }

  // ----- match copies with a short period

  /** The `offset` bytes that end at `dst + done` are the `offset` bytes that end at `dst`. */
  ghost predicate SamePeriod(now: seq<byte>, dst: nat, offset: nat, done: nat)
    requires offset <= dst && dst + done <= |now|
  {
    now[dst + done - offset..dst + done] == now[dst - offset..dst]
  }

  lemma SamePeriodAt(now: seq<byte>, dst: nat, offset: nat, done: nat, i: nat)
    requires offset <= dst && dst + done <= |now| && SamePeriod(now, dst, offset, done)
    requires dst - offset <= i < dst
    ensures now[i + done] == now[i]
  {
    var j := i - (dst - offset);
    assert now[i + done] == now[dst + done - offset..dst + done][j];
    assert now[i] == now[dst - offset..dst][j];
  }

  /** `pattern` spreads a period of `offset` bytes over `MATCH_CHUNK` bytes. */
  ghost predicate Spreads(pattern: seq<byte>, period: seq<byte>) {
    && |pattern| == MATCH_CHUNK && MIN_COPY_OFFSET <= |period| < MATCH_CHUNK
    && (forall i :: 0 <= i < |period| ==> pattern[i] == period[i])
    && (forall i :: |period| <= i < MATCH_CHUNK ==> pattern[i] == pattern[i - |period|])
  }

  function Stride(offset: nat): nat
    requires 1 <= offset
  {
    MATCH_CHUNK - MATCH_CHUNK % offset
  }

  /** The store stride is a whole number of periods, so the pattern continues at it. */
  lemma StrideContinues(pattern: seq<byte>, period: seq<byte>)
    requires Spreads(pattern, period)
    ensures var step := Stride(|period|);
            |period| <= step <= MATCH_CHUNK && pattern[step - |period|..step] == period
  {
    var n := |period|;
    if n == 2 {
      assert pattern[6] == pattern[4] == pattern[2] == pattern[0];
      assert pattern[7] == pattern[5] == pattern[3] == pattern[1];
    } else if n == 3 {
      assert pattern[3] == pattern[0] && pattern[4] == pattern[1] && pattern[5] == pattern[2];
    } else if n == 4 {
      assert pattern[4] == pattern[0] && pattern[5] == pattern[1];
      assert pattern[6] == pattern[2] && pattern[7] == pattern[3];
    } else {
      assert Stride(n) == n;
    }
  }

  method SpreadPeriod(buf: array<byte>, base: nat, offset: nat) returns (pattern: array<byte>)
    requires MIN_COPY_OFFSET <= offset < MATCH_CHUNK && base + offset <= buf.Length
    ensures fresh(pattern) && Spreads(pattern[..], buf[base..base + offset])
  {
    var first := buf[base];
    pattern := new byte[MATCH_CHUNK](_ => first);
    pattern[0], pattern[1] := buf[base], buf[base + 1];
    var i := MIN_COPY_OFFSET;
    while i < MATCH_CHUNK
      invariant MIN_COPY_OFFSET <= i <= MATCH_CHUNK
      invariant forall k :: 0 <= k < i && k < offset ==> pattern[k] == buf[base + k]
      invariant forall k :: offset <= k < i ==> pattern[k] == pattern[k - offset]
    {
      pattern[i] := if i < offset then buf[base + i] else pattern[i - offset];
      i := i + 1;
    }
  }

  /** Storing the pattern where a period ends continues the match by the pattern's length. */
  lemma PatternRepeats(before: seq<byte>, now: seq<byte>, dst: nat, offset: nat, done: nat, pattern: seq<byte>)
    requires offset <= dst && dst + done + MATCH_CHUNK <= |before| == |now|
    requires forall i :: dst <= i < dst + done ==> before[i] == before[i - offset]
    requires SamePeriod(before, dst, offset, done)
    requires Spreads(pattern, before[dst - offset..dst])
    requires now[..dst + done] == before[..dst + done]
    requires now[dst + done..dst + done + MATCH_CHUNK] == pattern
    ensures forall i :: dst <= i < dst + done + MATCH_CHUNK ==> now[i] == now[i - offset]
  {
    var at := dst + done;
    forall i | dst <= i < at + MATCH_CHUNK
      ensures now[i] == now[i - offset]
    {
      if i < at {
        assert now[i] == now[..at][i] == before[..at][i] == before[i];
        assert now[i - offset] == now[..at][i - offset] == before[..at][i - offset] == before[i - offset];
      } else {
        var j := i - at;
        assert now[i] == now[at..at + MATCH_CHUNK][j] == pattern[j];
        if j < offset {
          assert now[i - offset] == now[..at][i - offset] == before[..at][i - offset] == before[i - offset];
          assert pattern[j] == before[dst - offset..dst][j] == before[dst - offset + j];
          SamePeriodAt(before, dst, offset, done, dst - offset + j);
        } else {
          assert now[i - offset] == now[at..at + MATCH_CHUNK][j - offset] == pattern[j - offset];
        }
      }
    }
  }

  /** `now` is `before` with `chunk` written at `at`. */
  ghost predicate Stored(before: seq<byte>, now: seq<byte>, at: nat, chunk: seq<byte>) {
    at + |chunk| <= |before| && now == before[..at] + chunk + before[at + |chunk|..]
  }

  lemma StoredSlices(before: seq<byte>, now: seq<byte>, at: nat, chunk: seq<byte>)
    requires Stored(before, now, at, chunk)
    ensures |now| == |before| && now[..at] == before[..at] && now[at..at + |chunk|] == chunk
    ensures now[at + |chunk|..] == before[at + |chunk|..]
  {
  }

  /** A store of `chunk` that continues the match also keeps what lies outside it. */
  lemma StoredRepeats(was: seq<byte>, before: seq<byte>, now: seq<byte>, dst: nat, offset: nat,
                      done: nat, chunk: seq<byte>, n: nat, end: nat)
    requires Stored(before, now, dst + done, chunk) && n <= |chunk| && dst + done + |chunk| <= end
    requires Repeats(was, before, dst, offset, done, end)
    requires forall i :: dst <= i < dst + done + n ==> now[i] == now[i - offset]
    ensures Repeats(was, now, dst, offset, done + n, end)
  {
  }

  /** The pattern, stored where a period ends, ends in a period again a stride later. */
  lemma PatternPeriod(before: seq<byte>, now: seq<byte>, dst: nat, offset: nat, at: nat, pattern: seq<byte>)
    requires MIN_COPY_OFFSET <= offset < MATCH_CHUNK && offset <= dst <= at
    requires at + MATCH_CHUNK <= |before| && Spreads(pattern, before[dst - offset..dst])
    requires Stored(before, now, at, pattern)
    ensures offset <= Stride(offset) <= MATCH_CHUNK
    ensures now[at + Stride(offset) - offset..at + Stride(offset)] == now[dst - offset..dst]
    ensures now[dst - offset..dst] == before[dst - offset..dst]
  {
    var step, period := Stride(offset), before[dst - offset..dst];
    StrideContinues(pattern, period);
    StoredSlices(before, now, at, pattern);
    hide Spreads, Stored, Stride;
    assert now[dst - offset..dst] == now[..at][dst - offset..dst];
    assert before[dst - offset..dst] == before[..at][dst - offset..dst];
    assert now[at + step - offset..at + step] == now[at..at + MATCH_CHUNK][step - offset..step];
  }

  lemma PatternStored(was: seq<byte>, before: seq<byte>, now: seq<byte>, dst: nat, offset: nat,
                      done: nat, pattern: seq<byte>, end: nat)
    requires MIN_COPY_OFFSET <= offset < MATCH_CHUNK && dst + done + MATCH_CHUNK <= end
    requires Repeats(was, before, dst, offset, done, end) && SamePeriod(before, dst, offset, done)
    requires Spreads(pattern, before[dst - offset..dst])
    requires Stored(before, now, dst + done, pattern)
    ensures offset <= Stride(offset) <= MATCH_CHUNK
    ensures Repeats(was, now, dst, offset, done + Stride(offset), end)
    ensures SamePeriod(now, dst, offset, done + Stride(offset))
    ensures now[dst - offset..dst] == before[dst - offset..dst]
  {
    var at := dst + done;
    PatternPeriod(before, now, dst, offset, at, pattern);
    StoredSlices(before, now, at, pattern);
    PatternRepeats(before, now, dst, offset, done, pattern);
    StoredRepeats(was, before, now, dst, offset, done, pattern, Stride(offset), end);
  }

  /** One store of the pattern at `dst + done`, where a new period begins. */
  method StorePattern(buf: array<byte>, dst: nat, offset: nat, done: nat,
                      pattern: seq<byte>, ghost was: seq<byte>, ghost end: nat)
    requires MIN_COPY_OFFSET <= offset < MATCH_CHUNK
    requires dst + done + MATCH_CHUNK <= end
    requires Repeats(was, buf[..], dst, offset, done, end) && SamePeriod(buf[..], dst, offset, done)
    requires Spreads(pattern, buf[dst - offset..dst])
    modifies buf
    ensures offset <= Stride(offset) <= MATCH_CHUNK
    ensures Repeats(was, buf[..], dst, offset, done + Stride(offset), end)
    ensures SamePeriod(buf[..], dst, offset, done + Stride(offset))
    ensures buf[dst - offset..dst] == old(buf[dst - offset..dst])
  {
    ghost var before := buf[..];
    Store(buf, dst + done, pattern);
    PatternStored(was, before, buf[..], dst, offset, done, pattern, end);
    assert buf[dst - offset..dst] == buf[..][dst - offset..dst];
    assert before[dst - offset..dst] == old(buf[dst - offset..dst]);
  }

  /** Match with `MIN_COPY_OFFSET <= offset < MATCH_CHUNK`: the period, spread over a chunk, is
      stored again and again at a stride that is a multiple of the period. */
  method WildCopyMatchShortOffset(buf: array<byte>, dst: nat, offset: nat, len: nat) returns (end: nat)
    requires MIN_COPY_OFFSET <= offset < MATCH_CHUNK && offset <= dst
    requires dst + len + MATCH_CHUNK <= buf.Length
    modifies buf
    ensures end == dst + len && buf[..end] == Copy(old(buf[..dst]), offset, len)
    ensures buf[dst + len + MATCH_CHUNK..] == old(buf[dst + len + MATCH_CHUNK..])
  {
    hide Copy, Spreads, SamePeriod;
    ghost var was := buf[..];
    ghost var top := dst + len + MATCH_CHUNK;
    var pattern := SpreadPeriod(buf, dst - offset, offset);
    ghost var spread := pattern[..];
    StrideContinues(spread, buf[dst - offset..dst]);
    var step := MATCH_CHUNK - MATCH_CHUNK % offset;
    var done := 0;
    NothingCopied(was, dst, offset, top);
    hide Repeats;
    while done < len
      invariant 0 <= done < len + MATCH_CHUNK
      invariant Repeats(was, buf[..], dst, offset, done, top) && SamePeriod(buf[..], dst, offset, done)
      invariant pattern[..] == spread && Spreads(spread, buf[dst - offset..dst])
    {
      StorePattern(buf, dst, offset, done, pattern[..], was, top);
      done := done + step;
    }
    RepeatsIsCopy(was, buf[..], dst, offset, len, top);
    end := dst + len;
  }

  lemma NothingCopied(was: seq<byte>, dst: nat, offset: nat, end: nat)
    requires 1 <= offset <= dst <= end <= |was|
    ensures Repeats(was, was, dst, offset, 0, end) && SamePeriod(was, dst, offset, 0)
  {
  }

  /** Copying the first `n <= done` bytes behind all `done` of them continues the match. */
  lemma DoublingRepeats(before: seq<byte>, now: seq<byte>, dst: nat, offset: nat, done: nat, n: nat)
    requires 1 <= offset <= dst && n <= done && dst + done + n <= |before| == |now|
    requires forall i :: dst <= i < dst + done ==> before[i] == before[i - offset]
    requires SamePeriod(before, dst, offset, done)
    requires now[..dst + done] == before[..dst + done]
    requires now[dst + done..dst + done + n] == before[dst..dst + n]
    ensures forall i :: dst <= i < dst + done + n ==> now[i] == now[i - offset]
  {
    var at := dst + done;
    forall i | dst <= i < at + n
      ensures now[i] == now[i - offset]
    {
      if i < at {
        assert now[i] == now[..at][i] && now[i - offset] == now[..at][i - offset];
      } else {
        var j := i - at;
        assert now[i] == now[at..at + n][j] == before[dst..dst + n][j] == before[dst + j];
        if j < offset {
          assert now[i - offset] == now[..at][i - offset];
          SamePeriodAt(before, dst, offset, done, dst + j - offset);
        } else {
          assert now[i - offset] == now[at..at + n][j - offset] == before[dst..dst + n][j - offset];
        }
      }
    }
  }

  lemma DoublingStored(was: seq<byte>, before: seq<byte>, now: seq<byte>, dst: nat, offset: nat,
                       done: nat, n: nat, end: nat)
    requires 1 <= offset <= done && n <= done && dst + done + n <= end
    requires Repeats(was, before, dst, offset, done, end) && SamePeriod(before, dst, offset, done)
    requires Stored(before, now, dst + done, before[dst..dst + n])
    ensures Repeats(was, now, dst, offset, done + n, end)
    ensures n == done ==> SamePeriod(now, dst, offset, done + n)
  {
    var at, chunk := dst + done, before[dst..dst + n];
    StoredSlices(before, now, at, chunk);
    DoublingRepeats(before, now, dst, offset, done, n);
    StoredRepeats(was, before, now, dst, offset, done, chunk, n, end);
    if n == done {
      PeriodDoubles(before, now, dst, offset, done);
    }
  }

  lemma PeriodDoubles(before: seq<byte>, now: seq<byte>, dst: nat, offset: nat, done: nat)
    requires 1 <= offset <= dst && offset <= done && dst + 2 * done <= |before| == |now|
    requires SamePeriod(before, dst, offset, done)
    requires now[..dst + done] == before[..dst + done] && now[dst + done..dst + 2 * done] == before[dst..dst + done]
    ensures SamePeriod(now, dst, offset, 2 * done)
  {
    var at := dst + done;
    SubSlice(now, at, at + done, at + done - offset, at + done);
    SubSlice(before, dst, at, at - offset, at);
    SubSlice(now, 0, at, dst - offset, dst);
    SubSlice(before, 0, at, dst - offset, dst);
  }

  /** `done` bytes of a match of `len` are copied; while some are missing, the copied bytes are
      whole periods. */
  ghost predicate Doubling(was: seq<byte>, now: seq<byte>, dst: nat, offset: nat, done: nat, len: nat) {
    && Repeats(was, now, dst, offset, done, dst + len)
    && (done < len ==> 1 <= offset <= done && SamePeriod(now, dst, offset, done))
  }

  /** Doubles the copied bytes, as far as the match goes. */
  method DoubleCopied(buf: array<byte>, dst: nat, offset: nat, done: nat, len: nat, ghost was: seq<byte>)
    returns (written: nat)
    requires done < len && Doubling(was, buf[..], dst, offset, done, len)
    modifies buf
    ensures done < written <= len && Doubling(was, buf[..], dst, offset, written, len)
  {
    ghost var before := buf[..];
    var n := Min(done, len - done);
    Store(buf, dst + done, buf[dst..dst + n]);
    written := done + n;
    DoublingStored(was, before, buf[..], dst, offset, done, n, dst + len);
  }

  lemma SeedPeriod(was: seq<byte>, now: seq<byte>, dst: nat, offset: nat, end: nat)
    requires Repeats(was, now, dst, offset, offset, end)
    ensures SamePeriod(now, dst, offset, offset)
  {
    var a, b := now[dst..dst + offset], now[dst - offset..dst];
    forall j | 0 <= j < offset
      ensures a[j] == b[j]
    {
      assert now[dst + j] == now[dst + j - offset];
    }
  }

  /** Overlapping match: seeds the first period, then doubles what is written. */
  method CopyWithinOverlapping(buf: array<byte>, start: nat, dst: nat, matchLen: nat, offset: nat)
    returns (end: nat)
    requires MIN_COPY_OFFSET <= offset && dst == start + offset && dst + matchLen <= buf.Length
    modifies buf
    ensures end == dst + matchLen && buf[..end] == Copy(old(buf[..dst]), offset, matchLen)
    ensures buf[end..] == old(buf[end..])
  {
    ghost var was := buf[..];
    var written := Min(offset, matchLen);
    RepeatChunk(buf, dst, offset, 0, written, was, dst + matchLen);
    if written < matchLen {
      SeedPeriod(was, buf[..], dst, offset, dst + matchLen);
    }
    while written < matchLen
      invariant Doubling(was, buf[..], dst, offset, written, matchLen)
    {
      written := DoubleCopied(buf, dst, offset, written, matchLen, was);
    }
    RepeatsIsCopy(was, buf[..], dst, offset, matchLen, dst + matchLen);
    end := dst + matchLen;
  }

  // ----- literal copies

  /** Copies exactly `len` bytes from `src[srcPos..]`. */
  method CopyFromSrc(src: seq<byte>, srcPos: nat, buf: array<byte>, dst: nat, len: nat) returns (end: nat)
    requires srcPos + len <= |src| && dst + len <= buf.Length
    modifies buf
    ensures end == dst + len && buf[..end] == old(buf[..dst]) + src[srcPos..srcPos + len]
    ensures buf[end..] == old(buf[end..])
  {
    Store(buf, dst, src[srcPos..srcPos + len]);
    end := dst + len;
    assert buf[..end] == buf[..][..end];
    assert buf[end..] == buf[..][end..];
  }

  method StoreLiterals(src: seq<byte>, srcPos: nat, buf: array<byte>, dst: nat)
    requires srcPos + LONG_CHUNK <= |src| && dst + LONG_CHUNK <= buf.Length
    modifies buf
    ensures forall i :: 0 <= i < buf.Length ==>
              buf[i] == if dst <= i < dst + LONG_CHUNK then src[srcPos + (i - dst)] else old(buf[i])
  {
    Store(buf, dst, src[srcPos..srcPos + LONG_CHUNK]);
  }

  /** Copies `len` literals in chunks of `LONG_CHUNK` bytes. */
  method CopyLiterals32(src: seq<byte>, srcPos: nat, buf: array<byte>, dst: nat, len: nat)
    requires srcPos + len + LONG_CHUNK <= |src| && dst + len + LONG_CHUNK <= buf.Length
    modifies buf
    ensures buf[..dst + len] == old(buf[..dst]) + src[srcPos..srcPos + len]
    ensures buf[dst + len + LONG_CHUNK..] == old(buf[dst + len + LONG_CHUNK..])
  {
    ghost var was := buf[..];
    var n := (len + LONG_CHUNK - 1) / LONG_CHUNK * LONG_CHUNK;
    var done := 0;
    while done < n
      invariant 0 <= done <= n && done % LONG_CHUNK == 0
      invariant forall i :: 0 <= i < dst || dst + n <= i < buf.Length ==> buf[i] == was[i]
      invariant forall i :: dst <= i < dst + done ==> buf[i] == src[srcPos + (i - dst)]
    {
      StoreLiterals(src, srcPos + done, buf, dst + done);
      done := done + LONG_CHUNK;
    }
  }

  method WildCopyLiterals(src: seq<byte>, srcPos: nat, buf: array<byte>, dst: nat, len: nat) returns (end: nat)
    requires srcPos + len + LONG_CHUNK <= |src| && dst + len + LONG_CHUNK <= buf.Length
    modifies buf
    ensures end == dst + len && buf[..end] == old(buf[..dst]) + src[srcPos..srcPos + len]
    ensures buf[dst + len + LONG_CHUNK..] == old(buf[dst + len + LONG_CHUNK..])
  {
    CopyLiterals32(src, srcPos, buf, dst, len);
    end := dst + len;
  }
}
