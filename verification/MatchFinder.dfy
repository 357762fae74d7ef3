/**
  What both compress loops share: a match found at `cur` is stretched backwards over bytes not
  yet emitted and forwards as far as the input agrees with its source.
 */
module MatchFinder {
  import opened Core
  import opened BlockFormat

  /** A candidate that agrees with four input bytes, in the dictionary or earlier in the input. */
  datatype Hit = Hit(offset: nat, candidate: nat, inDict: bool)

  function Source(dict: seq<byte>, input: seq<byte>, h: Hit): seq<byte> {
    if h.inDict then dict else input
  }

  /** `n` bytes of `a` from `i` on equal those of `b` from `j` on. */
  predicate Same(a: seq<byte>, i: nat, b: seq<byte>, j: nat, n: nat) {
    i + n <= |a| && j + n <= |b| && a[i..i + n] == b[j..j + n]
  }

  lemma SameJoin(a: seq<byte>, i: nat, b: seq<byte>, j: nat, m: nat, n: nat)
    requires Same(a, i, b, j, m) && Same(a, i + m, b, j + m, n)
    ensures Same(a, i, b, j, m + n)
  {
    assert a[i..i + m + n] == a[i..i + m] + a[i + m..i + m + n];
    assert b[j..j + m + n] == b[j..j + m] + b[j + m..j + m + n];
  }

  lemma SamePart(a: seq<byte>, i: nat, b: seq<byte>, j: nat, n: nat, from: nat, m: nat)
    requires Same(a, i, b, j, n) && from + m <= n
    ensures Same(a, i + from, b, j + from, m)
  {
    SliceOfSlice(a, i, n, from, m);
    SliceOfSlice(b, j, n, from, m);
  }

  lemma SliceOfSlice(a: seq<byte>, i: nat, n: nat, from: nat, m: nat)
    requires i + n <= |a| && from + m <= n
    ensures a[i..i + n][from..from + m] == a[i + from..i + from + m]
  {
    var x, y := a[i..i + n][from..from + m], a[i + from..i + from + m];
    assert forall k :: 0 <= k < m ==> x[k] == y[k];
  }

  /** The offset is encodable and leads from `cur` to the candidate through the dictionary and
      the input as one string. */
  ghost predicate Placed(dict: seq<byte>, cur: nat, h: Hit) {
    && 1 <= h.offset <= MAX_DISTANCE
    && (h.inDict ==> h.candidate + h.offset == |dict| + cur)
    && (!h.inDict ==> h.candidate + h.offset == cur)
  }

  /** The hit is real: it is placed, and four bytes agree. */
  ghost predicate GoodHit(dict: seq<byte>, input: seq<byte>, cur: nat, h: Hit) {
    && Placed(dict, cur, h)
    && h.candidate + 4 <= |Source(dict, input, h)| && cur + 4 <= |input|
    && Same(input, cur, Source(dict, input, h), h.candidate, 4)
  }

  // ----- stretching backwards and forwards

  /** How many bytes in front of `cur` and `candidate` agree, down to `start` and to 0. */
  function Backtrack(input: seq<byte>, cur: nat, start: nat, source: seq<byte>, candidate: nat): (n: nat)
    requires start <= cur <= |input| && candidate <= |source|
    ensures n <= cur - start && n <= candidate
  {
    if candidate > 0 && cur > start && input[cur - 1] == source[candidate - 1]
    then 1 + Backtrack(input, cur - 1, start, source, candidate - 1)
    else 0
  }

  /** The length of the longest common prefix of `a[i..end]` and `b[j..]`. */
  function CommonPrefix(a: seq<byte>, i: nat, end: nat, b: seq<byte>, j: nat): (n: nat)
    requires i <= end <= |a| && j <= |b|
    ensures n <= end - i && n <= |b| - j
    decreases end - i
  {
    if i < end && j < |b| && a[i] == b[j] then 1 + CommonPrefix(a, i + 1, end, b, j + 1) else 0
  }

  lemma {:induction false} BacktrackAgrees(input: seq<byte>, cur: nat, start: nat, source: seq<byte>, candidate: nat)
    requires start <= cur <= |input| && candidate <= |source|
    ensures var n := Backtrack(input, cur, start, source, candidate);
            Same(input, cur - n, source, candidate - n, n)
    decreases cur
  {
    var n := Backtrack(input, cur, start, source, candidate);
    if n != 0 {
      BacktrackAgrees(input, cur - 1, start, source, candidate - 1);
      assert cur - n == (cur - 1) - (n - 1) && candidate - n == (candidate - 1) - (n - 1);
      assert input[cur - 1..cur] == [input[cur - 1]] && source[candidate - 1..candidate] == [source[candidate - 1]];
      SameJoin(input, cur - n, source, candidate - n, n - 1, 1);
    }
  }

  /** Backtracking stops only at the bytes that are already emitted, at the front of the source, or where
      the bytes differ. */
  lemma {:induction false} BacktrackGoesFar(input: seq<byte>, cur: nat, start: nat, source: seq<byte>, candidate: nat)
    requires start <= cur <= |input| && candidate <= |source|
    ensures var n := Backtrack(input, cur, start, source, candidate);
            cur - n == start || candidate - n == 0 || input[cur - n - 1] != source[candidate - n - 1]
    decreases cur
  {
    if candidate > 0 && cur > start && input[cur - 1] == source[candidate - 1] {
      BacktrackGoesFar(input, cur - 1, start, source, candidate - 1);
    }
  }

  /** The common prefix agrees, and it is the longest one. */
  lemma {:induction false} CommonPrefixIs(a: seq<byte>, i: nat, end: nat, b: seq<byte>, j: nat)
    requires i <= end <= |a| && j <= |b|
    ensures var n := CommonPrefix(a, i, end, b, j);
            && Same(a, i, b, j, n)
            && (i + n == end || j + n == |b| || a[i + n] != b[j + n])
    decreases end - i
  {
    var n := CommonPrefix(a, i, end, b, j);
    if n != 0 {
      CommonPrefixIs(a, i + 1, end, b, j + 1);
      SameJoin(a, i, b, j, 1, n - 1);
    }
  }

  /** Nothing shorter than an agreeing stretch is the common prefix. */
  lemma {:induction false} CommonPrefixAtLeast(a: seq<byte>, i: nat, end: nat, b: seq<byte>, j: nat, m: nat)
    requires i + m <= end <= |a| && Same(a, i, b, j, m)
    ensures CommonPrefix(a, i, end, b, j) >= m
    decreases m
  {
    if m != 0 {
      assert a[i] == a[i..i + m][0] && b[j] == b[j..j + m][0];
      SamePart(a, i, b, j, m, 1, m - 1);
      CommonPrefixAtLeast(a, i + 1, end, b, j + 1, m - 1);
    }
  }

  /** The common prefix goes on behind any agreeing stretch. */
  lemma {:induction false} CommonPrefixBehind(a: seq<byte>, i: nat, end: nat, b: seq<byte>, j: nat, m: nat)
    requires i + m <= end <= |a| && Same(a, i, b, j, m)
    ensures CommonPrefix(a, i, end, b, j) == m + CommonPrefix(a, i + m, end, b, j + m)
    decreases m
  {
    if m != 0 {
      assert a[i] == a[i..i + m][0] && b[j] == b[j..j + m][0];
      SamePart(a, i, b, j, m, 1, m - 1);
      CommonPrefixBehind(a, i + 1, end, b, j + 1, m - 1);
    }
  }

  /** The common prefix of two windows of `m` bytes, when they differ, is that of the whole. */
  lemma {:induction false} CommonPrefixInWindow(a: seq<byte>, i: nat, end: nat, b: seq<byte>, j: nat,
                                                x: seq<byte>, y: seq<byte>, k: nat)
    requires k <= |x| == |y| && i + (|x| - k) <= end <= |a| && j + (|x| - k) <= |b|
    requires a[i..i + (|x| - k)] == x[k..] && b[j..j + (|x| - k)] == y[k..]
    ensures var n := CommonPrefix(x, k, |x|, y, k);
            n < |x| - k ==> CommonPrefix(a, i, end, b, j) == n
    decreases |x| - k
  {
    if k < |x| {
      assert a[i] == a[i..i + (|x| - k)][0] == x[k] && b[j] == b[j..j + (|x| - k)][0] == y[k];
      assert a[i + 1..i + 1 + (|x| - k - 1)] == a[i..i + (|x| - k)][1..] == x[k + 1..];
      assert b[j + 1..j + 1 + (|x| - k - 1)] == b[j..j + (|x| - k)][1..] == y[k + 1..];
      CommonPrefixInWindow(a, i + 1, end, b, j + 1, x, y, k + 1);
    }
  }

  // ----- the matched span

  datatype Span = Span(start: nat, end: nat)

  /** The span that starts `n` bytes in front of `cur` and goes on while the bytes agree, up to
      `END_OFFSET` bytes before the end of the input. */
  function Stretch(input: seq<byte>, cur: nat, source: seq<byte>, candidate: nat, n: nat): (s: Span)
    requires n <= cur && cur + MFLIMIT <= |input| && n <= candidate && candidate + 4 <= |source|
    ensures s.start == cur - n && s.start + MINMATCH <= s.end <= |input| - END_OFFSET
  {
    var start := cur - n;
    var len := CommonPrefix(input, start + MINMATCH, |input| - END_OFFSET, source, candidate - n + MINMATCH);
    Span(start, start + MINMATCH + len)
  }

  /** The input covered by the match at `cur`, back to `literalStart` at most. */
  function MatchSpan(dict: seq<byte>, input: seq<byte>, cur: nat, literalStart: nat, h: Hit): (s: Span)
    requires literalStart <= cur && cur + MFLIMIT <= |input| && h.candidate + 4 <= |Source(dict, input, h)|
    ensures literalStart <= s.start <= cur && s.start + MINMATCH <= s.end <= |input| - END_OFFSET
  {
    var source := Source(dict, input, h);
    Stretch(input, cur, source, h.candidate, Backtrack(input, cur, literalStart, source, h.candidate))
  }

  /** The span agrees with its source, and reaches at least to the end of the four bytes that
      were found: backtracking never costs ground. */
  ghost predicate GoodSpan(input: seq<byte>, cur: nat, source: seq<byte>, candidate: nat, s: Span) {
    && s.start <= cur && cur + 4 <= s.end <= |input| && cur - s.start <= candidate
    && Same(input, s.start, source, candidate - (cur - s.start), s.end - s.start)
  }

  lemma StretchIsGood(input: seq<byte>, cur: nat, source: seq<byte>, candidate: nat, n: nat)
    requires n <= cur && cur + MFLIMIT <= |input| && n <= candidate && candidate + 4 <= |source|
    requires Same(input, cur - n, source, candidate - n, n) && Same(input, cur, source, candidate, 4)
    ensures GoodSpan(input, cur, source, candidate, Stretch(input, cur, source, candidate, n))
  {
    hide Same;
    var i, j, end := cur - n, candidate - n, |input| - END_OFFSET;
    SameJoin(input, i, source, j, n, 4);
    SamePart(input, i, source, j, n + 4, 0, 4);
    SamePart(input, i, source, j, n + 4, 4, n);
    var len := CommonPrefix(input, i + 4, end, source, j + 4);
    CommonPrefixIs(input, i + 4, end, source, j + 4);
    CommonPrefixAtLeast(input, i + 4, end, source, j + 4, n);
    SameJoin(input, i, source, j, 4, len);
    assert Stretch(input, cur, source, candidate, n) == Span(i, i + 4 + len);
  }

  /** The span of a real hit starts `offset` bytes behind `from`, agrees with its source there,
      and reaches past the four bytes that were found. */
  lemma SpanIsGood(dict: seq<byte>, input: seq<byte>, cur: nat, literalStart: nat, h: Hit) returns (from: nat)
    requires literalStart <= cur && cur + MFLIMIT <= |input| && GoodHit(dict, input, cur, h)
    ensures var s := MatchSpan(dict, input, cur, literalStart, h);
            && cur + 4 <= s.end
            && Same(input, s.start, Source(dict, input, h), from, s.end - s.start)
            && from + h.offset == if h.inDict then |dict| + s.start else s.start
  {
    hide Same;
    var source := Source(dict, input, h);
    var n := Backtrack(input, cur, literalStart, source, h.candidate);
    BacktrackAgrees(input, cur, literalStart, source, h.candidate);
    StretchIsGood(input, cur, source, h.candidate, n);
    from := h.candidate - n;
  }

  lemma HitInSource(dict: seq<byte>, input: seq<byte>, cur: nat, h: Hit)
    requires GoodHit(dict, input, cur, h)
    ensures h.candidate + 4 <= |Source(dict, input, h)|
  {
  }

  /** The span cannot be made longer, at either end. */
  lemma SpanIsLongest(dict: seq<byte>, input: seq<byte>, cur: nat, literalStart: nat, h: Hit)
    requires literalStart <= cur && cur + MFLIMIT <= |input| && GoodHit(dict, input, cur, h)
    ensures var s, source := MatchSpan(dict, input, cur, literalStart, h), Source(dict, input, h);
            var from, to := h.candidate - (cur - s.start), h.candidate + (s.end - cur);
            && 0 <= from && to <= |source|
            && (s.start == literalStart || from == 0 || input[s.start - 1] != source[from - 1])
            && (s.end == |input| - END_OFFSET || to == |source| || input[s.end] != source[to])
  {
    hide Same, CommonPrefix, Backtrack, GoodHit;
    var source := Source(dict, input, h);
    assert h.candidate + 4 <= |source| by {
      HitInSource(dict, input, cur, h);
    }
    var n := Backtrack(input, cur, literalStart, source, h.candidate);
    BacktrackGoesFar(input, cur, literalStart, source, h.candidate);
    CommonPrefixIs(input, cur - n + MINMATCH, |input| - END_OFFSET, source, h.candidate - n + MINMATCH);
  }

  /** A span of the input that agrees with the input `offset` bytes back is a match. */
  lemma InputSpanRuns(front: seq<byte>, input: seq<byte>, start: nat, end: nat, at: nat, offset: nat)
    requires 1 <= offset && at + offset == start <= end && Same(input, start, input, at, end - start)
    ensures Copy(front + input[..start], offset, end - start) == front + input[..end]
  {
    var r := input[..end];
    forall i | start <= i < end
      ensures r[i] == r[i - offset]
    {
      assert input[i] == input[start..end][i - start];
      assert input[i - offset] == input[at..end - offset][i - start];
    }
    CopyUnique(input[..start], offset, end - start, r);
    CopyBehind(front, input[..start], offset, end - start);
  }

  /** A span of the input that agrees with the dictionary is a match. */
  lemma DictSpanRuns(dict: seq<byte>, input: seq<byte>, start: nat, end: nat, at: nat, offset: nat)
    requires start < end && at + offset == |dict| + start && Same(input, start, dict, at, end - start)
    ensures Copy(dict + input[..start], offset, end - start) == dict + input[..end]
  {
    assert offset == |dict| - at + |input[..start]|;
    CopyFromFront(dict, input[..start], |dict| - at, end - start);
    assert input[..end] == input[..start] + input[start..end];
    assert dict + input[..end] == dict + input[..start] + dict[at..at + (end - start)];
  }

  /** The match reproduces its span: copying it behind the dictionary and the input in front of
      it yields the input up to its end. */
  lemma SpanRuns(dict: seq<byte>, input: seq<byte>, h: Hit, s: Span, from: nat)
    requires 1 <= h.offset && s.start < s.end
    requires Same(input, s.start, Source(dict, input, h), from, s.end - s.start)
    requires from + h.offset == if h.inDict then |dict| + s.start else s.start
    ensures h.offset <= |dict| + s.start
    ensures Copy(dict + input[..s.start], h.offset, s.end - s.start) == dict + input[..s.end]
  {
    hide Copy, Same;
    if h.inDict {
      DictSpanRuns(dict, input, s.start, s.end, from, h.offset);
    } else {
      InputSpanRuns(dict, input, s.start, s.end, from, h.offset);
    }
  }
}
