/**
  The reference decoder: byte by byte, with every error the block decoder reports.
  It decodes onto one window `w`, whose first `d` bytes are the external dictionary and whose
  other bytes are the output buffer up to the write position.  `cap` is the buffer's capacity.

  `DecodeMeaning` says what it computes: the block's meaning, exactly when the bytes
  parse, every match stays inside the window, and the result fits in the buffer.
 */
module ReferenceDecoder {
  import opened Core
  import opened BlockFormat

  datatype Outcome =
    | Done(w: seq<byte>)
    | Failed(w: seq<byte>, error: DecompressError)

  datatype Step =
    | Stop(outcome: Outcome)
    | Next(w: seq<byte>, next: nat)

  /** `n` plus the extension bytes at `p`.  Reading stops early once the sum exceeds `max`. */
  function ReadBounded(b: seq<byte>, p: nat, n: nat, max: nat): (r: Option<Length>)
    ensures r.Some? ==> p < r.value.next <= |b| && n <= r.value.n <= Max(n, max) + 255
    decreases |b| - p
  {
    if p >= |b| then None
    else if b[p] != 255 || n + b[p] > max then Some(Length(n + b[p], p + 1))
    else ReadBounded(b, p + 1, n + b[p], max)
  }

  function BoundedLength(b: seq<byte>, p: nat, nibble: nat, max: nat): (r: Option<Length>)
    requires p <= |b|
    ensures r.Some? ==> p <= r.value.next <= |b|
  {
    if nibble != 15 then Some(Length(nibble, p))
    else
      match ReadBounded(b, p, 0, max)
      case None => None
      case Some(r) => Some(Length(15 + r.n, r.next))
  }

  function Fail(w: seq<byte>, error: DecompressError): Step {
    Stop(Failed(w, error))
  }

  /** The literals of the sequence at `p`: either the block stops there, or `Next` holds the
      window with the literals and the position behind them. */
  function DecodeLiterals(b: seq<byte>, p: nat, d: nat, w: seq<byte>, cap: nat): (s: Step)
    requires d <= |w| <= d + cap && p < |b|
    ensures s.Next? ==> p < s.next < |b| && w <= s.w && |s.w| <= d + cap
    ensures s.Stop? ==> w <= s.outcome.w && |s.outcome.w| <= d + cap
  {
    match BoundedLength(b, p + 1, b[p] / 16, cap)
    case None => Fail(w, ExpectedAnotherByte)
    case Some(ll) =>
      var q := ll.next + ll.n;
      if ll.n != 0 && q > |b| then Fail(w, LiteralOutOfBounds)
      else if ll.n != 0 && |w| - d + ll.n > cap then Fail(w, OutputTooSmall(|w| - d + ll.n, cap))
      else
        var w1 := w + b[ll.next..q];
        if q >= |b| then Stop(Done(w1)) else Next(w1, q)
  }

  /** The match at `q`, with `nibble` its length nibble. */
  function DecodeMatch(b: seq<byte>, q: nat, nibble: nat, d: nat, w: seq<byte>, cap: nat): (s: Step)
    requires d <= |w| <= d + cap
    ensures s.Next? ==> q < s.next <= |b| && w <= s.w && |s.w| <= d + cap
    ensures s.Stop? ==> s.outcome.w == w
  {
    if q + 2 > |b| then Fail(w, ExpectedAnotherByte)
    else if OffsetAt(b, q) == 0 then Fail(w, OffsetZero)
    else
      match BoundedLength(b, q + 2, nibble, cap)
      case None => Fail(w, ExpectedAnotherByte)
      case Some(ml) =>
        var len := MINMATCH + ml.n;
        if |w| - d + len > cap then Fail(w, OutputTooSmall(|w| - d + len, cap))
        else if OffsetAt(b, q) > |w| then Fail(w, OffsetOutOfBounds)
        else Next(Copy(w, OffsetAt(b, q), len), ml.next)
  }

  function DecodeToken(b: seq<byte>, p: nat, d: nat, w: seq<byte>, cap: nat): (s: Step)
    requires d <= |w| <= d + cap
    ensures s.Next? ==> p < s.next <= |b| && w <= s.w && |s.w| <= d + cap
    ensures s.Stop? ==> w <= s.outcome.w && |s.outcome.w| <= d + cap
  {
    if p >= |b| then Fail(w, ExpectedAnotherByte) else
    match DecodeLiterals(b, p, d, w, cap)
    case Stop(outcome) => Stop(outcome)
    case Next(w1, q) => DecodeMatch(b, q, b[p] % 16, d, w1, cap)
  }

  function Decode(b: seq<byte>, p: nat, d: nat, w: seq<byte>, cap: nat): (o: Outcome)
    requires d <= |w| <= d + cap
    ensures w <= o.w && |o.w| <= d + cap
    decreases |b| - p
  {
    match DecodeToken(b, p, d, w, cap)
    case Stop(outcome) => outcome
    case Next(w1, q) => Decode(b, q, d, w1, cap)
  }

  // ----- what the bounded reader reads

  /** Bounded reading yields the true value exactly when that is at most `max`.  Otherwise it
      fails, or yields something above `max` that the true value, if any, is not below. */
  lemma {:induction false} BoundedReading(b: seq<byte>, p: nat, n: nat, max: nat)
    ensures var r, s := ReadBounded(b, p, n, max), ReadExtension(b, p);
            && (if s.Some? && n + s.value.n <= max
                then r == Some(Length(n + s.value.n, s.value.next))
                else r.Some? ==> r.value.n > max)
            && (s.Some? ==> r.Some? && r.value.n <= n + s.value.n)
    decreases |b| - p
  {
    if p < |b| && b[p] == 255 && n + 255 <= max {
      BoundedReading(b, p + 1, n + 255, max);
    }
  }

  lemma BoundedLengths(b: seq<byte>, p: nat, nibble: nat, max: nat)
    requires p <= |b|
    ensures var r, s := BoundedLength(b, p, nibble, max), ReadLength(b, p, nibble);
            && (nibble != 15 ==> r == s)
            && (nibble == 15 ==>
                  if s.Some? && s.value.n <= 15 + max then r == s
                  else r.Some? ==> r.value.n > 15 + max)
            && (s.Some? ==> r.Some? && r.value.n <= s.value.n)
  {
    if nibble == 15 {
      BoundedReading(b, p, 0, max);
    }
  }

  // ----- what the reference decoder computes

  lemma LiteralsMeaning(b: seq<byte>, p: nat, d: nat, w: seq<byte>, cap: nat)
    requires d <= |w| <= d + cap && p < |b|
    ensures var s, r := DecodeLiterals(b, p, d, w, cap), ReadRun(b, p);
            if r.Some? && |w| - d + r.value.n <= cap then
              var q := r.value.next + r.value.n;
              var w1 := w + b[r.value.next..q];
              s == if q == |b| then Stop(Done(w1)) else Next(w1, q)
            else s.Stop? && s.outcome.Failed?
  {
    BoundedLengths(b, p + 1, b[p] / 16, cap);
  }

  lemma MatchMeaning(b: seq<byte>, q: nat, nibble: nat, d: nat, w: seq<byte>, cap: nat)
    requires d <= |w| <= d + cap
    ensures var s, m := DecodeMatch(b, q, nibble, d, w, cap), ReadMatch(b, q, nibble);
            if m.Some? && m.value.offset <= |w| && |w| - d + m.value.len <= cap
            then s == Next(Copy(w, m.value.offset, m.value.len), m.value.next)
            else s.Stop? && s.outcome.Failed?
  {
    if q + 2 <= |b| {
      BoundedLengths(b, q + 2, nibble, cap);
    }
  }

  /** One token: the reference decoder takes the parsed sequence whenever it fits. */
  ghost predicate Agrees(s: Step, t: Token, d: nat, w: seq<byte>, cap: nat) {
    match t
    case Malformed => s.Stop? && s.outcome.Failed?
    case Final(lits) =>
      if |w| - d + |lits| <= cap then s == Stop(Done(w + lits))
      else s.Stop? && s.outcome.Failed?
    case Full(lits, offset, len, next) =>
      if |w| - d + |lits| + len <= cap && 1 <= offset <= |w| + |lits|
      then s == Next(Copy(w + lits, offset, len), next)
      else s.Stop? && s.outcome.Failed?
  }

  lemma TokenMeaning(b: seq<byte>, p: nat, d: nat, w: seq<byte>, cap: nat)
    requires d <= |w| <= d + cap
    ensures Agrees(DecodeToken(b, p, d, w, cap), ParseToken(b, p), d, w, cap)
  {
    if p < |b| {
      LiteralsMeaning(b, p, d, w, cap);
      var s := DecodeLiterals(b, p, d, w, cap);
      if s.Next? {
        MatchMeaning(b, s.next, b[p] % 16, d, s.w, cap);
      }
    }
  }

  /** The decoder succeeds exactly when the bytes parse to a block that runs on the window
      and fits in the buffer, and then it has computed that block's meaning. */
  lemma {:induction false} DecodeMeaning(b: seq<byte>, p: nat, d: nat, w: seq<byte>, cap: nat)
    requires d <= |w| <= d + cap
    ensures var block, o := Parse(b, p), Decode(b, p, d, w, cap);
            if block.Some? && Run(block.value, w).Some? && |Run(block.value, w).value| <= d + cap
            then o == Done(Run(block.value, w).value)
            else o.Failed?
    decreases |b| - p
  {
    TokenMeaning(b, p, d, w, cap);
    var t := ParseToken(b, p);
    if t.Full? {
      var s := DecodeToken(b, p, d, w, cap);
      if s.Next? {
        DecodeMeaning(b, t.next, d, s.w, cap);
      }
    }
  }

  // ----- consequences

  /** Capacity independence: what decodes at one capacity decodes to the same bytes at every
      capacity that holds the result, and at no smaller one. */
  lemma CapacityIndependence(b: seq<byte>, d: nat, w: seq<byte>, cap: nat, cap': nat)
    requires d <= |w| <= d + cap && |w| <= d + cap'
    requires Decode(b, 0, d, w, cap).Done?
    ensures var r := Decode(b, 0, d, w, cap).w;
            if |r| <= d + cap' then Decode(b, 0, d, w, cap') == Done(r)
            else Decode(b, 0, d, w, cap').Failed?
  {
    DecodeMeaning(b, 0, d, w, cap);
    DecodeMeaning(b, 0, d, w, cap');
  }

  /** An attempt within a smaller limit, repeated with the full limit when it fails, is one
      attempt with the full limit. */
  lemma LimitedThenFull(b: seq<byte>, d: nat, w: seq<byte>, limit: nat, full: nat)
    requires d <= |w| <= d + limit && limit <= full
    ensures Decode(b, 0, d, w, limit).Done? ==> Decode(b, 0, d, w, full) == Decode(b, 0, d, w, limit)
  {
    DecodeMeaning(b, 0, d, w, limit);
    DecodeMeaning(b, 0, d, w, full);
  }

  /** Round trip: the printed form of a block that decodes to `v + x` on a window `v`
      decodes to `w + x` on every window that covers `v`, at every capacity that holds it. */
  lemma DecodePrinted(block: Block, v: seq<byte>, x: seq<byte>, d: nat, w: seq<byte>, cap: nat)
    requires WellFormed(block) && Run(block, v) == Some(v + x)
    requires Covers(w, v)
    requires d <= |w| && |w| + |x| <= d + cap
    ensures Decode(Print(block), 0, d, w, cap) == Done(w + x)
  {
    PrintParse(block);
    RunCovered(block, w, v);
    assert (v + x)[|v|..] == x;
    DecodeMeaning(Print(block), 0, d, w, cap);
  }
}
