/**
  What the errors of the decoder say, in terms of the block's own fields: which field is cut off, zero
  or out of reach, and how much room would have been needed.
 */
module DecodeErrors {
  import opened Core
  import opened BlockFormat
  import opened ReferenceDecoder

  // ----- length fields under a bound

  /** The length field at `p` goes on to the end of the block, without having exceeded `max`. */
  predicate CutOff(b: seq<byte>, p: nat, nibble: nat, max: nat) {
    ReadLength(b, p, nibble).None? && p <= |b| && 255 * (|b| - p) <= max
  }

  /** What a reader with bound `max` takes a length field for: its value, or something not above it. */
  predicate Told(field: Option<Length>, told: nat, max: nat) {
    field.Some? ==> told <= field.value.n && (field.value.n <= 15 + max ==> told == field.value.n)
  }

  lemma {:induction false} ExtensionCut(b: seq<byte>, p: nat, n: nat, max: nat)
    requires p <= |b| && n <= max
    ensures ReadBounded(b, p, n, max).None? <==> ReadExtension(b, p).None? && n + 255 * (|b| - p) <= max
    ensures ReadExtension(b, p).Some? && ReadBounded(b, p, n, max).Some? ==>
              ReadBounded(b, p, n, max).value.next <= ReadExtension(b, p).value.next
    decreases |b| - p
  {
    if p < |b| && b[p] == 255 && n + 255 <= max {
      ExtensionCut(b, p + 1, n + 255, max);
    }
  }

  /** A bounded reader misses a byte exactly in fields that are cut off. */
  lemma LengthCut(b: seq<byte>, p: nat, nibble: nat, max: nat)
    requires p <= |b|
    ensures var r, s := BoundedLength(b, p, nibble, max), ReadLength(b, p, nibble);
            && (r.None? <==> CutOff(b, p, nibble, max))
            && (r.Some? ==> Told(s, r.value.n, max))
            && (r.Some? && s.Some? ==> r.value.next <= s.value.next)
            && (s.None? && r.Some? ==> max < 255 * (|b| - p) && 15 + max < r.value.n)
  {
    BoundedLengths(b, p, nibble, max);
    if nibble == 15 {
      ExtensionCut(b, p, 0, max);
    }
  }

  // ----- the decoder

  /** The literals at `p` are all there, and fit behind the `n` bytes in the buffer. */
  predicate RunFits(b: seq<byte>, p: nat, n: nat, cap: nat) {
    p < |b| && ReadRun(b, p).Some? && n + ReadRun(b, p).value.n <= cap
  }

  /** Where the match behind the literals at `p` begins. */
  function MatchAt(b: seq<byte>, p: nat): (q: nat)
    requires p < |b| && ReadRun(b, p).Some?
    ensures p < q <= |b|
  {
    ReadRun(b, p).value.next + ReadRun(b, p).value.n
  }

  /** Literals fit, a match follows them, and its offset is there. */
  predicate OffsetThere(b: seq<byte>, p: nat, n: nat, cap: nat) {
    RunFits(b, p, n, cap) && MatchAt(b, p) + 2 <= |b|
  }

  predicate OffsetGood(b: seq<byte>, p: nat, n: nat, cap: nat) {
    OffsetThere(b, p, n, cap) && OffsetAt(b, MatchAt(b, p)) != 0
  }

  /** `needed` bytes are needed for the literals at `p`, which are there as far as they are counted. */
  predicate LiteralsNeed(b: seq<byte>, p: nat, n: nat, cap: nat, needed: nat) {
    && p < |b| && n <= cap < needed && p + 1 + (needed - n) <= |b|
    && (ReadRun(b, p).Some? ==> cap < n + ReadRun(b, p).value.n)
    && var field := ReadLength(b, p + 1, b[p] / 16);
       && (field.None? ==> cap < 255 * (|b| - p - 1))
       && (field.Some? && field.value.n <= 15 + cap ==> ReadRun(b, p).Some?)
       && Told(field, needed - n, cap)
  }

  /** `needed` bytes are needed for the match behind the literals at `p`. */
  predicate MatchNeeds(b: seq<byte>, p: nat, n: nat, cap: nat, needed: nat) {
    && OffsetGood(b, p, n, cap)
    && var q, n1 := MatchAt(b, p), n + ReadRun(b, p).value.n;
       && cap < needed && n1 + MINMATCH <= needed
       && (ReadLength(b, q + 2, b[p] % 16).None? ==> cap < 255 * (|b| - q - 2))
       && Told(ReadLength(b, q + 2, b[p] % 16), needed - n1 - MINMATCH, cap)
  }

  /** Why decoding the token at `p` fails with `e`, when `n` bytes are in a buffer of `cap` and matches
      reach back `reach` bytes. */
  predicate Explains(e: DecompressError, b: seq<byte>, p: nat, n: nat, reach: nat, cap: nat) {
    match e
    case ExpectedAnotherByte =>
      || p >= |b| || CutOff(b, p + 1, b[p] / 16, cap)
      || (RunFits(b, p, n, cap) && MatchAt(b, p) < |b| < MatchAt(b, p) + 2)
      || (OffsetGood(b, p, n, cap) && CutOff(b, MatchAt(b, p) + 2, b[p] % 16, cap))
    case LiteralOutOfBounds =>
      && p < |b| && ReadRun(b, p).None?
      && (ReadLength(b, p + 1, b[p] / 16).None? ==> cap < 255 * (|b| - p - 1))
    case OutputTooSmall(needed, actual) =>
      actual == cap && (LiteralsNeed(b, p, n, cap, needed) || MatchNeeds(b, p, n, cap, needed))
    case OffsetZero =>
      OffsetThere(b, p, n, cap) && OffsetAt(b, MatchAt(b, p)) == 0
    case OffsetOutOfBounds =>
      var t := ParseToken(b, p);
      t.Full? && n + |t.lits| + t.len <= cap && reach + |t.lits| < t.offset
    case DecodedSizeMismatch(_, _) => false
  }

  /** The token at `p` explains the error, or one behind tokens that decode. */
  predicate Explained(e: DecompressError, b: seq<byte>, p: nat, n: nat, reach: nat, cap: nat)
    decreases |b| - p
  {
    || Explains(e, b, p, n, reach, cap)
    || match ParseToken(b, p)
       case Full(lits, offset, len, next) =>
         && offset <= reach + |lits| && n + |lits| + len <= cap
         && Explained(e, b, next, n + |lits| + len, reach + |lits| + len, cap)
       case _ => false
  }

  lemma LiteralErrors(b: seq<byte>, p: nat, d: nat, w: seq<byte>, cap: nat)
    requires d <= |w| <= d + cap && p < |b|
    ensures var s := DecodeLiterals(b, p, d, w, cap);
            s.Stop? && s.outcome.Failed? ==> Explains(s.outcome.error, b, p, |w| - d, |w|, cap)
  {
    LengthCut(b, p + 1, b[p] / 16, cap);
    BoundedLengths(b, p + 1, b[p] / 16, cap);
    LiteralsMeaning(b, p, d, w, cap);
  }

  lemma MatchErrors(b: seq<byte>, p: nat, d: nat, w: seq<byte>, cap: nat)
    requires d <= |w| <= d + cap && RunFits(b, p, |w| - d, cap) && MatchAt(b, p) < |b|
    ensures var w1 := w + b[ReadRun(b, p).value.next..MatchAt(b, p)];
            var s := DecodeMatch(b, MatchAt(b, p), b[p] % 16, d, w1, cap);
            s.Stop? ==> s.outcome.Failed? && Explains(s.outcome.error, b, p, |w| - d, |w|, cap)
  {
    var q := MatchAt(b, p);
    if q + 2 <= |b| {
      LengthCut(b, q + 2, b[p] % 16, cap);
      BoundedLengths(b, q + 2, b[p] % 16, cap);
    }
  }

  lemma TokenErrors(b: seq<byte>, p: nat, d: nat, w: seq<byte>, cap: nat)
    requires d <= |w| <= d + cap
    ensures var s := DecodeToken(b, p, d, w, cap);
            s.Stop? && s.outcome.Failed? ==> Explains(s.outcome.error, b, p, |w| - d, |w|, cap)
  {
    if p < |b| {
      LiteralErrors(b, p, d, w, cap);
      LiteralsMeaning(b, p, d, w, cap);
      var s := DecodeLiterals(b, p, d, w, cap);
      if s.Next? {
        MatchErrors(b, p, d, w, cap);
      }
    }
  }

  /** Every failure of the decoder is explained by the first token that does not decode. */
  lemma {:induction false} ErrorsExplained(b: seq<byte>, p: nat, d: nat, w: seq<byte>, cap: nat)
    requires d <= |w| <= d + cap
    ensures var o := Decode(b, p, d, w, cap);
            o.Failed? ==> Explained(o.error, b, p, |w| - d, |w|, cap)
    decreases |b| - p
  {
    hide Explains, DecodeToken;
    TokenErrors(b, p, d, w, cap);
    TokenMeaning(b, p, d, w, cap);
    var s := DecodeToken(b, p, d, w, cap);
    if s.Next? {
      ErrorsExplained(b, s.next, d, s.w, cap);
    }
  }

  // ----- a token has one explanation

  lemma {:induction false} ExtensionBound(b: seq<byte>, p: nat)
    requires p <= |b|
    ensures ReadExtension(b, p).Some? ==> ReadExtension(b, p).value.n <= 255 * (|b| - p)
    decreases |b| - p
  {
    if p < |b| {
      ExtensionBound(b, p + 1);
    }
  }

  /** A field in a block that is short for its buffer is told exactly. */
  lemma ToldExactly(b: seq<byte>, p: nat, nibble: nat, max: nat)
    requires p <= |b| && nibble <= 15 && 255 * |b| <= max
    ensures ReadLength(b, p, nibble).Some? ==> ReadLength(b, p, nibble).value.n <= 15 + max
    ensures CutOff(b, p, nibble, max) <==> ReadLength(b, p, nibble).None?
  {
    ExtensionBound(b, p);
  }

  /** With room for all that fields of the block can announce, a token that fails does so for one
      reason, and one that does not fail has none. */
  lemma OneExplanation(e: DecompressError, f: DecompressError, b: seq<byte>, p: nat, n: nat, reach: nat, cap: nat)
    requires n <= cap && 255 * |b| <= cap && Explains(e, b, p, n, reach, cap)
    ensures Explains(f, b, p, n, reach, cap) ==> e == f
    ensures var t := ParseToken(b, p);
            t.Full? && t.offset <= reach + |t.lits| ==> cap < n + |t.lits| + t.len
  {
    if p < |b| {
      ToldExactly(b, p + 1, b[p] / 16, cap);
      if RunFits(b, p, n, cap) && MatchAt(b, p) + 2 <= |b| {
        ToldExactly(b, MatchAt(b, p) + 2, b[p] % 16, cap);
      }
    }
  }

  lemma {:induction false} ExplainedOnce(e: DecompressError, f: DecompressError, b: seq<byte>, p: nat, n: nat,
                                         reach: nat, cap: nat)
    requires n <= cap && 255 * |b| <= cap && Explained(e, b, p, n, reach, cap) && Explained(f, b, p, n, reach, cap)
    ensures e == f
    decreases |b| - p
  {
    hide Explains, ParseToken;
    if Explains(e, b, p, n, reach, cap) {
      OneExplanation(e, f, b, p, n, reach, cap);
    } else if Explains(f, b, p, n, reach, cap) {
      OneExplanation(f, e, b, p, n, reach, cap);
    } else {
      var t := ParseToken(b, p);
      ExplainedOnce(e, f, b, t.next, n + |t.lits| + t.len, reach + |t.lits| + t.len, cap);
    }
  }

  /** So the decoder fails with an error exactly when the block explains it. */
  lemma FailsExactly(e: DecompressError, b: seq<byte>, d: nat, w: seq<byte>, cap: nat)
    requires d <= |w| <= d + cap && 255 * |b| <= cap && Decode(b, 0, d, w, cap).Failed?
    ensures Decode(b, 0, d, w, cap).error == e <==> Explained(e, b, 0, |w| - d, |w|, cap)
  {
    hide Decode, Explained;
    ErrorsExplained(b, 0, d, w, cap);
    if Explained(e, b, 0, |w| - d, |w|, cap) {
      ExplainedOnce(Decode(b, 0, d, w, cap).error, e, b, 0, |w| - d, |w|, cap);
    }
  }

  // ----- buffers that are too small

  /** A token that parses and stays in reach is short of room, if it fails at all. */
  lemma TokenShort(e: DecompressError, b: seq<byte>, p: nat, n: nat, reach: nat, cap: nat)
    requires n <= cap && Explains(e, b, p, n, reach, cap)
    ensures match ParseToken(b, p)
            case Malformed => true
            case Final(lits) => e.OutputTooSmall? && e.actual == cap < e.expected <= n + |lits|
            case Full(lits, offset, len, next) =>
              offset <= reach + |lits| ==> e.OutputTooSmall? && e.actual == cap < e.expected <= n + |lits| + len
  {
  }

  /** A block that parses and stays in reach can only be short of room, and needs no more than it
      decodes to. */
  lemma {:induction false} OnlyRoomMissing(e: DecompressError, b: seq<byte>, p: nat, n: nat, reach: nat, cap: nat)
    requires n <= cap && Parse(b, p).Some? && Reaches(Parse(b, p).value, reach) && Explained(e, b, p, n, reach, cap)
    ensures e.OutputTooSmall? && e.actual == cap < e.expected <= n + Size(Parse(b, p).value)
    decreases |b| - p
  {
    hide Explains, ParseToken;
    var t := ParseToken(b, p);
    if Explains(e, b, p, n, reach, cap) {
      TokenShort(e, b, p, n, reach, cap);
    } else {
      OnlyRoomMissing(e, b, t.next, n + |t.lits| + t.len, reach + |t.lits| + t.len, cap);
    }
  }

  /** The fields of the error of a full buffer: its capacity, and more than that. */
  lemma {:induction false} RoomFields(e: DecompressError, b: seq<byte>, p: nat, n: nat, reach: nat, cap: nat)
    requires Explained(e, b, p, n, reach, cap)
    ensures e.OutputTooSmall? ==> e.actual == cap < e.expected
    ensures !e.DecodedSizeMismatch?
    decreases |b| - p
  {
    var t := ParseToken(b, p);
    if t.Full? && !Explains(e, b, p, n, reach, cap) {
      RoomFields(e, b, t.next, n + |t.lits| + t.len, reach + |t.lits| + t.len, cap);
    }
  }

  /** A full buffer is reported with its capacity and a larger size. */
  lemma TooSmallFields(b: seq<byte>, d: nat, w: seq<byte>, cap: nat)
    requires d <= |w| <= d + cap
    ensures var o := Decode(b, 0, d, w, cap);
            o.Failed? ==>
              && (o.error.OutputTooSmall? ==> o.error.actual == cap < o.error.expected)
              && !o.error.DecodedSizeMismatch?
  {
    hide Decode, Explained;
    ErrorsExplained(b, 0, d, w, cap);
    var o := Decode(b, 0, d, w, cap);
    if o.Failed? {
      RoomFields(o.error, b, 0, |w| - d, |w|, cap);
    }
  }

  /** A block that decodes in one buffer fails in another only for want of room; what it is said to
      need is more than there is, and not more than it decodes to. */
  lemma TooSmallBuffer(b: seq<byte>, d: nat, w: seq<byte>, cap: nat, cap': nat)
    requires d <= |w| <= d + cap && |w| <= d + cap' && Decode(b, 0, d, w, cap').Done?
    ensures var o, whole := Decode(b, 0, d, w, cap), Decode(b, 0, d, w, cap').w;
            if |whole| <= d + cap then o == Done(whole)
            else
              && o.Failed? && o.error.OutputTooSmall?
              && o.error.actual == cap < o.error.expected <= |whole| - d
  {
    hide Decode, Explained;
    DecodeMeaning(b, 0, d, w, cap);
    DecodeMeaning(b, 0, d, w, cap');
    RunLength(Parse(b, 0).value, w);
    ErrorsExplained(b, 0, d, w, cap);
    var o := Decode(b, 0, d, w, cap);
    if o.Failed? {
      OnlyRoomMissing(o.error, b, 0, |w| - d, |w|, cap);
    }
  }
}
