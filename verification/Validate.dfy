/** The no-output block validator, and its agreement with the decoder. */
module Validate {
  import opened Core
  import opened BlockFormat
  import opened ReferenceDecoder
  import opened Readers
  import opened DecodeErrors

  function ExtensionLimit(decodedPos: nat, baseLength: nat, expected: nat): nat {
    SaturatingSub(SaturatingSub(expected, decodedPos), baseLength)
  }

  function AdvanceDecoded(decodedPos: nat, length: nat, expected: nat): Result<nat, DecompressError> {
    if decodedPos + length > expected
    then Err(DecodedSizeMismatch(expected, decodedPos + length))
    else Ok(decodedPos + length)
  }

  /** The validator's verdict on the tokens from `p` on, with `pos` bytes decoded so far. */
  datatype Verdict =
    | Rejected(error: DecompressError)
    | Ended(pos: nat)
    | Continues(pos: nat, next: nat)

  function CheckLiterals(b: seq<byte>, p: nat, pos: nat, expected: nat): (v: Verdict)
    requires p < |b| && pos <= expected
    ensures v.Continues? ==> p < v.next < |b| && v.pos <= expected
    ensures v.Ended? ==> v.pos <= expected
  {
    match BoundedLength(b, p + 1, b[p] / 16, ExtensionLimit(pos, 15, expected))
    case None => Rejected(ExpectedAnotherByte)
    case Some(ll) =>
      if pos + ll.n > expected then Rejected(DecodedSizeMismatch(expected, pos + ll.n))
      else if ll.next + ll.n > |b| then Rejected(LiteralOutOfBounds)
      else if ll.next + ll.n == |b| then Ended(pos + ll.n)
      else Continues(pos + ll.n, ll.next + ll.n)
  }

  function CheckMatch(b: seq<byte>, q: nat, nibble: nat, pos: nat, expected: nat, dictLen: nat): (v: Verdict)
    requires pos <= expected
    ensures v.Continues? ==> q < v.next <= |b| && v.pos <= expected
    ensures !v.Ended?
  {
    if q + 2 > |b| then Rejected(ExpectedAnotherByte)
    else if OffsetAt(b, q) == 0 then Rejected(OffsetZero)
    else
      match BoundedLength(b, q + 2, nibble, ExtensionLimit(pos, MINMATCH + 15, expected))
      case None => Rejected(ExpectedAnotherByte)
      case Some(ml) =>
        var pos' := pos + MINMATCH + ml.n;
        if pos' > expected then Rejected(DecodedSizeMismatch(expected, pos'))
        else if OffsetAt(b, q) > pos + dictLen then Rejected(OffsetOutOfBounds)
        else Continues(pos', ml.next)
  }

  function CheckToken(b: seq<byte>, p: nat, pos: nat, expected: nat, dictLen: nat): (v: Verdict)
    requires pos <= expected
    ensures v.Continues? ==> p < v.next <= |b| && v.pos <= expected
  {
    if p >= |b| then Rejected(ExpectedAnotherByte)
    else
      var v := CheckLiterals(b, p, pos, expected);
      if v.Continues? then CheckMatch(b, v.next, b[p] % 16, v.pos, expected, dictLen) else v
  }

  function Check(b: seq<byte>, p: nat, pos: nat, expected: nat, dictLen: nat): Result<nat, DecompressError>
    requires pos <= expected
    decreases |b| - p
  {
    match CheckToken(b, p, pos, expected, dictLen)
    case Rejected(error) => Err(error)
    case Ended(pos1) =>
      if pos1 != expected then Err(DecodedSizeMismatch(expected, pos1)) else Ok(pos1)
    case Continues(pos1, next) => Check(b, next, pos1, expected, dictLen)
  }

  method ValidateLiterals(input: seq<byte>, p: nat, decodedPos: nat, expected: nat)
    returns (v: Verdict)
    requires p < |input| && decodedPos <= expected <= ISIZE_MAX
    ensures v == CheckLiterals(input, p, decodedPos, expected)
  {
    var limit := ExtensionLimit(decodedPos, 15, expected);
    var literalLength, pos := ReadLiteralLength(input, p + 1, input[p], limit);
    if literalLength.Err? {
      return Rejected(literalLength.error);
    }
    var advanced := AdvanceDecoded(decodedPos, literalLength.value, expected);
    if advanced.Err? {
      return Rejected(advanced.error);
    }
    if pos + literalLength.value > |input| {
      return Rejected(LiteralOutOfBounds);
    }
    pos := pos + literalLength.value;
    v := if pos == |input| then Ended(advanced.value) else Continues(advanced.value, pos);
  }

  method ValidateMatch(input: seq<byte>, q: nat, token: byte, decodedPos: nat, expected: nat, dictLen: nat)
    returns (v: Verdict)
    requires q <= |input| && decodedPos <= expected <= ISIZE_MAX
    ensures v == CheckMatch(input, q, token % 16, decodedPos, expected, dictLen)
  {
    var offset, pos := ReadOffset(input, q);
    if offset.Err? {
      return Rejected(offset.error);
    }
    var limit := ExtensionLimit(decodedPos, MINMATCH + 15, expected);
    var matchLength, next := ReadMatchLength(input, pos, token, limit);
    if matchLength.Err? {
      return Rejected(matchLength.error);
    }
    var advanced := AdvanceDecoded(decodedPos, matchLength.value, expected);
    if advanced.Err? {
      return Rejected(advanced.error);
    }
    if offset.value > decodedPos && offset.value - decodedPos > dictLen {
      return Rejected(OffsetOutOfBounds);
    }
    v := Continues(advanced.value, next);
  }

  /** One pass over the tokens that writes nothing. */
  method ValidateBlock(input: seq<byte>, expectedDecodedLen: nat, dictLen: nat)
    returns (r: Result<nat, DecompressError>)
    requires expectedDecodedLen <= ISIZE_MAX
    ensures r == Check(input, 0, 0, expectedDecodedLen, dictLen)
    ensures r.Err? ==> Objected(r.error, input, 0, 0, expectedDecodedLen, dictLen)
  {
    hide Objected;
    ObjectionsExplained(input, 0, 0, expectedDecodedLen, dictLen);
    var inputPos: nat, decodedPos: nat := 0, 0;
    while true
      invariant inputPos <= |input| && decodedPos <= expectedDecodedLen
      invariant Check(input, 0, 0, expectedDecodedLen, dictLen)
             == Check(input, inputPos, decodedPos, expectedDecodedLen, dictLen)
      decreases |input| - inputPos
    {
      if inputPos >= |input| {
        return Err(ExpectedAnotherByte);
      }
      var token := input[inputPos];
      var v := ValidateLiterals(input, inputPos, decodedPos, expectedDecodedLen);
      if v.Rejected? {
        return Err(v.error);
      }
      decodedPos := v.pos;
      if v.Ended? {
        break;
      }
      v := ValidateMatch(input, v.next, token, decodedPos, expectedDecodedLen, dictLen);
      if v.Rejected? {
        return Err(v.error);
      }
      inputPos, decodedPos := v.next, v.pos;
    }
    if decodedPos != expectedDecodedLen {
      return Err(DecodedSizeMismatch(expectedDecodedLen, decodedPos));
    }
    r := Ok(decodedPos);
  }

  // ----- the validator against the block's meaning

  /** The error of a block that decodes to more than `expected` bytes: it reports a position
      beyond `expected` and not beyond `total`. */
  predicate TooLong(e: DecompressError, expected: nat, total: nat) {
    e.DecodedSizeMismatch? && e.expectedLen == expected < e.actualLen <= total
  }

  lemma LiteralsChecked(b: seq<byte>, p: nat, pos: nat, expected: nat)
    requires p < |b| && pos <= expected
    ensures var v, r := CheckLiterals(b, p, pos, expected), ReadRun(b, p);
            match r
            case None => v.Rejected?
            case Some(run) =>
              var q := run.next + run.n;
              if pos + run.n > expected then v.Rejected? && TooLong(v.error, expected, pos + run.n)
              else if q == |b| then v == Ended(pos + run.n)
              else v == Continues(pos + run.n, q)
  {
    BoundedLengths(b, p + 1, b[p] / 16, ExtensionLimit(pos, 15, expected));
  }

  lemma MatchChecked(b: seq<byte>, q: nat, nibble: nat, pos: nat, expected: nat, dictLen: nat)
    requires pos <= expected
    ensures var v, m := CheckMatch(b, q, nibble, pos, expected, dictLen), ReadMatch(b, q, nibble);
            match m
            case None => v.Rejected?
            case Some(mt) =>
              if pos + mt.len > expected then v.Rejected? && TooLong(v.error, expected, pos + mt.len)
              else if mt.offset > pos + dictLen then v.Rejected?
              else v == Continues(pos + mt.len, mt.next)
  {
    if q + 2 <= |b| {
      BoundedLengths(b, q + 2, nibble, ExtensionLimit(pos, MINMATCH + 15, expected));
    }
  }

  lemma TokenChecked(b: seq<byte>, p: nat, pos: nat, expected: nat, dictLen: nat)
    requires pos <= expected
    ensures var v := CheckToken(b, p, pos, expected, dictLen);
            match ParseToken(b, p)
            case Malformed => v.Rejected?
            case Final(lits) =>
              if pos + |lits| > expected then v.Rejected? && TooLong(v.error, expected, pos + |lits|)
              else v == Ended(pos + |lits|)
            case Full(lits, offset, len, next) =>
              var pos' := pos + |lits| + len;
              if pos' > expected then v.Rejected? && TooLong(v.error, expected, pos')
              else if offset > pos + |lits| + dictLen then v.Rejected?
              else v == Continues(pos', next)
  {
    if p < |b| {
      LiteralsChecked(b, p, pos, expected);
      var v := CheckLiterals(b, p, pos, expected);
      if v.Continues? {
        MatchChecked(b, v.next, b[p] % 16, v.pos, expected, dictLen);
      }
    }
  }

  /** The verdict on a block whose matches stay inside the history in front of them depends on
      its size alone: accepted at the expected size, a size mismatch at any other. */
  predicate SizeVerdict(r: Result<nat, DecompressError>, expected: nat, total: nat) {
    if total == expected then r == Ok(expected)
    else if total < expected then r == Err(DecodedSizeMismatch(expected, total))
    else r.Err? && TooLong(r.error, expected, total)
  }

  predicate Judges(r: Result<nat, DecompressError>, block: Option<Block>, pos: nat, expected: nat, dictLen: nat) {
    if block.Some? && Reaches(block.value, dictLen + pos)
    then SizeVerdict(r, expected, pos + Size(block.value))
    else r.Err?
  }

  lemma JudgesFull(r: Result<nat, DecompressError>, lits: seq<byte>, offset: nat, len: nat, rest: Block,
                   pos: nat, expected: nat, dictLen: nat)
    requires 1 <= offset <= dictLen + pos + |lits|
    requires Judges(r, Some(rest), pos + |lits| + len, expected, dictLen)
    ensures Judges(r, Some(More(lits, offset, len, rest)), pos, expected, dictLen)
  {
    assert dictLen + pos + |lits| + len == dictLen + (pos + |lits| + len);
  }

  lemma JudgesRejected(r: Result<nat, DecompressError>, lits: seq<byte>, offset: nat, len: nat, rest: Block,
                       pos: nat, expected: nat, dictLen: nat)
    requires r.Err?
    requires TooLong(r.error, expected, pos + |lits| + len) || offset > dictLen + pos + |lits|
    ensures Judges(r, Some(More(lits, offset, len, rest)), pos, expected, dictLen)
  {
  }

  /** The validator accepts exactly the bytes that parse to a block of the expected size whose
      matches stay inside the dictionary and the bytes before them. */
  lemma {:induction false} CheckMeaning(b: seq<byte>, p: nat, pos: nat, expected: nat, dictLen: nat)
    requires pos <= expected
    ensures Judges(Check(b, p, pos, expected, dictLen), Parse(b, p), pos, expected, dictLen)
    decreases |b| - p
  {
    hide CheckToken, ParseToken, TooLong;
    TokenChecked(b, p, pos, expected, dictLen);
    var v, r := CheckToken(b, p, pos, expected, dictLen), Check(b, p, pos, expected, dictLen);
    match ParseToken(b, p)
    case Malformed =>
    case Final(lits) =>
    case Full(lits, offset, len, next) =>
      if v.Continues? {
        CheckMeaning(b, next, v.pos, expected, dictLen);
      }
      if Parse(b, next).Some? {
        var rest := Parse(b, next).value;
        if v.Continues? {
          JudgesFull(r, lits, offset, len, rest, pos, expected, dictLen);
        } else {
          JudgesRejected(r, lits, offset, len, rest, pos, expected, dictLen);
        }
      }
  }

  /** The validator accepts a block and a length exactly when decoding the block into a buffer
      of that length succeeds and fills it, although the two read length extensions with
      different limits and check in different orders. */
  lemma ValidatorAgreesWithDecoder(b: seq<byte>, expected: nat, dict: seq<byte>)
    ensures Check(b, 0, 0, expected, |dict|).Ok?
        <==> var o := Decode(b, 0, |dict|, dict, expected); o.Done? && |o.w| == |dict| + expected
  {
    CheckMeaning(b, 0, 0, expected, |dict|);
    DecodeMeaning(b, 0, |dict|, dict, expected);
    if Parse(b, 0).Some? {
      RunLength(Parse(b, 0).value, dict);
    }
  }

  /** On a block that decodes at some capacity, the validator's only complaint is the size: it
      reports the decoded size itself when that is too small, and otherwise a position beyond
      the expected size that the block does reach. */
  lemma ValidatorReportsSize(b: seq<byte>, expected: nat, dict: seq<byte>, cap: nat, w: seq<byte>)
    requires Decode(b, 0, |dict|, dict, cap) == Done(w)
    ensures |dict| <= |w| && SizeVerdict(Check(b, 0, 0, expected, |dict|), expected, |w| - |dict|)
  {
    hide Decode, Parse, Check, Run, Reaches, Size, SizeVerdict;
    DecodeMeaning(b, 0, |dict|, dict, cap);
    var block := Parse(b, 0).value;
    RunLength(block, dict);
    assert |w| - |dict| == Size(block);
    CheckMeaning(b, 0, 0, expected, |dict|);
    assert Judges(Check(b, 0, 0, expected, |dict|), Some(block), 0, expected, |dict|);
  }

  // ----- what the validator objects to

  /** The size announced at `pos` by a field is wrong: `told` bytes lead beyond `expected`. */
  predicate TooMuch(b: seq<byte>, p: nat, nibble: nat, pos: nat, told: nat, limit: nat, expected: nat) {
    && p <= |b| && expected < pos + told
    && var field := ReadLength(b, p, nibble);
       Told(field, told, limit) && (field.None? ==> limit < 255 * (|b| - p))
  }

  /** What is wrong with the token at `p`, with `pos` bytes decoded in front of it. */
  predicate Objects(e: DecompressError, b: seq<byte>, p: nat, pos: nat, expected: nat, dictLen: nat) {
    match e
    case ExpectedAnotherByte =>
      || p >= |b| || CutOff(b, p + 1, b[p] / 16, Max(0, expected - pos - 15))
      || (RunFits(b, p, pos, expected) && MatchAt(b, p) < |b| < MatchAt(b, p) + 2)
      || (OffsetGood(b, p, pos, expected)
          && var q, pos1 := MatchAt(b, p), pos + ReadRun(b, p).value.n;
             CutOff(b, q + 2, b[p] % 16, Max(0, expected - pos1 - 19)))
    case LiteralOutOfBounds =>
      && p < |b| && ReadRun(b, p).None?
      && ReadLength(b, p + 1, b[p] / 16).Some? && pos + ReadLength(b, p + 1, b[p] / 16).value.n <= expected
    case OffsetZero =>
      OffsetThere(b, p, pos, expected) && OffsetAt(b, MatchAt(b, p)) == 0
    case OffsetOutOfBounds =>
      var t := ParseToken(b, p);
      t.Full? && pos + |t.lits| + t.len <= expected && dictLen + pos + |t.lits| < t.offset
    case DecodedSizeMismatch(wanted, actual) =>
      && wanted == expected && actual != expected && p < |b|
      && if actual < expected then ParseToken(b, p).Final? && actual == pos + |ParseToken(b, p).lits|
         else
           || (pos <= actual
               && TooMuch(b, p + 1, b[p] / 16, pos, actual - pos, Max(0, expected - pos - 15), expected))
           || (OffsetGood(b, p, pos, expected)
               && var q, pos1 := MatchAt(b, p), pos + ReadRun(b, p).value.n + MINMATCH;
                  && pos1 <= actual
                  && TooMuch(b, q + 2, b[p] % 16, pos1, actual - pos1, Max(0, expected - pos1 - 15), expected))
    case OutputTooSmall(_, _) => false
  }

  predicate Objected(e: DecompressError, b: seq<byte>, p: nat, pos: nat, expected: nat, dictLen: nat)
    decreases |b| - p
  {
    || Objects(e, b, p, pos, expected, dictLen)
    || match ParseToken(b, p)
       case Full(lits, offset, len, next) =>
         && offset <= dictLen + pos + |lits| && pos + |lits| + len <= expected
         && Objected(e, b, next, pos + |lits| + len, expected, dictLen)
       case _ => false
  }

  lemma LiteralsObjected(b: seq<byte>, p: nat, pos: nat, expected: nat, dictLen: nat)
    requires p < |b| && pos <= expected
    ensures var v := CheckLiterals(b, p, pos, expected);
            v.Rejected? ==> Objects(v.error, b, p, pos, expected, dictLen)
  {
    LengthCut(b, p + 1, b[p] / 16, ExtensionLimit(pos, 15, expected));
    BoundedLengths(b, p + 1, b[p] / 16, ExtensionLimit(pos, 15, expected));
  }

  lemma MatchObjected(b: seq<byte>, p: nat, pos: nat, expected: nat, dictLen: nat)
    requires pos <= expected && RunFits(b, p, pos, expected) && MatchAt(b, p) < |b|
    ensures var v := CheckMatch(b, MatchAt(b, p), b[p] % 16, pos + ReadRun(b, p).value.n, expected, dictLen);
            v.Rejected? ==> Objects(v.error, b, p, pos, expected, dictLen)
  {
    var q, pos1 := MatchAt(b, p), pos + ReadRun(b, p).value.n;
    if q + 2 <= |b| {
      LengthCut(b, q + 2, b[p] % 16, ExtensionLimit(pos1, MINMATCH + 15, expected));
      BoundedLengths(b, q + 2, b[p] % 16, ExtensionLimit(pos1, MINMATCH + 15, expected));
    }
  }

  lemma TokenObjected(b: seq<byte>, p: nat, pos: nat, expected: nat, dictLen: nat)
    requires pos <= expected
    ensures var v := CheckToken(b, p, pos, expected, dictLen);
            && (v.Rejected? ==> Objects(v.error, b, p, pos, expected, dictLen))
            && (v.Ended? && v.pos != expected ==>
                  Objects(DecodedSizeMismatch(expected, v.pos), b, p, pos, expected, dictLen))
  {
    hide CheckMatch;
    if p < |b| {
      LiteralsObjected(b, p, pos, expected, dictLen);
      LiteralsChecked(b, p, pos, expected);
      var v := CheckLiterals(b, p, pos, expected);
      if v.Continues? {
        MatchObjected(b, p, pos, expected, dictLen);
      }
    }
  }

  /** Every verdict against a block names the first token that is wrong, and what is wrong with it. */
  lemma {:induction false} ObjectionsExplained(b: seq<byte>, p: nat, pos: nat, expected: nat, dictLen: nat)
    requires pos <= expected
    ensures var r := Check(b, p, pos, expected, dictLen);
            r.Err? ==> Objected(r.error, b, p, pos, expected, dictLen)
    decreases |b| - p
  {
    hide CheckToken, Objects, ParseToken;
    TokenObjected(b, p, pos, expected, dictLen);
    TokenChecked(b, p, pos, expected, dictLen);
    var v := CheckToken(b, p, pos, expected, dictLen);
    if v.Continues? {
      ObjectionsExplained(b, v.next, v.pos, expected, dictLen);
    }
  }
}
