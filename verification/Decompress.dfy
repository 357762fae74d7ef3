/**
  The block decoder: a fast loop that copies in chunks and writes past what it decodes,
  interleaved with a checked general path.  Both are proved to take exactly the step of the
  reference decoder on the window `dict + out[..pos]`; bytes behind `pos` are never spoken of.
 */
module Decompress {
  import opened Core
  import opened BlockFormat
  import opened ReferenceDecoder
  import opened Readers
  import opened Primitives
  import opened FastCopy
  import opened DecodeErrors

  const RUN_MASK: nat := 15
  const ML_MASK: nat := 15
  const SHORT_LITERAL_MAX: nat := RUN_MASK - 1
  /** A token, the longest short literal run, the offset and one extension byte. */
  const FAST_IN: nat := 1 + SHORT_LITERAL_MAX + 2 + 1
  const WILD_LITERAL_MAX: nat := 256

  // ----- matches that start in the dictionary

  /** Copies the part of a match that lies in the dictionary. */
  method CopyFromDict(out: array<byte>, cap: nat, pos: nat, dict: seq<byte>, offset: nat, matchLength: nat)
    returns (r: Result<nat, DecompressError>)
    requires pos < offset && 1 <= matchLength && pos + matchLength <= cap
    requires cap <= out.Length
    modifies out
    ensures out[cap..] == old(out[cap..])
    ensures offset > |dict| + pos ==> r == Err(OffsetOutOfBounds) && out[..] == old(out[..])
    ensures offset <= |dict| + pos ==>
              && r == Ok(Min(matchLength, offset - pos))
              && dict + out[..pos + r.value] == Copy(dict + old(out[..pos]), offset, r.value)
  {
    if |dict| < offset - pos {
      return Err(OffsetOutOfBounds);
    }
    var dictOffset := |dict| - (offset - pos);
    var dictMatchLength := Min(matchLength, |dict| - dictOffset);
    ghost var was := out[..pos];
    SliceCopy(dict[dictOffset..dictOffset + dictMatchLength], out, pos);
    CopyFromFront(dict, was, offset - pos, dictMatchLength);
    assert dict + out[..pos + dictMatchLength]
        == dict + was + dict[dictOffset..dictOffset + dictMatchLength];
    r := Ok(dictMatchLength);
  }

  // ----- matches inside the output buffer

  /** Chooses a copy by offset and headroom. */
  method CopyMatch(out: array<byte>, cap: nat, pos: nat, offset: nat, matchLength: nat) returns (end: nat)
    requires 1 <= offset <= pos && pos + matchLength <= cap
    requires cap <= out.Length
    modifies out
    ensures out[cap..] == old(out[cap..])
    ensures end == pos + matchLength && out[..end] == Copy(old(out[..pos]), offset, matchLength)
  {
    hide Copy;
    var start := pos - offset;
    if offset >= WIDE_CHUNK && pos + matchLength + LONG_CHUNK <= cap {
      end := WildCopyMatch32(out, start, pos, matchLength);
    } else if offset >= WIDE_CHUNK && pos + matchLength + WIDE_CHUNK <= cap {
      end := WildCopyMatch16(out, start, pos, matchLength);
    } else if offset >= MATCH_CHUNK && pos + matchLength + MATCH_CHUNK <= cap {
      end := WildCopyMatch8(out, start, pos, matchLength);
    } else if MIN_COPY_OFFSET <= offset < MATCH_CHUNK && pos + matchLength + MATCH_CHUNK <= cap {
      end := WildCopyMatchShortOffset(out, pos, offset, matchLength);
    } else if matchLength > offset {
      if offset < MIN_COPY_OFFSET {
        end := FillLast(out, start, pos, matchLength);
      } else {
        end := CopyWithinOverlapping(out, start, pos, matchLength, offset);
      }
    } else {
      end := CopyWithinNonoverlap(out, start, pos, matchLength);
    }
  }

  // ----- the general path

  datatype Outline =
    | Finish(pos: nat)
    | Abort(pos: nat, error: DecompressError)
    | Continue(pos: nat, next: nat)

  /** What the decoder did, read as a step of the reference decoder. */
  ghost predicate Takes(r: Outline, out: seq<byte>, dict: seq<byte>, s: Step) {
    && r.pos <= |out|
    && match r
       case Finish(pos) => s == Stop(Done(dict + out[..pos]))
       case Abort(pos, error) => s == Stop(Failed(dict + out[..pos], error))
       case Continue(pos, next) => s == Next(dict + out[..pos], next)
  }

  /** Copies one literal run, in chunks when both buffers have headroom. */
  method CopyLiterals(input: seq<byte>, ip: nat, out: array<byte>, cap: nat, op: nat, len: nat) returns (end: nat)
    requires ip + len <= |input| && op + len <= cap
    requires cap <= out.Length
    modifies out
    ensures out[cap..] == old(out[cap..])
    ensures end == op + len && out[..end] == old(out[..op]) + input[ip..ip + len]
  {
    if len <= WILD_LITERAL_MAX && ip + len + LONG_CHUNK <= |input| && op + len + LONG_CHUNK <= cap {
      end := WildCopyLiterals(input, ip, out, op, len);
    } else {
      end := CopyFromSrc(input, ip, out, op, len);
    }
  }

  method GeneralLiterals(input: seq<byte>, ip: nat, out: array<byte>, cap: nat, op: nat, ghost dict: seq<byte>)
    returns (r: Outline)
    requires ip < |input| && op <= cap <= ISIZE_MAX
    requires cap <= out.Length
    modifies out
    ensures out[cap..] == old(out[cap..])
    ensures Takes(r, out[..], dict,
                  DecodeLiterals(input, ip, |dict|, dict + old(out[..op]), cap))
  {
    ghost var was := out[..op];
    var literalLength, pos := ReadLiteralLength(input, ip + 1, input[ip], cap);
    if literalLength.Err? {
      return Abort(op, literalLength.error);
    }
    var len, end := literalLength.value, op;
    if len != 0 {
      if pos + len > |input| {
        return Abort(op, LiteralOutOfBounds);
      }
      if op + len > cap {
        return Abort(op, OutputTooSmall(op + len, cap));
      }
      end := CopyLiterals(input, pos, out, cap, op, len);
    }
    assert dict + out[..end] == dict + was + input[pos..pos + len];
    r := if pos + len >= |input| then Finish(end) else Continue(end, pos + len);
  }

  /** Copies a match: from the dictionary, from the buffer, or from one into the other. */
  method CopyAnyMatch(out: array<byte>, cap: nat, op: nat, dict: seq<byte>, useDict: bool, offset: nat,
                      matchLength: nat)
    returns (r: Result<nat, DecompressError>)
    requires useDict || dict == []
    requires 1 <= offset && 1 <= matchLength && op + matchLength <= cap
    requires cap <= out.Length
    modifies out
    ensures out[cap..] == old(out[cap..])
    ensures offset > |dict| + op ==> r == Err(OffsetOutOfBounds) && out[..] == old(out[..])
    ensures offset <= |dict| + op ==>
              && r == Ok(op + matchLength)
              && dict + out[..op + matchLength] == Copy(dict + old(out[..op]), offset, matchLength)
  {
    hide Copy;
    ghost var was := out[..op];
    var pos, len := op, matchLength;
    if useDict && offset > op {
      var copied := CopyFromDict(out, cap, op, dict, offset, matchLength);
      if copied.Err? {
        return copied;
      }
      if copied.value == matchLength {
        return Ok(op + matchLength);
      }
      pos, len := op + copied.value, matchLength - copied.value;
      CopyInParts(dict + was, offset, copied.value, len);
    }
    if offset > pos {
      return Err(OffsetOutOfBounds);
    }
    CopyBehind(dict, out[..pos], offset, len);
    var end := CopyMatch(out, cap, pos, offset, len);
    r := Ok(end);
  }

  method GeneralMatch(input: seq<byte>, ip: nat, token: byte, out: array<byte>, cap: nat, op: nat,
                      dict: seq<byte>, useDict: bool)
    returns (r: Outline)
    requires useDict || dict == []
    requires ip <= |input| && op <= cap <= ISIZE_MAX
    requires cap <= out.Length
    modifies out
    ensures out[cap..] == old(out[cap..])
    ensures Takes(r, out[..], dict,
                  DecodeMatch(input, ip, token % 16, |dict|, dict + old(out[..op]), cap))
  {
    var offset, pos := ReadOffset(input, ip);
    if offset.Err? {
      return Abort(op, offset.error);
    }
    var matchLength, next := ReadMatchLength(input, pos, token, cap);
    if matchLength.Err? {
      return Abort(op, matchLength.error);
    }
    if op + matchLength.value > cap {
      return Abort(op, OutputTooSmall(op + matchLength.value, cap));
    }
    var end := CopyAnyMatch(out, cap, op, dict, useDict, offset.value, matchLength.value);
    r := if end.Err? then Abort(op, end.error) else Continue(end.value, next);
  }

  /** Decodes the token at `ip`, whatever its lengths and however close the ends of the buffers are. */
  method GeneralToken(input: seq<byte>, ip: nat, out: array<byte>, cap: nat, op: nat, dict: seq<byte>, useDict: bool)
    returns (r: Outline)
    requires useDict || dict == []
    requires ip <= |input| && op <= cap <= ISIZE_MAX
    requires cap <= out.Length
    modifies out
    ensures out[cap..] == old(out[cap..])
    ensures Takes(r, out[..], dict, DecodeToken(input, ip, |dict|, dict + old(out[..op]), cap))
  {
    if ip >= |input| {
      return Abort(op, ExpectedAnotherByte);
    }
    r := GeneralLiterals(input, ip, out, cap, op, dict);
    if r.Continue? {
      r := GeneralMatch(input, r.next, input[ip], out, cap, r.pos, dict, useDict);
    }
  }

  // ----- the fast loop

  datatype Fast =
    | Leave
    | Return(pos: nat)
    | Advance(pos: nat, next: nat)

  ghost predicate TakesFast(r: Fast, was: seq<byte>, out: seq<byte>, dict: seq<byte>, s: Step) {
    match r
    case Leave => out == was
    case Return(pos) => pos <= |out| && s == Stop(Done(dict + out[..pos]))
    case Advance(pos, next) => pos <= |out| && s == Next(dict + out[..pos], next)
  }

  lemma LiteralsStep(b: seq<byte>, p: nat, d: nat, w: seq<byte>, start: nat, q: nat, cap: nat)
    requires p < |b| && p + 1 <= start <= q < |b| && d <= |w| && |w| - d + (q - start) <= cap
    requires BoundedLength(b, p + 1, b[p] / 16, cap) == Some(Length(q - start, start))
    ensures DecodeLiterals(b, p, d, w, cap) == Next(w + b[start..q], q)
  {
  }

  lemma MatchStep(b: seq<byte>, q: nat, nibble: nat, d: nat, w: seq<byte>, len: nat, next: nat, cap: nat)
    requires q + 2 <= |b| && MINMATCH <= len && d <= |w| && |w| - d + len <= cap
    requires BoundedLength(b, q + 2, nibble, cap) == Some(Length(len - MINMATCH, next))
    requires 1 <= OffsetAt(b, q) <= |w|
    ensures DecodeMatch(b, q, nibble, d, w, cap) == Next(Copy(w, OffsetAt(b, q), len), next)
  {
  }

  /** A literal run and a match that pass every test of the reference decoder. */
  lemma TokenStep(b: seq<byte>, p: nat, dict: seq<byte>, o: seq<byte>, start: nat, q: nat, len: nat, next: nat,
                  cap: nat)
    requires p < |b| && p + 1 <= start <= q && q + 2 <= |b| && MINMATCH <= len
    requires |o| + (q - start) + len <= cap
    requires BoundedLength(b, p + 1, b[p] / 16, cap) == Some(Length(q - start, start))
    requires BoundedLength(b, q + 2, b[p] % 16, cap) == Some(Length(len - MINMATCH, next))
    requires 1 <= OffsetAt(b, q) <= |dict| + |o| + (q - start)
    ensures DecodeToken(b, p, |dict|, dict + o, cap)
         == Next(Copy(dict + (o + b[start..q]), OffsetAt(b, q), len), next)
  {
    assert dict + o + b[start..q] == dict + (o + b[start..q]);
    LiteralsStep(b, p, |dict|, dict + o, start, q, cap);
    MatchStep(b, q, b[p] % 16, |dict|, dict + (o + b[start..q]), len, next, cap);
  }

  /** The same step, from what the copies have left in the buffer: `now`, up to the new position. */
  lemma BufferStep(b: seq<byte>, p: nat, dict: seq<byte>, o: seq<byte>, start: nat, q: nat, len: nat,
                   next: nat, cap: nat,
                   now: seq<byte>)
    requires p < |b| && p + 1 <= start <= q && q + 2 <= |b| && MINMATCH <= len
    requires |o| + (q - start) + len <= cap
    requires BoundedLength(b, p + 1, b[p] / 16, cap) == Some(Length(q - start, start))
    requires BoundedLength(b, q + 2, b[p] % 16, cap) == Some(Length(len - MINMATCH, next))
    requires 1 <= OffsetAt(b, q) <= |o| + (q - start)
    requires now == Copy(o + b[start..q], OffsetAt(b, q), len)
    ensures DecodeToken(b, p, |dict|, dict + o, cap) == Next(dict + now, next)
  {
    hide Copy, DecodeToken, BoundedLength;
    TokenStep(b, p, dict, o, start, q, len, next, cap);
    CopyBehind(dict, o + b[start..q], OffsetAt(b, q), len);
  }

  /** The same, for a match that lies in the dictionary, at `at`. */
  lemma DictStep(b: seq<byte>, p: nat, dict: seq<byte>, o: seq<byte>, start: nat, q: nat, len: nat, next: nat, cap: nat,
                 o1: seq<byte>, at: nat, now: seq<byte>)
    requires p < |b| && p + 1 <= start <= q && q + 2 <= |b| && MINMATCH <= len
    requires |o1| + len <= cap && o1 == o + b[start..q]
    requires BoundedLength(b, p + 1, b[p] / 16, cap) == Some(Length(q - start, start))
    requires BoundedLength(b, q + 2, b[p] % 16, cap) == Some(Length(len - MINMATCH, next))
    requires at + len <= |dict| && OffsetAt(b, q) == |dict| - at + |o1|
    requires now == o1 + dict[at..at + len]
    ensures DecodeToken(b, p, |dict|, dict + o, cap) == Next(dict + now, next)
  {
    hide Copy, DecodeToken, BoundedLength;
    TokenStep(b, p, dict, o, start, q, len, next, cap);
    CopyFromFront(dict, o1, |dict| - at, len);
    assert dict + now == dict + o1 + dict[at..at + len];
  }

  lemma OneExtensionByte(b: seq<byte>, p: nat, cap: nat)
    requires p < |b| && b[p] != 255
    ensures BoundedLength(b, p, 15, cap) == Some(Length(15 + b[p] as int, p + 1))
  {
  }

  /** Stores `WIDE_CHUNK` input bytes, of which the first `len` are the literals. */
  method StoreWideLiterals(input: seq<byte>, start: nat, out: array<byte>, cap: nat, op: nat, len: nat)
    requires len <= WIDE_CHUNK && start + WIDE_CHUNK <= |input| && op + WIDE_CHUNK <= cap
    requires cap <= out.Length
    modifies out
    ensures out[cap..] == old(out[cap..])
    ensures out[..op + len] == old(out[..op]) + input[start..start + len]
  {
    StorePrefix(out, cap, op, input[start..start + WIDE_CHUNK], len);
    assert input[start..start + WIDE_CHUNK][..len] == input[start..start + len];
  }

  /** Stores a chunk of which the first `len` bytes are wanted. */
  method StorePrefix(out: array<byte>, cap: nat, at: nat, chunk: seq<byte>, len: nat)
    requires len <= |chunk| && at + |chunk| <= cap
    requires cap <= out.Length
    modifies out
    ensures out[cap..] == old(out[cap..])
    ensures out[..at + len] == old(out[..at]) + chunk[..len]
  {
    Store(out, at, chunk);
  }

  /** A short literal run followed by a short match in the buffer. */
  method FastBufferMatch(input: seq<byte>, ip: nat, out: array<byte>, cap: nat, op: nat, ghost dict: seq<byte>,
                         offset: nat, len: nat)
    returns (r: Fast)
    requires ip + FAST_IN <= |input| && op + len + SHORT_MATCH_MAX <= cap
    requires len <= SHORT_LITERAL_MAX && input[ip] / 16 == len && input[ip] % 16 != ML_MASK
    requires offset == OffsetAt(input, ip + 1 + len) && MATCH_CHUNK <= offset <= op + len
    requires cap <= out.Length
    modifies out
    ensures out[cap..] == old(out[cap..])
    ensures TakesFast(r, old(out[..]), out[..], dict,
                      DecodeToken(input, ip, |dict|, dict + old(out[..op]), cap))
  {
    hide Copy, DecodeToken;
    ghost var was := out[..op];
    ghost var q := ip + 1 + len;
    var dst, matchLength := op + len, MINMATCH + input[ip] % 16;
    StoreWideLiterals(input, ip + 1, out, cap, op, len);
    var end := WildMatchCopy18(out, dst, offset, matchLength);
    BufferStep(input, ip, dict, was, ip + 1, q, matchLength, q + 2, cap, out[..end]);
    r := Advance(end, ip + 3 + len);
  }

  /** A short literal run followed by a short match, all of whose chunk lies in the dictionary. */
  method FastDictMatch(input: seq<byte>, ip: nat, out: array<byte>, cap: nat, op: nat, dict: seq<byte>,
                       offset: nat, len: nat)
    returns (r: Fast)
    requires ip + FAST_IN <= |input| && op + len + SHORT_MATCH_MAX <= cap
    requires len <= SHORT_LITERAL_MAX && input[ip] / 16 == len && input[ip] % 16 != ML_MASK
    requires offset == OffsetAt(input, ip + 1 + len) && op + len + SHORT_MATCH_MAX <= offset <= op + len + |dict|
    requires cap <= out.Length
    modifies out
    ensures out[cap..] == old(out[cap..])
    ensures TakesFast(r, old(out[..]), out[..], dict,
                      DecodeToken(input, ip, |dict|, dict + old(out[..op]), cap))
  {
    hide Copy, DecodeToken;
    ghost var was := out[..op];
    ghost var q := ip + 1 + len;
    var dst, matchLength := op + len, MINMATCH + input[ip] % 16;
    var at := |dict| - (offset - dst);
    StoreWideLiterals(input, ip + 1, out, cap, op, len);
    ghost var o1 := out[..dst];
    StorePrefix(out, cap, dst, dict[at..at + SHORT_MATCH_MAX], matchLength);
    DictStep(input, ip, dict, was, ip + 1, q, matchLength, q + 2, cap, o1, at, out[..dst + matchLength]);
    r := Advance(dst + matchLength, ip + 3 + len);
  }

  /** A short literal run followed by a match with one extension byte. */
  method FastLongMatch(input: seq<byte>, ip: nat, out: array<byte>, cap: nat, op: nat, ghost dict: seq<byte>,
                       offset: nat, len: nat)
    returns (r: Fast)
    requires ip + FAST_IN <= |input| && op + len + SHORT_MATCH_MAX <= cap
    requires len <= SHORT_LITERAL_MAX && input[ip] / 16 == len
    requires offset == OffsetAt(input, ip + 1 + len)
    requires input[ip] % 16 == ML_MASK
    requires cap <= out.Length
    modifies out
    ensures out[cap..] == old(out[cap..])
    ensures TakesFast(r, old(out[..]), out[..], dict,
                      DecodeToken(input, ip, |dict|, dict + old(out[..op]), cap))
  {
    hide Copy, DecodeToken;
    ghost var was := out[..op];
    ghost var q := ip + 1 + len;
    var dst := op + len;
    var extra := input[ip + 3 + len];
    if extra == 255 || offset < WIDE_CHUNK || offset > dst {
      return Leave;
    }
    var matchLength := MINMATCH + ML_MASK + extra;
    if dst + matchLength + LONG_CHUNK > cap {
      return Leave;
    }
    StoreWideLiterals(input, ip + 1, out, cap, op, len);
    WildCopyMatchLong(out, dst, offset, matchLength);
    OneExtensionByte(input, ip + 3 + len, cap);
    BufferStep(input, ip, dict, was, ip + 1, q, matchLength, q + 3, cap, out[..dst + matchLength]);
    r := Advance(dst + matchLength, ip + 4 + len);
  }

  /** A literal run without extension byte. */
  method FastShortRun(input: seq<byte>, ip: nat, out: array<byte>, cap: nat, op: nat, dict: seq<byte>, useDict: bool)
    returns (r: Fast)
    requires useDict || dict == []
    requires ip + FAST_IN <= |input| && op <= cap && input[ip] / 16 != RUN_MASK
    requires cap <= out.Length
    modifies out
    ensures out[cap..] == old(out[cap..])
    ensures TakesFast(r, old(out[..]), out[..], dict,
                      DecodeToken(input, ip, |dict|, dict + old(out[..op]), cap))
  {
    var len := input[ip] / 16;
    if op + len + SHORT_MATCH_MAX > cap {
      return Leave;
    }
    var offset := OffsetAt(input, ip + 1 + len);
    var dst := op + len;
    if input[ip] % 16 == ML_MASK {
      r := FastLongMatch(input, ip, out, cap, op, dict, offset, len);
      return;
    }
    if MATCH_CHUNK <= offset <= dst {
      r := FastBufferMatch(input, ip, out, cap, op, dict, offset, len);
      return;
    }
    if useDict && offset > dst {
      var back := offset - dst;
      if SHORT_MATCH_MAX <= back <= |dict| {
        r := FastDictMatch(input, ip, out, cap, op, dict, offset, len);
        return;
      }
    }
    r := Leave;
  }

  /** A literal run that ends the block. */
  lemma LastStep(b: seq<byte>, p: nat, dict: seq<byte>, o: seq<byte>, start: nat, cap: nat)
    requires p < |b| && p + 1 <= start <= |b| && |o| + (|b| - start) <= cap
    requires BoundedLength(b, p + 1, b[p] / 16, cap) == Some(Length(|b| - start, start))
    ensures DecodeToken(b, p, |dict|, dict + o, cap) == Stop(Done(dict + (o + b[start..])))
  {
    assert dict + o + b[start..|b|] == dict + (o + b[start..]);
  }

  /** Ends the block with `len` literals, if they are all of the rest and fit. */
  method FastLastRun(input: seq<byte>, ghost ip: nat, start: nat, out: array<byte>, cap: nat, op: nat,
                     ghost dict: seq<byte>, len: nat)
    returns (r: Fast)
    requires ip < |input| && ip + 1 <= start && op + len <= cap && start + len == |input|
    requires BoundedLength(input, ip + 1, input[ip] / 16, cap) == Some(Length(len, start))
    requires cap <= out.Length
    modifies out
    ensures out[cap..] == old(out[cap..])
    ensures r.Return? && TakesFast(r, old(out[..]), out[..], dict,
                      DecodeToken(input, ip, |dict|, dict + old(out[..op]), cap))
  {
    LastStep(input, ip, dict, out[..op], start, cap);
    var end := CopyFromSrc(input, start, out, op, len);
    assert input[start..start + len] == input[start..];
    r := Return(end);
  }

  method FastLongCopy(input: seq<byte>, ip: nat, out: array<byte>, cap: nat, op: nat, ghost dict: seq<byte>,
                      offset: nat, len: nat, matchLength: nat)
    returns (r: Fast)
    requires ip + 2 <= |input| && input[ip] / 16 == RUN_MASK && input[ip + 1] != 255 && len == RUN_MASK + input[ip + 1]
    requires ip + 2 + len + LONG_CHUNK <= |input| && op + len + LONG_CHUNK <= cap
    requires input[ip] % 16 != ML_MASK && matchLength == MINMATCH + input[ip] % 16
    requires offset == OffsetAt(input, ip + 2 + len) && MATCH_CHUNK <= offset <= op + len
    requires cap <= out.Length
    modifies out
    ensures out[cap..] == old(out[cap..])
    ensures TakesFast(r, old(out[..]), out[..], dict,
                      DecodeToken(input, ip, |dict|, dict + old(out[..op]), cap))
  {
    hide Copy, DecodeToken;
    ghost var was := out[..op];
    var start := ip + 2;
    var end := start + len;
    CopyLiterals32(input, start, out, op, len);
    assert out[cap..] == old(out[cap..]) by {
      var k := op + len + LONG_CHUNK;
      assert out[cap..] == out[k..][cap - k..] && old(out[cap..]) == old(out[k..])[cap - k..];
    }
    var pos := WildMatchCopy18(out, op + len, offset, matchLength);
    OneExtensionByte(input, ip + 1, cap);
    BufferStep(input, ip, dict, was, start, end, matchLength, end + 2, cap, out[..pos]);
    r := Advance(pos, end + 2);
  }

  /** A literal run with one extension byte, followed by a short match in the buffer. */
  method FastLongRun(input: seq<byte>, ip: nat, out: array<byte>, cap: nat, op: nat, ghost dict: seq<byte>)
    returns (r: Fast)
    requires ip + FAST_IN <= |input| && op <= cap
    requires input[ip] / 16 == RUN_MASK && input[ip + 1] != 255
    requires cap <= out.Length
    modifies out
    ensures out[cap..] == old(out[cap..])
    ensures TakesFast(r, old(out[..]), out[..], dict,
                      DecodeToken(input, ip, |dict|, dict + old(out[..op]), cap))
  {
    ghost var was := out[..op];
    var len, start := RUN_MASK + input[ip + 1], ip + 2;
    var end := start + len;
    if end == |input| && op + len <= cap {
      r := FastLastRun(input, ip, start, out, cap, op, dict, len);
      return;
    }
    if end + LONG_CHUNK > |input| || op + len + LONG_CHUNK > cap {
      return Leave;
    }
    var offset := OffsetAt(input, end);
    var matchNibble := input[ip] % 16;
    var dst := op + len;
    if matchNibble == ML_MASK || offset < MATCH_CHUNK || offset > dst {
      return Leave;
    }
    r := FastLongCopy(input, ip, out, cap, op, dict, offset, len, MINMATCH + matchNibble);
  }

  /** One iteration of the fast loop. */
  method FastToken(input: seq<byte>, inputPos: nat, out: array<byte>, cap: nat, pos: nat, dict: seq<byte>,
                   useDict: bool)
    returns (r: Fast)
    requires useDict || dict == []
    requires inputPos <= |input| <= U32_MAX && pos <= cap <= U32_MAX
    requires cap <= out.Length
    modifies out
    ensures out[cap..] == old(out[cap..])
    ensures TakesFast(r, old(out[..]), out[..], dict,
                      DecodeToken(input, inputPos, |dict|, dict + old(out[..pos]), cap))
  {
    var ip, op := Idx(inputPos), Idx(pos);
    if ip + FAST_IN > |input| {
      return Leave;
    }
    if input[ip] / 16 != RUN_MASK {
      r := FastShortRun(input, ip, out, cap, op, dict, useDict);
      return;
    }
    if input[ip + 1] != 255 {
      r := FastLongRun(input, ip, out, cap, op, dict);
      return;
    }
    var n, start := ReadIntegerBounded(input, ip + 1, cap);
    if n.Ok? {
      var len := RUN_MASK + n.value;
      if start + len == |input| && op + len <= cap {
        r := FastLastRun(input, ip, start, out, cap, op, dict, len);
        return;
      }
    }
    r := Leave;
  }

  // ----- the decoder

  /** The outcome as the decoder reports it: the decoded length, or the error, and the final
      position, with the window decoded so far in front of it. */
  ghost predicate Reports(r: Result<nat, DecompressError>, out: seq<byte>, start: nat, pos: nat,
                          dict: seq<byte>, o: Outcome)
  {
    && start <= pos <= |out| && dict + out[..pos] == o.w
    && match o
       case Done(_) => r == Ok(pos - start)
       case Failed(_, error) => r == Err(error)
  }

  /** The fast loop: decodes tokens until one needs the general path, or the block ends. */
  method FastLoop(input: seq<byte>, ip: nat, out: array<byte>, cap: nat, op: nat, dict: seq<byte>, useDict: bool)
    returns (done: bool, ip': nat, op': nat)
    requires useDict || dict == []
    requires ip <= |input| <= U32_MAX && op <= cap <= U32_MAX
    requires cap <= out.Length
    modifies out
    ensures out[cap..] == old(out[cap..])
    ensures ip <= ip' <= |input| && op <= op' <= cap
    ensures var o := Decode(input, ip, |dict|, dict + old(out[..op]), cap);
            if done then o == Done(dict + out[..op'])
            else o == Decode(input, ip', |dict|, dict + out[..op'], cap)
  {
    ip', op' := ip, op;
    ghost var o := Decode(input, ip, |dict|, dict + out[..op], cap);
    while true
      invariant ip <= ip' <= |input| && op <= op' <= cap
      invariant o == Decode(input, ip', |dict|, dict + out[..op'], cap)
      invariant out[cap..] == old(out[cap..])
      decreases |input| - ip'
    {
      ghost var w := dict + out[..op'];
      var r := FastToken(input, ip', out, cap, op', dict, useDict);
      match r
      case Leave =>
        assert dict + out[..op'] == w;
        return false, ip', op';
      case Return(pos) =>
        assert w <= dict + out[..pos];
        return true, ip', pos;
      case Advance(pos, next) =>
        assert w <= dict + out[..pos];
        ip', op' := next, pos;
    }
  }

  /** The general path, read as progress of the reference decoder. */
  method GeneralStep(input: seq<byte>, ip: nat, out: array<byte>, cap: nat, op: nat, dict: seq<byte>, useDict: bool)
    returns (t: Outline)
    requires useDict || dict == []
    requires ip <= |input| && op <= cap <= ISIZE_MAX
    requires cap <= out.Length
    modifies out
    ensures out[cap..] == old(out[cap..])
    ensures op <= t.pos <= cap
    ensures var o := Decode(input, ip, |dict|, dict + old(out[..op]), cap);
            match t
            case Finish(pos) => o == Done(dict + out[..pos])
            case Abort(pos, error) => o == Failed(dict + out[..pos], error)
            case Continue(pos, next) =>
              ip < next <= |input| && o == Decode(input, next, |dict|, dict + out[..pos], cap)
  {
    ghost var w := dict + out[..op];
    t := GeneralToken(input, ip, out, cap, op, dict, useDict);
    assert w <= dict + out[..t.pos];
  }

  lemma HistoryKept(dict: seq<byte>, was: seq<byte>, now: seq<byte>)
    requires dict + was <= dict + now
    ensures |was| <= |now| && now[..|was|] == was
  {
    assert now == (dict + now)[|dict|..];
    assert was == (dict + was)[|dict|..];
    assert (dict + now)[|dict|..|dict + was|] == (dict + was)[|dict|..];
  }

  /** Decodes `input` into `out[start..]`. */
  method DecompressBody(input: seq<byte>, out: array<byte>, cap: nat, start: nat, dict: seq<byte>, useDict: bool)
    returns (r: Result<nat, DecompressError>, pos: nat)
    requires useDict || dict == []
    requires start <= cap <= ISIZE_MAX
    requires cap <= out.Length
    modifies out
    ensures out[cap..] == old(out[cap..])
    ensures Reports(r, out[..], start, pos, dict,
                    Decode(input, 0, |dict|, dict + old(out[..start]), cap))
    ensures out[..start] == old(out[..start])
    ensures r.Err? ==> Explained(r.error, input, 0, start, |dict| + start, cap)
  {
    hide Decode, Explained;
    var fast := |input| <= U32_MAX && cap <= U32_MAX;
    var inputPos: nat := 0;
    pos := start;
    ghost var o := Decode(input, 0, |dict|, dict + out[..start], cap);
    while true
      invariant inputPos <= |input| && start <= pos <= cap
      invariant o == Decode(input, inputPos, |dict|, dict + out[..pos], cap)
      invariant out[cap..] == old(out[cap..])
      decreases |input| - inputPos
    {
      if fast {
        var done: bool;
        done, inputPos, pos := FastLoop(input, inputPos, out, cap, pos, dict, useDict);
        if done {
          r := Ok(pos - start);
          break;
        }
      }
      var t := GeneralStep(input, inputPos, out, cap, pos, dict, useDict);
      pos := t.pos;
      match t
      case Finish(_) =>
        r := Ok(pos - start);
        break;
      case Abort(_, error) =>
        r := Err(error);
        break;
      case Continue(_, next) =>
        inputPos := next;
    }
    HistoryKept(dict, old(out[..start]), out[..pos]);
    ErrorsExplained(input, 0, |dict|, dict + old(out[..start]), cap);
  }
}
