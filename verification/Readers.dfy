/** The checked readers of length and offset fields, as the decoder and the validator use them. */
module Readers {
  import opened Core
  import opened BlockFormat
  import opened ReferenceDecoder

  /** Reads extension bytes until one is not 255 or their sum exceeds `max`. */
  method ReadIntegerBounded(input: seq<byte>, pos: nat, max: nat)
    returns (r: Result<nat, DecompressError>, pos': nat)
    requires pos <= |input| && max <= ISIZE_MAX
    ensures match ReadBounded(input, pos, 0, max)
            case None => r == Err(ExpectedAnotherByte)
            case Some(len) => r == Ok(len.n) && pos' == len.next
    ensures pos <= pos' <= |input|
  {
    var n: nat := 0;
    pos' := pos;
    while true
      invariant pos <= pos' <= |input| && n <= max
      invariant ReadBounded(input, pos, 0, max) == ReadBounded(input, pos', n, max)
      decreases |input| - pos'
    {
      if pos' >= |input| {
        return Err(ExpectedAnotherByte), pos';
      }
      var extra := input[pos'];
      pos' := pos' + 1;
      assert n + extra <= USIZE_MAX;  // the checked addition cannot fail
      n := n + extra;
      if extra != 255 {
        break;
      }
      if n > max {
        break;
      }
    }
    r := Ok(n);
  }

  method ReadLiteralLength(input: seq<byte>, pos: nat, token: byte, maxExtension: nat)
    returns (r: Result<nat, DecompressError>, pos': nat)
    requires pos <= |input| && maxExtension <= ISIZE_MAX
    ensures match BoundedLength(input, pos, token / 16, maxExtension)
            case None => r == Err(ExpectedAnotherByte)
            case Some(len) => r == Ok(len.n) && pos' == len.next
  {
    var literalLength := token / 16;
    pos' := pos;
    if literalLength == 15 {
      r, pos' := ReadIntegerBounded(input, pos, maxExtension);
      if r.Ok? {
        assert literalLength + r.value <= USIZE_MAX;  // the checked addition cannot fail
        r := Ok(literalLength + r.value);
      }
    } else {
      r := Ok(literalLength);
    }
  }

  method ReadMatchLength(input: seq<byte>, pos: nat, token: byte, maxExtension: nat)
    returns (r: Result<nat, DecompressError>, pos': nat)
    requires pos <= |input| && maxExtension <= ISIZE_MAX
    ensures match BoundedLength(input, pos, token % 16, maxExtension)
            case None => r == Err(ExpectedAnotherByte)
            case Some(len) => r == Ok(MINMATCH + len.n) && pos' == len.next
  {
    var matchLength := MINMATCH + token % 16;
    pos' := pos;
    if matchLength == MINMATCH + 15 {
      r, pos' := ReadIntegerBounded(input, pos, maxExtension);
      if r.Ok? {
        assert matchLength + r.value <= USIZE_MAX;  // the checked addition cannot fail
        r := Ok(matchLength + r.value);
      }
    } else {
      r := Ok(matchLength);
    }
  }

  method ReadOffset(input: seq<byte>, pos: nat)
    returns (r: Result<nat, DecompressError>, pos': nat)
    requires pos <= |input|
    ensures r == if pos + 2 > |input| then Err(ExpectedAnotherByte)
                 else if OffsetAt(input, pos) == 0 then Err(OffsetZero)
                 else Ok(OffsetAt(input, pos))
    ensures r.Ok? ==> pos' == pos + 2
  {
    pos' := pos;
    if pos + 2 > |input| {
      return Err(ExpectedAnotherByte), pos';
    }
    pos' := pos + 2;
    var offset := OffsetAt(input, pos);
    if offset == 0 {
      return Err(OffsetZero), pos';
    }
    r := Ok(offset);
  }
}
