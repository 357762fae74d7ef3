/** An output slice with a write position. */
module Sink {
  import opened Core
  import opened BlockFormat
  import opened FastCopy
  import opened Primitives

  class SliceSink {
    const output: array<byte>
    var pos: nat

    ghost predicate Valid()
      reads this
    {
      pos <= output.Length
    }

    /** What has been written. */
    ghost function Contents(): seq<byte>
      reads this, output
      requires Valid()
    {
      output[..pos]
    }

    constructor (output: array<byte>, pos: nat)
      requires pos <= output.Length
      ensures this.output == output && this.pos == pos && Valid()
    {
      this.output, this.pos := output, pos;
    }

    method Push(b: byte)
      requires Valid() && pos < output.Length
      modifies this, output
      ensures Valid() && Contents() == old(Contents()) + [b] && pos == old(pos) + 1
      ensures output[pos..] == old(output[pos + 1..])
    {
      output[pos] := b;
      pos := pos + 1;
    }

    /** Appends a length extension. */
    method WriteInteger(n: nat)
      requires Valid() && pos + |PrintInteger(n)| <= output.Length
      modifies this, output
      ensures Valid() && Contents() == old(Contents()) + PrintInteger(n)
    {
      var rest := n;
      while rest >= 255
        invariant Valid() && pos + |PrintInteger(rest)| <= output.Length
        invariant Contents() + PrintInteger(rest) == old(Contents()) + PrintInteger(n)
      {
        rest := rest - 255;
        Push(255);
      }
      Push(rest);
    }

    /** Writes all of `data` but keeps only its first `copyLen` bytes. */
    method ExtendFromSliceWild(data: seq<byte>, copyLen: nat)
      requires Valid() && copyLen <= |data| && pos + |data| <= output.Length
      modifies this, output
      ensures Valid() && Contents() == old(Contents()) + data[..copyLen] && pos == old(pos) + copyLen
      ensures output[..] == old(output[..pos]) + data + old(output[pos + |data|..])
    {
      SliceCopy(data, output, pos);
      pos := pos + copyLen;
    }

    method ExtendFromSlice(data: seq<byte>)
      requires Valid() && pos + |data| <= output.Length
      modifies this, output
      ensures Valid() && Contents() == old(Contents()) + data && pos == old(pos) + |data|
      ensures output[pos..] == old(output[pos + |data|..])
    {
      ExtendFromSliceWild(data, |data|);
    }

    /** Appends `n` bytes from `start` on, as they come to stand there: offset 1 is a fill, any
        other offset seeds one period and doubles it. */
    method ExtendFromWithinOverlapping(start: nat, n: nat)
      requires Valid() && start < pos && pos + n <= output.Length
      modifies this, output
      ensures Valid() && Contents() == Copy(old(Contents()), old(pos) - start, n)
      ensures pos == old(pos) + n && output[pos..] == old(output[pos + n..])
    {
      hide Copy;
      var offset := pos - start;
      if offset == 1 {
        pos := FillLast(output, start, pos, n);
      } else {
        pos := CopyWithinOverlapping(output, start, pos, n, offset);
      }
    }
  }
}
