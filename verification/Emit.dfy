/** The sequence writer: each write splits its bytes off the front of what is left of the output. */
module Emit {
  import opened Core
  import opened BlockFormat
  import opened FastCopy

  function MaxOutputSize(n: nat): nat {
    16 + 4 + n * 110 / 100
  }

  /** A tenth more than the input, and 20 bytes. */
  lemma PromisedSize(n: nat)
    ensures MaxOutputSize(n) == n + n / 10 + 20
  {
  }

  /** Every block fits in a buffer of the promised size. */
  lemma BlockFits(b: Block)
    requires WellFormed(b)
    ensures |Print(b)| <= MaxOutputSize(Size(b))
  {
    PrintBound(b);
  }

  method PutByte(out: array<byte>, w: nat, b: byte) returns (w': nat)
    requires w < out.Length
    modifies out
    ensures w' == w + 1 && out[..w'] == old(out[..w]) + [b]
    ensures forall i :: w' <= i < out.Length ==> out[i] == old(out[i])
  {
    out[w] := b;
    w' := w + 1;
  }

  method PutSlice(out: array<byte>, w: nat, bytes: seq<byte>) returns (w': nat)
    requires w + |bytes| <= out.Length
    modifies out
    ensures w' == w + |bytes| && out[..w'] == old(out[..w]) + bytes
  {
    SliceCopy(bytes, out, w);
    w' := w + |bytes|;
  }

  method PutInteger(out: array<byte>, w: nat, n: nat) returns (w': nat)
    requires w + |PrintInteger(n)| <= out.Length
    modifies out
    ensures w' == w + |PrintInteger(n)| && out[..w'] == old(out[..w]) + PrintInteger(n)
  {
    var left := n;
    w' := w;
    ghost var was := out[..w];
    while left >= 255
      invariant w <= w' && w' + |PrintInteger(left)| == w + |PrintInteger(n)|
      invariant out[..w'] + PrintInteger(left) == was + PrintInteger(n)
    {
      ghost var now := out[..w'];
      left := left - 255;
      w' := PutByte(out, w', 255);
      assert now + PrintInteger(left + 255) == now + [255] + PrintInteger(left);
    }
    w' := PutByte(out, w', left);
  }

  /** The rest of a length, when its nibble is full. */
  method PutExtension(out: array<byte>, w: nat, n: nat) returns (w': nat)
    requires w + |PrintExtension(n)| <= out.Length
    modifies out
    ensures w' == w + |PrintExtension(n)| && out[..w'] == old(out[..w]) + PrintExtension(n)
  {
    w' := w;
    if n >= 15 {
      w' := PutInteger(out, w, n - 15);
    }
  }

  lemma RunAssembled(was: seq<byte>, literals: seq<byte>, matchNibble: nat)
    requires matchNibble < 16
    ensures |PrintRun(literals, matchNibble)| == 1 + |PrintExtension(|literals|)| + |literals|
    ensures was + [Nibble(|literals|) * 16 + matchNibble] + PrintExtension(|literals|) + literals
         == was + PrintRun(literals, matchNibble)
  {
    hide PrintExtension;
  }

  method PutRun(out: array<byte>, w: nat, literals: seq<byte>, matchNibble: nat) returns (w': nat)
    requires matchNibble < 16 && w + |PrintRun(literals, matchNibble)| <= out.Length
    modifies out
    ensures w' == w + |PrintRun(literals, matchNibble)|
    ensures out[..w'] == old(out[..w]) + PrintRun(literals, matchNibble)
  {
    RunAssembled(out[..w], literals, matchNibble);
    var token := Nibble(|literals|) * 16 + matchNibble;
    hide PrintRun, PrintExtension, Nibble;
    w' := PutByte(out, w, token);
    w' := PutExtension(out, w', |literals|);
    w' := PutSlice(out, w', literals);
  }

  method HandleLastLiterals(out: array<byte>, w: nat, input: seq<byte>, start: nat) returns (w': nat)
    requires start <= |input| && w + |PrintRun(input[start..], 0)| <= out.Length
    modifies out
    ensures w' == w + |PrintRun(input[start..], 0)|
    ensures out[..w'] == old(out[..w]) + PrintRun(input[start..], 0)
  {
    w' := PutRun(out, w, input[start..], 0);
  }

  /** Writes all of `bytes`, of which the first `n` are wanted. */
  method PutWide(out: array<byte>, w: nat, bytes: seq<byte>, n: nat)
    requires n <= |bytes| && w + |bytes| <= out.Length
    modifies out
    ensures out[..w + n] == old(out[..w]) + bytes[..n]
    ensures forall i :: w + |bytes| <= i < out.Length ==> out[i] == old(out[i])
  {
    SliceCopy(bytes, out, w);
  }

  lemma ShortTail(was: seq<byte>, run: seq<byte>, offset: nat, matchLen: nat)
    requires matchLen < 15 && offset <= MAX_DISTANCE
    ensures was + run + [offset % 256] + [offset / 256] == was + (run + PrintMatch(offset, matchLen + MINMATCH))
  {
  }

  /** A sequence without length extensions: 16 literal bytes are written whatever their number,
      and the offset overwrites the excess. */
  method EmitShort(out: array<byte>, w: nat, input: seq<byte>, literalStart: nat, litLen: nat, offset: nat,
                   matchLen: nat)
    returns (w': nat)
    requires litLen < 15 && matchLen < 15 && offset <= MAX_DISTANCE
    requires literalStart + 16 <= |input| && w + 19 <= out.Length
    modifies out
    ensures w' == w + 3 + litLen
    ensures out[..w'] == old(out[..w])
                      + PrintSequence(input[literalStart..literalStart + litLen], offset, matchLen + MINMATCH)
    ensures forall i :: w + 19 <= i < out.Length ==> out[i] == old(out[i])
  {
    ghost var was := out[..w];
    ghost var literals := input[literalStart..literalStart + litLen];
    var src := input[literalStart..literalStart + 16];
    w' := PutByte(out, w, litLen * 16 + matchLen);
    PutWide(out, w', src, litLen);
    assert src[..litLen] == literals;
    w' := w' + litLen;
    assert out[..w'] == was + PrintRun(literals, matchLen);
    hide PrintRun, PrintOffset;
    w' := PutByte(out, w', offset % 256);
    w' := PutByte(out, w', offset / 256);
    ShortTail(was, PrintRun(literals, matchLen), offset, matchLen);
  }

  method PutOffset(out: array<byte>, w: nat, offset: nat) returns (w': nat)
    requires offset <= MAX_DISTANCE && w + 2 <= out.Length
    modifies out
    ensures w' == w + 2 && out[..w'] == old(out[..w]) + PrintOffset(offset)
  {
    w' := PutSlice(out, w, [offset % 256, offset / 256]);
  }

  /** Token, literal run, offset, match length. */
  method EmitSequence(out: array<byte>, w: nat, input: seq<byte>, literalStart: nat, litLen: nat, offset: nat,
                      matchLen: nat)
    returns (w': nat)
    requires literalStart + litLen <= |input| && offset <= MAX_DISTANCE
    requires var lits := input[literalStart..literalStart + litLen];
             w + |PrintSequence(lits, offset, matchLen + MINMATCH)| <= out.Length
    modifies out
    ensures var s := PrintSequence(input[literalStart..literalStart + litLen], offset, matchLen + MINMATCH);
            w' == w + |s| && out[..w'] == old(out[..w]) + s
  {
    if litLen < 15 && matchLen < 15 {
      if literalStart + 16 <= |input| && w + 19 <= out.Length {
        w' := EmitShort(out, w, input, literalStart, litLen, offset, matchLen);
        return;
      }
    }
    w' := EmitLong(out, w, input[literalStart..literalStart + litLen], offset, matchLen);
  }

  /** A sequence field by field. */
  method EmitLong(out: array<byte>, w: nat, literals: seq<byte>, offset: nat, matchLen: nat) returns (w': nat)
    requires offset <= MAX_DISTANCE
    requires w + |PrintSequence(literals, offset, matchLen + MINMATCH)| <= out.Length
    modifies out
    ensures w' == w + |PrintSequence(literals, offset, matchLen + MINMATCH)|
    ensures out[..w'] == old(out[..w]) + PrintSequence(literals, offset, matchLen + MINMATCH)
  {
    hide PrintRun, PrintExtension, PrintOffset;
    ghost var was, run := out[..w], PrintRun(literals, Nibble(matchLen));
    w' := PutRun(out, w, literals, Nibble(matchLen));
    w' := PutOffset(out, w', offset);
    w' := PutExtension(out, w', matchLen);
    assert was + run + PrintOffset(offset) + PrintExtension(matchLen)
        == was + (run + (PrintOffset(offset) + PrintExtension(matchLen)));
  }
}
