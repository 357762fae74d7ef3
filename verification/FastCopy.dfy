/** Slice copies through two overlapping fixed-size moves. */
module FastCopy {
  import opened Core

  /** Copies the first `size` and the last `size` bytes, which together cover all of `src`. */
  method DoubleCopy(src: seq<byte>, dst: array<byte>, at: nat, size: nat)
    requires at + |src| <= dst.Length && size <= |src| <= 2 * size
    modifies dst
    ensures dst[..] == old(dst[..at]) + src + old(dst[at + |src|..])
  {
    forall i | 0 <= i < size {
      dst[at + i] := src[i];
    }
    var rest := |src| - size;
    forall i | 0 <= i < size {
      dst[at + rest + i] := src[rest + i];
    }
    assert dst[at..at + |src|] == src;
    assert dst[..at] == old(dst[..at]);
  }

  method ShortCopy(src: seq<byte>, dst: array<byte>, at: nat)
    requires at + |src| <= dst.Length && 1 <= |src| < 4
    modifies dst
    ensures dst[..] == old(dst[..at]) + src + old(dst[at + |src|..])
  {
    dst[at] := src[0];
    if |src| >= 2 {
      DoubleCopy(src, dst, at, 2);
    }
  }

  /** Copies `src` to `dst[at..]`. */
  method SliceCopy(src: seq<byte>, dst: array<byte>, at: nat)
    requires at + |src| <= dst.Length
    modifies dst
    ensures dst[..] == old(dst[..at]) + src + old(dst[at + |src|..])
  {
    if |src| == 0 {
      assert dst[..] == dst[..at] + dst[at..];
      return;
    }
    if |src| < 4 {
      ShortCopy(src, dst, at);
      return;
    }
    if |src| < 8 {
      DoubleCopy(src, dst, at, 4);
      return;
    }
    if |src| <= 16 {
      DoubleCopy(src, dst, at, 8);
      return;
    }
    if |src| <= 32 {
      DoubleCopy(src, dst, at, 16);
      return;
    }
    forall i | 0 <= i < |src| {
      dst[at + i] := src[i];
    }
    assert dst[at..at + |src|] == src;
    assert dst[..at] == old(dst[..at]);
  }
}
