/** The hash table of positions, and the word-wise search for the first differing byte. */
module HashTables {
  import opened Core
  import opened MatchFinder

  /** A table of positions.  An entry holds `width` values, 2^16 or 2^32; a position is truncated
      to that on the way in.  The hash of eight bytes is arbitrary. */
  class HashTable {
    const entries: array<nat>
    const width: nat
    const hash: seq<byte> -> nat

    /** Every entry fits its width. */
    ghost predicate Valid()
      reads entries
    {
      && entries.Length > 0 && 0 < width <= U32_MAX + 1
      && forall i :: 0 <= i < entries.Length ==> entries[i] < width
    }

    constructor (n: nat, width: nat, hash: seq<byte> -> nat)
      requires n > 0 && 0 < width <= U32_MAX + 1
      ensures Valid() && fresh(entries) && entries.Length == n && this.width == width && this.hash == hash
      ensures entries[..] == seq(n, _ => 0)
    {
      entries := new nat[n](_ => 0);
      this.width := width;
      this.hash := hash;
    }

    function Slot(bytes: seq<byte>): nat
      requires entries.Length > 0
    {
      hash(bytes) % entries.Length
    }

    method GetAt(idx: nat) returns (val: nat)
      requires Valid() && idx < entries.Length
      ensures val == entries[..][idx] && val <= U32_MAX
    {
      val := entries[idx];
    }

    method PutAt(idx: nat, val: nat)
      requires Valid() && idx < entries.Length
      modifies entries
      ensures Valid() && entries[..] == old(entries[..])[idx := val % width]
    {
      entries[idx] := val % width;
    }

    method Clear()
      requires Valid()
      modifies entries
      ensures Valid() && entries[..] == seq(entries.Length, _ => 0)
    {
      for i := 0 to entries.Length
        invariant forall k :: 0 <= k < i ==> entries[k] == 0
      {
        entries[i] := 0;
      }
    }

    /** Subtracts `offset` from every entry, stopping at zero. */
    method Reposition(offset: nat)
      requires Valid()
      modifies entries
      ensures Valid() && entries[..] == Repositioned(old(entries[..]), offset)
    {
      for i := 0 to entries.Length
        invariant forall k :: 0 <= k < i ==> entries[k] == SaturatingSub(old(entries[k]), offset)
        invariant forall k :: i <= k < entries.Length ==> entries[k] == old(entries[k])
      {
        entries[i] := SaturatingSub(entries[i], offset);
      }
    }
  }

  function Repositioned(t: seq<nat>, offset: nat): (r: seq<nat>)
    ensures |r| == |t|
  {
    seq(|t|, i requires 0 <= i < |t| => SaturatingSub(t[i], offset))
  }

  // ----- machine words as their bits, lowest first

  function LowBits(n: nat, k: nat): (r: seq<bool>)
    ensures |r| == k
  {
    if k == 0 then [] else [n % 2 == 1] + LowBits(n / 2, k - 1)
  }

  function Pow2(k: nat): (n: nat)
    ensures n > 0
  {
    if k == 0 then 1 else 2 * Pow2(k - 1)
  }

  /** A little-endian word read from memory. */
  function Word(s: seq<byte>): (r: seq<bool>)
    ensures |r| == 8 * |s|
  {
    if s == [] then [] else LowBits(s[0], 8) + Word(s[1..])
  }

  function Xor(a: seq<bool>, b: seq<bool>): (r: seq<bool>)
    requires |a| == |b|
    ensures |r| == |a| && forall i :: 0 <= i < |a| ==> r[i] == (a[i] != b[i])
  {
    seq(|a|, i requires 0 <= i < |a| => a[i] != b[i])
  }

  /** The number of zero bits below the lowest set bit; all of them in a zero word. */
  function TrailingZeros(a: seq<bool>): (n: nat)
    ensures n <= |a|
    ensures forall i :: 0 <= i < n ==> !a[i]
    ensures n < |a| ==> a[n]
  {
    if a == [] || a[0] then 0 else 1 + TrailingZeros(a[1..])
  }

  lemma {:induction false} BitsInjective(x: nat, y: nat, k: nat)
    requires x < Pow2(k) && y < Pow2(k) && LowBits(x, k) == LowBits(y, k)
    ensures x == y
    decreases k
  {
    if k != 0 {
      assert LowBits(x, k)[0] == LowBits(y, k)[0];
      assert LowBits(x, k)[1..] == LowBits(x / 2, k - 1) && LowBits(y, k)[1..] == LowBits(y / 2, k - 1);
      BitsInjective(x / 2, y / 2, k - 1);
    }
  }

  lemma BytesDiffer(x: byte, y: byte)
    requires x != y
    ensures TrailingZeros(Xor(LowBits(x, 8), LowBits(y, 8))) < 8
  {
    var a, b := LowBits(x, 8), LowBits(y, 8);
    if TrailingZeros(Xor(a, b)) == 8 {
      assert a == b;
      PowersOf2();
      BitsInjective(x, y, 8);
    }
  }

  lemma PowersOf2()
    ensures Pow2(8) == 256
  {
    assert Pow2(4) == 16;
  }

  lemma BytesEqual(a: seq<bool>)
    ensures TrailingZeros(Xor(a, a)) == |a|
  {
  }

  /** The lowest set bit of the difference lies in the first differing byte. */
  lemma {:induction false} LowestDifference(x: seq<byte>, y: seq<byte>)
    requires |x| == |y|
    ensures TrailingZeros(Xor(Word(x), Word(y))) / 8 == CommonPrefix(x, 0, |x|, y, 0)
    decreases |x|
  {
    if x != [] {
      hide LowBits, Xor, Word;
      var low, high := Xor(LowBits(x[0], 8), LowBits(y[0], 8)), Xor(Word(x[1..]), Word(y[1..]));
      FirstBytes(x, y);
      ZerosInFront(low, high);
      if x[0] == y[0] {
        BytesEqual(LowBits(x[0], 8));
        LowestDifference(x[1..], y[1..]);
        PrefixOfTails(x, y, 0);
      } else {
        BytesDiffer(x[0], y[0]);
      }
    }
  }

  lemma FirstBytes(x: seq<byte>, y: seq<byte>)
    requires |x| == |y| > 0
    ensures Xor(Word(x), Word(y)) == Xor(LowBits(x[0], 8), LowBits(y[0], 8)) + Xor(Word(x[1..]), Word(y[1..]))
  {
    hide LowBits;
  }

  lemma {:induction false} ZerosInFront(low: seq<bool>, high: seq<bool>)
    ensures TrailingZeros(low + high)
         == if TrailingZeros(low) == |low| then |low| + TrailingZeros(high) else TrailingZeros(low)
    decreases |low|
  {
    if low == [] {
      assert low + high == high;
    } else {
      assert (low + high)[1..] == low[1..] + high;
      ZerosInFront(low[1..], high);
    }
  }

  lemma {:induction false} PrefixOfTails(x: seq<byte>, y: seq<byte>, k: nat)
    requires 1 <= |x| == |y| && k < |x|
    ensures CommonPrefix(x[1..], k, |x| - 1, y[1..], k) == CommonPrefix(x, k + 1, |x|, y, k + 1)
    decreases |x| - k
  {
    if k + 1 < |x| {
      PrefixOfTails(x, y, k + 1);
    }
  }

  // ----- counting equal bytes

  function Zeros(n: nat): seq<bool> {
    seq(n, _ => false)
  }

  lemma ZeroWord(d: seq<bool>)
    ensures TrailingZeros(d) == |d| <==> d == Zeros(|d|)
  {
    if TrailingZeros(d) == |d| {
      assert d == Zeros(|d|);
    }
  }

  /** Compares `m` bytes as one word: they are equal, or they differ first at the byte that holds
      the lowest set bit of the difference. */
  method CompareWord(a: seq<byte>, b: seq<byte>, at: nat, m: nat) returns (equal: bool, n: nat)
    requires 1 <= m && at + m <= |a| && at + m <= |b|
    ensures equal ==> Same(a, at, b, at, m)
    ensures !equal ==> n == CommonPrefix(a, at, |a|, b, at)
  {
    hide Word, Xor;
    var x, y := a[at..at + m], b[at..at + m];
    var diff := Xor(Word(x), Word(y));
    equal := diff == Zeros(8 * m);
    n := TrailingZeros(diff) / 8;
    LowestDifference(x, y);
    ZeroWord(diff);
    CommonPrefixIs(x, 0, m, y, 0);
    CommonPrefixInWindow(a, at, |a|, b, at, x, y, 0);
  }

  /** Counts the common prefix of `a` and `b`: eight bytes at a time, then four, two and one. */
  method CountSameBytesLong(a: seq<byte>, b: seq<byte>) returns (num: nat)
    ensures num == CommonPrefix(a, 0, |a|, b, 0)
  {
    hide Same;
    var n := Min(|a|, |b|);
    ghost var goal := CommonPrefix(a, 0, |a|, b, 0);
    num := 0;
    while num + 8 <= n
      invariant num <= n && goal == num + CommonPrefix(a, num, |a|, b, num)
    {
      var equal, k := CompareWord(a, b, num, 8);
      if !equal {
        return num + k;
      }
      CommonPrefixBehind(a, num, |a|, b, num, 8);
      num := num + 8;
    }
    num := CountTail(a, b, num);
  }

  /** Fewer than eight bytes: four, two and one. */
  method CountTail(a: seq<byte>, b: seq<byte>, done: nat) returns (num: nat)
    requires done <= |a| && done <= |b| && Min(|a|, |b|) < done + 8
    ensures num == done + CommonPrefix(a, done, |a|, b, done)
  {
    var n := Min(|a|, |b|);
    num := done;
    if num + 4 <= n {
      var equal, k := CompareWord(a, b, num, 4);
      if !equal {
        return num + k;
      }
      CommonPrefixBehind(a, num, |a|, b, num, 4);
      num := num + 4;
    }
    if num + 2 <= n && a[num..num + 2] == b[num..num + 2] {
      CommonPrefixBehind(a, num, |a|, b, num, 2);
      num := num + 2;
    }
    if num + 1 <= n && a[num] == b[num] {
      num := num + 1;
    }
  }

  /** Counts the bytes from `cur` on, up to `endOffset` bytes before the end of `input`, that
      agree with `source` from `candidate` on. */
  method CountSameBytes(input: seq<byte>, cur: nat, source: seq<byte>, candidate: nat, endOffset: nat)
    returns (num: nat, cur': nat)
    requires cur + endOffset <= |input| && candidate <= |source|
    ensures num == CommonPrefix(input, cur, |input| - endOffset, source, candidate)
    ensures cur' == cur + num
  {
    var a, b := input[cur..|input| - endOffset], source[candidate..];
    WindowPrefix(input, cur, |input| - endOffset, source, candidate, 0);
    assert |a| == |input| - endOffset - cur;
    if 8 <= |a| && 8 <= |b| {
      var equal, k := CompareWord(a, b, 0, 8);
      if !equal {
        num := k;
      } else {
        CommonPrefixBehind(a, 0, |a|, b, 0, 8);
        WindowPrefix(a, 8, |a|, b, 8, 0);
        assert a[8..|a|] == a[8..] && |a[8..]| == |a| - 8;
        num := CountSameBytesLong(a[8..], b[8..]);
        num := 8 + num;
      }
    } else {
      num := CountSameBytesLong(a, b);
    }
    cur' := cur + num;
  }

  lemma {:induction false} WindowPrefix(a: seq<byte>, i: nat, end: nat, b: seq<byte>, j: nat, k: nat)
    requires i + k <= end <= |a| && j + k <= |b|
    ensures CommonPrefix(a[i..end], k, end - i, b[j..], k) == CommonPrefix(a, i + k, end, b, j + k)
    decreases end - (i + k)
  {
    if i + k < end && j + k < |b| {
      WindowPrefix(a, i, end, b, j, k + 1);
    }
  }
}
