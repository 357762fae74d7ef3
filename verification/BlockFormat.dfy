/**
  The LZ4 block format as data: a block is a list of sequences, each a run of literals
  followed by a match, closed by a run of literals.  `Print` is the byte encoding, `Parse`
  reads it back, and `Run` is its meaning on a window of history bytes.
 */
module BlockFormat {
  import opened Core

  datatype Block =
    | Last(lits: seq<byte>)
    | More(lits: seq<byte>, offset: nat, len: nat, rest: Block)

  /** Every match is encodable: a nonzero 16-bit offset and at least `MINMATCH` bytes. */
  predicate WellFormed(b: Block) {
    b.More? ==> 1 <= b.offset <= MAX_DISTANCE && MINMATCH <= b.len && WellFormed(b.rest)
  }

  // ----- printing

  function PrintInteger(n: nat): (s: seq<byte>)
    ensures 1 <= |s| == n / 255 + 1
  {
    if n < 255 then [n] else [255] + PrintInteger(n - 255)
  }

  function Nibble(n: nat): nat {
    if n < 15 then n else 15
  }

  function PrintExtension(n: nat): seq<byte> {
    if n < 15 then [] else PrintInteger(n - 15)
  }

  /** A token, the rest of the literal length, and the literals. */
  function PrintRun(lits: seq<byte>, matchNibble: nat): seq<byte>
    requires matchNibble < 16
  {
    [Nibble(|lits|) * 16 + matchNibble] + PrintExtension(|lits|) + lits
  }

  function PrintOffset(offset: nat): (s: seq<byte>)
    requires offset <= MAX_DISTANCE
    ensures |s| == 2
  {
    [offset % 256, offset / 256]
  }

  /** A match offset and the rest of the match length. */
  function PrintMatch(offset: nat, len: nat): seq<byte>
    requires offset <= MAX_DISTANCE && MINMATCH <= len
  {
    PrintOffset(offset) + PrintExtension(len - MINMATCH)
  }

  function PrintSequence(lits: seq<byte>, offset: nat, len: nat): seq<byte>
    requires offset <= MAX_DISTANCE && MINMATCH <= len
  {
    PrintRun(lits, Nibble(len - MINMATCH)) + PrintMatch(offset, len)
  }

  function Print(b: Block): seq<byte>
    requires WellFormed(b)
  {
    match b
    case Last(lits) => PrintRun(lits, 0)
    case More(lits, offset, len, rest) => PrintSequence(lits, offset, len) + Print(rest)
  }

  /** A block byte by byte: two literals, a match of 24 bytes from 258 bytes back, one literal. */
  lemma KnownBlock(a: byte, b: byte, c: byte)
    ensures Print(More([a, b], 258, 24, Last([c]))) == [0x2F, a, b, 0x02, 0x01, 0x05, 0x10, c]
  {
    assert PrintRun([a, b], 15) == [0x2F, a, b] && PrintRun([c], 0) == [0x10, c];
    assert PrintMatch(258, 24) == [0x02, 0x01, 0x05];
  }

  // ----- parsing

  /** A length and the position behind its encoding. */
  datatype Length = Length(n: nat, next: nat)

  /** The value of the extension bytes at `p`: every 255 is followed by another byte. */
  function ReadExtension(b: seq<byte>, p: nat): (r: Option<Length>)
    ensures r.Some? ==> p < r.value.next <= |b|
    decreases |b| - p
  {
    if p >= |b| then None
    else if b[p] != 255 then Some(Length(b[p], p + 1))
    else
      match ReadExtension(b, p + 1)
      case None => None
      case Some(r) => Some(Length(255 + r.n, r.next))
  }

  function ReadLength(b: seq<byte>, p: nat, nibble: nat): (r: Option<Length>)
    ensures r.Some? ==> p <= r.value.next && (p <= |b| ==> r.value.next <= |b|)
  {
    if nibble != 15 then Some(Length(nibble, p))
    else
      match ReadExtension(b, p)
      case None => None
      case Some(r) => Some(Length(15 + r.n, r.next))
  }

  function OffsetAt(b: seq<byte>, p: nat): nat
    requires p + 2 <= |b|
  {
    b[p] as int + 256 * b[p + 1] as int
  }

  /** The literals of the sequence at `p`: their number and their position. */
  function ReadRun(b: seq<byte>, p: nat): (r: Option<Length>)
    requires p < |b|
    ensures r.Some? ==> p < r.value.next && r.value.next + r.value.n <= |b|
  {
    match ReadLength(b, p + 1, b[p] / 16)
    case None => None
    case Some(ll) => if ll.next + ll.n > |b| then None else Some(ll)
  }

  datatype Match = Match(offset: nat, len: nat, next: nat)

  /** The match at `q`, with `nibble` its length nibble. */
  function ReadMatch(b: seq<byte>, q: nat, nibble: nat): (r: Option<Match>)
    ensures r.Some? ==> q < r.value.next <= |b| && r.value.offset != 0 && MINMATCH <= r.value.len
  {
    if q + 2 > |b| || OffsetAt(b, q) == 0 then None
    else
      match ReadLength(b, q + 2, nibble)
      case None => None
      case Some(ml) => Some(Match(OffsetAt(b, q), MINMATCH + ml.n, ml.next))
  }

  datatype Token =
    | Malformed
    | Final(lits: seq<byte>)
    | Full(lits: seq<byte>, offset: nat, len: nat, next: nat)

  /** The sequence at `p`.  The match nibble of the last token is not read. */
  function ParseToken(b: seq<byte>, p: nat): (t: Token)
    ensures t.Full? ==> p < t.next <= |b| && t.offset != 0 && MINMATCH <= t.len
  {
    if p >= |b| then Malformed else
    match ReadRun(b, p)
    case None => Malformed
    case Some(run) =>
      var q := run.next + run.n;
      if q == |b| then Final(b[run.next..q])
      else
        match ReadMatch(b, q, b[p] % 16)
        case None => Malformed
        case Some(m) => Full(b[run.next..q], m.offset, m.len, m.next)
  }

  /** The block encoded by `b[p..]`. */
  function Parse(b: seq<byte>, p: nat): Option<Block>
    decreases |b| - p
  {
    match ParseToken(b, p)
    case Malformed => None
    case Final(lits) => Some(Last(lits))
    case Full(lits, offset, len, next) =>
      match Parse(b, next)
      case None => None
      case Some(rest) => Some(More(lits, offset, len, rest))
  }

  // ----- meaning

  /** The window `w` followed by the `n` bytes that a match `offset` bytes back appends to it,
      one byte at a time, so that a match may read what it has itself appended. */
  function Copy(w: seq<byte>, offset: nat, n: nat): (r: seq<byte>)
    requires 1 <= offset <= |w|
    ensures |r| == |w| + n
    ensures w <= r
    decreases n
  {
    if n == 0 then w else Copy(w + [w[|w| - offset]], offset, n - 1)
  }

  /** `w` followed by the bytes that block `b` decodes to, when every match stays inside
      the history in front of it. */
  function Run(b: Block, w: seq<byte>): (r: Option<seq<byte>>)
    ensures r.Some? ==> w <= r.value
    decreases b
  {
    match b
    case Last(lits) => Some(w + lits)
    case More(lits, offset, len, rest) =>
      if offset == 0 || offset > |w| + |lits| then None
      else Run(rest, Copy(w + lits, offset, len))
  }

  /** The number of bytes a block decodes to. */
  function Size(b: Block): nat {
    match b
    case Last(lits) => |lits|
    case More(lits, _, len, rest) => |lits| + len + Size(rest)
  }

  /** Every match of `b` stays inside a history that starts with `n` bytes. */
  predicate Reaches(b: Block, n: nat) {
    b.More? ==>
      && 1 <= b.offset <= n + |b.lits|
      && Reaches(b.rest, n + |b.lits| + b.len)
  }

  /** Whether a block runs, and how much it appends, depends on the window's length alone. */
  lemma {:induction false} RunLength(b: Block, w: seq<byte>)
    ensures Run(b, w).Some? <==> Reaches(b, |w|)
    ensures Run(b, w).Some? ==> |Run(b, w).value| == |w| + Size(b)
    decreases b
  {
    if b.More? && 1 <= b.offset <= |w| + |b.lits| {
      RunLength(b.rest, Copy(w + b.lits, b.offset, b.len));
    }
  }

  // ----- Copy is the only byte string in which every appended byte repeats the one `offset` back

  lemma {:induction false} CopyRepeats(w: seq<byte>, offset: nat, n: nat)
    requires 1 <= offset <= |w|
    ensures forall i :: |w| <= i < |w| + n ==> Copy(w, offset, n)[i] == Copy(w, offset, n)[i - offset]
    decreases n
  {
    if n != 0 {
      var w' := w + [w[|w| - offset]];
      CopyRepeats(w', offset, n - 1);
      var r := Copy(w', offset, n - 1);
      assert r[|w|] == w'[|w|] && r[|w| - offset] == w'[|w| - offset];
    }
  }

  lemma {:induction false} CopyUnique(w: seq<byte>, offset: nat, n: nat, r: seq<byte>)
    requires 1 <= offset <= |w|
    requires |r| == |w| + n && w <= r
    requires forall i :: |w| <= i < |r| ==> r[i] == r[i - offset]
    ensures r == Copy(w, offset, n)
    decreases n
  {
    if n != 0 {
      var w' := w + [w[|w| - offset]];
      assert r[|w|] == r[|w| - offset] == w[|w| - offset];
      assert w' <= r;
      CopyUnique(w', offset, n - 1, r);
    }
  }

  /** A match may be copied in two parts. */
  lemma {:induction false} CopyInParts(w: seq<byte>, offset: nat, n: nat, m: nat)
    requires 1 <= offset <= |w|
    ensures Copy(w, offset, n + m) == Copy(Copy(w, offset, n), offset, m)
    decreases n
  {
    if n != 0 {
      CopyInParts(w + [w[|w| - offset]], offset, n - 1, m);
    }
  }

  /** A match inside `w` copies the same bytes whatever stands in front of `w`. */
  lemma CopyBehind(front: seq<byte>, w: seq<byte>, offset: nat, n: nat)
    requires 1 <= offset <= |w|
    ensures Copy(front + w, offset, n) == front + Copy(w, offset, n)
  {
    CopyRepeats(w, offset, n);
    var r := Copy(w, offset, n);
    var s := front + r;
    assert s[..|front + w|] == front + w;
    forall i | |front + w| <= i < |s|
      ensures s[i] == s[i - offset]
    {
      assert s[i] == r[i - |front|] && s[i - offset] == r[i - |front| - offset];
    }
    CopyUnique(front + w, offset, n, s);
  }

  /** A match that lies wholly in `dict`, `back` bytes from its end. */
  lemma CopyFromFront(dict: seq<byte>, w: seq<byte>, back: nat, n: nat)
    requires 1 <= n <= back <= |dict|
    ensures Copy(dict + w, back + |w|, n) == dict + w + dict[|dict| - back..|dict| - back + n]
  {
    var s := dict + w + dict[|dict| - back..|dict| - back + n];
    forall i | |dict + w| <= i < |s|
      ensures s[i] == s[i - (back + |w|)]
    {
    }
    CopyUnique(dict + w, back + |w|, n, s);
  }

  // ----- Parse inverts Print

  /** `b` holds the bytes `s` at `p`. */
  predicate At(b: seq<byte>, p: nat, s: seq<byte>) {
    p + |s| <= |b| && b[p..p + |s|] == s
  }

  lemma AtSplit(b: seq<byte>, p: nat, s: seq<byte>, t: seq<byte>)
    requires At(b, p, s + t)
    ensures At(b, p, s) && At(b, p + |s|, t)
  {
    assert b[p..p + |s|] == (s + t)[..|s|];
    assert b[p + |s|..p + |s| + |t|] == (s + t)[|s|..];
  }

  lemma {:induction false} ReadPrintedInteger(b: seq<byte>, p: nat, n: nat)
    requires At(b, p, PrintInteger(n))
    ensures ReadExtension(b, p) == Some(Length(n, p + |PrintInteger(n)|))
    decreases n
  {
    assert b[p] == b[p..p + |PrintInteger(n)|][0];
    if n >= 255 {
      AtSplit(b, p, [255], PrintInteger(n - 255));
      ReadPrintedInteger(b, p + 1, n - 255);
    }
  }

  lemma ReadPrintedLength(b: seq<byte>, p: nat, n: nat)
    requires At(b, p, PrintExtension(n))
    ensures ReadLength(b, p, Nibble(n)) == Some(Length(n, p + |PrintExtension(n)|))
  {
    if n >= 15 {
      ReadPrintedInteger(b, p, n - 15);
    }
  }

  lemma TokenByte(b: seq<byte>, p: nat, hi: nat, lo: nat)
    requires hi < 16 && lo < 16 && At(b, p, [hi * 16 + lo])
    ensures p < |b| && b[p] / 16 == hi && b[p] % 16 == lo
  {
    assert b[p] == b[p..p + 1][0];
  }

  lemma OffsetBytes(b: seq<byte>, p: nat, offset: nat)
    requires offset <= MAX_DISTANCE && At(b, p, PrintOffset(offset))
    ensures p + 2 <= |b| && OffsetAt(b, p) == offset
  {
    assert b[p] == b[p..p + 2][0] && b[p + 1] == b[p..p + 2][1];
  }

  /** Where the fields of a printed literal run lie. */
  lemma RunFields(b: seq<byte>, p: nat, lits: seq<byte>, matchNibble: nat)
    requires matchNibble < 16
    requires At(b, p, PrintRun(lits, matchNibble))
    ensures p < |b| && b[p] % 16 == matchNibble
    ensures var start := p + 1 + |PrintExtension(|lits|)|;
            && start + |lits| == p + |PrintRun(lits, matchNibble)| <= |b|
            && ReadRun(b, p) == Some(Length(|lits|, start))
            && b[start..start + |lits|] == lits
  {
    hide ReadLength, PrintExtension;
    var token := [Nibble(|lits|) * 16 + matchNibble];
    var x := PrintExtension(|lits|);
    AtSplit(b, p, token + x, lits);
    AtSplit(b, p, token, x);
    TokenByte(b, p, Nibble(|lits|), matchNibble);
    ReadPrintedLength(b, p + 1, |lits|);
  }

  /** Where the fields of a printed match lie. */
  lemma MatchFields(b: seq<byte>, p: nat, offset: nat, len: nat)
    requires 1 <= offset <= MAX_DISTANCE && MINMATCH <= len
    requires At(b, p, PrintMatch(offset, len))
    ensures ReadMatch(b, p, Nibble(len - MINMATCH))
         == Some(Match(offset, len, p + |PrintMatch(offset, len)|))
  {
    hide ReadLength, PrintExtension, OffsetAt;
    AtSplit(b, p, PrintOffset(offset), PrintExtension(len - MINMATCH));
    OffsetBytes(b, p, offset);
    ReadPrintedLength(b, p + 2, len - MINMATCH);
  }

  lemma ParsePrintedSequence(b: seq<byte>, p: nat, lits: seq<byte>, offset: nat, len: nat)
    requires 1 <= offset <= MAX_DISTANCE && MINMATCH <= len
    requires At(b, p, PrintSequence(lits, offset, len))
    ensures ParseToken(b, p) == Full(lits, offset, len, p + |PrintSequence(lits, offset, len)|)
  {
    hide PrintRun, PrintMatch, ReadRun, ReadMatch;
    var s, t := PrintRun(lits, Nibble(len - MINMATCH)), PrintMatch(offset, len);
    AtSplit(b, p, s, t);
    RunFields(b, p, lits, Nibble(len - MINMATCH));
    MatchFields(b, p + |s|, offset, len);
  }

  lemma {:induction false} ParsePrinted(b: seq<byte>, p: nat, block: Block)
    requires WellFormed(block)
    requires p <= |b| && b[p..] == Print(block)
    ensures Parse(b, p) == Some(block)
    decreases block
  {
    hide PrintRun, PrintSequence, ReadRun, ReadMatch;
    match block
    case Last(lits) =>
      RunFields(b, p, lits, 0);
    case More(lits, offset, len, rest) =>
      var s := PrintSequence(lits, offset, len);
      AtSplit(b, p, s, Print(rest));
      ParsePrintedSequence(b, p, lits, offset, len);
      assert b[p + |s|..] == Print(rest);
      ParsePrinted(b, p + |s|, rest);
  }

  /** Printing loses nothing: every well-formed block is read back exactly. */
  lemma PrintParse(block: Block)
    requires WellFormed(block)
    ensures Parse(Print(block), 0) == Some(block)
  {
    assert Print(block)[0..] == Print(block);
    ParsePrinted(Print(block), 0, block);
  }

  // ----- a block only sees the last MAX_DISTANCE bytes of its window

  /** `w` ends in the same bytes as `v`, as far back as a match can reach into `v`. */
  predicate Covers(w: seq<byte>, v: seq<byte>) {
    var k := Min(|v|, MAX_DISTANCE);
    k <= |w| && w[|w| - k..] == v[|v| - k..]
  }

  lemma CoversAt(w: seq<byte>, v: seq<byte>, d: nat)
    requires Covers(w, v) && 1 <= d <= MAX_DISTANCE && d <= |v|
    ensures d <= |w| && w[|w| - d] == v[|v| - d]
  {
    var k := Min(|v|, MAX_DISTANCE);
    assert w[|w| - d] == w[|w| - k..][k - d];
    assert v[|v| - d] == v[|v| - k..][k - d];
  }

  lemma CoversAppend(w: seq<byte>, v: seq<byte>, x: seq<byte>)
    requires Covers(w, v)
    ensures Covers(w + x, v + x)
  {
    var w', v' := w + x, v + x;
    var k := Min(|v'|, MAX_DISTANCE);
    assert k <= |w'|;
    var tail, tail' := w'[|w'| - k..], v'[|v'| - k..];
    forall i | 0 <= i < k
      ensures tail[i] == tail'[i]
    {
      var d := k - i;
      if d > |x| {
        CoversAt(w, v, d - |x|);
      }
    }
  }

  /** A match appends the same bytes `m` to both windows. */
  lemma {:induction false} CoversCopy(w: seq<byte>, v: seq<byte>, offset: nat, n: nat)
    returns (m: seq<byte>)
    requires Covers(w, v) && 1 <= offset <= MAX_DISTANCE && offset <= |v|
    ensures offset <= |w|
    ensures Copy(w, offset, n) == w + m && Copy(v, offset, n) == v + m
    decreases n
  {
    CoversAt(w, v, offset);
    if n == 0 {
      m := [];
    } else {
      var x := [v[|v| - offset]];
      CoversAppend(w, v, x);
      m := CoversCopy(w + x, v + x, offset, n - 1);
      m := x + m;
      assert w + m == w + x + m[1..] && v + m == v + x + m[1..];
    }
  }

  /** A sequence appends the same bytes `s` to both windows. */
  lemma CoversSequence(w: seq<byte>, v: seq<byte>, lits: seq<byte>, offset: nat, n: nat)
    returns (s: seq<byte>)
    requires Covers(w, v) && 1 <= offset <= MAX_DISTANCE && offset <= |v| + |lits|
    ensures offset <= |w| + |lits|
    ensures Copy(v + lits, offset, n) == v + s && Copy(w + lits, offset, n) == w + s
    ensures Covers(w + s, v + s)
  {
    CoversAppend(w, v, lits);
    var m := CoversCopy(w + lits, v + lits, offset, n);
    s := lits + m;
    assert v + s == v + lits + m && w + s == w + lits + m;
    CoversAppend(w, v, s);
  }

  /** Whatever a well-formed block appends to `v`, it appends to every window that covers `v`. */
  lemma {:induction false} RunCovered(b: Block, w: seq<byte>, v: seq<byte>)
    requires WellFormed(b) && Covers(w, v)
    requires Run(b, v).Some?
    ensures Run(b, w) == Some(w + Run(b, v).value[|v|..])
    decreases b
  {
    hide Copy, Covers;
    match b
    case Last(lits) =>
      assert (v + lits)[|v|..] == lits;
    case More(lits, offset, len, rest) =>
      var s := CoversSequence(w, v, lits, offset, len);
      RunCovered(rest, w + s, v + s);
      var r := Run(rest, v + s).value;
      assert r[|v|..] == s + r[|v + s|..];
      assert w + s + r[|v + s|..] == w + (s + r[|v + s|..]);
  }

  // ----- how large a printed block gets

  lemma PrintedLength(n: nat)
    ensures |PrintExtension(n)| == if n < 15 then 0 else (n - 15) / 255 + 1
  {
  }

  /** A sequence takes at most one byte more than it stands for per 255 literals. */
  lemma SequenceBound(lits: seq<byte>, offset: nat, len: nat)
    requires offset <= MAX_DISTANCE && MINMATCH <= len
    ensures |PrintSequence(lits, offset, len)| <= |lits| + len + |lits| / 255
  {
    PrintedLength(|lits|);
    PrintedLength(len - MINMATCH);
  }

  lemma LastBound(lits: seq<byte>)
    ensures |PrintRun(lits, 0)| <= |lits| + |lits| / 255 + 2
  {
    PrintedLength(|lits|);
  }

  lemma QuotientsAdd(a: nat, b: nat)
    ensures a / 255 + b / 255 <= (a + b) / 255
  {
  }

  /** A block is never larger than what it decodes to by more than 2 bytes and one in 255. */
  lemma {:induction false} PrintBound(b: Block)
    requires WellFormed(b)
    ensures |Print(b)| <= Size(b) + Size(b) / 255 + 2
    decreases b
  {
    match b
    case Last(lits) => LastBound(lits);
    case More(lits, offset, len, rest) =>
      SequenceBound(lits, offset, len);
      PrintBound(rest);
      QuotientsAdd(|lits|, len + Size(rest));
      QuotientsAdd(len, Size(rest));
  }
}
