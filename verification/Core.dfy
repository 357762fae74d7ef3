/** Constants, byte strings and error types shared by the encoder and the decoder. */
module Core {

  type byte = x: int | 0 <= x < 256

  /** The window of the LZ4 block format: matches reach back at most `MAX_DISTANCE` bytes. */
  const WINDOW_SIZE: nat := 65536
  const MAX_DISTANCE: nat := 65535

  /** A match starts at least `MFLIMIT` bytes before the end of the input. */
  const MFLIMIT: nat := 12
  const LAST_LITERALS: nat := 5
  const END_OFFSET: nat := LAST_LITERALS + 1
  const LZ4_MIN_LENGTH: nat := MFLIMIT + 1
  const MINMATCH: nat := 4

  /** Machine limits of a 64-bit target. */
  const U16_MAX: nat := 0xFFFF
  const U32_MAX: nat := 0xFFFF_FFFF
  const USIZE_MAX: nat := 0xFFFF_FFFF_FFFF_FFFF
  const ISIZE_MAX: nat := 0x7FFF_FFFF_FFFF_FFFF

  datatype Option<+T> = None | Some(value: T)

  datatype Result<+T, +E> = Ok(value: T) | Err(error: E)

  datatype DecompressError =
    | OutputTooSmall(expected: nat, actual: nat)
    | LiteralOutOfBounds
    | ExpectedAnotherByte
    | OffsetZero
    | OffsetOutOfBounds
    | DecodedSizeMismatch(expectedLen: nat, actualLen: nat)

  datatype CompressError = CompressedOutputTooSmall | InputTooLarge

  function Min(a: int, b: int): int {
    if a <= b then a else b
  }

  function Max(a: int, b: int): int {
    if a >= b then a else b
  }

  /** `usize` subtraction that wraps around below zero. */
  function WrappingSub(a: nat, b: nat): (r: int)
    requires a <= USIZE_MAX && b <= USIZE_MAX
    ensures 0 <= r <= USIZE_MAX
    ensures b <= a ==> r == a - b
    ensures a < b <= ISIZE_MAX ==> r > ISIZE_MAX
  {
    (a - b) % (USIZE_MAX + 1)
  }

  function SaturatingSub(a: nat, b: nat): nat {
    if a < b then 0 else a - b
  }

  /** The number that little-endian bytes stand for. */
  function FromLe(s: seq<byte>): nat {
    if s == [] then 0 else s[0] as int + 256 * FromLe(s[1..])
  }

  lemma SubSlice(s: seq<byte>, i: nat, j: nat, k: nat, l: nat)
    requires i <= k <= l <= j <= |s|
    ensures s[i..j][k - i..l - i] == s[k..l]
  {
    var a, b := s[i..j][k - i..l - i], s[k..l];
    assert forall m :: 0 <= m < l - k ==> a[m] == b[m];
  }
}
