/** Shared vocabulary of the PCX decoder model: bytes, optional values,
    the loader's failure kinds with the messages it reports, and small
    arithmetic helpers. */
module PcxBase {

  /** One octet of the stream, of the scanline buffer or of the surface. */
  type byte = bv8

  datatype Option<T> = None | Some(value: T)

  /** Why a decode failed. Each kind carries the message the loader hands to
      the error sink; a failed surface creation is not among them, because
      the loader sets no message of its own in that case. */
  datatype Error = Truncated | Unsupported | OutOfMemory | Corrupt | NoPalette
  {
    function Message(): string {
      match this
      case Truncated => "file truncated"
      case Unsupported => "unsupported PCX format"
      case OutOfMemory => "Out of memory"
      case Corrupt => "decoding out of bounds (corrupt?)"
      case NoPalette => "Couldn't create palette"
    }
  }

  datatype Result<T> = Ok(value: T) | Err(error: Error)

  function Min(a: int, b: int): int {
    if a <= b then a else b
  }

  /** `v` limited to the range `lo..hi`. */
  function Clamp(v: int, lo: int, hi: int): int
    requires lo <= hi
  {
    if v < lo then lo else if v > hi then hi else v
  }

  function Pow2(n: nat): (p: nat)
    ensures p >= 1
  {
    if n == 0 then 1 else 2 * Pow2(n - 1)
  }

  /** A fresh zero-filled block, as `SDL_calloc` and `SDL_CreateSurface` hand out. */
  function Zeros(n: nat): (z: seq<byte>)
    ensures |z| == n && forall i :: 0 <= i < n ==> z[i] == 0
  {
    seq(n, _ => 0)
  }

  function Repeat(b: byte, n: nat): (r: seq<byte>)
    ensures |r| == n && forall i :: 0 <= i < n ==> r[i] == b
  {
    seq(n, _ => b)
  }

  lemma RepeatCons(b: byte, n: nat)
    requires n >= 1
    ensures [b] + Repeat(b, n - 1) == Repeat(b, n)
  {
  }

  /** The two halves of a slice, cut at `m`. */
  lemma SliceHalves(s: seq<byte>, lo: nat, m: nat, hi: nat)
    requires lo <= m <= hi <= |s|
    ensures s[lo..m] == s[lo..hi][..m - lo] && s[m..hi] == s[lo..hi][m - lo..]
  {
  }

  /** The byte holding `n`: the cast `(Uint8)n` of a value that fits. */
  function ByteFrom(n: nat): (b: byte)
    requires n < 256
    ensures b as int == n
  {
    if n == 0 then 0 else ByteFrom(n - 1) + 1
  }

  /** Bytes are equal when their values are. */
  lemma SameValue(a: byte, b: byte)
    requires a as int == b as int
    ensures a == b
  {
    IntOfByte(a);
    IntOfByte(b);
  }

  lemma IntOfByte(b: byte)
    ensures (b as int) as byte == b
  {
  }

  lemma MulStep(p: nat, n: nat)
    ensures p * n >= 0 && p * n + n == (p + 1) * n
  {
  }

  lemma MulMono(a: nat, b: nat, c: nat)
    requires a <= b
    ensures a * c <= b * c
  {
  }
}
