/** Types shared by the patch decoders, the ROM manager and the file system:
    bytes, the little wrappers the Rust code gets from `Option` and `Result`,
    the ways reading a file can fail, and the fixed-width integer reads of
    the `byteorder` crate over an in-memory file. */
module Io {

  /** An octet, the source's `u8`. On a byte, `x & 0x7F` is `x % 0x80` and
      `x & 0x80 != 0` is `x >= 0x80`; the model writes the arithmetic form. */
  type byte = x: int | 0 <= x < 0x100

  type u32 = x: int | 0 <= x < 0x1_0000_0000

  /** CRC-32 as in IEEE 802.3 (`crc32::checksum_ieee`). It is a foreign crate
      call, so the model never interprets it: every operation that needs it
      takes it as a parameter. */
  type Checksum = seq<byte> -> u32

  datatype Option<+T> = None | Some(value: T) {
    function GetOr(default: T): T {
      match this
      case Some(v) => v
      case None => default
    }
  }

  datatype Result<+T, +E> = Ok(value: T) | Err(error: E)

  /** How decoding a patch can end without a result. `Format` carries the
      decoder's own error enum; `Eof` is the `UnexpectedEof` of a short read;
      `NegativeSeek` a seek before the start of a file; `Panic` a `usize`
      underflow or an out-of-range slice or index, which aborts the calling
      thread in the source. */
  datatype Failure<+E> = Format(error: E) | Eof | NegativeSeek | Panic

  /** Base-256 digits are unique: the low digit and the rest come back out. */
  lemma DigitSplit(low: int, high: int)
    requires 0 <= low < 0x100 && 0 <= high
    ensures (low + 0x100 * high) % 0x100 == low && (low + 0x100 * high) / 0x100 == high
  {
  }

  /** `read_u16::<BigEndian>` of the two bytes at `pos`: the first byte is the high one. */
  function U16Be(f: seq<byte>, pos: nat): (v: nat)
    requires pos + 2 <= |f|
    ensures v < 0x1_0000
    ensures v / 0x100 == f[pos] && v % 0x100 == f[pos + 1]
  {
    DigitSplit(f[pos + 1], f[pos]);
    (f[pos + 1] as int) + 0x100 * (f[pos] as int)
  }

  /** `read_u24::<BigEndian>` of the three bytes at `pos`: the first byte is the high one. */
  function U24Be(f: seq<byte>, pos: nat): (v: nat)
    requires pos + 3 <= |f|
    ensures v < 0x100_0000
    ensures v / 0x1_0000 == f[pos] && v / 0x100 % 0x100 == f[pos + 1] && v % 0x100 == f[pos + 2]
  {
    var high := (f[pos + 1] as int) + 0x100 * (f[pos] as int);
    DigitSplit(f[pos + 1], f[pos]);
    DigitSplit(f[pos + 2], high);
    (f[pos + 2] as int) + 0x100 * high
  }

  /** `read_u32::<LittleEndian>` of the four bytes at `pos`: the first byte is the low one. */
  function U32Le(f: seq<byte>, pos: nat): (v: u32)
    requires pos + 4 <= |f|
    ensures v % 0x100 == f[pos] && v / 0x100 % 0x100 == f[pos + 1]
    ensures v / 0x1_0000 % 0x100 == f[pos + 2] && v / 0x100_0000 == f[pos + 3]
  {
    var top := (f[pos + 2] as int) + 0x100 * (f[pos + 3] as int);
    var high := (f[pos + 1] as int) + 0x100 * top;
    DigitSplit(f[pos + 2], f[pos + 3]);
    DigitSplit(f[pos + 1], top);
    DigitSplit(f[pos], high);
    (f[pos] as int) + 0x100 * high
  }

  function Zeros(n: nat): (z: seq<byte>)
    ensures |z| == n && forall i :: 0 <= i < n ==> z[i] == 0
  {
    seq(n, _ => 0)
  }

  /** `t` with `piece` written over it from index `at` on. */
  function Splice(t: seq<byte>, at: nat, piece: seq<byte>): (r: seq<byte>)
    requires at + |piece| <= |t|
    ensures |r| == |t|
    ensures forall i :: 0 <= i < |t| ==> r[i] == if at <= i < at + |piece| then piece[i - at] else t[i]
  {
    t[..at] + piece + t[at + |piece|..]
  }

  /** `Vec::resize(n, 0)`: cut to the first `n` bytes, or pad with zeros up to `n`. */
  function Resize(s: seq<byte>, n: nat): (r: seq<byte>)
    ensures |r| == n
    ensures forall i :: 0 <= i < n ==> r[i] == if i < |s| then s[i] else 0
  {
    if n <= |s| then s[..n] else s + Zeros(n - |s|)
  }

  /** Copy `src[from..from + length]` into `target` from index `at` on, one
      byte at a time. */
  method CopyIn(target: array<byte>, at: nat, src: seq<byte>, from: nat, length: nat)
    requires from + length <= |src| && at + length <= target.Length
    modifies target
    ensures target[..] == Splice(old(target[..]), at, src[from..from + length])
  {
    for k := 0 to length
      invariant forall i :: 0 <= i < target.Length ==>
        target[i] == if at <= i < at + k then src[from + i - at] else old(target[i])
    {
      target[at + k] := src[from + k];
    }
  }
}
