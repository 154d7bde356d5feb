/** Byte-level vocabulary shared by the SIM-file codecs. */
module Bytes {

  /** An octet; the C sources read `guint8` / `unsigned char` values. */
  type byte = x: int | 0 <= x < 0x100

  /** A `guint16`. */
  type uint16 = x: int | 0 <= x < 0x1_0000

  /** A value that may be absent; stands for a NULL pointer result. */
  datatype Option<+T> = None | Some(value: T)

  /** The value of a C `int` after a computation wraps around modulo 2^32
      (two's complement), as the compilers the daemon targets do. */
  function Int32(x: int): (r: int)
    ensures -0x8000_0000 <= r < 0x8000_0000
    ensures (x - r) % 0x1_0000_0000 == 0
    ensures -0x8000_0000 <= x < 0x8000_0000 ==> r == x
  {
    var m := x % 0x1_0000_0000;
    if m >= 0x8000_0000 then m - 0x1_0000_0000 else m
  }

  /** Unsigned big-endian value of a byte string. */
  function BigEndian(s: seq<byte>): (v: nat)
    ensures v < Pow256(|s|)
  {
    if s == [] then 0 else BigEndian(s[..|s| - 1]) * 0x100 + s[|s| - 1]
  }

  function Pow256(n: nat): (p: nat)
    ensures p >= 1
  {
    if n == 0 then 1 else 0x100 * Pow256(n - 1)
  }
}
