/** Bytes as they come off the wire, and the big-endian numbers in them. */
module Bytes {

  newtype Byte = x: int | 0 <= x < 256

  /** A 16-bit code: a cipher suite, an extension, a group, a version. */
  type Code = n: nat | n < 0x1_0000

  function U16(b: seq<Byte>): Code
    requires |b| >= 2
  {
    b[0] as int * 256 + b[1] as int
  }

  function U24(b: seq<Byte>): (n: nat)
    requires |b| >= 3
    ensures n < 0x100_0000
  {
    b[0] as int * 65536 + b[1] as int * 256 + b[2] as int
  }

  function U32(b: seq<Byte>): (n: nat)
    requires |b| >= 4
    ensures n < 0x1_0000_0000
  {
    b[0] as int * 0x100_0000 + b[1] as int * 65536 + b[2] as int * 256 + b[3] as int
  }

  /** The low 31 bits of a 32-bit number. */
  function Low31(n: nat): nat {
    n % 0x8000_0000
  }

  predicate Bit(flags: Byte, bit: nat)
    requires bit > 0
  {
    flags as int / bit % 2 == 1
  }

  // ---------------------------------------------------------------- written down

  function Word(n: Code): (w: seq<Byte>)
    ensures |w| == 2 && U16(w) == n
  {
    [(n / 256) as Byte, (n % 256) as Byte]
  }

  function Word24(n: nat): (w: seq<Byte>)
    requires n < 0x100_0000
    ensures |w| == 3 && U24(w) == n
  {
    [(n / 65536) as Byte, (n / 256 % 256) as Byte, (n % 256) as Byte]
  }

  function Word32(n: nat): (w: seq<Byte>)
    requires n < 0x1_0000_0000
    ensures |w| == 4 && U32(w) == n
  {
    [(n / 0x100_0000) as Byte, (n / 65536 % 256) as Byte, (n / 256 % 256) as Byte, (n % 256) as Byte]
  }
}
