/** Small datatypes and the byte type shared by the other modules. */
module Wrappers {

  type byte = bv8

  datatype Option<+T> = None | Some(value: T)

  /** The source's `(value, error)` returns. */
  datatype Result<+T, +E> = Ok(value: T) | Err(error: E)

  function Val(b: byte): (v: nat)
    ensures v < 256
  {
    b as int
  }

  lemma HalfExact(n: nat)
    requires n < 16
    ensures (n as byte) as int == n && (n as byte) < 16
  {
  }

  lemma JoinHalves(high: byte, low: byte)
    requires high < 16 && low < 16
    ensures ((high << 4) | low) as int == 16 * (high as int) + low as int
  {
  }

  /** The byte of a number, put together from its two hexadecimal digits. */
  function Narrow(n: nat): (b: byte)
    requires n < 256
    ensures Val(b) == n
  {
    HalfExact(n / 16);
    HalfExact(n % 16);
    JoinHalves((n / 16) as byte, (n % 16) as byte);
    (((n / 16) as byte) << 4) | ((n % 16) as byte)
  }

  /** Two bytes are equal when their values are. */
  lemma ByteEqual(a: byte, b: byte)
    requires Val(a) == Val(b)
    ensures a == b
  {
  }
}
