/** Machine integers, optional and fallible results, and the little-endian
    word view of a byte buffer shared by the firmware loader and the ADC engine. */
module Base {

  newtype byte = x: int | 0 <= x < 0x100
  newtype u16 = x: int | 0 <= x < 0x1_0000
  newtype u32 = x: int | 0 <= x < 0x1_0000_0000

  const U32Modulus: int := 0x1_0000_0000

  datatype Option<T> = None | Some(value: T)

  datatype Result<T, E> = Ok(value: T) | Err(error: E)

  function Min(a: int, b: int): int {
    if a <= b then a else b
  }

  /** The value a C `uint32_t` holds after an assignment of `x`: arithmetic modulo 2^32. */
  function Wrap32(x: int): u32 {
    (x % U32Modulus) as u32
  }

  /** Adding to a wrapped value and wrapping again is the same as wrapping the exact sum. */
  lemma WrapAdd(acc: int, w: int)
    ensures Wrap32(Wrap32(acc) as int + w) == Wrap32(acc + w)
  {
    var q := acc / U32Modulus;
    assert acc == q * U32Modulus + acc % U32Modulus;
    assert Wrap32(acc) as int + w == (acc + w) - q * U32Modulus;
    ModMultipleShift(acc + w, q);
  }

  lemma ModMultipleShift(x: int, q: int)
    ensures (x - q * U32Modulus) % U32Modulus == x % U32Modulus
  {
  }

  /** Two values that differ by less than 2^32 but are not equal never agree modulo 2^32. */
  lemma WrapDistinguishes(a: int, b: int)
    requires a != b
    requires -U32Modulus < a - b < U32Modulus
    ensures Wrap32(a) != Wrap32(b)
  {
    var qa, qb := a / U32Modulus, b / U32Modulus;
    assert a == qa * U32Modulus + a % U32Modulus;
    assert b == qb * U32Modulus + b % U32Modulus;
  }

  /** The 32-bit word at word index `k` of a byte buffer, read little-endian,
      as a `uint32_t *` cast reads it on the little-endian hosts the loader runs on. */
  function WordAt(bytes: seq<byte>, k: nat): u32
    requires 4 * k + 4 <= |bytes|
  {
    (bytes[4 * k] as int
     + 0x100 * bytes[4 * k + 1] as int
     + 0x1_0000 * bytes[4 * k + 2] as int
     + 0x100_0000 * bytes[4 * k + 3] as int) as u32
  }

  /** The buffer as whole 32-bit words; a trailing partial word is not part of it. */
  function Words(bytes: seq<byte>): seq<u32> {
    seq(|bytes| / 4, k requires 0 <= k < |bytes| / 4 => WordAt(bytes, k))
  }

  /** `x & 0xFFFF` */
  function Low16(x: u32): u16 {
    (x as int % 0x1_0000) as u16
  }

  /** `x >> 16` */
  function High16(x: u32): u16 {
    (x as int / 0x1_0000) as u16
  }

  /** Splitting an address into wValue and wIndex loses nothing. */
  lemma SplitAddressLossless(x: u32)
    ensures High16(x) as int * 0x1_0000 + Low16(x) as int == x as int
  {
  }
}
