/** Bytes, failure-carrying results and the fixed-width integer conversions of Go. */
module Basics {

  type Byte = n: int | 0 <= n < 256

  type Bytes = seq<Byte>

  datatype Option<+T> = None | Some(value: T)

  datatype Result<+T> = Ok(value: T) | Err(error: string)

  const TWO_63: int := 0x8000_0000_0000_0000
  const TWO_64: int := 0x1_0000_0000_0000_0000
  const TWO_32: int := 0x1_0000_0000

  predicate IsInt64(x: int) { -TWO_63 <= x < TWO_63 }

  predicate IsUint64(x: int) { 0 <= x < TWO_64 }

  type U64 = n: int | 0 <= n < 0x1_0000_0000_0000_0000

  /** The conversion `uint64(x)`, which keeps the low 64 bits. */
  function Uint64(x: int): (r: nat)
    ensures IsUint64(r)
    ensures IsUint64(x) ==> r == x
  {
    x % TWO_64
  }

  /** The conversion `int64(x)`, and what every int64 addition wraps around to. */
  function Int64(x: int): (r: int)
    ensures IsInt64(r)
    ensures IsInt64(x) ==> r == x
  {
    (x + TWO_63) % TWO_64 - TWO_63
  }

  /** The two conversions undo each other, so a cast to int64 loses no information. */
  lemma CastsAreInverse(x: int)
    ensures IsUint64(x) ==> Uint64(Int64(x)) == x
    ensures IsInt64(x) ==> Int64(Uint64(x)) == x
  {
  }

  /** Wrapping early or late gives the same sum. */
  lemma WrapOnce(a: int, b: int)
    ensures Int64(Int64(a) + b) == Int64(a + b)
  {
    var k := (a + TWO_63) / TWO_64;
    assert Int64(a) == a - k * TWO_64;
    assert (a + b + TWO_63 - k * TWO_64) % TWO_64 == (a + b + TWO_63) % TWO_64;
  }

  function Pow2(j: nat): (p: nat)
    ensures 1 <= p
  {
    if j == 0 then 1 else 2 * Pow2(j - 1)
  }
}
