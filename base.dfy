/** Shared vocabulary: optional values, results carrying Go's error text,
    and the 64-bit integer range the Go code computes in. */
module Base {

  datatype Option<+T> = None | Some(value: T)

  /** A Go `(value, error)` pair: `Err` carries the error's `Error()` text. */
  datatype Result<+T> = Ok(value: T) | Err(error: string)

  const MaxInt64: int := 0x7FFF_FFFF_FFFF_FFFF
  const MinInt64: int := -0x8000_0000_0000_0000
  const MaxUint64: int := 0xFFFF_FFFF_FFFF_FFFF

  predicate IsInt64(x: int) {
    MinInt64 <= x <= MaxInt64
  }

  /** Two's-complement wrap-around of an unbounded integer into int64, as Go's
      `int64` arithmetic does silently on overflow. */
  function Wrap64(x: int): (r: int)
    ensures IsInt64(r)
    ensures (r - x) % 0x1_0000_0000_0000_0000 == 0
    ensures IsInt64(x) ==> r == x
  {
    var m := x % 0x1_0000_0000_0000_0000;
    if m <= MaxInt64 then m else m - 0x1_0000_0000_0000_0000
  }

  /** Go's `/` on integers truncates toward zero; Dafny's is Euclidean. */
  function GoDiv(a: int, b: int): (q: int)
    requires b != 0
    ensures a >= 0 && b > 0 ==> q == a / b
    ensures a < 0 && b > 0 ==> q == -((-a) / b)
  {
    if a >= 0 then
      if b > 0 then a / b else -(a / (-b))
    else
      if b > 0 then -((-a) / b) else (-a) / (-b)
  }
}
