/** Fixed-width integer ranges of the JVM and Go types the benchmark uses. */
module Numeric {

  const Int32Min: int := -0x8000_0000
  const Int32Max: int := 0x7fff_ffff
  const Int64Min: int := -0x8000_0000_0000_0000
  const Int64Max: int := 0x7fff_ffff_ffff_ffff

  /** Java/Kotlin `int`. */
  type Int32 = x: int | Int32Min <= x <= Int32Max

  /** Java/Kotlin `long`, Go `int64` (and Go `int` on a 64-bit platform). */
  type Int64 = x: int | Int64Min <= x <= Int64Max

  function Min(a: int, b: int): int {
    if a <= b then a else b
  }

  function Max(a: int, b: int): int {
    if a >= b then a else b
  }

  datatype Option<T> = None | Some(value: T)

  lemma MulMonotone(a: int, b: int, c: int)
    requires a <= b && c >= 0
    ensures a * c <= b * c
  {
    assert b * c - a * c == (b - a) * c;
  }

  lemma MulCancelLess(a: int, b: int, c: int)
    requires c > 0 && a * c < b * c
    ensures a < b
  {
    if a >= b {
      MulMonotone(b, a, c);
    }
  }

  /** A multiple of e leaves no remainder when divided by e. */
  lemma ModOfMultiple(e: int, k: int)
    requires e >= 1
    ensures (e * k) % e == 0
  {
    var q := (e * k) / e;
    assert e * (k - q) == (e * k) % e;
    if k - q >= 1 {
      MulMonotone(1, k - q, e);
    } else if k - q <= -1 {
      MulMonotone(k - q, -1, e);
    }
  }

  lemma SquareBelow(e: int, bound: int)
    requires e >= 0 && bound >= 0 && e * e < bound * bound
    ensures e < bound
  {
  }
}
