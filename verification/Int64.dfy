/** Go's 64-bit integers: range and wrap-around. */
module Int64 {

  const MAX_INT64: int := 0x7fff_ffff_ffff_ffff

  predicate IsInt64(x: int) {
    -MAX_INT64 - 1 <= x <= MAX_INT64
  }

  /** Two's-complement wrap-around of a long 64-bit sum. */
  function Wrap64(x: int): int {
    (x + 0x8000_0000_0000_0000) % 0x1_0000_0000_0000_0000 - 0x8000_0000_0000_0000
  }

  lemma Wrap64Exact(x: int)
    requires 0 <= x <= MAX_INT64
    ensures Wrap64(x) == x
  {
  }

  /** One addition of two 64-bit numbers. */
  function Add64(a: int, b: int): int {
    if a + b > MAX_INT64 then a + b - 0x1_0000_0000_0000_0000
    else if a + b < -MAX_INT64 - 1 then a + b + 0x1_0000_0000_0000_0000
    else a + b
  }

  /** Wrap-around gives the one 64-bit number that differs by a multiple of 2^64. */
  lemma Wrap64Exactly(x: int, y: int)
    ensures y == Wrap64(x) <==> IsInt64(y) && (x - y) % 0x1_0000_0000_0000_0000 == 0
  {
    var m := 0x1_0000_0000_0000_0000;
    var r := (x + 0x8000_0000_0000_0000) % m;
    var q := (x + 0x8000_0000_0000_0000) / m;
    assert x - Wrap64(x) == q * m;
    if IsInt64(y) && (x - y) % m == 0 {
      var p := (x - y) / m;
      assert x - y == p * m;
      assert (p - q) * m == Wrap64(x) - y;
    }
  }
}
