// Go's int and int64, both 64 bits wide here: results that do not fit wrap around.
module Int64 {
  const MIN_INT: int := -0x8000_0000_0000_0000
  const MAX_INT: int := 0x7fff_ffff_ffff_ffff

  predicate IsInt64(x: int) {
    MIN_INT <= x <= MAX_INT
  }

  /** Two's complement: the 64-bit value that an int operation leaves behind. */
  function Wrap64(x: int): (r: int)
    ensures IsInt64(r)
    ensures IsInt64(x) ==> r == x
  {
    (x - MIN_INT) % 0x1_0000_0000_0000_0000 + MIN_INT
  }

  function Sign(x: int): int {
    if x < 0 then -1 else if x > 0 then 1 else 0
  }

  function Min(a: int, b: int): int {
    if a < b then a else b
  }
}
