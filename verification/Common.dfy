/** What several modules share. */
module Common {

  /** The firmware's counters, sizes and ticks are 32 bits wide. */
  const WRAP32: nat := 0x1_0000_0000

  datatype Option<+T> = None | Some(value: T)

  function Min(x: nat, y: nat): nat {
    if x < y then x else y
  }

  /** Equal as 32-bit numbers. */
  predicate Same(x: int, y: int) {
    x % WRAP32 == y % WRAP32
  }

  lemma SameSum(x: int, y: int, x': int, y': int)
    requires Same(x, x') && Same(y, y')
    ensures Same(x + y, x' + y')
  {
    var k, k' := x / WRAP32 - x' / WRAP32, y / WRAP32 - y' / WRAP32;
    assert x - x' == k * WRAP32 && y - y' == k' * WRAP32;
    assert (x + y) - (x' + y') == (k + k') * WRAP32;
    SameFrom(x' + y', k + k');
  }

  lemma SameSelf(x: int)
    ensures Same(x, x)
  {
  }

  lemma SameFrom(x: int, k: int)
    ensures Same(x + k * WRAP32, x)
  {
    var q, r := x / WRAP32, x % WRAP32;
    assert x + k * WRAP32 == (q + k) * WRAP32 + r;
  }

  lemma SameStep(x': int, x: int, d: int, y: int)
    requires Same(x', x) && Same(x + d, y)
    ensures Same(x' + d, y)
  {
    SameSum(x', d, x, d);
  }
}
