/** Integer operators of C that differ from Dafny's on negative operands. */
module CArith {

  /** C's `/`: the quotient is truncated toward zero. */
  function Quot(a: int, b: int): int
    requires b > 0
  {
    if a >= 0 then a / b else -((-a) / b)
  }

  /** C's `%`: the remainder takes the sign of the dividend. */
  function Rem(a: int, b: int): (r: int)
    requires b > 0
    ensures a >= 0 ==> r == a % b
    ensures -b < r < b
    ensures a <= 0 ==> r <= 0
  {
    if a >= 0 then a % b else -((-a) % b)
  }

  /** Reducing an index that is at most one lap past the end. */
  lemma RemWrap(a: int, b: int)
    requires 0 <= a < 2 * b
    ensures Rem(a, b) == if a < b then a else a - b
  {
    if a < b {
      RemUnique(a, b, 0, a);
    } else {
      RemUnique(a, b, 1, a - b);
    }
  }

  lemma RemUnique(a: int, b: int, q: int, r: int)
    requires 0 < b && 0 <= r < b && a == q * b + r
    ensures a / b == q && a % b == r
  {
    var d := q - a / b;
    assert a == (a / b) * b + a % b;
    assert d * b == q * b - (a / b) * b;
    assert d >= 1 ==> (d - 1) * b >= 0;
    assert d <= -1 ==> (-d - 1) * b >= 0;
  }

  function Min(a: int, b: int): int {
    if a < b then a else b
  }

  function Max(a: int, b: int): int {
    if a > b then a else b
  }
}
