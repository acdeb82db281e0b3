/** Facts about Euclidean division that the solver does not find alone. */
module ModArith {

  lemma MulAtLeast(k: int, b: int)
    requires k >= 1 && b > 0
    ensures k * b >= b
  {
  }

  /** Division with remainder is unique. */
  lemma ModUnique(y: int, b: int, q: int, r: int)
    requires b > 0 && 0 <= r < b && y == q * b + r
    ensures y % b == r && y / b == q
  {
    var q', r' := y / b, y % b;
    assert y == q' * b + r';
    assert (q - q') * b == r' - r;
    assert (q' - q) * b == r - r';
    if q - q' >= 1 {
      MulAtLeast(q - q', b);
    } else if q' - q >= 1 {
      MulAtLeast(q' - q, b);
    }
  }

  /** Rounding `len` up to the next multiple of `b` gives a multiple of `b`. */
  lemma RoundUpIsMultiple(len: nat, b: nat)
    requires b > 0
    ensures (len + b - len % b) % b == 0
  {
    var q := len / b;
    assert len == q * b + len % b;
    ModUnique(len + b - len % b, b, q + 1, 0);
  }

  lemma AddMod(a: int, d: int, m: int)
    requires m > 0
    ensures (a % m + d) % m == (a + d) % m
  {
    var q := a / m;
    assert a == q * m + a % m;
    var r := (a % m + d) % m;
    var q2 := (a % m + d) / m;
    assert a % m + d == q2 * m + r;
    assert a + d == (q + q2) * m + r;
    ModUnique(a + d, m, q + q2, r);
  }

  lemma SubMod(a: int, x: int, m: int)
    requires m > 0
    ensures (a - x % m) % m == (a - x) % m
  {
    var q := x / m;
    assert x == q * m + x % m;
    var r := (a - x % m) % m;
    var q2 := (a - x % m) / m;
    assert a - x % m == q2 * m + r;
    assert a - x == (q2 - q) * m + r;
    ModUnique(a - x, m, q2 - q, r);
  }

  /** Moving by less than a full period changes the residue. */
  lemma ShiftChangesMod(a: int, d: int, m: int)
    requires m > 0 && d != 0 && -m < d < m
    ensures (a + d) % m != a % m
  {
    var q, r := a / m, a % m;
    assert a == q * m + r;
    var q2 := (a + d) / m;
    assert a + d == q2 * m + (a + d) % m;
    if (a + d) % m == r {
      assert d == (q2 - q) * m;
      assert -d == (q - q2) * m;
      if q2 - q >= 1 {
        MulAtLeast(q2 - q, m);
      } else if q - q2 >= 1 {
        MulAtLeast(q - q2, m);
      }
    }
  }
}
