/**
 * Bitwise OR and XOR of non-negative integers, defined bit by bit from the
 * least significant end, and the facts about them that the protocol model
 * needs: where the bits of a shifted operand land, and that the result of
 * two k-bit operands fits k bits. Shifts are defined one bit at a time so
 * that every proof step stays linear.
 */
module Bits {

  import ModArith

  /** `a | b` */
  function Or(a: nat, b: nat): nat
    decreases a + b
  {
    if a == 0 && b == 0 then 0
    else 2 * Or(a / 2, b / 2) + (if a % 2 == 1 || b % 2 == 1 then 1 else 0)
  }

  /** `a ^ b` */
  function Xor(a: nat, b: nat): nat
    decreases a + b
  {
    if a == 0 && b == 0 then 0
    else 2 * Xor(a / 2, b / 2) + (if a % 2 != b % 2 then 1 else 0)
  }

  /** `h << k` */
  function Shl(h: nat, k: nat): nat
  {
    if k == 0 then h else 2 * Shl(h, k - 1)
  }

  /** `c >> k` */
  function Shr(c: nat, k: nat): nat
  {
    if k == 0 then c else Shr(c / 2, k - 1)
  }

  /** `c & (2^k - 1)`: the low `k` bits of `c`. */
  function Low(c: nat, k: nat): nat
  {
    if k == 0 then 0 else 2 * Low(c / 2, k - 1) + c % 2
  }

  lemma {:induction false} OrZero(a: nat)
    ensures Or(a, 0) == a && Or(0, a) == a
  {
    if a > 0 {
      OrZero(a / 2);
    }
  }

  lemma {:induction false} OrCommutes(a: nat, b: nat)
    ensures Or(a, b) == Or(b, a)
    decreases a + b
  {
    if a != 0 || b != 0 {
      OrCommutes(a / 2, b / 2);
    }
  }

  /** Splitting off the low `k` bits of one operand: the high parts and the
      low parts are or'ed separately. */
  lemma {:induction false} OrSplit(h: nat, l: nat, c: nat, k: nat)
    requires l < Shl(1, k)
    ensures Or(Shl(h, k) + l, c) == Shl(Or(h, Shr(c, k)), k) + Or(l, Low(c, k))
  {
    if k == 0 {
      OrZero(c);
    } else {
      var x := Shl(h, k) + l;
      assert x / 2 == Shl(h, k - 1) + l / 2 && x % 2 == l % 2;
      OrSplit(h, l / 2, c / 2, k - 1);
      var m := Low(c, k);
      assert m / 2 == Low(c / 2, k - 1) && m % 2 == c % 2;
    }
  }

  /** Or'ing a value shifted left by `k` bits with one below `2^k` adds them. */
  lemma OrDisjoint(h: nat, l: nat, k: nat)
    requires l < Shl(1, k)
    ensures Or(Shl(h, k), l) == Shl(h, k) + l
  {
    OrSplit(h, 0, l, k);
    ShrLowSmall(l, k);
    OrZero(h);
    OrZero(l);
  }

  /** `c << 4 | s`: the bits of `s` above its low nibble are or'ed into
      `c`, the low nibble stays below. */
  lemma OrAboveNibble(c: nat, s: nat)
    ensures Or(16 * c, s) == 16 * Or(c, s / 16) + s % 16
  {
    var h := Or(c, s / 16);
    Shl4(1);
    OrSplit(c, 0, s, 4);
    assert Or(Shl(c, 4), s) == Shl(Or(c, Shr(s, 4)), 4) + Or(0, Low(s, 4));
    Shl4(c);
    Shr4(s);
    Low4(s);
    assert Or(16 * c, s) == Shl(h, 4) + Or(0, s % 16);
    OrZero(s % 16);
    Shl4(h);
  }

  /** A value below `2^k` has nothing above bit `k` and is its own low part. */
  lemma {:induction false} ShrLowSmall(c: nat, k: nat)
    requires c < Shl(1, k)
    ensures Shr(c, k) == 0 && Low(c, k) == c
  {
    if k > 0 {
      ShrLowSmall(c / 2, k - 1);
    }
  }

  lemma {:induction false} OrBound(a: nat, b: nat, k: nat)
    requires a < Shl(1, k) && b < Shl(1, k)
    ensures Or(a, b) < Shl(1, k)
  {
    if k > 0 && (a != 0 || b != 0) {
      OrBound(a / 2, b / 2, k - 1);
    }
  }

  lemma {:induction false} XorBound(a: nat, b: nat, k: nat)
    requires a < Shl(1, k) && b < Shl(1, k)
    ensures Xor(a, b) < Shl(1, k)
  {
    if k > 0 && (a != 0 || b != 0) {
      XorBound(a / 2, b / 2, k - 1);
    }
  }

  /** The shifts by 4 and 8 bits as multiplications and divisions. */
  lemma Shift4(x: nat)
    ensures Shl(x, 4) == 16 * x && Shr(x, 4) == x / 16 && Low(x, 4) == x % 16
  {
    Shl4(x);
    Shr4(x);
    Low4(x);
  }

  lemma Shl4(x: nat)
    ensures Shl(x, 4) == 16 * x
  {
    assert Shl(x, 1) == 2 * x;
    assert Shl(x, 2) == 4 * x;
    assert Shl(x, 3) == 8 * x;
  }

  lemma Shr4(x: nat)
    ensures Shr(x, 4) == x / 16
  {
    assert Shr(x / 8, 1) == x / 16;
    assert Shr(x / 4, 2) == x / 16;
    assert Shr(x / 2, 3) == x / 16;
  }

  lemma Low4(x: nat)
    ensures Low(x, 4) == x % 16
  {
    assert Low(x / 8, 1) == (x / 8) % 2;
    assert Low(x / 4, 2) == (x / 4) % 4;
    assert Low(x / 2, 3) == (x / 2) % 8;
  }


  lemma Shift8(x: nat)
    ensures Shl(x, 8) == 256 * x && Shr(x, 8) == x / 256 && Low(x, 8) == x % 256
  {
    Shl8(x);
    Shr8(x);
    Low8(x);
  }

  lemma Shl8(x: nat)
    ensures Shl(x, 8) == 256 * x
  {
    Shift4(x);
    Shift4(16 * x);
    ShlAdd(x, 4, 4);
  }

  lemma Shr8(x: nat)
    ensures Shr(x, 8) == x / 256
  {
    Shift4(x);
    Shift4(x / 16);
    ShrAdd(x, 4, 4);
    assert x / 16 / 16 == x / 256;
  }

  lemma Low8(x: nat)
    ensures Low(x, 8) == x % 256
  {
    var mid := (x / 16) % 16;
    assert Low(x, 8) == 16 * mid + x % 16 by {
      Shift4(x);
      Shift4(x / 16);
      LowAdd(x, 4, 4);
      Shift4(mid);
    }
    assert x % 256 == 16 * mid + x % 16 by {
      assert x == 256 * (x / 16 / 16) + (16 * mid + x % 16);
      ModArith.ModUnique(x, 256, x / 16 / 16, 16 * mid + x % 16);
    }
  }

  lemma {:induction false} ShlAdd(x: nat, i: nat, j: nat)
    ensures Shl(x, i + j) == Shl(Shl(x, i), j)
  {
    if j > 0 {
      ShlAdd(x, i, j - 1);
    }
  }

  lemma {:induction false} ShrAdd(x: nat, i: nat, j: nat)
    ensures Shr(x, i + j) == Shr(Shr(x, i), j)
  {
    if i > 0 {
      ShrAdd(x / 2, i - 1, j);
    }
  }

  /** The low `i + j` bits: the low `i` bits, then `j` more above them. */
  lemma {:induction false} LowAdd(x: nat, i: nat, j: nat)
    ensures Low(x, i + j) == Shl(Low(Shr(x, i), j), i) + Low(x, i)
  {
    if i > 0 {
      LowAdd(x / 2, i - 1, j);
    }
  }
}
