/** Machine words as natural numbers, with the bit operations the hash tables are written with. */
module Bits {
  const TWO_32: nat := 0x1_0000_0000
  const TWO_48: nat := 0x1_0000_0000_0000
  const TWO_64: nat := 0x1_0000_0000_0000_0000

  type byte = x: int | 0 <= x < 256
  type Bytes = seq<byte>
  type u64 = x: int | 0 <= x < 0x1_0000_0000_0000_0000

  function Pow2(k: nat): (r: nat)
    ensures r >= 1
  {
    if k == 0 then 1 else 2 * Pow2(k - 1)
  }

  /** Bitwise conjunction. */
  function And(x: nat, y: nat): nat {
    if x == 0 || y == 0 then 0 else 2 * And(x / 2, y / 2) + (if x % 2 == 1 && y % 2 == 1 then 1 else 0)
  }

  /** Bitwise disjunction. */
  function Or(x: nat, y: nat): nat
    decreases x + y
  {
    if x == 0 then y
    else if y == 0 then x
    else 2 * Or(x / 2, y / 2) + (if x % 2 == 1 || y % 2 == 1 then 1 else 0)
  }

  function Shr(x: nat, k: nat): nat {
    Quot(x, Pow2(k))
  }

  function Shl(x: nat, k: nat): nat {
    x * Pow2(k)
  }

  /** The quotient, by repeated subtraction. */
  function Quot(x: nat, m: nat): nat
    requires m > 0
  {
    if x < m then 0 else 1 + Quot(x - m, m)
  }

  lemma {:induction false} QuotIsDiv(x: nat, m: nat)
    requires m > 0
    ensures Quot(x, m) == x / m
  {
    if x < m {
      ModUnique(x, m, 0, x);
    } else {
      QuotIsDiv(x - m, m);
      ModUnique(x, m, (x - m) / m + 1, (x - m) % m);
    }
  }

  /** The remainder, by repeated subtraction: linear where `%` by a variable is not. */
  function Rem(x: nat, m: nat): (r: nat)
    requires m > 0
    ensures r < m
  {
    if x < m then x else Rem(x - m, m)
  }

  lemma {:induction false} RemIsMod(x: nat, m: nat)
    requires m > 0
    ensures Rem(x, m) == x % m
  {
    if x < m {
      ModUnique(x, m, 0, x);
    } else {
      RemIsMod(x - m, m);
      ModUnique(x, m, (x - m) / m + 1, (x - m) % m);
    }
  }

  /** Masking with one less than a power of two is the remainder. */
  lemma {:induction false} AndMask(x: nat, k: nat)
    ensures And(x, Pow2(k) - 1) == x % Pow2(k)
  {
    if k == 0 {
      ModUnique(x, 1, x, 0);
    } else if x == 0 {
      ModUnique(0, Pow2(k), 0, 0);
    } else {
      AndMask(x / 2, k - 1);
      AndOddMask(x, Pow2(k - 1));
      HalveMod(x, Pow2(k - 1));
    }
  }

  lemma AndOddMask(x: nat, h: nat)
    requires x > 0 && h > 0
    ensures And(x, 2 * h - 1) == 2 * And(x / 2, h - 1) + x % 2
  {
    assert (2 * h - 1) / 2 == h - 1 && (2 * h - 1) % 2 == 1;
  }

  lemma HalveMod(x: nat, h: nat)
    requires h > 0
    ensures x % (2 * h) == 2 * ((x / 2) % h) + x % 2
  {
    var q := (x / 2) / h;
    var r := (x / 2) % h;
    assert x / 2 == q * h + r;
    assert x == q * (2 * h) + (2 * r + x % 2) by {
      assert x == 2 * (x / 2) + x % 2;
      assert 2 * (q * h) == q * (2 * h);
    }
    ModUnique(x, 2 * h, q, 2 * r + x % 2);
  }

  /** Quotient and remainder are determined by the division equation. */
  lemma ModUnique(x: nat, m: nat, q: nat, r: nat)
    requires m > 0 && r < m && x == q * m + r
    ensures x % m == r && x / m == q
  {
    var q' := x / m;
    var r' := x % m;
    assert x == q' * m + r';
    if q' < q {
      SmallerQuotient(q', r', q, m);
    } else if q' > q {
      SmallerQuotient(q, r, q', m);
    }
  }

  lemma SmallerQuotient(q: nat, r: nat, q': nat, m: nat)
    requires r < m && q < q'
    ensures q * m + r < q' * m
  {
    MulAtLeast(q' - q, m);
    assert q' * m == q * m + (q' - q) * m;
  }

  lemma MulAtLeast(a: nat, m: nat)
    requires a >= 1
    ensures a * m >= m
  {
    assert a * m == m + (a - 1) * m;
  }

  /** Or-ing a small number under a shifted one adds them. */
  lemma {:induction false} OrShifted(a: nat, b: nat, k: nat)
    requires b < Pow2(k)
    ensures Or(Shl(a, k), b) == a * Pow2(k) + b
  {
    if k > 0 && b > 0 && a > 0 {
      var x, h := Shl(a, k), Pow2(k - 1);
      assert x == 2 * (a * h) && a * h == Shl(a, k - 1);
      MulAtLeast(a, Pow2(k));
      OrShifted(a, b / 2, k - 1);
      OrEven(a * h, b);
    }
  }

  lemma OrEven(y: nat, b: nat)
    requires y > 0 && b > 0
    ensures Or(2 * y, b) == 2 * Or(y, b / 2) + b % 2
  {
  }

  lemma Pow2Of48()
    ensures Pow2(48) == TWO_48 && Pow2(4) == 16 && Pow2(8) == 256
  {
    assert Pow2(4) == 16 && Pow2(8) == 256 && Pow2(12) == 4096;
    Pow2Plus(12, 12);
    Pow2Plus(24, 24);
  }

  lemma {:induction false} Pow2Plus(i: nat, j: nat)
    ensures Pow2(i + j) == Pow2(i) * Pow2(j)
  {
    if i > 0 {
      Pow2Plus(i - 1, j);
      assert (i - 1) + j == i + j - 1;
      assert Pow2(i) * Pow2(j) == 2 * (Pow2(i - 1) * Pow2(j));
    }
  }
}
