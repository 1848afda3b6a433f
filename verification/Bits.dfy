/** Machine words as naturals: bits, masks, and division facts shared by the other modules. */
module Bits {

  type Byte = bv8

  const TWO31: nat := 0x8000_0000
  const TWO32: nat := 0x1_0000_0000
  const TWO64: nat := 0x1_0000_0000_0000_0000

  function Pow2(k: nat): (p: nat)
    ensures p > 0
  {
    if k == 0 then 1 else 2 * Pow2(k - 1)
  }

  /** Bit i of x, least significant first. */
  predicate Bit(x: nat, i: nat) {
    if i == 0 then x % 2 == 1 else Bit(x / 2, i - 1)
  }

  function And(a: nat, b: nat): nat {
    if a == 0 then 0
    else (if a % 2 == 1 && b % 2 == 1 then 1 else 0) + 2 * And(a / 2, b / 2)
  }

  function AndNot(a: nat, b: nat): nat {
    if a == 0 then 0
    else (if a % 2 == 1 && b % 2 == 0 then 1 else 0) + 2 * AndNot(a / 2, b / 2)
  }

  function Or(a: nat, b: nat): nat
    decreases a + b
  {
    if a == 0 && b == 0 then 0
    else (if a % 2 == 1 || b % 2 == 1 then 1 else 0) + 2 * Or(a / 2, b / 2)
  }

  lemma {:induction false} BitOfZero(i: nat)
    ensures !Bit(0, i)
  {
    if i > 0 { BitOfZero(i - 1); }
  }

  lemma {:induction false} BitAnd(a: nat, b: nat, i: nat)
    ensures Bit(And(a, b), i) <==> Bit(a, i) && Bit(b, i)
  {
    if a == 0 {
      BitOfZero(i);
    } else if i > 0 {
      BitAnd(a / 2, b / 2, i - 1);
    }
  }

  lemma {:induction false} BitAndNot(a: nat, b: nat, i: nat)
    ensures Bit(AndNot(a, b), i) <==> Bit(a, i) && !Bit(b, i)
  {
    if a == 0 {
      BitOfZero(i);
    } else if i > 0 {
      BitAndNot(a / 2, b / 2, i - 1);
    }
  }

  lemma {:induction false} BitOr(a: nat, b: nat, i: nat)
    ensures Bit(Or(a, b), i) <==> Bit(a, i) || Bit(b, i)
  {
    if a == 0 && b == 0 {
      BitOfZero(i);
    } else if i > 0 {
      BitOr(a / 2, b / 2, i - 1);
    }
  }

  lemma {:induction false} BitOnes(n: nat, i: nat)
    ensures Bit(Pow2(n) - 1, i) <==> i < n
  {
    if n == 0 {
      BitOfZero(i);
    } else if i > 0 {
      BitOnes(n - 1, i - 1);
    }
  }

  lemma {:induction false} BitShl(x: nat, k: nat, i: nat)
    ensures x * Pow2(k) >= 0
    ensures Bit(x * Pow2(k), i) <==> k <= i && Bit(x, i - k)
  {
    ProductNat(x, Pow2(k));
    if k > 0 {
      ProductNat(x, Pow2(k - 1));
      assert x * Pow2(k) == 2 * (x * Pow2(k - 1));
      if i > 0 { BitShl(x, k - 1, i - 1); }
    }
  }

  lemma BitPow2(i: nat, j: nat)
    ensures Bit(Pow2(i), j) <==> i == j
  {
    BitShl(1, i, j);
    if j > i { BitOfZero(j - i - 1); }
  }

  /** `((1 << n) - 1) << k`. */
  function LaneMask(n: nat, k: nat): nat {
    ProductNat(Pow2(n) - 1, Pow2(k));
    (Pow2(n) - 1) * Pow2(k)
  }

  lemma ProductNat(a: nat, b: nat)
    ensures a * b >= 0
  {}

  /** The lane mask selects exactly the lanes [k, k + n). */
  lemma BitLaneMask(n: nat, k: nat, i: nat)
    ensures Bit(LaneMask(n, k), i) <==> k <= i < k + n
  {
    BitShl(Pow2(n) - 1, k, i);
    if k <= i { BitOnes(n, i - k); }
  }

  predicate SharesBit(a: nat, b: nat, i: nat) {
    Bit(a, i) && Bit(b, i)
  }

  lemma {:induction false} AndNonZero(a: nat, b: nat)
    ensures And(a, b) != 0 <==> exists i: nat :: SharesBit(a, b, i)
  {
    if a == 0 {
      forall i: nat ensures !SharesBit(a, b, i) { BitOfZero(i); }
    } else {
      AndNonZero(a / 2, b / 2);
      if a % 2 == 1 && b % 2 == 1 {
        assert SharesBit(a, b, 0);
      } else if i: nat :| SharesBit(a, b, i) {
        assert SharesBit(a / 2, b / 2, i - 1);
      } else if And(a, b) != 0 {
        var i: nat :| SharesBit(a / 2, b / 2, i);
        assert SharesBit(a, b, i + 1);
      }
    }
  }

  // ---------------------------------------------------------- division facts

  lemma DivModUnique(q: int, r: int, m: int)
    requires 0 < m && 0 <= r < m
    ensures (q * m + r) / m == q && (q * m + r) % m == r
  {
    var x := q * m + r;
    var q' := x / m;
    assert x == q' * m + x % m;
    assert (q - q') * m == x % m - r;
    MulMonotone(q - q', m);
  }

  lemma MulMonotone(d: int, m: int)
    requires 0 < m
    ensures d >= 1 ==> d * m >= m
    ensures d <= -1 ==> d * m <= -m
  {}

  /** Reducing modulo a multiple of m does not change the residue modulo m. */
  lemma ModOfMod(x: int, n: int, m: int)
    requires 0 < m && 0 < n && n % m == 0
    ensures (x % n) % m == x % m
  {
    var j := n / m;
    assert n == j * m;
    var r := x % n;
    assert x == (x / n) * n + r;
    assert (x / n) * n == ((x / n) * j) * m by { MulAssoc(x / n, j, m); }
    var k := (x / n) * j + r / m;
    assert x == k * m + r % m by { Distribute((x / n) * j, r / m, m); }
    DivModUnique(k, r % m, m);
  }

  lemma MulAssoc(a: int, b: int, c: int)
    ensures a * (b * c) == (a * b) * c
  {}

  lemma Distribute(a: int, b: int, c: int)
    ensures (a + b) * c == a * c + b * c
  {}

  lemma ModAddMultiple(x: int, k: int, m: int)
    requires 0 < m
    ensures (x + k * m) % m == x % m
  {
    assert x == (x / m) * m + x % m;
    Distribute(x / m, k, m);
    DivModUnique(x / m + k, x % m, m);
  }

  lemma MultipleMod(k: int, m: int)
    requires 0 < m
    ensures (k * m) % m == 0
  {
    DivModUnique(k, 0, m);
  }

  /** Two multiples of w that are in order are at least w apart. */
  lemma MultipleGap(a: int, b: int, w: int)
    requires 0 < w && a % w == 0 && b % w == 0 && a < b
    ensures a + w <= b
  {
    var i, j := a / w, b / w;
    assert a == i * w + a % w && b == j * w + b % w;
    Distribute(j, -i, w);
    MulMonotone(j - i, w);
  }

  lemma ModApart(x: int, y: int, m: int)
    requires 0 < y - x < m
    ensures x % m != y % m
  {
    if x % m == y % m {
      Distribute(y / m, -(x / m), m);
      assert y - x == (y / m - x / m) * m;
      MulMonotone(y / m - x / m, m);
    }
  }

  lemma TimesMonotone(a: nat, b: nat, w: nat)
    requires a <= b
    ensures a * w <= b * w
  {}
}
