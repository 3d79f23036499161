/** The arbitrary-precision integer operations `divBy` relies on:
    absolute value, truncating division and the greatest common divisor,
    with the facts about them that normalisation needs. */
module IntMath {

  function Abs(x: int): (r: nat)
    ensures r == x || r == -x
  {
    if x < 0 then -x else x
  }

  /** Division that truncates toward zero, the rounding of `BigInteger./`. */
  function Quot(a: int, b: int): int
    requires b != 0
  {
    var q := Abs(a) / Abs(b);
    if (a < 0) == (b < 0) then q else -q
  }

  /** `BigInteger.compareTo`: -1, 0 or 1 as `a` is less than, equal to or
      greater than `b`. */
  function Compare(a: int, b: int): int {
    if a < b then -1 else if a == b then 0 else 1
  }

  /** Greatest common divisor by Euclid's algorithm; `Gcd(0, 0) == 0`,
      as for `BigInteger.gcd`. */
  function Gcd(a: nat, b: nat): nat
    decreases b
  {
    if b == 0 then a else Gcd(b, a % b)
  }

  /** Dividing an exact multiple is exact, whatever the rounding. */
  lemma QuotExact(a: int, b: int, k: int)
    requires b != 0 && a == b * k
    ensures Quot(a, b) == k
  {
    assert Abs(a) == Abs(b) * Abs(k) by {
      if b < 0 && k < 0 { assert a == (-b) * (-k); }
      else if b < 0 { assert -a == (-b) * k; }
      else if k < 0 { assert -a == b * (-k); }
    }
    MulDivCancel(Abs(b), Abs(k));
    if k > 0 {
      assert (a < 0) == (b < 0) by {
        if b < 0 { assert a == -((-b) * k); }
      }
    } else if k < 0 {
      assert (a < 0) != (b < 0) by {
        if b < 0 { assert a == (-b) * (-k); } else { assert a == -(b * (-k)); }
      }
    }
  }

  lemma MulDivCancel(m: nat, k: nat)
    requires m > 0
    ensures (m * k) / m == k
  {
    var q, r := (m * k) / m, (m * k) % m;
    assert m * (k - q) == r by {
      assert m * k == m * q + r;
    }
    ScaleBounds(m, k - q);
  }

  /** How a positive factor scales the magnitude of an integer. */
  lemma ScaleBounds(g: int, m: int)
    requires g > 0
    ensures m >= 1 ==> g * m >= g
    ensures m <= -1 ==> g * m <= -g
  {
  }

  /** The gcd divides both of its arguments: the witnesses are the cofactors. */
  lemma {:induction false} GcdDivides(a: nat, b: nat) returns (p: nat, q: nat)
    ensures a == Gcd(a, b) * p && b == Gcd(a, b) * q
    decreases b
  {
    if b == 0 {
      p, q := 1, 0;
    } else {
      var g := Gcd(a, b);
      var p', q' := GcdDivides(b, a % b);
      var k := a / b;
      var m := p' * k + q';
      assert a == g * m by {
        assert a == b * k + a % b;
        Combine(g, p', k, q', 1, 0);
      }
      GcdPositive(a, b);
      ScaleBounds(g, m);
      p, q := m, p';
    }
  }

  /** Bezout's identity: the gcd is an integer combination of the arguments. */
  lemma {:induction false} Bezout(a: nat, b: nat) returns (x: int, y: int)
    ensures a * x + b * y == Gcd(a, b)
    decreases b
  {
    if b == 0 {
      x, y := 1, 0;
    } else {
      var x', y' := Bezout(b, a % b);
      var k := a / b;
      assert a % b == a - b * k;
      calc {
        a * y' + b * (x' - k * y');
        b * x' + (a - b * k) * y';
        b * x' + (a % b) * y';
        Gcd(a, b);
      }
      x, y := y', x' - k * y';
    }
  }

  lemma {:induction false} GcdPositive(a: nat, b: nat)
    requires a > 0 || b > 0
    ensures Gcd(a, b) > 0
    decreases b
  {
    if b > 0 {
      GcdPositive(b, a % b);
    }
  }

  /** Distributing a common factor over a linear combination. */
  lemma Combine(g: int, p: int, x: int, q: int, y: int, z: int)
    ensures (g * p) * x + (g * q) * y + g * z == g * (p * x + q * y + z)
  {
  }

  lemma MulRotate(g: int, x: int, y: int)
    ensures x * (g * y) == (g * x) * y
  {
  }

  lemma MulAssoc(x: int, y: int, z: int)
    ensures (x * y) * z == x * (y * z)
  {
  }

  lemma CancelFactor(g: int, m: int, n: int)
    requires g > 0 && g * m == g * n
    ensures m == n
  {
    assert g * (m - n) == 0;
    ScaleBounds(g, m - n);
  }

  /** Two positive numbers that are multiples of each other are equal. */
  lemma MutualDivisors(d1: int, d2: int, w1: int, w2: int)
    requires d1 > 0 && d2 > 0 && d2 == d1 * w1 && d1 == d2 * w2
    ensures d1 == d2
  {
    MulAssoc(d1, w1, w2);
    CancelFactor(d1, w1 * w2, 1);
    ScaleBounds(d1, w1);
    UnitFactor(w1, w2);
  }

  /** A natural number whose multiple is 1 is 1. */
  lemma UnitFactor(h: nat, m: int)
    requires h * m == 1
    ensures h == 1
  {
    assert h != 0;
    ScaleBounds(h, m);
  }

  /** After dividing two numbers, not both zero, by their gcd, what remains
      is coprime. */
  lemma ReducedCoprime(a: nat, b: nat, p: nat, q: nat)
    requires a > 0 || b > 0
    requires a == Gcd(a, b) * p && b == Gcd(a, b) * q
    ensures Gcd(p, q) == 1
  {
    var g := Gcd(a, b);
    GcdPositive(a, b);
    var x, y := Bezout(a, b);
    Combine(g, p, x, q, y, 0);
    CancelFactor(g, p * x + q * y, 1);
    assert p > 0 || q > 0;
    var h := Gcd(p, q);
    var p2, q2 := GcdDivides(p, q);
    Combine(h, p2, x, q2, y, 0);
    UnitFactor(h, p2 * x + q2 * y);
  }

  /** Euclid's lemma: if `b` divides `a * c` and is coprime with `a`, then
      `b` divides `c`. */
  lemma Euclid(a: nat, b: nat, c: int, k: int) returns (w: int)
    requires Gcd(a, b) == 1 && a * c == b * k
    ensures c == b * w
  {
    var x, y := Bezout(a, b);
    calc {
      c;
      c * (a * x + b * y);
      (a * c) * x + b * (c * y);
      (b * k) * x + b * (c * y);
      b * (k * x + c * y);
    }
    w := k * x + c * y;
  }
}
