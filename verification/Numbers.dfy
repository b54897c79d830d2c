/** Positional notation: the digits of a number, and what they are worth. */
module Numbers {

  function Power(base: nat, k: nat): (p: nat)
    requires base >= 1
    ensures p >= 1
    decreases k
  {
    if k == 0 then 1
    else
      ProductPositive(base, Power(base, k - 1));
      base * Power(base, k - 1)
  }

  lemma {:induction false} ProductPositive(a: nat, b: nat)
    requires a >= 1 && b >= 1
    ensures a * b >= 1
  {
  }

  lemma {:induction false} ProductMonotone(a: nat, x: int, y: int)
    requires x <= y
    ensures a * x <= a * y
  {
    assert a * (y - x) >= 0;
    assert a * (y - x) == a * y - a * x;
  }

  /** There is only one way to divide with a remainder. */
  lemma {:induction false} QuotientUnique(d: nat, q: int, r: int, q': int, r': int)
    requires d * q + r == d * q' + r' && 0 <= r < d && 0 <= r' < d
    ensures q == q' && r == r'
  {
    if q < q' {
      assert d * (q + 1) == d * q + d;
      ProductMonotone(d, q + 1, q');
    } else if q' < q {
      assert d * (q' + 1) == d * q' + d;
      ProductMonotone(d, q' + 1, q);
    }
  }

  lemma {:induction false} TwoRemainders(a: nat, b: nat, q: nat, s: nat, r: nat)
    requires s < b && r < a
    ensures 0 <= a * s + r < a * b
  {
    ProductMonotone(a, s + 1, b);
    ProductMonotone(a, 0, s);
    assert a * (s + 1) == a * s + a;
  }

  lemma {:induction false} SplitProduct(a: nat, b: nat, q: nat, s: nat)
    ensures a * (b * q + s) == (a * b) * q + a * s
  {
    assert a * (b * q + s) == a * (b * q) + a * s;
    assert a * (b * q) == (a * b) * q;
  }

  /** Dividing twice is dividing by the product. */
  lemma {:induction false} DivideTwice(n: nat, a: nat, b: nat)
    requires a >= 1 && b >= 1
    ensures a * b >= 1 && n / a / b == n / (a * b)
  {
    ProductPositive(a, b);
    var q := n / a;
    SameQuotient(n, a, b, q, n % a, q / b, q % b, n / (a * b), n % (a * b));
  }

  lemma {:induction false} SameQuotient(n: nat, a: nat, b: nat, q: nat, r: nat, q': nat, r': nat, all: nat, rest: nat)
    requires n == a * q + r && r < a
    requires q == b * q' + r' && r' < b
    requires n == (a * b) * all + rest && rest < a * b
    ensures q' == all
  {
    TwoRemainders(a, b, q', r', r);
    SplitProduct(a, b, q', r');
    QuotientUnique(a * b, q', a * r' + r, all, rest);
  }

  /** The digit of `n` at place `k`, counted from the right. */
  function DigitAt(n: nat, base: nat, k: nat): (d: nat)
    requires base >= 1
    ensures d < base
  {
    n / Power(base, k) % base
  }

  lemma {:induction false} LastDigit(n: nat, base: nat)
    requires base >= 1
    ensures DigitAt(n, base, 0) == n % base
  {
  }

  /** The digits further left are those of the quotient. */
  lemma {:induction false} HigherDigit(n: nat, base: nat, k: nat)
    requires base >= 1 && k >= 1
    ensures DigitAt(n, base, k) == DigitAt(n / base, base, k - 1)
  {
    DivideTwice(n, base, Power(base, k - 1));
  }

  lemma {:induction false} PowerGrows(base: nat, j: nat, k: nat)
    requires base >= 1 && j <= k
    ensures Power(base, j) <= Power(base, k)
    decreases k
  {
    if j < k {
      PowerGrows(base, j, k - 1);
      ProductMonotone(Power(base, k - 1), 1, base);
    }
  }
}
