// Products and quotients by repetition. They equal * and /, as the first two
// lemmas say; stating contracts with them keeps the proofs linear.

module Arithmetic {

  function Times(a: nat, b: int): int {
    if a == 0 then 0 else Times(a - 1, b) + b
  }

  function Quotient(a: nat, b: nat): nat
    requires b > 0
  {
    if a < b then 0 else 1 + Quotient(a - b, b)
  }

  lemma {:induction false} TimesIsProduct(a: nat, b: int)
    ensures Times(a, b) == a * b
  {
    if a > 0 {
      TimesIsProduct(a - 1, b);
    }
  }

  lemma {:induction false} QuotientOf(q: nat, b: nat, r: nat)
    requires r < b
    ensures 0 <= Times(q, b)
    ensures Quotient(Times(q, b) + r, b) == q
  {
    if q > 0 {
      QuotientOf(q - 1, b, r);
    }
  }

  lemma QuotientIsDivision(a: nat, b: nat)
    requires b > 0
    ensures Quotient(a, b) == a / b
  {
    var q, r := a / b, a % b;
    TimesIsProduct(q, b);
    assert a == q * b + r;
    QuotientOf(q, b, r);
  }

  lemma Brackets(a: nat, b: nat)
    requires b > 0
    ensures 0 <= a / b && a / b * b <= a < (a / b + 1) * b
  {
    var q, r := a / b, a % b;
    assert a == q * b + r && 0 <= r < b;
    assert (q + 1) * b == q * b + b;
  }

  lemma {:induction false} TimesSum(a: nat, b: int, c: int)
    ensures Times(a, b + c) == Times(a, b) + Times(a, c)
  {
    if a > 0 {
      TimesSum(a - 1, b, c);
    }
  }

  lemma {:induction false} TimesOf(a: nat, b: nat, c: int)
    ensures Times(a + b, c) == Times(a, c) + Times(b, c)
  {
    if a > 0 {
      TimesOf(a - 1, b, c);
    }
  }

  lemma {:induction false} TimesMonotone(a: nat, b: int, c: int)
    requires b <= c
    ensures Times(a, b) <= Times(a, c)
  {
    if a > 0 {
      TimesMonotone(a - 1, b, c);
    }
  }

  lemma {:induction false} TimesAtMost(a: nat, b: nat, c: nat)
    requires a <= b
    ensures 0 <= Times(a, c) <= Times(b, c)
  {
    if a > 0 {
      TimesAtMost(a - 1, b - 1, c);
    } else if b > 0 {
      TimesAtMost(0, b - 1, c);
    }
  }

  lemma {:induction false} TimesOne(a: nat)
    ensures Times(a, 1) == a && Times(a, 0) == 0 && Times(a, -1) + a == 0
  {
    if a > 0 {
      TimesOne(a - 1);
    }
  }

  lemma {:induction false} TimesSwap(a: nat, b: nat)
    ensures Times(a, b) == Times(b, a)
  {
    if a > 0 {
      TimesSwap(a - 1, b);
      TimesSum(b, a - 1, 1);
      TimesOne(b);
    } else {
      TimesOne(b);
    }
  }

  lemma {:induction false} TimesNested(a: nat, b: nat, c: int)
    ensures 0 <= Times(a, b)
    ensures Times(Times(a, b), c) == Times(a, Times(b, c))
  {
    TimesAtMost(0, a, b);
    if a > 0 {
      TimesAtMost(0, a - 1, b);
      TimesNested(a - 1, b, c);
      TimesOf(Times(a - 1, b), b, c);
    }
  }

  // A quotient is below c exactly when the dividend is below c divisors.
  lemma {:induction false} QuotientBelow(a: nat, b: nat, c: nat)
    requires b > 0
    ensures Quotient(a, b) < c <==> a < Times(c, b)
  {
    if c == 0 {
    } else if a >= b {
      QuotientBelow(a - b, b, c - 1);
    } else {
      TimesAtMost(0, c - 1, b);
    }
  }
}
