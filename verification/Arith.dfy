/** Block arithmetic.  Products, quotients and remainders by a symbolic block size are
    written as sums, so that every proof about blocks stays linear; TimesIsMul ties products
    to the ordinary operator, and QuotOf and QuotIs pin quotient and remainder down. */
module Arith {

  function Min(a: int, b: int): int {
    if a < b then a else b
  }

  function Max(a: int, b: int): int {
    if a < b then b else a
  }

  function Times(k: nat, b: nat): nat {
    if k == 0 then 0 else Times(k - 1, b) + b
  }

  function Quot(x: nat, b: nat): nat
    requires 0 < b
  {
    if x < b then 0 else 1 + Quot(x - b, b)
  }

  function Rem(x: nat, b: nat): (r: nat)
    requires 0 < b
    ensures r < b && r <= x
  {
    if x < b then x else Rem(x - b, b)
  }

  lemma {:induction false} TimesIsMul(k: nat, b: nat)
    ensures Times(k, b) == k * b
  {
    if k != 0 {
      TimesIsMul(k - 1, b);
    }
  }

  lemma {:induction false} TimesMono(a: nat, c: nat, b: nat)
    requires a <= c
    ensures Times(a, b) <= Times(c, b)
    ensures a < c ==> Times(a, b) + b <= Times(c, b)
  {
    if a < c {
      TimesMono(a, c - 1, b);
    }
  }

  lemma {:induction false} TimesAdd(a: nat, c: nat, b: nat)
    ensures Times(a + c, b) == Times(a, b) + Times(c, b)
  {
    if c != 0 {
      TimesAdd(a, c - 1, b);
    }
  }

  /** Multiples of b that are strictly ordered come from ordered factors. */
  lemma {:induction false} TimesCancel(a: nat, c: nat, b: nat)
    requires Times(a, b) < Times(c, b)
    ensures a < c
  {
    if c <= a {
      TimesMono(c, a, b);
    }
  }

  /** Quotient and remainder are pinned down by the block that contains the number. */
  lemma {:induction false} QuotIs(x: nat, b: nat, q: nat)
    requires 0 < b
    requires Times(q, b) <= x < Times(q, b) + b
    ensures Quot(x, b) == q
    ensures Rem(x, b) == x - Times(q, b)
  {
    if q != 0 {
      QuotIs(x - b, b, q - 1);
    }
  }

  lemma {:induction false} QuotOf(x: nat, b: nat)
    requires 0 < b
    ensures Times(Quot(x, b), b) <= x < Times(Quot(x, b), b) + b
    ensures Rem(x, b) == x - Times(Quot(x, b), b)
  {
    if b <= x {
      QuotOf(x - b, b);
    }
  }

  /** Two quotients with remainders smaller than b. */
  lemma {:induction false} DivisionUnique(q: nat, r: nat, q': nat, r': nat, b: nat)
    requires q * b + r == q' * b + r' && r < b && r' < b
    ensures q == q' && r == r'
  {
    TimesIsMul(q, b);
    TimesIsMul(q', b);
    QuotIs(q * b + r, b, q);
    QuotIs(q * b + r, b, q');
  }

  /** Quotient and remainder are those of the ordinary operators. */
  lemma {:induction false} QuotIsDiv(x: nat, b: nat)
    requires 0 < b
    ensures Quot(x, b) == x / b && Rem(x, b) == x % b
  {
    QuotOf(x, b);
    TimesIsMul(Quot(x, b), b);
    DivisionUnique(Quot(x, b), Rem(x, b), x / b, x % b, b);
  }

  /** Division rounded up. */
  function CeilQuot(x: nat, b: nat): nat
    requires 0 < b
  {
    Quot(x + b - 1, b)
  }

  lemma {:induction false} CeilQuotIs(x: nat, b: nat)
    requires 0 < b
    ensures x <= Times(CeilQuot(x, b), b)
    ensures 0 < x ==> 0 < CeilQuot(x, b) && Times(CeilQuot(x, b) - 1, b) < x
  {
    QuotOf(x + b - 1, b);
  }

  /** b to the power e. */
  function Power(b: nat, e: nat): nat {
    if e == 0 then 1 else Times(b, Power(b, e - 1))
  }

  lemma {:induction false} PowerPositive(b: nat, e: nat)
    requires 0 < b
    ensures 0 < Power(b, e)
  {
    if e != 0 {
      PowerPositive(b, e - 1);
      TimesMono(1, b, Power(b, e - 1));
    }
  }

  lemma {:induction false} TimesAssoc(a: nat, b: nat, c: nat)
    ensures Times(Times(a, b), c) == Times(a, Times(b, c))
  {
    if a != 0 {
      TimesAssoc(a - 1, b, c);
      TimesAdd(Times(a - 1, b), b, c);
    }
  }

  lemma {:induction false} TimesOne(i: nat)
    ensures Times(i, 1) == i
  {
    if i != 0 {
      TimesOne(i - 1);
    }
  }

  lemma {:induction false} PowerMono(b: nat, e: nat, e': nat)
    requires 0 < b && e <= e'
    ensures Power(b, e) <= Power(b, e')
  {
    if e < e' {
      PowerMono(b, e, e' - 1);
      TimesMono(1, b, Power(b, e' - 1));
    }
  }

  /** Dividing by r and then by b is dividing by their product. */
  lemma {:induction false} DivideTwice(x: nat, q: nat, b: nat, r: nat)
    requires 0 < b && Times(q, r) <= x < Times(q + 1, r)
    ensures Times(Quot(q, b), Times(b, r)) <= x < Times(Quot(q, b) + 1, Times(b, r))
  {
    QuotOf(q, b);
    var p := Quot(q, b);
    TimesAssoc(p, b, r);
    TimesAssoc(p + 1, b, r);
    TimesMono(Times(p, b), q, r);
    TimesMono(q + 1, Times(p + 1, b), r);
  }

  lemma {:induction false} QuotQuot(x: nat, b: nat, r: nat)
    requires 0 < b && 0 < r && 0 < Times(b, r)
    ensures Quot(Quot(x, r), b) == Quot(x, Times(b, r))
  {
    QuotOf(x, r);
    DivideTwice(x, Quot(x, r), b, r);
    QuotIs(x, Times(b, r), Quot(Quot(x, r), b));
  }

  lemma {:induction false} TimesSwap(a: nat, b: nat)
    ensures Times(a, b) == Times(b, a)
  {
    TimesIsMul(a, b);
    TimesIsMul(b, a);
  }
}
