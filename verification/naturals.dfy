/** Natural-number multiplication and division written as recursion.
    Buffer sizes and row starts are stated with `Times`, and the row of a
    buffer index with `Quotient`, so that the solver meets the nonlinear
    operators `*` and `/` only where a proof asks for them through
    `TimesIsProduct` and `QuotientIsDivision`. */
module Naturals {

  /** The product `a * b`, by repeated addition. */
  function Times(a: nat, b: nat): nat {
    if a == 0 then 0 else Times(a - 1, b) + b
  }

  /** `Times` is multiplication. */
  lemma {:induction false} TimesIsProduct(a: nat, b: nat)
    ensures Times(a, b) == a * b
  {
    if a > 0 {
      TimesIsProduct(a - 1, b);
    }
  }

  /** More rows of the same width never make a smaller product. */
  lemma {:induction false} TimesMonotone(a: nat, b: nat, w: nat)
    requires a <= b
    ensures Times(a, w) <= Times(b, w)
    decreases b - a
  {
    if a < b {
      TimesMonotone(a, b - 1, w);
    }
  }

  /** Multiplying by a natural number preserves `<=`. */
  lemma MulMonotone(a: nat, b: nat, d: nat)
    requires a <= b
    ensures a * d <= b * d
  {
  }

  /** Division with remainder has a unique quotient and remainder. */
  lemma DivModUnique(q: nat, r: nat, d: nat)
    requires r < d
    ensures (q * d + r) / d == q
    ensures (q * d + r) % d == r
  {
    var n := q * d + r;
    var q' := n / d;
    var r' := n % d;
    assert n == q' * d + r';
    if q' < q {
      MulMonotone(q' + 1, q, d);
    } else if q' > q {
      MulMonotone(q + 1, q', d);
    }
  }

  /** The quotient `n / d` rounded down, by repeated subtraction: the
      number of whole `d`s in `n`. */
  function Quotient(n: nat, d: nat): nat
    requires d >= 1
    decreases n
  {
    if n < d then 0 else Quotient(n - d, d) + 1
  }

  /** The quotient counts every whole `d` in `n` and no more: `n` lies
      between the quotient's multiple of `d` and the next one. */
  lemma {:induction false} QuotientBrackets(n: nat, d: nat)
    requires d >= 1
    ensures Times(Quotient(n, d), d) <= n < Times(Quotient(n, d) + 1, d)
    decreases n
  {
    if n >= d {
      QuotientBrackets(n - d, d);
    }
  }

  /** A number bracketed by two consecutive multiples of `d` determines
      their quotient. */
  lemma QuotientUnique(q: nat, n: nat, d: nat)
    requires d >= 1 && Times(q, d) <= n < Times(q + 1, d)
    ensures Quotient(n, d) == q
  {
    var p := Quotient(n, d);
    QuotientBrackets(n, d);
    if p < q {
      TimesMonotone(p + 1, q, d);
    } else if p > q {
      TimesMonotone(q + 1, p, d);
    }
  }

  /** `Quotient` is natural-number division. */
  lemma QuotientIsDivision(n: nat, d: nat)
    requires d >= 1
    ensures Quotient(n, d) == n / d
  {
    var q := Quotient(n, d);
    QuotientBrackets(n, d);
    TimesIsProduct(q, d);
    TimesIsProduct(q + 1, d);
    DivModUnique(q, n - q * d, d);
  }
}
