/** Multiplication and division by factors that are not constants. Division is set out by repeated
    subtraction, so that proofs about block and cluster positions stay linear. */
module Arithmetic {
  lemma Distribute(a: int, b: int, d: int)
    ensures (a - b) * d == a * d - b * d
  {
  }

  lemma AtLeastOnce(m: int, d: nat)
    requires m >= 1
    ensures m * d >= d
  {
    Distribute(m, 1, d);
  }

  lemma FewerTakeLess(p: nat, q: nat, d: nat)
    requires p < q
    ensures 0 <= p * d && p * d + d <= q * d
  {
    Distribute(q, p, d);
    AtLeastOnce(q - p, d);
  }

  lemma WholeTimes(x: nat, d: nat)
    requires d > 0
    ensures x / d >= 0 && (x / d) * d <= x
  {
    assert x == (x / d) * d + x % d;
  }

  function Min(a: nat, b: nat): nat {
    if a < b then a else b
  }

  function Max(a: nat, b: nat): nat {
    if a < b then b else a
  }

  function Times(q: nat, d: nat): nat {
    if q == 0 then 0 else Times(q - 1, d) + d
  }

  function Div(x: nat, d: nat): nat
    requires d > 0
  {
    if x < d then 0 else Div(x - d, d) + 1
  }

  function Mod(x: nat, d: nat): nat
    requires d > 0
  {
    if x < d then x else Mod(x - d, d)
  }

  lemma {:induction false} Split(x: nat, d: nat)
    requires d > 0
    ensures x == Times(Div(x, d), d) + Mod(x, d) && Mod(x, d) < d
  {
    if x >= d { Split(x - d, d); }
  }

  lemma {:induction false} Unique(q: nat, r: nat, d: nat)
    requires r < d
    ensures Div(Times(q, d) + r, d) == q && Mod(Times(q, d) + r, d) == r
  {
    if q > 0 { Unique(q - 1, r, d); }
  }

  lemma {:induction false} TimesGrows(p: nat, q: nat, d: nat)
    requires p <= q
    ensures Times(p, d) <= Times(q, d)
    ensures p < q ==> Times(p, d) + d <= Times(q, d)
  {
    if p < q { TimesGrows(p, q - 1, d); }
  }

  lemma {:induction false} DivGrows(x: nat, y: nat, d: nat)
    requires d > 0 && x <= y
    ensures Div(x, d) <= Div(y, d) <= y
  {
    if x >= d { DivGrows(x - d, y - d, d); }
    else if y >= d { DivGrows(0, y - d, d); }
  }

  lemma {:induction false} TimesIsProduct(q: nat, d: nat)
    ensures Times(q, d) == q * d
  {
    if q > 0 {
      TimesIsProduct(q - 1, d);
      Distribute(q, 1, d);
    }
  }

  /** The recursive forms are the language's own operators. */
  lemma AgreesWithOperators(x: nat, d: nat)
    requires d > 0
    ensures Div(x, d) == x / d && Mod(x, d) == x % d
  {
    Split(x, d);
    TimesIsProduct(Div(x, d), d);
    OneQuotient(Div(x, d), Mod(x, d), x / d, x % d, d);
  }

  lemma OneQuotient(p: nat, r: nat, q: nat, s: nat, d: nat)
    requires r < d && s < d && p * d + r == q * d + s
    ensures p == q && r == s
  {
    Distribute(p, q, d);
    Distribute(q, p, d);
    if p > q { AtLeastOnce(p - q, d); }
    if q > p { AtLeastOnce(q - p, d); }
  }
}
