/** Quotients and remainders with a divisor that is not a literal. */
module Division {

  lemma {:induction false} MulMono(d: nat, a: nat, b: nat)
    ensures a <= b ==> d * a <= d * b
    ensures d * (a + 1) == d * a + d
  {
  }

  lemma {:induction false} PositiveProduct(a: nat, b: nat)
    requires a > 0 && b > 0
    ensures a * b > 0
  {
  }

  lemma {:induction false} DivMod(v: nat, d: nat)
    requires d > 0
    ensures v == d * (v / d) + v % d && 0 <= v % d < d && v / d >= 0
  {
  }

  lemma {:induction false} Unique(d: nat, q: nat, r: nat, q': nat, r': nat)
    requires r < d && r' < d && d * q + r == d * q' + r'
    ensures q == q' && r == r'
  {
    MulMono(d, q + 1, q');
    MulMono(d, q' + 1, q);
  }

  /** Quotient and remainder are determined by their equation. */
  lemma {:induction false} Quotient(v: nat, d: nat, q: nat, r: nat)
    requires r < d && v == d * q + r
    ensures v / d == q && v % d == r
  {
    DivMod(v, d);
    Unique(d, q, r, v / d, v % d);
  }

  lemma {:induction false} QuotientBelow(b: nat, d: nat, n: nat)
    requires d > 0
    ensures b / d < n <==> b < d * n
  {
    var q := b / d;
    DivMod(b, d);
    MulMono(d, q + 1, n);
    MulMono(d, n, q);
    MulMono(d, q, 0);
  }

  lemma {:induction false} Associates(a: nat, b: nat, c: nat)
    ensures a * b * c == a * (b * c)
  {
  }

  lemma {:induction false} Distributes(s: nat, a: nat, b: nat)
    ensures s * (a + b) == s * a + s * b && s * a >= 0 && s * b >= 0
  {
  }

  /** A remainder keeps its own remainder modulo a divisor of the modulus. */
  lemma {:induction false} RemainderOfMultiple(o: nat, p: nat, k: nat)
    requires p > 0 && k > 0 && p * k > 0
    ensures o % (p * k) % p == o % p
  {
    var s := p * k;
    var q, r := o / s, o % s;
    var a, b := r / p, r % p;
    DivMod(o, s);
    DivMod(r, p);
    Associates(p, k, q);
    Distributes(p, k * q, a);
    Quotient(o, p, k * q + a, b);
  }

  lemma {:induction false} SmallRemainder(v: nat, d: nat)
    requires v < d
    ensures v % d == v
  {
    Quotient(v, d, 0, v);
  }

  function RoundDown(v: nat, d: nat): (r: nat)
    requires d > 0
    ensures r + v % d == v
  {
    DivMod(v, d);
    d * (v / d)
  }
}
