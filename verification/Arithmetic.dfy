/** Division and multiplication facts the solver needs help with. */
module Arithmetic {

  const TWO32 := 0x1_0000_0000

  lemma MulMono(a: int, b: int, h: nat)
    requires a <= b
    ensures a * h <= b * h
  {
  }

  lemma SameQuotient(q: int, r: nat, q': int, r': nat, h: nat)
    requires r < h && r' < h && q * h + r == q' * h + r'
    ensures q == q' && r == r'
  {
    if q < q' {
      MulMono(q + 1, q', h);
    } else if q' < q {
      MulMono(q' + 1, q, h);
    }
  }

  lemma DivMod(a: int, h: nat)
    requires h > 0
    ensures a == a / h * h + a % h && 0 <= a % h < h
  {
  }

  lemma DivUnique(a: int, h: nat, q: int, r: nat)
    requires h > 0 && a == q * h + r && r < h
    ensures a / h == q && a % h == r
  {
    DivMod(a, h);
    SameQuotient(q, r, a / h, a % h, h);
  }

  lemma DivAntitone(a: nat, b: nat, c: nat)
    requires 0 < b <= c
    ensures a / c <= a / b
  {
    var q, r := a / b, a / c;
    DivMod(a, b);
    DivMod(a, c);
    MulMono(b, c, r);
    assert r * b <= r * c;
    if r > q {
      MulMono(q + 1, r, b);
    }
  }

  lemma ModAddMultiple(a: int, k: int, h: nat)
    requires h > 0
    ensures (a + k * h) % h == a % h && (a + k * h) / h == a / h + k
  {
    DivMod(a, h);
    assert a + k * h == (a / h + k) * h + a % h;
    DivUnique(a + k * h, h, a / h + k, a % h);
  }

  /** n < q*h + h, so that n / h <= q: the quotient as the largest factor that fits. */
  lemma DivBound(n: nat, h: nat, q: nat)
    requires h > 0
    ensures n / h <= q <==> n < (q + 1) * h
    ensures q <= n / h <==> q * h <= n
  {
    DivMod(n, h);
    if n / h <= q {
      MulMono(n / h, q, h);
    } else {
      MulMono(q + 1, n / h, h);
    }
    if q <= n / h {
      MulMono(q, n / h, h);
    } else {
      MulMono(n / h + 1, q, h);
    }
  }
}
