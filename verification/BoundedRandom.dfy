/** Random numbers below a bound, from 32-bit draws, by multiplication and rejection. */
module BoundedRandom {
  import opened Arithmetic
  import opened Options

  const MAX_LONG := 0x7fff_ffff

  type uint32 = x: nat | x < TWO32

  /** Upper and lower half of the 64-bit product of a draw and the bound. */
  function High(x: nat, howbig: nat): nat { x * howbig / TWO32 }

  function Low(x: nat, howbig: nat): nat { x * howbig % TWO32 }

  /** Draws whose lower half is below 2^32 mod howbig are rejected. */
  predicate Accepted(x: nat, howbig: nat)
    requires howbig > 0
  {
    Low(x, howbig) >= TWO32 % howbig
  }

  // ---- Uniformity ----

  /** The accepted draws that lead to the result r. */
  function Preimage(howbig: nat, r: nat): set<nat>
    requires howbig > 0
  {
    set x: nat | x < TWO32 && Accepted(x, howbig) && High(x, howbig) == r
  }

  /** The n numbers from lo on. */
  function Interval(lo: nat, n: nat): set<nat> {
    if n == 0 then {} else Interval(lo, n - 1) + {lo + n - 1}
  }

  lemma {:induction false} IntervalHas(lo: nat, n: nat)
    ensures |Interval(lo, n)| == n
    ensures forall x :: x in Interval(lo, n) <==> lo <= x < lo + n
  {
    if n > 0 {
      IntervalHas(lo, n - 1);
    }
  }

  /** The least multiple of h that is not below a. */
  function CeilDiv(a: nat, h: nat): nat
    requires h > 0
  {
    (a + h - 1) / h
  }

  lemma CeilDivIsLeast(a: nat, h: nat, x: int)
    requires h > 0
    ensures x * h >= a <==> x >= CeilDiv(a, h)
  {
    var c := CeilDiv(a, h);
    var rest := (a + h - 1) % h;
    assert c * h + rest == a + h - 1;
    if x >= c {
      assert x * h >= c * h;
    } else {
      assert x * h <= (c - 1) * h;
      assert (c - 1) * h == c * h - h;
    }
  }

  lemma AcceptedWindow(x: nat, h: nat, r: nat)
    requires 0 < h && r < h
    ensures x < TWO32 && Accepted(x, h) && High(x, h) == r <==>
            r * TWO32 + TWO32 % h <= x * h < (r + 1) * TWO32
  {
  }

  /** The number of multiples of h in a window that is q*h long is q. */
  lemma WindowIsInterval(x: nat, h: nat, a: nat, q: nat)
    requires 0 < h
    ensures a <= x * h < a + q * h <==> CeilDiv(a, h) <= x < CeilDiv(a, h) + q
  {
    CeilDivIsLeast(a, h, x);
    CeilDivIsLeast(a, h, x - q);
    assert (x - q) * h == x * h - q * h;
  }

  lemma PreimageIsInterval(h: nat, r: nat)
    requires 0 < h && r < h
    ensures Preimage(h, r) == Interval(CeilDiv(r * TWO32 + TWO32 % h, h), TWO32 / h)
  {
    var a, q := r * TWO32 + TWO32 % h, TWO32 / h;
    DivMod(TWO32, h);
    assert a + q * h == (r + 1) * TWO32;
    IntervalHas(CeilDiv(a, h), q);
    hide CeilDiv, Accepted, High;
    forall x: nat ensures x in Preimage(h, r) <==> x in Interval(CeilDiv(a, h), q) {
      AcceptedWindow(x, h, r);
      WindowIsInterval(x, h, a, q);
    }
  }

  /** Every result below the bound has exactly floor(2^32 / howbig) accepted draws. */
  lemma Uniform(howbig: nat, r: nat)
    requires 0 < howbig && r < howbig
    ensures |Preimage(howbig, r)| == TWO32 / howbig
  {
    PreimageIsInterval(howbig, r);
    IntervalHas(CeilDiv(r * TWO32 + TWO32 % howbig, howbig), TWO32 / howbig);
  }

  /** No draw leads to a result outside the range. */
  lemma ResultInRange(x: nat, howbig: nat)
    requires x < TWO32 && howbig > 0
    ensures High(x, howbig) < howbig
  {
    MulMono(x + 1, TWO32, howbig);
    assert (x + 1) * howbig == x * howbig + howbig;
    DivBound(x * howbig, TWO32, howbig - 1);
  }

  // ---- The generator ----

  /** The hardware generator, which will deliver the given draws. */
  class Generator {
    const draws: seq<uint32>
    var used: nat

    constructor (draws: seq<uint32>)
      ensures this.draws == draws && used == 0
    {
      this.draws, used := draws, 0;
    }

    /** The threshold 2^32 mod howbig, from -howbig in 32-bit arithmetic. */
    static method Threshold(howbig: nat) returns (t: nat)
      requires 0 < howbig <= MAX_LONG
      ensures t == TWO32 % howbig
    {
      t := (TWO32 - howbig) % TWO32;
      ghost var q := TWO32 / howbig;
      assert TWO32 == q * howbig + TWO32 % howbig;
      Remainder(TWO32 - howbig, howbig);
      if t >= howbig {
        t := t - howbig;
        Remainder(t, howbig);
        if t >= howbig {
          t := t % howbig;
        }
      }
    }

    /** The result of the first accepted draw; None if the draws run out before. A bound of
        0 gives 0. */
    method Random(howbig: nat) returns (r: Option<nat>)
      requires howbig <= MAX_LONG && used <= |draws|
      modifies this
      ensures old(used) <= used <= |draws|
      ensures howbig > 0 ==> forall i :: old(used) <= i < used - 1 ==> !Accepted(draws[i], howbig)
      ensures r.Some? ==> used > old(used) && r.value == High(draws[used - 1], howbig)
      ensures r.Some? && howbig > 0 ==> Accepted(draws[used - 1], howbig) && r.value < howbig
      ensures r.Some? && howbig == 0 ==> r.value == 0
      ensures r.None? ==> used == |draws|
      ensures r.None? && howbig > 0 ==> forall i :: old(used) <= i < used ==> !Accepted(draws[i], howbig)
    {
      if used == |draws| {
        return None;
      }
      var x := draws[used];
      used := used + 1;
      var m := x * howbig;
      var l := m % TWO32;
      if l < howbig {
        var t := Threshold(howbig);
        while l < t
          invariant old(used) < used <= |draws| && x == draws[used - 1] && m == x * howbig && l == m % TWO32
          invariant forall i :: old(used) <= i < used - 1 ==> !Accepted(draws[i], howbig)
          decreases |draws| - used
        {
          if used == |draws| {
            return None;
          }
          x := draws[used];
          used := used + 1;
          m := x * howbig;
          l := m % TWO32;
        }
      } // otherwise l is not below 2^32 mod howbig either
      if howbig > 0 {
        ResultInRange(x, howbig);
      }
      return Some(m / TWO32);
    }

    /** A number from howsmall up to, but not including, howbig. */
    method RandomBetween(howsmall: int, howbig: int) returns (r: Option<int>)
      requires used <= |draws| && howbig - howsmall <= MAX_LONG
      modifies this
      ensures old(used) <= used <= |draws|
      ensures howsmall >= howbig ==> r == Some(howsmall) && used == old(used)
      ensures howsmall < howbig && r.Some? ==>
        && howsmall <= r.value < howbig && used > old(used)
        && draws[used - 1] in Preimage(howbig - howsmall, r.value - howsmall)
        && forall i :: old(used) <= i < used - 1 ==> !Accepted(draws[i], howbig - howsmall)
    {
      if howsmall >= howbig {
        return Some(howsmall);
      }
      var diff := howbig - howsmall;
      var offset := Random(diff);
      if offset.None? {
        return None;
      }
      return Some(offset.value + howsmall);
    }
  }

  lemma Remainder(a: nat, h: nat)
    requires h > 0
    ensures (a + h) % h == a % h
    ensures a < h ==> a % h == a
  {
    ModAddMultiple(a, 1, h);
    if a < h {
      DivUnique(a, h, 0, a);
    }
  }
}
