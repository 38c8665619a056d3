/** The clock divider of the SPI peripheral: which register value comes closest to a wanted
    frequency from below. */
module SpiClock {
  import opened Arithmetic

  const TWO31 := 0x8000_0000
  const MAX_PRE := 0x1FFF
  const MAX_N := 0x3F

  /** The clock register; the clock is the APB clock divided by (pre + 1) * (n + 1). */
  datatype ClkReg = ClkReg(cntL: nat, cntH: nat, n: nat, pre: nat, equSysclk: bool) {
    predicate Valid() {
      cntL < 64 && cntH < 64 && n <= MAX_N && pre <= MAX_PRE
    }

    function Value(): nat {
      cntL + cntH * 0x40 + n * 0x1000 + pre * 0x40000 + if equSysclk then TWO31 else 0
    }
  }

  function RegisterOf(value: nat): ClkReg {
    ClkReg(value % 0x40, value / 0x40 % 0x40, value / 0x1000 % 0x40, value / 0x40000 % 0x2000, value / TWO31 % 2 == 1)
  }

  lemma RegisterRoundTrip(reg: ClkReg)
    requires reg.Valid()
    ensures RegisterOf(reg.Value()) == reg && reg.Value() < TWO32
  {
    var v, s := reg.Value(), if reg.equSysclk then 1 else 0;
    DivUnique(v, 0x40, reg.cntH + 0x40 * reg.n + 0x1000 * reg.pre + 0x2000000 * s, reg.cntL);
    DivUnique(v / 0x40, 0x40, reg.n + 0x40 * reg.pre + 0x80000 * s, reg.cntH);
    DivUnique(v, 0x1000, reg.n + 0x40 * reg.pre + 0x80000 * s, reg.cntL + 0x40 * reg.cntH);
    DivUnique(v / 0x1000, 0x40, reg.pre + 0x2000 * s, reg.n);
    DivUnique(v, 0x40000, reg.pre + 0x2000 * s, reg.cntL + 0x40 * reg.cntH + 0x1000 * reg.n);
    DivUnique(v / 0x40000, 0x2000, s, reg.pre);
    DivUnique(v, TWO31, s, reg.cntL + 0x40 * reg.cntH + 0x1000 * reg.n + 0x40000 * reg.pre);
  }

  function Freq(apb: nat, pre: nat, n: nat): nat {
    MulPos(pre + 1, n + 1);
    apb / ((pre + 1) * (n + 1))
  }

  lemma MulPos(a: nat, b: nat)
    requires a > 0 && b > 0
    ensures a * b > 0
  {
  }

  /** What the register makes of the APB clock. */
  function ClockDivToFrequency(apb: nat, value: nat): nat {
    Freq(apb, RegisterOf(value).pre, RegisterOf(value).n)
  }

  /** In terms of the bits of the register: the pre-divider has 13 of them, from bit 18 on, and
      the divider 6, from bit 12 on. */
  lemma DividerBits(apb: nat, value: nat)
    ensures var d := (value / 0x40000 % 0x2000 + 1) * (value / 0x1000 % 0x40 + 1);
            d > 0 && ClockDivToFrequency(apb, value) == apb / d
  {
    MulPos(value / 0x40000 % 0x2000 + 1, value / 0x1000 % 0x40 + 1);
  }

  /** Conversion of a 32-bit unsigned value to a signed one. */
  function ToInt32(x: int): int {
    if x % TWO32 < TWO31 then x % TWO32 else x % TWO32 - TWO32
  }

  /** No divider setting the register can hold is closer to freq from below than best. */
  predicate BestBelow(apb: nat, freq: nat, best: nat) {
    && best <= freq
    && forall pre, n :: 0 <= pre <= MAX_PRE && 1 <= n <= MAX_N && Freq(apb, pre, n) <= freq ==> Freq(apb, pre, n) <= best
  }

  // ---- One divider n ----

  function Clamp(pre: int): nat {
    if pre > MAX_PRE then MAX_PRE else if pre <= 0 then 0 else pre
  }

  /** The quotient around which the pre-divider is searched. */
  function Quotient(apb: nat, freq: nat, n: nat): nat
    requires freq > 0
  {
    apb / (n + 1) / freq
  }

  lemma DivDiv(a: nat, b: nat, c: nat)
    requires b > 0 && c > 0
    ensures b * c > 0 && a / (b * c) == a / c / b
  {
    MulPos(b, c);
    var u := a / c;
    DivMod(a, c);
    var m := a % c;
    DivMod(u, b);
    NestedDivision(a, b, c, u, m, u / b, u % b);
  }

  lemma NestedDivision(a: nat, b: nat, c: nat, u: nat, m: nat, q: nat, r: nat)
    requires a == u * c + m && u == q * b + r && r < b && m < c && b * c > 0
    ensures a / (b * c) == q
  {
    Distribute(q, b, r, c);
    MulMono(r + 1, b, c);
    assert (r + 1) * c == r * c + c;
    DivUnique(a, b * c, q, r * c + m);
  }

  lemma Distribute(q: nat, b: nat, r: nat, c: nat)
    ensures (q * b + r) * c == q * (b * c) + r * c
  {
    assert q * b * c == q * (b * c);
  }

  /** From the quotient on the clock is too slow, below it is fast enough. */
  lemma AroundQuotient(apb: nat, freq: nat, n: nat, pre: nat)
    requires freq > 0
    ensures pre >= Quotient(apb, freq, n) ==> Freq(apb, pre, n) < freq
    ensures pre < Quotient(apb, freq, n) ==> Freq(apb, pre, n) >= freq
  {
    var a := apb / (n + 1);
    FreqIs(apb, pre, n);
    hide Freq;
    SlowOrFast(a, freq, pre + 1);
  }

  lemma FreqIs(apb: nat, pre: nat, n: nat)
    ensures Freq(apb, pre, n) == apb / (n + 1) / (pre + 1)
  {
    DivDiv(apb, pre + 1, n + 1);
  }

  lemma SlowOrFast(a: nat, freq: nat, m: nat)
    requires freq > 0 && m > 0
    ensures m > a / freq <==> a / m < freq
  {
    DivBound(a, m, freq - 1);
    DivBound(a, freq, m - 1);
  }

  lemma FreqMonotone(apb: nat, n: nat, pre: nat, pre': nat)
    requires pre <= pre'
    ensures Freq(apb, pre', n) <= Freq(apb, pre, n)
  {
    FreqIs(apb, pre, n);
    FreqIs(apb, pre', n);
    hide Freq;
    DivAntitone(apb / (n + 1), pre + 1, pre' + 1);
  }

  /** Two of the four pre-dividers that are tried are enough: either the one below the
      quotient is exact, or the quotient itself is the best there is for n. */
  lemma TwoCandidatesSuffice(apb: nat, freq: nat, n: nat, pre: nat)
    requires freq > 0 && pre <= MAX_PRE && Freq(apb, pre, n) <= freq
    ensures var q := Quotient(apb, freq, n);
            || Freq(apb, Clamp(q - 1), n) == freq
            || Freq(apb, pre, n) <= Freq(apb, Clamp(q), n) < freq
  {
    var q := Quotient(apb, freq, n);
    hide Freq, Quotient;
    AroundQuotient(apb, freq, n, pre);
    if pre >= q {
      AroundQuotient(apb, freq, n, q);
      FreqMonotone(apb, n, q, pre);
    } else {
      AroundQuotient(apb, freq, n, Clamp(q - 1));
      FreqMonotone(apb, n, pre, Clamp(q - 1));
    }
  }

  /** The search never computes a pre-divider that does not fit 32 bits. */
  lemma QuotientFits(apb: nat, freq: nat, n: nat)
    requires apb < TWO32 && freq > 0 && 1 <= n <= MAX_N && freq >= Freq(apb, MAX_PRE, MAX_N)
    ensures Quotient(apb, freq, n) < TWO31 - 2
  {
    var d := 0x80000;
    DivBound(apb, d, freq);
    assert apb < (freq + 1) * d;
    var a := apb / (n + 1);
    DivBound(apb, n + 1, apb);
    assert a <= apb by { MulMono(1, n + 1, a); DivMod(apb, n + 1); }
    DivBound(a, freq, 2 * d);
    assert (2 * d + 1) * freq >= (freq + 1) * d;
  }

  /** Some setting is positive and not above freq. */
  lemma SomethingFits(apb: nat, freq: nat) returns (pre: nat, n: nat)
    requires 1 <= freq < apb && freq >= Freq(apb, MAX_PRE, MAX_N)
    ensures pre <= MAX_PRE && 1 <= n <= MAX_N && 1 <= Freq(apb, pre, n) <= freq
  {
    if apb >= 0x80000 {
      pre, n := MAX_PRE, MAX_N;
      DivBound(apb, 0x80000, 1);
    } else if apb >= 64 {
      n, pre := MAX_N, apb / 64 - 1;
      DivUnique(apb, (pre + 1) * 64, 1, apb % 64);
    } else {
      n, pre := 1, apb / 2 - 1;
      DivUnique(apb, (pre + 1) * 2, 1, apb % 2);
    }
  }

  // ---- The search ----

  /** A setting for divider n: the clock is divided, and low for half of its period. */
  predicate SetFor(reg: ClkReg, n: nat) {
    reg.n == n && reg.cntL == (n + 1) / 2 && reg.cntH == 0 && !reg.equSysclk
  }

  /** One of the four pre-dividers around the quotient. */
  function Candidate(apb: nat, freq: nat, n: nat, vari: int): nat
    requires freq > 0
  {
    Clamp(Quotient(apb, freq, n) - 1 + vari)
  }

  /** The pre-dividers of one n, from one below the quotient minus one to two above it. The
      search stops at an exact hit. A wanted frequency of 2^31 or more is negative as a
      signed value, so that nothing is ever found. */
  method SearchPre(apb: nat, freq: nat, n: nat, bestReg0: ClkReg, bestFreq0: nat)
    returns (bestReg: ClkReg, bestFreq: nat, exact: bool)
    requires apb < TWO32 && 0 < freq < apb && 1 <= n <= MAX_N && freq >= Freq(apb, MAX_PRE, MAX_N)
    requires bestReg0.Valid() && bestFreq0 < freq
    requires bestFreq0 > 0 ==> Freq(apb, bestReg0.pre, bestReg0.n) == bestFreq0
    ensures bestReg.Valid() && bestFreq0 <= bestFreq < freq
    ensures exact || bestFreq > bestFreq0 ==> bestReg.n == n && bestReg.cntL == (n + 1) / 2 && bestReg.cntH == 0 && !bestReg.equSysclk
    ensures freq >= TWO31 ==> bestReg == bestReg0 && bestFreq == bestFreq0 && !exact
    ensures !exact && bestFreq == bestFreq0 ==> bestReg == bestReg0
    ensures exact ==> Freq(apb, bestReg.pre, bestReg.n) == freq
    ensures !exact && bestFreq > 0 ==> Freq(apb, bestReg.pre, bestReg.n) == bestFreq
    ensures !exact && freq < TWO31 ==>
      forall pre :: 0 <= pre <= MAX_PRE && Freq(apb, pre, n) <= freq ==> Freq(apb, pre, n) <= bestFreq
  {
    hide Freq, Quotient;
    bestReg, bestFreq, exact := bestReg0, bestFreq0, false;
    QuotientFits(apb, freq, n);
    var signed := ToInt32(freq);
    var calPreVari := -2;
    while calPreVari <= 1
      invariant -2 <= calPreVari <= 2 && !exact
      invariant bestReg.Valid() && bestFreq0 <= bestFreq < freq
      invariant bestFreq > 0 ==> Freq(apb, bestReg.pre, bestReg.n) == bestFreq
      invariant bestFreq == bestFreq0 ==> bestReg == bestReg0
      invariant bestFreq > bestFreq0 ==> SetFor(bestReg, n)
      invariant freq >= TWO31 ==> bestReg == bestReg0 && bestFreq == bestFreq0
      invariant freq < TWO31 ==> forall v :: -1 <= v <= calPreVari ==>
        var f := Freq(apb, Candidate(apb, freq, n, v), n); f != freq && (f < freq ==> f <= bestFreq)
    {
      calPreVari := calPreVari + 1;
      var calPre := ToInt32(Quotient(apb, freq, n) - 1 + calPreVari);
      var reg := ClkReg((n + 1) / 2, 0, n, Clamp(calPre), false);
      assert reg.pre == Candidate(apb, freq, n, calPreVari);
      var calFreq := Freq(apb, reg.pre, n);
      FreqSmall(apb, reg.pre, n);
      if calFreq == signed {
        bestReg, exact := reg, true;
        return;
      } else if calFreq < signed {
        if freq - calFreq < freq - bestFreq {
          bestReg, bestFreq := reg, calFreq;
        }
      }
    }
    if freq < TWO31 {
      forall pre | 0 <= pre <= MAX_PRE && Freq(apb, pre, n) <= freq ensures Freq(apb, pre, n) <= bestFreq {
        TwoCandidatesSuffice(apb, freq, n, pre);
        assert Candidate(apb, freq, n, 0) == Clamp(Quotient(apb, freq, n) - 1);
        assert Candidate(apb, freq, n, 1) == Clamp(Quotient(apb, freq, n));
      }
    }
  }

  /** A divided clock always fits a signed 32-bit value. */
  lemma FreqSmall(apb: nat, pre: nat, n: nat)
    requires apb < TWO32 && n >= 1
    ensures Freq(apb, pre, n) < TWO31
  {
  }

  /** The register value for a wanted frequency. The only call that is not possible is the
      one that would divide by zero. */
  method FrequencyToClockDiv(apb: nat, freq: nat) returns (value: nat)
    requires apb < TWO32 && freq < TWO32
    requires freq == 0 ==> apb == 0 || apb >= 0x80000
    ensures value < TWO32
    ensures freq < apb ==> value < TWO31
    ensures freq >= apb ==> value == TWO31 && ClockDivToFrequency(apb, value) == apb
    ensures freq < Freq(apb, MAX_PRE, MAX_N) && freq < apb ==>
      value == 0x7FFFF000 && ClockDivToFrequency(apb, value) == Freq(apb, MAX_PRE, MAX_N)
    ensures Freq(apb, MAX_PRE, MAX_N) <= freq < apb ==>
      (BestBelow(apb, freq, ClockDivToFrequency(apb, value)) <==> freq < TWO31)
    ensures Freq(apb, MAX_PRE, MAX_N) <= freq < apb && freq >= TWO31 ==> value == 0 && ClockDivToFrequency(apb, value) == apb
    ensures Freq(apb, MAX_PRE, MAX_N) <= freq < apb && freq < TWO31 ==>
      var reg := RegisterOf(value);
      && 1 <= reg.n && reg.cntL == (reg.n + 1) / 2 && reg.cntH == 0 && !reg.equSysclk
      && forall pre, n :: 0 <= pre <= MAX_PRE && 1 <= n < reg.n && Freq(apb, pre, n) <= freq ==>
           Freq(apb, pre, n) < ClockDivToFrequency(apb, value)
  {
    if freq >= apb {
      return TWO31;
    }
    var minFreqReg := ClkReg(0, 0, MAX_N, MAX_PRE, false);
    RegisterRoundTrip(minFreqReg);
    var minFreq := Freq(apb, MAX_PRE, MAX_N);
    if freq < minFreq {
      return minFreqReg.Value();
    }
    hide Freq;
    MinFreqPositive(apb);
    var bestReg := Search(apb, freq);
    value := bestReg.Value();
    RegisterRoundTrip(bestReg);
    UndividedClock(apb);
  }

  /** The outer loop, over the dividers. */
  method Search(apb: nat, freq: nat) returns (bestReg: ClkReg)
    requires apb < TWO32 && 0 < freq < apb && freq >= Freq(apb, MAX_PRE, MAX_N)
    ensures bestReg.Valid()
    ensures freq < TWO31 ==> BestBelow(apb, freq, Freq(apb, bestReg.pre, bestReg.n))
    ensures freq >= TWO31 ==> bestReg == ClkReg(0, 0, 0, 0, false)
    ensures freq < TWO31 ==> 1 <= bestReg.n && SetFor(bestReg, bestReg.n)
    ensures freq < TWO31 ==> forall pre, n :: 0 <= pre <= MAX_PRE && 1 <= n < bestReg.n && Freq(apb, pre, n) <= freq ==>
      Freq(apb, pre, n) < Freq(apb, bestReg.pre, bestReg.n)
  {
    hide Freq;
    bestReg := ClkReg(0, 0, 0, 0, false);
    var bestFreq, exact := 0, false;
    var calN := 1;
    while calN <= MAX_N
      invariant 1 <= calN <= MAX_N + 1 && !exact
      invariant bestReg.Valid() && bestFreq < freq
      invariant if bestFreq > 0 then Freq(apb, bestReg.pre, bestReg.n) == bestFreq else bestReg == ClkReg(0, 0, 0, 0, false)
      invariant bestFreq > 0 ==> 1 <= bestReg.n < calN && SetFor(bestReg, bestReg.n)
      invariant freq >= TWO31 ==> bestFreq == 0
      invariant bestFreq > 0 ==> forall pre, n :: 0 <= pre <= MAX_PRE && 1 <= n < bestReg.n && Freq(apb, pre, n) <= freq ==> Freq(apb, pre, n) < bestFreq
      invariant freq < TWO31 ==> forall pre, n :: 0 <= pre <= MAX_PRE && 1 <= n < calN && Freq(apb, pre, n) <= freq ==> Freq(apb, pre, n) <= bestFreq
    {
      bestReg, bestFreq, exact := SearchPre(apb, freq, calN, bestReg, bestFreq);
      if exact {
        break;
      }
      calN := calN + 1;
    }
    var pre, n := SomethingFits(apb, freq);
  }

  lemma MinFreqPositive(apb: nat)
    ensures apb >= 0x80000 ==> Freq(apb, MAX_PRE, MAX_N) > 0
  {
  }

  lemma UndividedClock(apb: nat)
    ensures Freq(apb, 0, 0) == apb
  {
  }
}
