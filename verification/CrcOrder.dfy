/**
 The order of the CRC's bit step. In the reflected representation 0x8000 is the polynomial 1 and `Advance` multiplies
 by x modulo x^16 + x^15 + x^2 + 1, so `Power(k)` is x^k. Its order is 32767 = 7 * 31 * 151.
 */
module CrcOrder {
  import opened Gf2
  import opened Crc16

  const ORDER := 32767

  function Power(k: nat): bv16 {
    Iterate(0x8000, k)
  }

  ghost predicate Period(k: nat) {
    Power(k) == 0x8000
  }

  // ----- multiplication of residues, to compute large powers

  function Shifted(t: bv16): bv16 {
    t << 1
  }

  /** One step of Horner's scheme for s * t, with `rest` standing for s times the higher terms of t over x. */
  function Horner(s: bv16, t: bv16, rest: bv16): bv16 {
    Xor(if t & 0x8000 == 0x8000 then s else 0, Advance(rest))
  }

  function FourTerms(s: bv16, t: bv16, rest: bv16): bv16 {
    Horner(s, t, Horner(s, Shifted(t), Horner(s, Shifted(Shifted(t)), Horner(s, Shifted(Shifted(Shifted(t))), rest))))
  }

  function FourShifted(t: bv16): bv16 {
    Shifted(Shifted(Shifted(Shifted(t))))
  }

  function Times(s: bv16, t: bv16): bv16 {
    FourTerms(s, t, FourTerms(s, FourShifted(t), FourTerms(s, FourShifted(FourShifted(t)),
    FourTerms(s, FourShifted(FourShifted(FourShifted(t))), 0))))
  }

  lemma TopTerm(t: bv16)
    ensures t == Xor(t & 0x8000, Advance(Shifted(t)))
    ensures t & 0x8000 == 0 || t & 0x8000 == 0x8000
  {}

  lemma HornerStep(t: bv16, k: nat)
    ensures Iterate(t, k) == Horner(Power(k), t, Iterate(Shifted(t), k))
  {
    hide Xor, Advance, Shifted;
    var u := Shifted(t);
    TopTerm(t);
    IterateLinear(t & 0x8000, Advance(u), k);
    IterateZero(k);
    IterateAdd(u, 1, k);
    IterateAdd(u, k, 1);
    assert Iterate(u, 1) == Advance(u) by {
      assert Iterate(u, 0) == u;
    }
  }

  lemma FourSteps(t: bv16, k: nat)
    ensures Iterate(t, k) == FourTerms(Power(k), t, Iterate(FourShifted(t), k))
  {
    hide Horner, Iterate, Shifted, Power;
    HornerStep(t, k);
    HornerStep(Shifted(t), k);
    HornerStep(Shifted(Shifted(t)), k);
    HornerStep(Shifted(Shifted(Shifted(t))), k);
  }

  lemma AllShiftedOut(t: bv16)
    ensures FourShifted(FourShifted(FourShifted(FourShifted(t)))) == 0
  {}

  /** k bit steps multiply by x^k. */
  lemma StepsMultiply(t: bv16, k: nat)
    ensures Iterate(t, k) == Times(Power(k), t)
  {
    hide FourTerms, FourShifted, Iterate, Power;
    var u := FourShifted(t);
    var v := FourShifted(u);
    var w := FourShifted(v);
    FourSteps(t, k);
    FourSteps(u, k);
    FourSteps(v, k);
    FourSteps(w, k);
    AllShiftedOut(t);
    IterateZero(k);
  }

  lemma PowerSum(a: nat, b: nat)
    ensures Power(a + b) == Times(Power(b), Power(a))
  {
    hide Iterate, Times;
    IterateAdd(0x8000, a, b);
    StepsMultiply(Power(a), b);
  }

  // ----- powers by squaring

  lemma Squared(k: nat, x: bv16, y: bv16)
    requires Power(k) == x && Times(x, x) == y
    ensures Power(2 * k) == y && Power(2 * k + 1) == Advance(y)
  {
    hide Times, Advance;
    PowerSum(k, k);
  }

  /** A product from its four stages, so that each square below is computed four terms at a time. */
  lemma Product(s: bv16, t: bv16, a: bv16, b: bv16, c: bv16, d: bv16)
    requires FourTerms(s, FourShifted(FourShifted(FourShifted(t))), 0) == a
    requires FourTerms(s, FourShifted(FourShifted(t)), a) == b
    requires FourTerms(s, FourShifted(t), b) == c
    requires FourTerms(s, t, c) == d
    ensures Times(s, t) == d
  {
    hide FourTerms, FourShifted;
  }

  lemma FirstPowers()
    ensures Power(1) == 0x4000 && Power(13) == 0x0004 && Power(16) == 0xA001 && Power(18) == 0xD801
  {}

  lemma Square0004()
    ensures Times(0x0004, 0x0004) == 0xC019
  {
    Product(0x0004, 0x0004, 0x0002, 0xD801, 0xC181, 0xC019);
  }

  lemma SquareC00D()
    ensures Times(0xC00D, 0xC00D) == 0xC079
  {
    Product(0xC00D, 0xC00D, 0x600B, 0xB201, 0xC721, 0xC079);
  }

  lemma SquareC079()
    ensures Times(0xC079, 0xC079) == 0xDFE1
  {
    Product(0xC079, 0xC079, 0x0077, 0x242A, 0x7A42, 0xDFE1);
  }

  lemma SquareDFE1()
    ensures Times(0xDFE1, 0xDFE1) == 0x7CAA
  {
    Product(0xDFE1, 0xDFE1, 0xC3FD, 0x47D7, 0xF468, 0x7CAA);
  }

  lemma SquareA001()
    ensures Times(0xA001, 0xA001) == 0xE801
  {
    Product(0xA001, 0xA001, 0xCC01, 0xC0C1, 0xC00D, 0xE801);
  }

  lemma SquareD401()
    ensures Times(0xD401, 0xD401) == 0xC221
  {
    Product(0xD401, 0xD401, 0xC281, 0xC029, 0xAA03, 0xC221);
  }

  lemma SquareC221()
    ensures Times(0xC221, 0xC221) == 0x0608
  {
    Product(0xC221, 0xC221, 0xC045, 0xF08D, 0x5380, 0x0608);
  }

  lemma Square0608()
    ensures Times(0x0608, 0x0608) == 0xC049
  {
    Product(0x0608, 0x0608, 0x0608, 0xA061, 0xC481, 0xC049);
  }

  lemma SquareC049()
    ensures Times(0xC049, 0xC049) == 0xD861
  {
    Product(0xC049, 0xC049, 0x0041, 0x0C20, 0x00C2, 0xD861);
  }

  lemma SquareD861()
    ensures Times(0xD861, 0xD861) == 0xDC81
  {
    Product(0xD861, 0xD861, 0xC30D, 0x9A19, 0xBDC0, 0xDC81);
  }

  lemma SquareD801()
    ensures Times(0xD801, 0xD801) == 0xC281
  {
    Product(0xD801, 0xD801, 0xC301, 0xC031, 0x1803, 0xC281);
  }

  lemma SquareC281()
    ensures Times(0xC281, 0xC281) == 0x6008
  {
    Product(0xC281, 0xC281, 0xC051, 0x0285, 0xFC89, 0x6008);
  }

  lemma Square3004()
    ensures Times(0x3004, 0x3004) == 0xCA19
  {
    Product(0x3004, 0x3004, 0x1802, 0xD981, 0xC199, 0xCA19);
  }

  lemma SquareCA19()
    ensures Times(0xCA19, 0xCA19) == 0xC169
  {
    Product(0xCA19, 0xCA19, 0x0B5B, 0x75F6, 0x27C1, 0xC169);
  }

  lemma SquareC169()
    ensures Times(0xC169, 0xC169) == 0x1E62
  {
    Product(0xC169, 0xC169, 0x0145, 0x3CFA, 0xBBE3, 0x1E62);
  }

  lemma Square0F31()
    ensures Times(0x0F31, 0x0F31) == 0x672B
  {
    Product(0x0F31, 0x0F31, 0xD9E7, 0xC3B5, 0xB2B9, 0x672B);
  }

  lemma Square672B()
    ensures Times(0x672B, 0x672B) == 0x8E4C
  {
    Product(0x672B, 0x672B, 0x0A04, 0xB96B, 0x412C, 0x8E4C);
  }

  lemma Square8E4C()
    ensures Times(0x8E4C, 0x8E4C) == 0x58D1
  {
    Product(0x8E4C, 0x8E4C, 0xC96A, 0x33B0, 0xE9C2, 0x58D1);
  }

  lemma SquareE801()
    ensures Times(0xE801, 0xE801) == 0xC881
  {
    Product(0xE801, 0xE801, 0xC501, 0xC051, 0x2805, 0xC881);
  }

  lemma SquareC881()
    ensures Times(0xC881, 0xC881) == 0x6080
  {
    Product(0xC881, 0xC881, 0xC111, 0x0891, 0x0409, 0x6080);
  }

  lemma Square6080()
    ensures Times(0x6080, 0x6080) == 0x8801
  {
    Product(0x6080, 0x6080, 0x0000, 0x6080, 0x0608, 0x8801);
  }

  lemma Square8801()
    ensures Times(0x8801, 0x8801) == 0xE081
  {
    Product(0x8801, 0x8801, 0xC901, 0xC091, 0x4809, 0xE081);
  }

  lemma SquareE081()
    ensures Times(0xE081, 0xE081) == 0x6800
  {
    Product(0xE081, 0xE081, 0xC411, 0x20C1, 0xCE0D, 0x6800);
  }

  lemma Square6800()
    ensures Times(0x6800, 0x6800) == 0x2880
  {
    Product(0x6800, 0x6800, 0x0000, 0x0000, 0x6800, 0x2880);
  }

  lemma Square2880()
    ensures Times(0x2880, 0x2880) == 0xA881
  {
    Product(0x2880, 0x2880, 0x0000, 0x2880, 0x2A08, 0xA881);
  }

  lemma SquareA881()
    ensures Times(0xA881, 0xA881) == 0x4880
  {
    Product(0xA881, 0xA881, 0xCD11, 0x6851, 0x6205, 0x4880);
  }

  lemma Square4880()
    ensures Times(0x4880, 0x4880) == 0x8081
  {
    Product(0x4880, 0x4880, 0x0000, 0x4880, 0x4C08, 0x8081);
  }

  lemma Square8081()
    ensures Times(0x8081, 0x8081) == 0x4000
  {
    Product(0x8081, 0x8081, 0xC811, 0x4001, 0xC801, 0x4000);
  }

  lemma NextC019()
    ensures Advance(0xC019) == 0xC00D
  {}

  lemma Next7CAA()
    ensures Advance(0x7CAA) == 0x3E55
  {}

  lemma NextE801()
    ensures Advance(0xE801) == 0xD401
  {}

  lemma NextDC81()
    ensures Advance(0xDC81) == 0xCE41
  {}

  lemma Next6008()
    ensures Advance(0x6008) == 0x3004
  {}

  lemma Next1E62()
    ensures Advance(0x1E62) == 0x0F31
  {}

  lemma Next58D1()
    ensures Advance(0x58D1) == 0x8C69
  {}

  lemma Power217()
    ensures Power(217) == 0x3E55
  {
    hide Power, Times, Advance;
    FirstPowers();
    Square0004();
    Squared(13, 0x0004, 0xC019);
    NextC019();
    SquareC00D();
    Squared(27, 0xC00D, 0xC079);
    SquareC079();
    Squared(54, 0xC079, 0xDFE1);
    SquareDFE1();
    Squared(108, 0xDFE1, 0x7CAA);
    Next7CAA();
  }

  lemma Power1057()
    ensures Power(1057) == 0xCE41
  {
    hide Power, Times, Advance;
    FirstPowers();
    SquareA001();
    Squared(16, 0xA001, 0xE801);
    NextE801();
    SquareD401();
    Squared(33, 0xD401, 0xC221);
    SquareC221();
    Squared(66, 0xC221, 0x0608);
    Square0608();
    Squared(132, 0x0608, 0xC049);
    SquareC049();
    Squared(264, 0xC049, 0xD861);
    SquareD861();
    Squared(528, 0xD861, 0xDC81);
    NextDC81();
  }

  lemma Power4681()
    ensures Power(4681) == 0x8C69
  {
    hide Power, Times, Advance;
    FirstPowers();
    SquareD801();
    Squared(18, 0xD801, 0xC281);
    SquareC281();
    Squared(36, 0xC281, 0x6008);
    Next6008();
    Square3004();
    Squared(73, 0x3004, 0xCA19);
    SquareCA19();
    Squared(146, 0xCA19, 0xC169);
    SquareC169();
    Squared(292, 0xC169, 0x1E62);
    Next1E62();
    Square0F31();
    Squared(585, 0x0F31, 0x672B);
    Square672B();
    Squared(1170, 0x672B, 0x8E4C);
    Square8E4C();
    Squared(2340, 0x8E4C, 0x58D1);
    Next58D1();
  }

  lemma Power32768()
    ensures Power(32768) == 0x4000
  {
    hide Power, Times, Advance;
    FirstPowers();
    SquareA001();
    Squared(16, 0xA001, 0xE801);
    SquareE801();
    Squared(32, 0xE801, 0xC881);
    SquareC881();
    Squared(64, 0xC881, 0x6080);
    Square6080();
    Squared(128, 0x6080, 0x8801);
    Square8801();
    Squared(256, 0x8801, 0xE081);
    SquareE081();
    Squared(512, 0xE081, 0x6800);
    Square6800();
    Squared(1024, 0x6800, 0x2880);
    Square2880();
    Squared(2048, 0x2880, 0xA881);
    SquareA881();
    Squared(4096, 0xA881, 0x4880);
    Square4880();
    Squared(8192, 0x4880, 0x8081);
    Square8081();
    Squared(16384, 0x8081, 0x4000);
  }

  // ----- the order

  lemma StepBack(a: nat, b: nat)
    requires Power(a + b) == Power(b)
    ensures Period(a)
  {
    hide Iterate;
    IterateAdd(0x8000, a, b);
    IterateInjective(Power(a), 0x8000, b);
  }

  lemma FullPeriod()
    ensures Period(ORDER)
  {
    hide Power;
    Power32768();
    FirstPowers();
    StepBack(ORDER, 1);
  }

  lemma PeriodDifference(a: nat, b: nat)
    requires Period(a) && Period(b) && b <= a
    ensures Period(a - b)
  {
    StepBack(a - b, b);
  }

  lemma {:induction false} PeriodMultiple(a: nat, n: nat)
    requires Period(a)
    ensures Period(a * n)
  {
    hide Iterate;
    if n == 0 {
      ZerothPower();
    } else {
      PeriodMultiple(a, n - 1);
      IterateAdd(0x8000, a * (n - 1), a);
      assert a * (n - 1) + a == a * n;
    }
  }

  lemma ZerothPower()
    ensures Period(0)
  {}

  /** Subtractive gcd on two multiples of m that are periods: a common divisor of both cofactors gives one too. */
  lemma {:induction false} CommonPeriod(m: nat, a: nat, b: nat) returns (g: nat, u: nat, v: nat)
    requires a > 0 && b > 0 && Period(m * a) && Period(m * b)
    ensures g > 0 && a == g * u && b == g * v && Period(m * g)
    decreases a + b
  {
    hide Period;
    if a == b {
      g, u, v := a, 1, 1;
    } else if a > b {
      PeriodDifference(m * a, m * b);
      Distributes(m, a, b);
      g, u, v := CommonPeriod(m, a - b, b);
      assert a == g * u + g * v == g * (u + v);
      u := u + v;
    } else {
      PeriodDifference(m * b, m * a);
      Distributes(m, b, a);
      g, u, v := CommonPeriod(m, a, b - a);
      assert b == g * u + g * v == g * (u + v);
      v := u + v;
    }
  }

  lemma Distributes(m: nat, a: nat, b: nat)
    ensures m * a - m * b == m * (a - b)
    ensures b <= a ==> m * b <= m * a
  {}

  ghost predicate Prime(p: nat) {
    p > 1 && forall g: nat, v: nat :: p == g * v ==> g == 1 || g == p
  }

  /** If the full order is m * p with p prime and m is no period, every period is a multiple of p. */
  lemma PeriodDivisible(m: nat, p: nat, k: nat) returns (q: nat)
    requires m * p == ORDER && Prime(p) && !Period(m) && Period(k)
    ensures k == p * q
  {
    hide Period;
    var r;
    q, r := QuotientAndRest(k, p);
    if r > 0 {
      PeriodMultiple(k, m);
      FullPeriod();
      PeriodMultiple(ORDER, q);
      Remainder(k, m, p, q, r);
      PeriodDifference(k * m, ORDER * q);
      var g, u, v := CommonPeriod(m, r, p);
      FactorAtMost(r, g, u);
    }
  }

  lemma QuotientAndRest(k: nat, p: nat) returns (q: nat, r: nat)
    requires p > 0
    ensures k == p * q + r && r < p
  {
    q, r := k / p, k % p;
  }

  lemma Remainder(k: nat, m: nat, p: nat, q: nat, r: nat)
    requires k == p * q + r && m * p == ORDER
    ensures k * m == ORDER * q + m * r
  {}

  lemma FactorAtMost(r: nat, g: nat, u: nat)
    requires r == g * u && r > 0
    ensures g <= r
  {}

  lemma SmallFactor(p: nat, g: nat, v: nat, limit: nat)
    requires p == g * v && p < limit * limit
    ensures g < limit || v < limit
  {}

  lemma Primes()
    ensures Prime(7) && Prime(31) && Prime(151)
  {
    forall g: nat, v: nat | 7 == g * v ensures g == 1 || g == 7 {
      SmallFactor(7, g, v, 3);
    }
    forall g: nat, v: nat | 31 == g * v ensures g == 1 || g == 31 {
      SmallFactor(31, g, v, 6);
    }
    forall g: nat, v: nat | 151 == g * v ensures g == 1 || g == 151 {
      SmallFactor(151, g, v, 13);
    }
  }

  /** No smaller power of x is 1. */
  lemma NoShorterPeriod(k: nat)
    requires 0 < k < ORDER
    ensures !Period(k)
  {
    hide Power;
    if Period(k) {
      Primes();
      Power217();
      Power1057();
      Power4681();
      var a := PeriodDivisible(4681, 7, k);
      var b := PeriodDivisible(1057, 31, k);
      var c := PeriodDivisible(217, 151, k);
      var e := DivisibleByAll(k, a, b, c);
    }
  }

  lemma DivisibleByAll(k: int, a: int, b: int, c: int) returns (e: int)
    requires k == 7 * a && k == 31 * b && k == 151 * c
    ensures k == ORDER * e
  {
    // 9 * 7 == 2 * 31 + 1 and 16 * 217 == 23 * 151 - 1
    var d := 9 * b - 2 * a;
    assert a == 31 * d;
    e := 23 * d - 16 * c;
    assert d == 151 * e;
  }

  /** Powers of x less than the order apart differ. */
  lemma PowersDistinct(i: nat, j: nat)
    requires i < j < i + ORDER
    ensures Power(i) != Power(j)
  {
    hide Power;
    if Power(i) == Power(j) {
      StepBack(j - i, i);
      NoShorterPeriod(j - i);
    }
  }

  /** Powers of x a whole order apart are the same. */
  lemma PowersRepeat(i: nat)
    ensures Power(i + ORDER) == Power(i)
  {
    hide Iterate;
    FullPeriod();
    IterateAdd(0x8000, ORDER, i);
  }
}
