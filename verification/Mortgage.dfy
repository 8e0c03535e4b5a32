/** The amortisation schedule of src/mortgage-calculator/mortgage-calculator.service.ts, in exact reals.

    The term in months may be fractional (the request validates neither years nor months as whole
    numbers), so `payments` is a real and `growth` stands for `Math.pow(1 + rate, payments)`, of which
    only the strict order against whole powers is used. */
module Mortgage {

  function Pow(x: real, n: nat): real {
    if n == 0 then 1.0 else x * Pow(x, n - 1)
  }

  datatype Terms = Terms(loan: real, rate: real, payments: real, growth: real) {
    /** A positive term, a rate that is not negative, and `growth` in order with the whole powers. */
    ghost predicate Valid() {
      && loan >= 0.0 && rate >= 0.0 && payments > 0.0
      && forall k: nat :: InOrder(k)
    }

    ghost predicate InOrder(k: nat) {
      && (k as real < payments && rate > 0.0 ==> Pow(1.0 + rate, k) < growth)
      && (k as real == payments ==> Pow(1.0 + rate, k) == growth)
    }

    /** The schedule has one row for each whole month. */
    function Months(): (n: nat)
      requires payments > 0.0
      ensures n as real <= payments < n as real + 1.0
    {
      payments.Floor
    }

    /** The level payment. */
    function Payment(): real
      requires payments > 0.0 && (rate != 0.0 ==> growth != 1.0)
    {
      if rate == 0.0 then loan / payments else loan * (rate * growth) / (growth - 1.0)
    }
  }

  lemma {:induction false} PowInOrder(rate: real, k: nat, n: nat)
    requires rate > 0.0 && k < n
    ensures Pow(1.0 + rate, k) < Pow(1.0 + rate, n)
  {
    PowGrows(rate, n - 1);
    if k < n - 1 { PowInOrder(rate, k, n - 1); }
  }

  /** The terms of a whole number of months, with the power itself, are in order. */
  lemma WholeTermsAreValid(loan: real, rate: real, n: nat)
    requires loan >= 0.0 && rate >= 0.0 && n > 0
    ensures Terms(loan, rate, n as real, Pow(1.0 + rate, n)).Valid()
  {
    var t := Terms(loan, rate, n as real, Pow(1.0 + rate, n));
    forall k: nat ensures t.InOrder(k) {
      if rate > 0.0 && k < n { PowInOrder(rate, k, n); }
    }
  }

  lemma GrowthAboveOne(t: Terms)
    requires t.Valid() && t.rate > 0.0
    ensures t.growth > 1.0
  {
    assert t.InOrder(0);
  }

  /** `Math.round(value * 100) / 100`: to the nearest cent, halves up. */
  function Round(x: real): real {
    (x * 100.0 + 0.5).Floor as real / 100.0
  }

  predicate WholeCents(x: real) {
    (x * 100.0).Floor as real == x * 100.0
  }

  /** `x` is the cent nearest `v`; of two that are equally near, the higher. */
  predicate NearestCent(x: real, v: real) {
    WholeCents(x) && -0.005 < x - v <= 0.005
  }

  lemma RoundIsNearest(x: real, v: real)
    ensures x == Round(v) <==> NearestCent(x, v)
  {
    var n := (v * 100.0 + 0.5).Floor;
    assert Round(v) * 100.0 == n as real;
    if NearestCent(x, v) {
      var m := (x * 100.0).Floor;
      assert m as real <= v * 100.0 + 0.5 < m as real + 1.0;
      assert m == n;
    }
  }

  function Max(x: real, y: real): real {
    if x > y then x else y
  }

  /** The balance after `k` payments, as the loop computes it, with the clamp at zero. */
  ghost function Balance(t: Terms, k: nat): real
    requires t.Valid()
  {
    PaymentDefined(t);
    if k == 0 then t.loan
    else Max(0.0, Balance(t, k - 1) - (t.Payment() - Balance(t, k - 1) * t.rate))
  }

  lemma PaymentDefined(t: Terms)
    requires t.Valid()
    ensures t.rate != 0.0 ==> t.growth != 1.0
  {
    if t.rate != 0.0 { GrowthAboveOne(t); }
  }

  // --- the closed form -------------------------------------------------------------------------

  /** The share of the loan that one unit of growth pays. */
  ghost function Unit(t: Terms): real
    requires t.Valid() && t.rate > 0.0
  {
    GrowthAboveOne(t);
    t.loan / (t.growth - 1.0)
  }

  lemma UnitFacts(t: Terms)
    requires t.Valid() && t.rate > 0.0
    ensures t.growth > 1.0
    ensures Unit(t) >= 0.0 && (t.loan > 0.0 ==> Unit(t) > 0.0)
    ensures t.loan == Unit(t) * (t.growth - 1.0)
    ensures t.Payment() == Unit(t) * t.growth * t.rate
  {
    GrowthAboveOne(t);
    var d, u := t.growth - 1.0, Unit(t);
    Quotient(t.loan, d);
    var x := t.rate * t.growth;
    assert t.Payment() == t.loan * x / d;
    ScaledQuotient(t.loan, x, d);
  }

  lemma Quotient(a: real, d: real)
    requires d > 0.0
    ensures a == (a / d) * d
    ensures a >= 0.0 ==> a / d >= 0.0
    ensures a > 0.0 ==> a / d > 0.0
  {
  }

  lemma ScaledQuotient(a: real, x: real, d: real)
    requires d > 0.0
    ensures a * x / d == (a / d) * x
  {
    Quotient(a, d);
    assert a * x == (a / d) * x * d;
  }

  /** One month at rate `r`: with p the power so far, a balance of u(g - p) becomes u(g - p(1 + r)). */
  lemma MonthAtRate(u: real, g: real, p: real, r: real, m: real, b: real)
    requires b == u * (g - p) && m == u * g * r
    ensures b - (m - b * r) == u * (g - p * (1.0 + r))
  {
    assert b * r == u * g * r - u * p * r;
    assert u * (g - p * (1.0 + r)) == u * g - u * p - u * p * r;
  }

  lemma ZeroSpread(z: real, x: real)
    requires z == 0.0
    ensures z * x == 0.0
    ensures x * z == 0.0
  {
  }

  lemma NonNegativeProduct(x: real, y: real)
    requires x >= 0.0 && y >= 0.0
    ensures x * y >= 0.0
  {
  }

  lemma PowerInOrder(t: Terms, k: nat)
    requires t.Valid() && t.rate > 0.0 && k as real <= t.payments
    ensures Pow(1.0 + t.rate, k) <= t.growth
    ensures Pow(1.0 + t.rate, k) == t.growth <==> k as real == t.payments
    ensures k == 0 ==> Pow(1.0 + t.rate, k) == 1.0
    ensures k > 0 ==> Pow(1.0 + t.rate, k) == Pow(1.0 + t.rate, k - 1) * (1.0 + t.rate)
  {
    assert t.InOrder(k);
  }

  /** What the loop does to the balance in month `k`. */
  lemma BalanceStep(t: Terms, k: nat)
    requires t.Valid()
    ensures t.rate != 0.0 ==> t.growth != 1.0
    ensures k == 0 ==> Balance(t, k) == t.loan
    ensures k > 0 ==>
      Balance(t, k) == Max(0.0, Balance(t, k - 1) - (t.Payment() - Balance(t, k - 1) * t.rate))
  {
    PaymentDefined(t);
  }

  /** The clamp changes nothing when month `k` leaves a balance that is not negative. */
  ghost predicate Unclamped(t: Terms, k: nat)
    requires t.Valid() && (t.rate != 0.0 ==> t.growth != 1.0)
  {
    k > 0 ==> Balance(t, k) == Balance(t, k - 1) - (t.Payment() - Balance(t, k - 1) * t.rate)
  }

  lemma {:induction false} BalanceAtRate(t: Terms, k: nat)
    requires t.Valid() && t.rate > 0.0 && k as real <= t.payments
    ensures t.growth > 1.0
    ensures Balance(t, k) == Unit(t) * (t.growth - Pow(1.0 + t.rate, k)) >= 0.0
    ensures Unclamped(t, k)
  {
    hide *;
    UnitFacts(t);
    PowerInOrder(t, k);
    BalanceStep(t, k);
    NonNegativeProduct(Unit(t), t.growth - Pow(1.0 + t.rate, k));
    if k > 0 {
      BalanceAtRate(t, k - 1);
      MonthAtRate(Unit(t), t.growth, Pow(1.0 + t.rate, k - 1), t.rate, t.Payment(), Balance(t, k - 1));
    }
    UnclampedMonth(t, k);
  }

  lemma UnclampedMonth(t: Terms, k: nat)
    requires t.Valid() && (t.rate != 0.0 ==> t.growth != 1.0)
    requires k > 0 ==> Balance(t, k - 1) - (t.Payment() - Balance(t, k - 1) * t.rate) >= 0.0
    ensures Unclamped(t, k)
  {
  }

  /** One month at rate zero: an even share is paid. */
  lemma MonthAtZeroRate(m: real, n: real, k: real, b: real)
    requires b == m * (n - (k - 1.0))
    ensures b - (m - b * 0.0) == m * (n - k)
  {
  }

  lemma {:induction false} BalanceAtZeroRate(t: Terms, k: nat)
    requires t.Valid() && t.rate == 0.0 && k as real <= t.payments
    ensures Balance(t, k) == t.Payment() * (t.payments - k as real) >= 0.0
    ensures Unclamped(t, k) && t.Payment() >= 0.0 && (t.loan > 0.0 ==> t.Payment() > 0.0)
  {
    hide *;
    EvenPayment(t);
    BalanceStep(t, k);
    NonNegativeProduct(t.Payment(), t.payments - k as real);
    if k > 0 {
      BalanceAtZeroRate(t, k - 1);
      assert (k - 1) as real == k as real - 1.0;
      MonthAtZeroRate(t.Payment(), t.payments, k as real, Balance(t, k - 1));
    }
    UnclampedMonth(t, k);
  }

  lemma EvenPayment(t: Terms)
    requires t.Valid() && t.rate == 0.0
    ensures t.payments > 0.0
    ensures t.Payment() * t.payments == t.loan && t.Payment() >= 0.0
    ensures t.loan > 0.0 ==> t.Payment() > 0.0
  {
    Quotient(t.loan, t.payments);
  }

  /** The balance after `k` payments in closed form. The clamp at zero never changes a value. */
  lemma BalanceClosedForm(t: Terms, k: nat)
    requires t.Valid() && k as real <= t.payments
    ensures t.rate != 0.0 ==> t.growth != 1.0
    ensures Balance(t, k) ==
      if t.rate == 0.0 then t.loan - k as real * t.loan / t.payments
      else t.loan * Pow(1.0 + t.rate, k) - t.Payment() * (Pow(1.0 + t.rate, k) - 1.0) / t.rate
    ensures Unclamped(t, k)
  {
    hide *;
    TermsBasics(t);
    if t.rate == 0.0 { ClosedFormAtZeroRate(t, k); } else { ClosedFormAtRate(t, k); }
  }

  lemma ClosedFormAtZeroRate(t: Terms, k: nat)
    requires t.Valid() && k as real <= t.payments && t.rate == 0.0
    ensures Balance(t, k) == t.loan - k as real * t.loan / t.payments && Unclamped(t, k)
  {
    hide *;
    BalanceAtZeroRate(t, k);
    EvenPayment(t);
    EvenShare(t.loan, t.payments, k as real, t.Payment());
  }

  lemma ClosedFormAtRate(t: Terms, k: nat)
    requires t.Valid() && k as real <= t.payments && t.rate > 0.0
    ensures t.growth != 1.0 && Unclamped(t, k)
    ensures Balance(t, k) ==
      t.loan * Pow(1.0 + t.rate, k) - t.Payment() * (Pow(1.0 + t.rate, k) - 1.0) / t.rate
  {
    hide *;
    TermsBasics(t);
    BalanceAtRate(t, k);
    UnitFacts(t);
    ClosedFormAlgebra(Unit(t), t.growth, Pow(1.0 + t.rate, k), t.rate, t.loan, t.Payment());
  }

  lemma TermsBasics(t: Terms)
    requires t.Valid()
    ensures t.loan >= 0.0 && t.rate >= 0.0 && t.payments > 0.0
    ensures t.rate != 0.0 ==> t.growth > 1.0
  {
    if t.rate > 0.0 { GrowthAboveOne(t); }
  }

  lemma EvenShare(loan: real, n: real, k: real, m: real)
    requires n > 0.0 && m * n == loan
    ensures m * (n - k) == loan - k * loan / n
  {
    assert k * loan == (k * m) * n;
    assert (k * m) * n / n == k * m;
  }

  lemma ClosedFormAlgebra(u: real, g: real, p: real, r: real, loan: real, m: real)
    requires r > 0.0 && loan == u * (g - 1.0) && m == u * g * r
    ensures loan * p - m * (p - 1.0) / r == u * (g - p)
  {
    var x := u * g * (p - 1.0);
    assert m * (p - 1.0) == x * r;
    assert x * r / r == x;
    assert loan * p - x == u * (g - p);
  }

  // --- paying the loan off ---------------------------------------------------------------------

  /** The balance of a positive loan falls every month. It is zero after the last row exactly when
      the term is a whole number of months. */
  lemma BalanceFallsToZero(t: Terms)
    requires t.Valid() && t.loan > 0.0
    ensures forall k: nat | k < t.Months() :: Balance(t, k + 1) < Balance(t, k)
    ensures Balance(t, t.Months()) == 0.0 <==> t.Months() as real == t.payments
  {
    var n := t.Months();
    hide *;
    TermsBasics(t);
    forall k: nat | k < n ensures Balance(t, k + 1) < Balance(t, k) { BalanceFalls(t, k); }
    LastBalance(t, n);
  }

  lemma LastBalance(t: Terms, n: nat)
    requires t.Valid() && t.loan > 0.0 && n as real <= t.payments
    ensures Balance(t, n) == 0.0 <==> n as real == t.payments
  {
    hide *;
    TermsBasics(t);
    if t.rate == 0.0 {
      BalanceAtZeroRate(t, n);
      ZeroProduct(t.Payment(), t.payments - n as real);
    } else {
      BalanceAtRate(t, n);
      UnitFacts(t);
      PowerInOrder(t, n);
      ZeroProduct(Unit(t), t.growth - Pow(1.0 + t.rate, n));
    }
  }

  lemma ZeroProduct(x: real, y: real)
    requires x > 0.0 && y >= 0.0
    ensures x * y == 0.0 <==> y == 0.0
  {
    if y > 0.0 { PositiveProduct(x, y); }
  }

  lemma PositiveProduct(x: real, y: real)
    requires x > 0.0 && y > 0.0
    ensures x * y > 0.0
  {
  }

  lemma {:induction false} PowPositive(x: real, n: nat)
    requires x > 0.0
    ensures Pow(x, n) > 0.0
  {
    if n > 0 {
      PowPositive(x, n - 1);
      PositiveProduct(x, Pow(x, n - 1));
    }
  }

  lemma PowGrows(r: real, k: nat)
    requires r > 0.0
    ensures Pow(1.0 + r, k) < Pow(1.0 + r, k + 1)
  {
    var p := Pow(1.0 + r, k);
    PowPositive(1.0 + r, k);
    PositiveProduct(p, r);
    assert Pow(1.0 + r, k + 1) == (1.0 + r) * p == p + p * r;
  }

  lemma BalanceFalls(t: Terms, k: nat)
    requires t.Valid() && t.loan > 0.0 && (k + 1) as real <= t.payments
    ensures Balance(t, k + 1) < Balance(t, k)
  {
    hide *;
    TermsBasics(t);
    assert (k + 1) as real == k as real + 1.0;
    if t.rate == 0.0 {
      BalanceAtZeroRate(t, k);
      BalanceAtZeroRate(t, k + 1);
      LargerProduct(t.Payment(), t.payments - (k + 1) as real, t.payments - k as real,
                    Balance(t, k + 1), Balance(t, k));
    } else {
      BalanceAtRate(t, k);
      BalanceAtRate(t, k + 1);
      UnitFacts(t);
      PowerInOrder(t, k + 1);
      var p, q := Pow(1.0 + t.rate, k), Pow(1.0 + t.rate, k + 1);
      assert Balance(t, k) == Unit(t) * (t.growth - p) && Balance(t, k + 1) == Unit(t) * (t.growth - q);
      PowGrows(t.rate, k);
      LargerProduct(Unit(t), t.growth - q, t.growth - p, Balance(t, k + 1), Balance(t, k));
    }
  }

  lemma LargerProduct(x: real, y: real, z: real, xy: real, xz: real)
    requires x > 0.0 && y < z && xy == x * y && xz == x * z
    ensures xy < xz
  {
    PositiveProduct(x, z - y);
    assert x * z - x * y == x * (z - y);
  }

  // --- the schedule ----------------------------------------------------------------------------

  datatype Request = Request(price: real, downPercent: real, annualRate: real, years: real,
                             annualTax: real, annualInsurance: real)

  /** The monthly costs besides principal and interest. */
  datatype Costs = Costs(pmi: real, tax: real, insurance: real)

  function DownPayment(q: Request): real { q.price * (q.downPercent / 100.0) }

  function TermsOf(q: Request, pow: (real, real) -> real): Terms {
    var rate := q.annualRate / 100.0 / 12.0;
    var payments := q.years * 12.0;
    Terms(q.price - DownPayment(q), rate, payments, pow(1.0 + rate, payments))
  }

  function CostsOf(q: Request, loan: real): Costs {
    Costs(if q.downPercent < 20.0 then loan * 0.005 / 12.0 else 0.0,
          q.annualTax / 12.0, q.annualInsurance / 12.0)
  }

  datatype Row = Row(month: nat, payment: real, principal: real, interest: real, pmi: real,
                     propertyTax: real, insurance: real, totalPayment: real, balance: real)

  datatype Breakdown = Breakdown(principalAndInterest: real, pmi: real, propertyTax: real, insurance: real,
                                 total: real)

  datatype Summary = Summary(totalPayment: real, totalInterest: real, totalPMI: real,
                             totalPropertyTax: real, totalInsurance: real, monthly: Breakdown)

  /** The exact interest, principal, insurance premium and total of month `k`. */
  ghost function Interest(t: Terms, k: nat): real
    requires t.Valid() && k > 0
  {
    Balance(t, k - 1) * t.rate
  }

  ghost function Level(t: Terms): real
    requires t.Valid()
  {
    PaymentDefined(t);
    t.Payment()
  }

  ghost predicate CarriesPmi(t: Terms, k: nat)
    requires t.Valid() && k > 0
  {
    Balance(t, k - 1) > t.loan * 0.8
  }

  ghost function Pmi(t: Terms, c: Costs, k: nat): real
    requires t.Valid() && k > 0
  {
    if CarriesPmi(t, k) then c.pmi else 0.0
  }

  ghost function Total(t: Terms, c: Costs, k: nat): real
    requires t.Valid() && k > 0
  {
    Level(t) + Pmi(t, c, k) + c.tax + c.insurance
  }

  ghost function RowAt(t: Terms, c: Costs, k: nat): Row
    requires t.Valid() && k > 0
  {
    Row(k, Round(Level(t)), Round(Level(t) - Interest(t, k)), Round(Interest(t, k)),
        Round(Pmi(t, c, k)), Round(c.tax), Round(c.insurance), Round(Total(t, c, k)),
        Round(Balance(t, k)))
  }

  ghost function InterestSum(t: Terms, k: nat): real
    requires t.Valid()
  {
    if k == 0 then 0.0 else InterestSum(t, k - 1) + Interest(t, k)
  }

  ghost function PmiSum(t: Terms, c: Costs, k: nat): real
    requires t.Valid()
  {
    if k == 0 then 0.0 else PmiSum(t, c, k - 1) + Pmi(t, c, k)
  }

  ghost function PrincipalSum(t: Terms, k: nat): real
    requires t.Valid()
  {
    if k == 0 then 0.0 else PrincipalSum(t, k - 1) + (Level(t) - Interest(t, k))
  }

  /** The sum of the exact row totals, and of the rounded ones. */
  ghost function TotalSum(t: Terms, c: Costs, k: nat): real
    requires t.Valid()
  {
    if k == 0 then 0.0 else TotalSum(t, c, k - 1) + Total(t, c, k)
  }

  ghost function RoundedTotalSum(t: Terms, c: Costs, k: nat): real
    requires t.Valid()
  {
    if k == 0 then 0.0 else RoundedTotalSum(t, c, k - 1) + RowAt(t, c, k).totalPayment
  }

  /** A monthly amount over the whole term. */
  function OverTerm(t: Terms, monthly: real): real {
    monthly * t.payments
  }

  /** What the summary reports before rounding. */
  ghost function ExactTotal(t: Terms, c: Costs): real
    requires t.Valid()
  {
    OverTerm(t, Level(t)) + PmiSum(t, c, t.Months()) + OverTerm(t, c.tax) + OverTerm(t, c.insurance)
  }

  ghost function BreakdownOf(t: Terms, c: Costs): Breakdown
    requires t.Valid()
  {
    Breakdown(Round(Level(t)), Round(c.pmi), Round(c.tax), Round(c.insurance),
      Round(Level(t) + c.pmi + c.tax + c.insurance))
  }

  ghost function SummaryOf(t: Terms, c: Costs): Summary
    requires t.Valid()
  {
    Summary(Round(ExactTotal(t, c)), Round(InterestSum(t, t.Months())),
      Round(PmiSum(t, c, t.Months())), Round(OverTerm(t, c.tax)), Round(OverTerm(t, c.insurance)),
      BreakdownOf(t, c))
  }

  lemma SumsStart(t: Terms, c: Costs)
    requires t.Valid()
    ensures Balance(t, 0) == t.loan && InterestSum(t, 0) == 0.0 && PmiSum(t, c, 0) == 0.0
    ensures t.payments > 0.0
  {
  }

  /** What month `k` adds to each running value, in the loop's own terms. */
  lemma SumsStep(t: Terms, c: Costs, k: nat)
    requires t.Valid() && k > 0
    ensures var b, m := Balance(t, k - 1), Level(t);
      var interest, pmi := b * t.rate, if b > t.loan * 0.8 then c.pmi else 0.0;
      && Balance(t, k) == Max(0.0, b - (m - interest))
      && InterestSum(t, k) == InterestSum(t, k - 1) + interest
      && PmiSum(t, c, k) == PmiSum(t, c, k - 1) + pmi
      && RowAt(t, c, k) == Row(k, Round(m), Round(m - interest), Round(interest), Round(pmi),
           Round(c.tax), Round(c.insurance), Round(m + pmi + c.tax + c.insurance),
           Round(Balance(t, k)))
  {
    BalanceStep(t, k);
  }

  lemma LevelIsPayment(t: Terms)
    requires t.Valid()
    ensures (t.rate != 0.0 ==> t.growth != 1.0) && t.payments > 0.0 && Level(t) == t.Payment()
  {
    PaymentDefined(t);
  }

  lemma SameProduct(x: real, y: real, z: real)
    requires x == y
    ensures x * z == y * z
  {
  }

  lemma SummaryForm(t: Terms, c: Costs)
    requires t.Valid()
    ensures t.payments > 0.0
    ensures SummaryOf(t, c).totalPayment == Round(ExactTotal(t, c))
    ensures SummaryOf(t, c).totalInterest == Round(InterestSum(t, t.Months()))
    ensures SummaryOf(t, c).totalPMI == Round(PmiSum(t, c, t.Months()))
    ensures SummaryOf(t, c).totalPropertyTax == Round(OverTerm(t, c.tax))
    ensures SummaryOf(t, c).totalInsurance == Round(OverTerm(t, c.insurance))
    ensures SummaryOf(t, c).monthly == Breakdown(Round(Level(t)), Round(c.pmi), Round(c.tax), Round(c.insurance),
      Round(Level(t) + c.pmi + c.tax + c.insurance))
  {
  }

  lemma MonthsUnique(t: Terms, k: nat)
    requires t.payments > 0.0 && k as real <= t.payments < k as real + 1.0
    ensures k == t.Months()
  {
  }

  // --- the request's own terms -----------------------------------------------------------------

  /** The amount borrowed, in hundredths. */
  function Borrowed(q: Request): real { q.price * (100.0 - q.downPercent) }

  /** What the power for the request's rate and term must be in order with. */
  predicate GrowthInOrder(q: Request, pow: (real, real) -> real, k: nat) {
    var base, months := 1.0 + q.annualRate / 1200.0, 12.0 * q.years;
    && (k as real < months && q.annualRate > 0.0 ==> Pow(base, k) < pow(base, months))
    && (k as real == months ==> Pow(base, k) == pow(base, months))
  }

  /** The requests for which the schedule is proved: no negative loan or rate, a positive term, and a power in
      order with the whole powers. */
  ghost predicate Meets(q: Request, pow: (real, real) -> real) {
    Borrowed(q) >= 0.0 && q.annualRate >= 0.0 && q.years > 0.0 && forall k: nat :: GrowthInOrder(q, pow, k)
  }

  lemma TermsInRequest(q: Request, pow: (real, real) -> real)
    ensures var t := TermsOf(q, pow);
      && t.rate == q.annualRate / 1200.0 && t.payments == 12.0 * q.years
      && t.growth == pow(1.0 + q.annualRate / 1200.0, 12.0 * q.years)
      && t.loan * 100.0 == Borrowed(q) && t.loan == q.price - q.price * q.downPercent / 100.0
    ensures var c := CostsOf(q, TermsOf(q, pow).loan);
      && c.tax * 12.0 == q.annualTax && c.insurance * 12.0 == q.annualInsurance
      && c.pmi * 240000.0 == if q.downPercent < 20.0 then Borrowed(q) else 0.0
  {
    assert q.price * (q.downPercent / 100.0) == q.price * q.downPercent / 100.0;
    assert q.price * (100.0 - q.downPercent) == q.price * 100.0 - q.price * q.downPercent;
  }

  lemma MeetsIsValid(q: Request, pow: (real, real) -> real)
    ensures Meets(q, pow) <==> TermsOf(q, pow).Valid()
  {
    TermsInRequest(q, pow);
    var t := TermsOf(q, pow);
    forall k: nat ensures GrowthInOrder(q, pow, k) <==> t.InOrder(k) { }
    hide TermsOf, Pow;
  }

  /** The rows of the schedule in terms of the request: how many there are, the interest and the premium of the
      first, and the tax and insurance of each. A premium is due only below 20 % down, and is a half percent of
      the loan a year. */
  predicate FitsRequest(q: Request, rows: seq<Row>) {
    && |rows| as real <= 12.0 * q.years < |rows| as real + 1.0
    && (rows != [] ==>
          && NearestCent(rows[0].interest, Borrowed(q) * q.annualRate / 120000.0)
          && NearestCent(rows[0].pmi, if q.downPercent < 20.0 then Borrowed(q) / 240000.0 else 0.0))
    && forall i | 0 <= i < |rows| ::
         && rows[i].month == i + 1
         && NearestCent(rows[i].propertyTax, q.annualTax / 12.0)
         && NearestCent(rows[i].insurance, q.annualInsurance / 12.0)
         && rows[i].pmi in {0.0, rows[0].pmi}
  }

  lemma RowInRequest(q: Request, pow: (real, real) -> real, k: nat)
    requires TermsOf(q, pow).Valid() && k > 0
    ensures var row := RowAt(TermsOf(q, pow), CostsOf(q, TermsOf(q, pow).loan), k);
      && row.month == k
      && NearestCent(row.propertyTax, q.annualTax / 12.0) && NearestCent(row.insurance, q.annualInsurance / 12.0)
      && row.pmi in {Round(0.0), Round(CostsOf(q, TermsOf(q, pow).loan).pmi)}
  {
    TermsInRequest(q, pow);
    var c := CostsOf(q, TermsOf(q, pow).loan);
    RoundIsNearest(Round(c.tax), c.tax);
    RoundIsNearest(Round(c.insurance), c.insurance);
    hide TermsOf, CostsOf, NearestCent, Terms.Valid;
  }

  lemma FirstInterest(loan: real, rate: real, borrowed: real, annual: real)
    requires loan * 100.0 == borrowed && rate == annual / 1200.0
    ensures loan * rate == borrowed * annual / 120000.0
  {
    assert loan == borrowed / 100.0;
    assert borrowed / 100.0 * (annual / 1200.0) == borrowed * annual / 120000.0;
  }

  lemma FirstRowInRequest(q: Request, pow: (real, real) -> real)
    requires TermsOf(q, pow).Valid()
    ensures var row := RowAt(TermsOf(q, pow), CostsOf(q, TermsOf(q, pow).loan), 1);
      && NearestCent(row.interest, Borrowed(q) * q.annualRate / 120000.0)
      && NearestCent(row.pmi, if q.downPercent < 20.0 then Borrowed(q) / 240000.0 else 0.0)
      && row.pmi == Round(CostsOf(q, TermsOf(q, pow).loan).pmi)
  {
    TermsInRequest(q, pow);
    var t, c := TermsOf(q, pow), CostsOf(q, TermsOf(q, pow).loan);
    hide TermsOf, CostsOf, NearestCent, Round, Borrowed;
    FirstInterest(t.loan, t.rate, Borrowed(q), q.annualRate);
    assert Balance(t, 0) == t.loan && Interest(t, 1) == t.loan * t.rate;
    RoundIsNearest(Round(Interest(t, 1)), Interest(t, 1));
    RoundIsNearest(Round(c.pmi), c.pmi);
    assert t.loan > 0.0 ==> CarriesPmi(t, 1);
    assert t.loan == 0.0 ==> c.pmi == 0.0;
  }

  lemma RowsFitRequest(q: Request, pow: (real, real) -> real, rows: seq<Row>)
    requires TermsOf(q, pow).Valid() && |rows| == TermsOf(q, pow).Months()
    requires forall i | 0 <= i < |rows| ::
      rows[i] == RowAt(TermsOf(q, pow), CostsOf(q, TermsOf(q, pow).loan), i + 1)
    ensures FitsRequest(q, rows)
  {
    hide TermsOf, CostsOf, WholeCents, RowAt, Terms.Valid, Terms.Months;
    TermsInRequest(q, pow);
    FirstRowInRequest(q, pow);
    MonthsAreWhole(TermsOf(q, pow));
    assert Round(0.0) == 0.0;
    hide Round;
    forall i | 0 <= i < |rows|
      ensures rows[i].month == i + 1 && rows[i].pmi in {0.0, rows[0].pmi}
      ensures NearestCent(rows[i].propertyTax, q.annualTax / 12.0)
      ensures NearestCent(rows[i].insurance, q.annualInsurance / 12.0)
    {
      RowInRequest(q, pow, i + 1);
    }
    assert rows != [] ==> rows[0] == RowAt(TermsOf(q, pow), CostsOf(q, TermsOf(q, pow).loan), 1);
  }

  lemma MonthsAreWhole(t: Terms)
    requires t.Valid()
    ensures t.payments > 0.0 && t.Months() as real <= t.payments < t.Months() as real + 1.0
  {
  }

  /** The level payment is the one that pays off the amount borrowed at the request's rate over its term. */
  lemma PaymentInRequest(q: Request, pow: (real, real) -> real)
    requires TermsOf(q, pow).Valid()
    ensures var m, base := Level(TermsOf(q, pow)), 1.0 + q.annualRate / 1200.0;
      var g := pow(base, 12.0 * q.years);
      if q.annualRate == 0.0 then m * (12.0 * q.years) == Borrowed(q) / 100.0
      else m * (g - 1.0) == (Borrowed(q) / 100.0) * (q.annualRate / 1200.0 * g)
  {
    TermsInRequest(q, pow);
    var t := TermsOf(q, pow);
    LevelIsPayment(t);
    hide TermsOf, Borrowed, Level;
    if t.rate == 0.0 {
      Quotient(t.loan, t.payments);
    } else {
      GrowthAboveOne(t);
      Quotient(t.loan * (t.rate * t.growth), t.growth - 1.0);
    }
  }

  method GenerateAmortizationSchedule(q: Request, pow: (real, real) -> real)
    returns (schedule: seq<Row>, summary: Summary)
    requires TermsOf(q, pow).Valid()
    ensures |schedule| == TermsOf(q, pow).Months()
    ensures forall i | 0 <= i < |schedule| ::
      schedule[i] == RowAt(TermsOf(q, pow), CostsOf(q, TermsOf(q, pow).loan), i + 1)
    ensures summary == SummaryOf(TermsOf(q, pow), CostsOf(q, TermsOf(q, pow).loan))
    ensures FitsRequest(q, schedule)
  {
    hide FitsRequest;
    hide TermsOf, CostsOf, Level, Interest, Pmi, Max, Round, RowAt, Total, OverTerm, SummaryOf;
    hide Terms.Valid, Terms.Payment, Terms.Months;
    var t := TermsOf(q, pow);
    var c := CostsOf(q, t.loan);
    SumsStart(t, c);
    LevelIsPayment(t);
    var monthlyPI := t.Payment();
    schedule := [];
    var balance, totalInterest, totalPMI := t.loan, 0.0, 0.0;
    var month := 1;
    while month as real <= t.payments
      invariant month >= 1 && (month - 1) as real <= t.payments
      invariant balance == Balance(t, month - 1)
      invariant totalInterest == InterestSum(t, month - 1)
      invariant totalPMI == PmiSum(t, c, month - 1)
      invariant |schedule| == month - 1
      invariant forall i | 0 <= i < |schedule| :: schedule[i] == RowAt(t, c, i + 1)
      decreases t.payments - month as real
    {
      ghost var oldBalance := balance;
      var interestPayment := balance * t.rate;
      var principalPayment := monthlyPI - interestPayment;
      var currentPMI := if balance > t.loan * 0.8 then c.pmi else 0.0;
      balance := Max(0.0, balance - principalPayment);
      totalInterest := totalInterest + interestPayment;
      totalPMI := totalPMI + currentPMI;
      var total := Round(monthlyPI + currentPMI + c.tax + c.insurance);
      SameProduct(oldBalance, Balance(t, month - 1), t.rate);
      SumsStep(t, c, month);
      assert interestPayment == Balance(t, month - 1) * t.rate;
      assert balance == Balance(t, month);
      assert totalInterest == InterestSum(t, month);
      assert totalPMI == PmiSum(t, c, month);
      schedule := schedule + [Row(month, Round(monthlyPI), Round(principalPayment),
        Round(interestPayment), Round(currentPMI), Round(c.tax), Round(c.insurance), total,
        Round(balance))];
      month := month + 1;
      assert (month - 1) as real <= t.payments;
    }
    assert (month - 1) as real + 1.0 == month as real;
    MonthsUnique(t, month - 1);
    SummaryForm(t, c);
    var exact :=
      OverTerm(t, monthlyPI) + totalPMI + OverTerm(t, c.tax) + OverTerm(t, c.insurance);
    var monthly := Breakdown(Round(monthlyPI), Round(c.pmi), Round(c.tax), Round(c.insurance),
      Round(monthlyPI + c.pmi + c.tax + c.insurance));
    summary := Summary(Round(exact), Round(totalInterest), Round(totalPMI), Round(OverTerm(t, c.tax)),
      Round(OverTerm(t, c.insurance)), monthly);
    RowsFitRequest(q, pow, schedule);
  }

  // --- what the schedule promises --------------------------------------------------------------

  /** A monthly amount paid k times. */
  function Times(m: real, k: nat): real { m * k as real }

  lemma TimesStep(m: real, k: nat)
    ensures Times(m, k) == m * k as real
    ensures k == 0 ==> Times(m, k) == 0.0
    ensures k > 0 ==> Times(m, k) == Times(m, k - 1) + m
  {
    if k > 0 {
      assert (k - 1) as real == k as real - 1.0;
      OneMore(m, k as real, (k - 1) as real);
    }
  }

  lemma {:induction false} PrincipalPaid(t: Terms, k: nat)
    requires t.Valid() && k as real <= t.payments
    ensures PrincipalSum(t, k) == t.loan - Balance(t, k)
    ensures InterestSum(t, k) == Times(Level(t), k) - (t.loan - Balance(t, k))
  {
    hide *;
    PrincipalStart(t);
    TimesStep(Level(t), k);
    if k > 0 {
      assert (k - 1) as real == k as real - 1.0;
      PrincipalPaid(t, k - 1);
      BalanceClosedForm(t, k);
      PrincipalStep(t, k);
    }
  }

  /** The exact principal payments sum to the loan less what is left, which is nothing for a whole
      term; the exact interest is what the level payments pay beyond that. */
  lemma PrincipalPaysLoan(t: Terms, k: nat)
    requires t.Valid() && k as real <= t.payments
    ensures PrincipalSum(t, k) == t.loan - Balance(t, k)
    ensures InterestSum(t, k) == Level(t) * k as real - (t.loan - Balance(t, k))
  {
    hide *;
    PrincipalPaid(t, k);
    TimesStep(Level(t), k);
  }

  lemma PrincipalStart(t: Terms)
    requires t.Valid()
    ensures Balance(t, 0) == t.loan && InterestSum(t, 0) == 0.0 && PrincipalSum(t, 0) == 0.0
  {
  }

  lemma PrincipalStep(t: Terms, k: nat)
    requires t.Valid() && k > 0 && (t.rate != 0.0 ==> t.growth != 1.0) && Unclamped(t, k)
    ensures PrincipalSum(t, k) == PrincipalSum(t, k - 1) + (Balance(t, k - 1) - Balance(t, k))
    ensures InterestSum(t, k) == InterestSum(t, k - 1) + (Level(t) - (Balance(t, k - 1) - Balance(t, k)))
  {
    assert Level(t) == t.Payment();
    hide Terms.Payment;
  }

  lemma OneMore(m: real, k: real, j: real)
    requires j == k - 1.0
    ensures m * k == m * j + m
  {
  }

  /** For a whole term the loan is paid off: principal sums to the loan, interest to M n - L. */
  lemma WholeTermPaysOff(t: Terms)
    requires t.Valid() && t.Months() as real == t.payments
    ensures Balance(t, t.Months()) == 0.0
    ensures PrincipalSum(t, t.Months()) == t.loan
    ensures InterestSum(t, t.Months()) == Level(t) * t.payments - t.loan
  {
    var n := t.Months();
    hide *;
    PrincipalPaysLoan(t, n);
    TermsBasics(t);
    if t.rate == 0.0 {
      BalanceAtZeroRate(t, n);
    } else {
      BalanceAtRate(t, n);
      PowerInOrder(t, n);
    }
  }

  /** The months that carry the insurance premium are a prefix of the term. */
  lemma PmiMonthsArePrefix(t: Terms, i: nat, j: nat)
    requires t.Valid() && 0 < i <= j && j as real <= t.payments && CarriesPmi(t, j)
    ensures CarriesPmi(t, i)
  {
    BalanceOrder(t, i - 1, j - 1);
  }

  lemma {:induction false} BalanceOrder(t: Terms, i: nat, j: nat)
    requires t.Valid() && i <= j && j as real <= t.payments
    ensures Balance(t, j) <= Balance(t, i)
  {
    hide *;
    TermsBasics(t);
    if i < j {
      assert (j - 1) as real == j as real - 1.0;
      BalanceOrder(t, i, j - 1);
      if t.loan > 0.0 {
        BalanceFalls(t, j - 1);
      } else {
        NoLoanNoBalance(t, j);
        NoLoanNoBalance(t, j - 1);
      }
    }
  }

  lemma NoLoanNoBalance(t: Terms, k: nat)
    requires t.Valid() && t.loan == 0.0 && k as real <= t.payments
    ensures Balance(t, k) == 0.0
  {
    hide *;
    TermsBasics(t);
    if t.rate == 0.0 {
      BalanceAtZeroRate(t, k);
      EvenPayment(t);
      ZeroFactor(t.Payment(), t.payments);
    } else {
      BalanceAtRate(t, k);
      UnitFacts(t);
      ZeroFactor(Unit(t), t.growth - 1.0);
    }
  }

  lemma ZeroFactor(x: real, y: real)
    requires x * y == 0.0 && y > 0.0
    ensures x == 0.0
  {
    assert x == (x * y) / y;
  }

  /** The summary's exact total exceeds the sum of the exact row totals by the fraction of a month
      that no row covers. */
  lemma SummaryCoversRows(t: Terms, c: Costs)
    requires t.Valid()
    ensures ExactTotal(t, c) - TotalSum(t, c, t.Months())
         == (t.payments - t.Months() as real) * (Level(t) + c.tax + c.insurance)
  {
    hide *;
    TermsBasics(t);
    var n := t.Months();
    TotalSumForm(t, c, n);
    ExactTotalForm(t, c);
    var m := Level(t) + c.tax + c.insurance;
    TimesStep(m, n);
    assert TotalSum(t, c, n) == Times(m, n) + PmiSum(t, c, n);
    Spread(t.payments, n as real, m, Level(t), c.tax, c.insurance, PmiSum(t, c, n),
           ExactTotal(t, c), Times(m, n));
  }

  lemma ExactTotalForm(t: Terms, c: Costs)
    requires t.Valid()
    ensures ExactTotal(t, c) == Level(t) * t.payments + PmiSum(t, c, t.Months())
      + c.tax * t.payments + c.insurance * t.payments
  {
    hide Level, PmiSum, Terms.Months;
  }

  lemma Spread(x: real, n: real, m: real, a: real, b: real, d: real, extra: real, exact: real, times: real)
    requires exact == a * x + extra + b * x + d * x && times == m * n && m == a + b + d
    ensures exact - (times + extra) == (x - n) * m
  {
    assert a * x + b * x + d * x == m * x;
  }

  lemma {:induction false} TotalSumForm(t: Terms, c: Costs, k: nat)
    requires t.Valid()
    ensures TotalSum(t, c, k) == Times(Level(t) + c.tax + c.insurance, k) + PmiSum(t, c, k)
  {
    hide *;
    TotalSumStep(t, c, k);
    TimesStep(Level(t) + c.tax + c.insurance, k);
    if k > 0 { TotalSumForm(t, c, k - 1); }
  }

  lemma TotalSumStep(t: Terms, c: Costs, k: nat)
    requires t.Valid()
    ensures k == 0 ==> TotalSum(t, c, k) == 0.0 && PmiSum(t, c, k) == 0.0 && RoundedTotalSum(t, c, k) == 0.0
    ensures k > 0 ==>
      && TotalSum(t, c, k) == TotalSum(t, c, k - 1) + Total(t, c, k)
      && PmiSum(t, c, k) == PmiSum(t, c, k - 1) + Pmi(t, c, k)
      && RoundedTotalSum(t, c, k) == RoundedTotalSum(t, c, k - 1) + Round(Total(t, c, k))
      && Total(t, c, k) == Level(t) + Pmi(t, c, k) + c.tax + c.insurance
  {
    hide Level, Pmi, Round, Interest, Balance;
  }

  /** Rounding to the cent moves a value by at most half a cent. */
  lemma RoundBound(x: real)
    ensures -0.005 <= Round(x) - x <= 0.005
  {
  }

  lemma {:induction false} RoundedRowsBound(t: Terms, c: Costs, k: nat)
    requires t.Valid()
    ensures -0.005 * k as real <= RoundedTotalSum(t, c, k) - TotalSum(t, c, k) <= 0.005 * k as real
  {
    hide *;
    TotalSumStep(t, c, k);
    if k > 0 {
      RoundedRowsBound(t, c, k - 1);
      RoundBound(Total(t, c, k));
      assert (k - 1) as real == k as real - 1.0;
    }
  }

  lemma SummaryEqualsRows(t: Terms, c: Costs)
    requires t.Valid() && t.Months() as real == t.payments
    ensures t.payments > 0.0
    ensures ExactTotal(t, c) == TotalSum(t, c, t.Months())
  {
    hide *;
    TermsBasics(t);
    SummaryCoversRows(t, c);
    ZeroSpread(t.payments - t.Months() as real, Level(t) + c.tax + c.insurance);
  }

  /** What the summary counts beyond the rows: the fraction of a month that no row covers. */
  ghost function Uncovered(t: Terms, c: Costs): real
    requires t.Valid()
  {
    (t.payments - t.Months() as real) * (Level(t) + c.tax + c.insurance)
  }

  lemma UncoveredForm(t: Terms, c: Costs)
    requires t.Valid()
    ensures Uncovered(t, c) == (t.payments - t.Months() as real) * (Level(t) + c.tax + c.insurance)
    ensures t.Months() as real == t.payments ==> Uncovered(t, c) == 0.0
  {
    hide Level, Terms.Valid;
    TermsBasics(t);
    if t.Months() as real == t.payments { ZeroSpread(t.payments - t.Months() as real, Level(t) + c.tax + c.insurance); }
  }

  /** With n rows, the reported total is within half a cent times n + 1 of the sum of the reported row totals
      and the uncovered fraction, which is zero for a whole term. */
  lemma ReportedTotalBound(t: Terms, c: Costs)
    requires t.Valid()
    ensures var n := t.Months();
      && -0.005 * (n as real + 1.0)
         <= Round(ExactTotal(t, c)) - (RoundedTotalSum(t, c, n) + Uncovered(t, c))
         <= 0.005 * (n as real + 1.0)
      && (n as real == t.payments ==> Uncovered(t, c) == 0.0)
  {
    hide *;
    TermsBasics(t);
    SummaryCoversRows(t, c);
    RoundBound(ExactTotal(t, c));
    RoundedRowsBound(t, c, t.Months());
    UncoveredForm(t, c);
  }

  /** The monthly breakdown in the summary is the first row of a positive loan, part by part, and its total
      is within two and a half cents of the sum of its parts. */
  lemma MonthlyTotalIsFirstRow(t: Terms, c: Costs)
    requires t.Valid() && t.loan > 0.0
    ensures var row, b := RowAt(t, c, 1), SummaryOf(t, c).monthly;
      && row.payment == b.principalAndInterest && row.pmi == b.pmi && row.propertyTax == b.propertyTax
      && row.insurance == b.insurance && row.totalPayment == b.total
      && -0.025 <= b.total - (b.principalAndInterest + b.pmi + b.propertyTax + b.insurance) <= 0.025
  {
    assert Balance(t, 0) == t.loan;
    assert CarriesPmi(t, 1);
    SummaryForm(t, c);
    hide Round, Level;
    RoundBound(Level(t));
    RoundBound(c.pmi);
    RoundBound(c.tax);
    RoundBound(c.insurance);
    RoundBound(Level(t) + c.pmi + c.tax + c.insurance);
  }

  /** A monthly amount paid over the requested term. */
  function OverYears(q: Request, m: real): real { m * (12.0 * q.years) }

  lemma MonthlyOverTerm(q: Request, pow: (real, real) -> real, m: real)
    ensures OverTerm(TermsOf(q, pow), m) == OverYears(q, m)
  {
    TermsInRequest(q, pow);
    hide TermsOf;
  }

  /** Over a whole term the exact principal payments sum to the price less the down payment. */
  lemma PrincipalPaysPrice(q: Request, pow: (real, real) -> real, n: nat)
    requires TermsOf(q, pow).Valid() && n as real == 12.0 * q.years
    ensures PrincipalSum(TermsOf(q, pow), n) == q.price - q.price * q.downPercent / 100.0
  {
    hide *;
    TermsInRequest(q, pow);
    var t := TermsOf(q, pow);
    MonthsAreWhole(t);
    MonthsUnique(t, n);
    WholeTermPaysOff(t);
    assert PrincipalSum(t, n) == t.loan;
  }

  /** An annual amount over the requested term. */
  function ForYears(q: Request, annual: real): real { annual * q.years }

  /** A year's tax, or insurance, in twelfths over the term. */
  lemma AnnualOverTerm(q: Request, pow: (real, real) -> real, monthly: real, annual: real)
    requires monthly * 12.0 == annual
    ensures OverTerm(TermsOf(q, pow), monthly) == ForYears(q, annual)
  {
    MonthlyOverTerm(q, pow, monthly);
    assert monthly * (12.0 * q.years) == (monthly * 12.0) * q.years;
  }

  /** The summary's tax and insurance in terms of the request. */
  lemma SummaryInRequest(q: Request, pow: (real, real) -> real)
    requires TermsOf(q, pow).Valid()
    ensures var s := SummaryOf(TermsOf(q, pow), CostsOf(q, TermsOf(q, pow).loan));
      && NearestCent(s.totalPropertyTax, ForYears(q, q.annualTax))
      && NearestCent(s.totalInsurance, ForYears(q, q.annualInsurance))
      && NearestCent(s.monthly.propertyTax, q.annualTax / 12.0)
      && NearestCent(s.monthly.insurance, q.annualInsurance / 12.0)
      && NearestCent(s.monthly.pmi, if q.downPercent < 20.0 then Borrowed(q) / 240000.0 else 0.0)
  {
    TermsInRequest(q, pow);
    hide TermsOf, CostsOf, OverTerm, ForYears, Round, NearestCent, Terms.Valid, Borrowed, SummaryOf;
    var t, c := TermsOf(q, pow), CostsOf(q, TermsOf(q, pow).loan);
    SummaryForm(t, c);
    AnnualOverTerm(q, pow, c.tax, q.annualTax);
    AnnualOverTerm(q, pow, c.insurance, q.annualInsurance);
    RoundIsNearest(Round(OverTerm(t, c.tax)), OverTerm(t, c.tax));
    RoundIsNearest(Round(OverTerm(t, c.insurance)), OverTerm(t, c.insurance));
    RoundIsNearest(Round(c.tax), c.tax);
    RoundIsNearest(Round(c.insurance), c.insurance);
    RoundIsNearest(Round(c.pmi), c.pmi);
  }

  // --- the quote -------------------------------------------------------------------------------

  datatype Quote = Quote(downPayment: real, loanAmount: real, monthlyPayment: real,
                         totalPayment: real, totalInterest: real)

  /** The quote rounds every amount to the cent as it goes. */
  function Calculate(q: Request, pow: (real, real) -> real): Quote
    requires q.years > 0.0 && (q.annualRate != 0.0 ==> TermsOf(q, pow).growth != 1.0)
  {
    var down := Round(DownPayment(q));
    var t := TermsOf(q, pow).(loan := Round(q.price - down));
    var monthly := Round(t.Payment());
    var total := Round(OverTerm(t, monthly));
    Quote(down, t.loan, monthly, total, Round(total - t.loan))
  }

  lemma RoundFixesCents(x: real)
    ensures WholeCents(Round(x))
    ensures WholeCents(x) ==> Round(x) == x
  {
    var n := (x * 100.0 + 0.5).Floor;
    assert Round(x) * 100.0 == n as real;
    if WholeCents(x) { assert n == (x * 100.0).Floor; }
  }

  lemma CentsDifference(x: real, y: real)
    requires WholeCents(x) && WholeCents(y)
    ensures WholeCents(x - y)
  {
    var d := (x * 100.0).Floor - (y * 100.0).Floor;
    assert (x - y) * 100.0 == d as real;
  }

  /** The rounding loses no cent: the interest is exactly the total less the loan, and for a price in
      whole cents the down payment and the loan add up to the price. */
  lemma QuoteAddsUp(q: Request, pow: (real, real) -> real)
    requires q.years > 0.0 && (q.annualRate != 0.0 ==> TermsOf(q, pow).growth != 1.0)
    ensures var c := Calculate(q, pow); c.totalInterest == c.totalPayment - c.loanAmount
    ensures WholeCents(q.price) ==>
      Calculate(q, pow).downPayment + Calculate(q, pow).loanAmount == q.price
  {
    hide TermsOf, Round, WholeCents, Calculate, DownPayment;
    var c := Calculate(q, pow);
    QuoteRounds(q, pow);
    RoundFixesCents(DownPayment(q));
    RoundFixesCents(q.price - c.downPayment);
    RoundedTotalIsCents(q, pow);
    CentsDifference(c.totalPayment, c.loanAmount);
    RoundFixesCents(c.totalPayment - c.loanAmount);
    if WholeCents(q.price) { CentsDifference(q.price, c.downPayment); }
  }

  lemma QuoteRounds(q: Request, pow: (real, real) -> real)
    requires q.years > 0.0 && (q.annualRate != 0.0 ==> TermsOf(q, pow).growth != 1.0)
    ensures var c := Calculate(q, pow);
            && c.downPayment == Round(DownPayment(q))
            && c.loanAmount == Round(q.price - c.downPayment)
            && c.totalInterest == Round(c.totalPayment - c.loanAmount)
  {
    hide Round, TermsOf, DownPayment;
  }

  lemma RoundedTotalIsCents(q: Request, pow: (real, real) -> real)
    requires q.years > 0.0 && (q.annualRate != 0.0 ==> TermsOf(q, pow).growth != 1.0)
    ensures WholeCents(Calculate(q, pow).totalPayment)
  {
    hide *;
    QuoteAmounts(q, pow);
    RoundFixesCents(OverTerm(TermsOf(q, pow), Calculate(q, pow).monthlyPayment));
  }

  lemma SameQuotient(x: real, y: real, d: real)
    requires d != 0.0 && x * d == y * d
    ensures x == y
  {
    assert (x - y) * d == 0.0;
  }

  /** The level payment is the one amount that pays off the loan. */
  lemma PaymentIsUnique(t: Terms, m: real)
    requires t.payments > 0.0 && (t.rate != 0.0 ==> t.growth != 1.0)
    ensures t.rate == 0.0 && m * t.payments == t.loan ==> m == t.Payment()
    ensures t.rate != 0.0 && m * (t.growth - 1.0) == t.loan * (t.rate * t.growth) ==> m == t.Payment()
  {
    var due, d := if t.rate == 0.0 then t.loan else t.loan * (t.rate * t.growth),
                  if t.rate == 0.0 then t.payments else t.growth - 1.0;
    assert t.Payment() == due / d;
    assert (due / d) * d == due;
    if m * d == due { SameQuotient(m, due / d, d); }
  }

  lemma QuoteAmounts(q: Request, pow: (real, real) -> real)
    requires q.years > 0.0 && (q.annualRate != 0.0 ==> TermsOf(q, pow).growth != 1.0)
    ensures var c := Calculate(q, pow);
            && c.monthlyPayment == Round(TermsOf(q, pow).(loan := c.loanAmount).Payment())
            && c.totalPayment == Round(OverTerm(TermsOf(q, pow), c.monthlyPayment))
  {
    var c := Calculate(q, pow);
    OverTermIgnoresLoan(TermsOf(q, pow), c.loanAmount, c.monthlyPayment);
    hide Round, DownPayment, Terms.Payment, OverTerm;
  }

  lemma OverTermIgnoresLoan(t: Terms, loan: real, m: real)
    ensures OverTerm(t.(loan := loan), m) == OverTerm(t, m)
  {
  }

  lemma DownInRequest(q: Request)
    ensures DownPayment(q) == q.price * q.downPercent / 100.0
  {
  }

  lemma MonthlyInRequest(q: Request, pow: (real, real) -> real, loan: real, m: real)
    requires q.years > 0.0 && (q.annualRate != 0.0 ==> TermsOf(q, pow).growth != 1.0)
    requires var g := pow(1.0 + q.annualRate / 1200.0, 12.0 * q.years);
      if q.annualRate == 0.0 then m * (12.0 * q.years) == loan
      else m * (g - 1.0) == loan * (q.annualRate / 1200.0 * g)
    ensures m == TermsOf(q, pow).(loan := loan).Payment()
  {
    TermsInRequest(q, pow);
    hide *;
    PaymentIsUnique(TermsOf(q, pow).(loan := loan), m);
  }

  /** The quote in terms of the request: every amount is the cent nearest to its exact value, computed from the
      rounded ones before it. The exact monthly payment `m` is the one that pays off the rounded loan. */
  lemma QuoteInRequest(q: Request, pow: (real, real) -> real, m: real)
    requires q.years > 0.0 && (q.annualRate != 0.0 ==> TermsOf(q, pow).growth != 1.0)
    requires var loan, g := Calculate(q, pow).loanAmount, pow(1.0 + q.annualRate / 1200.0, 12.0 * q.years);
      if q.annualRate == 0.0 then m * (12.0 * q.years) == loan
      else m * (g - 1.0) == loan * (q.annualRate / 1200.0 * g)
    ensures var c := Calculate(q, pow);
      && NearestCent(c.downPayment, q.price * q.downPercent / 100.0)
      && NearestCent(c.loanAmount, q.price - c.downPayment)
      && NearestCent(c.monthlyPayment, m)
      && NearestCent(c.totalPayment, OverYears(q, c.monthlyPayment))
  {
    hide *;
    var c := Calculate(q, pow);
    DownInRequest(q);
    QuoteRounds(q, pow);
    QuoteAmounts(q, pow);
    MonthlyInRequest(q, pow, c.loanAmount, m);
    RoundIsNearest(c.downPayment, DownPayment(q));
    RoundIsNearest(c.loanAmount, q.price - c.downPayment);
    RoundIsNearest(c.monthlyPayment, m);
    RoundIsNearest(c.totalPayment, OverYears(q, c.monthlyPayment));
    MonthlyOverTerm(q, pow, c.monthlyPayment);
  }
}
