/**
 * The recurring-deposit calculator: the accrual projection computed by
 * `calculateRD` and the small piece of component state it reads from.
 *
 * Money, rates and growth factors are exact reals; the TypeScript code works in
 * IEEE doubles, whose rounding is not modelled.
 */
module RDCalculator {

  datatype Option<T> = None | Some(value: T)

  /** One point of the projection: a month number and the value recorded for it. */
  datatype TimelineEntry = TimelineEntry(month: int, balance: real)

  /** The record `calculateRD` hands to the chart and the exporter. */
  datatype CalculationResult = CalculationResult(
    depositAmount: real,
    interestEarned: real,
    maturityAmount: real,
    monthlyDeposit: real,
    interestRate: real,
    tenureMonths: int,
    timeline: seq<TimelineEntry>)

  // ---------------------------------------------------------------------------
  // Specification of the projection
  // ---------------------------------------------------------------------------

  /** How many times the month loop runs: months 1..tenure, none when tenure <= 0. */
  function Months(tenure: int): (n: nat)
    ensures tenure <= 0 ==> n == 0
    ensures tenure >= 0 ==> n == tenure
  {
    if tenure > 0 then tenure else 0
  }

  /** x raised to a whole power, the only way `Math.pow` is used here. */
  function Pow(x: real, n: nat): real
    decreases n
  {
    if n == 0 then 1.0 else x * Pow(x, n - 1)
  }

  /** Annual percentage rate to the fractional rate of one quarter. */
  function QuarterlyRate(annualRate: real): (q: real)
    ensures 4.0 * q == annualRate / 100.0
  {
    annualRate / 400.0
  }

  /** Whole quarters between the deposit of `month` and maturity: the floor of (tenure - month + 1) / 3. */
  function QuartersRemaining(tenure: int, month: int): (q: nat)
    requires 1 <= month <= tenure
    ensures 3 * q <= tenure - month + 1 < 3 * q + 3
  {
    (tenure - month + 1) / 3
  }

  /** The factor by which the deposit of `month` grows until maturity. */
  function GrowthFactor(annualRate: real, tenure: int, month: int): real
    requires 1 <= month <= tenure
  {
    Pow(1.0 + QuarterlyRate(annualRate), QuartersRemaining(tenure, month))
  }

  /** What the deposit of `month` is worth at maturity. */
  function Contribution(deposit: real, annualRate: real, tenure: int, month: int): real
    requires 1 <= month <= tenure
  {
    deposit * GrowthFactor(annualRate, tenure, month)
  }

  /**
   * The value at maturity of the deposits of months 1..m: the running
   * `maturity` accumulator after m turns of the month loop.
   */
  function Accrued(deposit: real, annualRate: real, tenure: int, m: nat): real
    requires m <= Months(tenure)
    decreases m
  {
    if m == 0 then 0.0
    else Accrued(deposit, annualRate, tenure, m - 1) + Contribution(deposit, annualRate, tenure, m)
  }

  /**
   * The balance the source records for a month. Written as the source writes
   * it; it always collapses to the running maturity sum, so a timeline entry
   * is the maturity value of the deposits so far, not the account balance.
   */
  function TimelineBalance(month: int, deposit: real, maturity: real): (balance: real)
    ensures balance == maturity
  {
    month as real * deposit + (maturity - month as real * deposit)
  }

  /** The result `calculateRD` produces for the three inputs. */
  function Project(deposit: real, annualRate: real, tenure: int): CalculationResult
  {
    var total := deposit * tenure as real;
    var maturity := Accrued(deposit, annualRate, tenure, Months(tenure));
    var interest := maturity - total;
    CalculationResult(
      total, interest, total + interest, deposit, annualRate, tenure,
      seq(Months(tenure), i requires 0 <= i < Months(tenure) =>
        TimelineEntry(i + 1, Accrued(deposit, annualRate, tenure, i + 1))))
  }

  // ---------------------------------------------------------------------------
  // The month loop
  // ---------------------------------------------------------------------------

  /** `calculateRD`: one pass over the months, accumulating maturity and the timeline. */
  method CalculateRD(monthlyDeposit: real, interestRate: real, tenureMonths: int)
    returns (result: CalculationResult)
    ensures result == Project(monthlyDeposit, interestRate, tenureMonths)
  {
    var timeline: seq<TimelineEntry> := [];
    var totalDeposit := monthlyDeposit * tenureMonths as real;
    var r := interestRate / 400.0;
    var maturity := 0.0;
    var month := 1;
    while month <= tenureMonths
      invariant 1 <= month <= Months(tenureMonths) + 1
      invariant |timeline| == month - 1
      invariant maturity == Accrued(monthlyDeposit, interestRate, tenureMonths, month - 1)
      invariant forall i :: 0 <= i < |timeline| ==>
        timeline[i] == TimelineEntry(i + 1, Accrued(monthlyDeposit, interestRate, tenureMonths, i + 1))
    {
      var n := (tenureMonths - month + 1) / 3;
      var quarterlyFactor := Pow(1.0 + r, n);
      var monthlyContribution := monthlyDeposit * quarterlyFactor;
      assert monthlyContribution == Contribution(monthlyDeposit, interestRate, tenureMonths, month);
      maturity := maturity + monthlyContribution;
      timeline := timeline + [TimelineEntry(month, TimelineBalance(month, monthlyDeposit, maturity))];
      month := month + 1;
    }
    var interestEarned := maturity - totalDeposit;
    result := CalculationResult(
      totalDeposit, interestEarned, totalDeposit + interestEarned,
      monthlyDeposit, interestRate, tenureMonths, timeline);
    ProjectTimelineOfEntries(monthlyDeposit, interestRate, tenureMonths, timeline);
  }

  /** A timeline holding each month's running sum is the projection's timeline. */
  lemma ProjectTimelineOfEntries(deposit: real, annualRate: real, tenure: int, timeline: seq<TimelineEntry>)
    requires |timeline| == Months(tenure)
    requires forall i :: 0 <= i < |timeline| ==>
      timeline[i] == TimelineEntry(i + 1, Accrued(deposit, annualRate, tenure, i + 1))
    ensures timeline == Project(deposit, annualRate, tenure).timeline
  {
  }

  // ---------------------------------------------------------------------------
  // Growth factors
  // ---------------------------------------------------------------------------

  lemma {:induction false} PowOfOne(n: nat)
    ensures Pow(1.0, n) == 1.0
  {
    if n > 0 {
      PowOfOne(n - 1);
    }
  }

  lemma {:induction false} PowAtLeastOne(x: real, n: nat)
    requires x >= 1.0
    ensures Pow(x, n) >= 1.0
  {
    if n > 0 {
      PowAtLeastOne(x, n - 1);
      assert x * Pow(x, n - 1) >= Pow(x, n - 1) by {
        assert (x - 1.0) * Pow(x, n - 1) >= 0.0;
      }
    }
  }

  /** With a base of at least one, a longer exponent never gives a smaller power. */
  lemma {:induction false} PowMonotone(x: real, a: nat, b: nat)
    requires x >= 1.0 && a <= b
    ensures 1.0 <= Pow(x, a) <= Pow(x, b)
    decreases b
  {
    PowAtLeastOne(x, a);
    if a < b {
      PowMonotone(x, a, b - 1);
      assert x * Pow(x, b - 1) >= Pow(x, b - 1) by {
        assert (x - 1.0) * Pow(x, b - 1) >= 0.0;
      }
    }
  }

  /** Later months have no more whole quarters left than earlier ones. */
  lemma QuartersNonIncreasing(tenure: int, m1: int, m2: int)
    requires 1 <= m1 <= m2 <= tenure
    ensures QuartersRemaining(tenure, m1) >= QuartersRemaining(tenure, m2)
    ensures QuartersRemaining(tenure, m1) <= QuartersRemaining(tenure, m2) + (m2 - m1) / 3 + 1
  {
  }

  /** With a non-negative rate, an earlier deposit grows by at least as much as a later one, and by at least 1. */
  lemma GrowthFactorNonIncreasing(annualRate: real, tenure: int, m1: int, m2: int)
    requires annualRate >= 0.0
    requires 1 <= m1 <= m2 <= tenure
    ensures GrowthFactor(annualRate, tenure, m1) >= GrowthFactor(annualRate, tenure, m2) >= 1.0
  {
    QuartersNonIncreasing(tenure, m1, m2);
    PowMonotone(1.0 + QuarterlyRate(annualRate),
      QuartersRemaining(tenure, m2), QuartersRemaining(tenure, m1));
  }

  // ---------------------------------------------------------------------------
  // The running sum
  // ---------------------------------------------------------------------------

  /** At a zero rate every deposit keeps its face value. */
  lemma {:induction false} AccruedZeroRate(deposit: real, tenure: int, m: nat)
    requires m <= Months(tenure)
    ensures Accrued(deposit, 0.0, tenure, m) == deposit * m as real
  {
    if m > 0 {
      AccruedZeroRate(deposit, tenure, m - 1);
      PowOfOne(QuartersRemaining(tenure, m));
      assert Contribution(deposit, 0.0, tenure, m) == deposit;
      OneMoreDeposit(deposit, m);
    }
  }

  /**
   * An amount scaled by k, as a named product, so that the induction below
   * matches the recursive call's product by congruence rather than by
   * nonlinear arithmetic.
   */
  function ScaledBy(k: real, x: real): real
  {
    k * x
  }

  /** One step of the linearity induction, on plain reals. */
  lemma ScaleStep(k: real, b: real, kb: real, c: real, kc: real)
    requires kb == ScaledBy(k, b) && kc == k * c
    ensures kb + kc == ScaledBy(k, b + c)
  {
  }

  /** Scaling the deposit scales what it is worth at maturity. */
  lemma ContributionScales(k: real, deposit: real, annualRate: real, tenure: int, month: int)
    requires 1 <= month <= tenure
    ensures Contribution(k * deposit, annualRate, tenure, month) == k * Contribution(deposit, annualRate, tenure, month)
  {
    var g := GrowthFactor(annualRate, tenure, month);
    assert (k * deposit) * g == k * (deposit * g);
  }

  lemma {:induction false} AccruedScalesInduction(k: real, deposit: real, annualRate: real, tenure: int, m: nat)
    requires m <= Months(tenure)
    ensures Accrued(k * deposit, annualRate, tenure, m) == ScaledBy(k, Accrued(deposit, annualRate, tenure, m))
  {
    if m > 0 {
      AccruedScalesInduction(k, deposit, annualRate, tenure, m - 1);
      ContributionScales(k, deposit, annualRate, tenure, m);
      ScaleStep(k, Accrued(deposit, annualRate, tenure, m - 1), Accrued(k * deposit, annualRate, tenure, m - 1),
        Contribution(deposit, annualRate, tenure, m), Contribution(k * deposit, annualRate, tenure, m));
    }
  }

  /** The running sum is linear in the monthly deposit. */
  lemma AccruedScales(k: real, deposit: real, annualRate: real, tenure: int, m: nat)
    requires m <= Months(tenure)
    ensures Accrued(k * deposit, annualRate, tenure, m) == k * Accrued(deposit, annualRate, tenure, m)
  {
    AccruedScalesInduction(k, deposit, annualRate, tenure, m);
  }

  /** With non-negative deposit and rate, m deposits are worth at least their face value. */
  lemma {:induction false} AccruedAtLeastPrincipal(deposit: real, annualRate: real, tenure: int, m: nat)
    requires deposit >= 0.0 && annualRate >= 0.0
    requires m <= Months(tenure)
    ensures Accrued(deposit, annualRate, tenure, m) >= deposit * m as real
  {
    if m > 0 {
      AccruedAtLeastPrincipal(deposit, annualRate, tenure, m - 1);
      ContributionAtLeastDeposit(deposit, annualRate, tenure, m);
      OneMoreDeposit(deposit, m);
    }
  }

  /** With non-negative deposit and rate, a deposit is worth at least its face value at maturity. */
  lemma ContributionAtLeastDeposit(deposit: real, annualRate: real, tenure: int, month: int)
    requires deposit >= 0.0 && annualRate >= 0.0
    requires 1 <= month <= tenure
    ensures deposit <= Contribution(deposit, annualRate, tenure, month)
  {
    GrowthFactorNonIncreasing(annualRate, tenure, month, month);
    var g := GrowthFactor(annualRate, tenure, month);
    assert deposit * (g - 1.0) >= 0.0;
  }

  /** The face value of n deposits is that of n - 1 deposits plus one more. */
  lemma OneMoreDeposit(deposit: real, n: int)
    ensures deposit * (n - 1) as real + deposit == deposit * n as real
  {
  }

  /** With non-negative deposit and rate, the running sum never decreases. */
  lemma {:induction false} AccruedMonotone(deposit: real, annualRate: real, tenure: int, m1: nat, m2: nat)
    requires deposit >= 0.0 && annualRate >= 0.0
    requires m1 <= m2 <= Months(tenure)
    ensures Accrued(deposit, annualRate, tenure, m1) <= Accrued(deposit, annualRate, tenure, m2)
    decreases m2
  {
    if m1 < m2 {
      AccruedMonotone(deposit, annualRate, tenure, m1, m2 - 1);
      ContributionAtLeastDeposit(deposit, annualRate, tenure, m2);
    }
  }

  // ---------------------------------------------------------------------------
  // Properties of the projection
  // ---------------------------------------------------------------------------

  /** One entry per month of the tenure, numbered 1, 2, ... in order. */
  lemma ProjectTimelineShape(deposit: real, annualRate: real, tenure: int)
    ensures |Project(deposit, annualRate, tenure).timeline| == Months(tenure)
    ensures forall i :: 0 <= i < Months(tenure) ==>
      Project(deposit, annualRate, tenure).timeline[i].month == i + 1
  {
  }

  /**
   * Each entry adds that month's grown deposit to the one before it, so the
   * entry for month m is the sum of deposit * (1 + r)^n over months 1..m.
   */
  lemma ProjectTimelineIsRunningSum(deposit: real, annualRate: real, tenure: int, i: int)
    requires 0 <= i < Months(tenure)
    ensures var tl := Project(deposit, annualRate, tenure).timeline;
      tl[i].balance == (if i == 0 then 0.0 else tl[i - 1].balance) + deposit * GrowthFactor(annualRate, tenure, i + 1)
  {
    var tl := Project(deposit, annualRate, tenure).timeline;
    assert tl[i].balance == Accrued(deposit, annualRate, tenure, i + 1);
    assert Contribution(deposit, annualRate, tenure, i + 1) == deposit * GrowthFactor(annualRate, tenure, i + 1);
    if i > 0 {
      assert tl[i - 1].balance == Accrued(deposit, annualRate, tenure, i);
    }
  }

  /**
   * The totals reconcile: principal is deposit times tenure, maturity is
   * principal plus interest, and the last timeline entry equals maturity.
   */
  lemma ProjectTotalsReconcile(deposit: real, annualRate: real, tenure: int)
    ensures var p := Project(deposit, annualRate, tenure);
      && p.depositAmount == deposit * tenure as real
      && p.maturityAmount == p.depositAmount + p.interestEarned
      && p.maturityAmount == Accrued(deposit, annualRate, tenure, Months(tenure))
      && (tenure >= 1 ==> p.timeline[tenure - 1].balance == p.maturityAmount)
      && p.monthlyDeposit == deposit && p.interestRate == annualRate && p.tenureMonths == tenure
  {
  }

  /** A tenure of zero months gives an empty timeline and all-zero totals. */
  lemma ProjectZeroTenure(deposit: real, annualRate: real)
    ensures Project(deposit, annualRate, 0) == CalculationResult(0.0, 0.0, 0.0, deposit, annualRate, 0, [])
  {
  }

  /** At a zero rate the maturity is the principal, no interest is earned, and month m records m deposits. */
  lemma ProjectZeroRate(deposit: real, tenure: int)
    requires tenure >= 0
    ensures var p := Project(deposit, 0.0, tenure);
      && p.maturityAmount == deposit * tenure as real
      && p.interestEarned == 0.0
      && forall i :: 0 <= i < |p.timeline| ==> p.timeline[i].balance == deposit * (i + 1) as real
  {
    var p := Project(deposit, 0.0, tenure);
    AccruedZeroRate(deposit, tenure, tenure);
    forall i | 0 <= i < |p.timeline|
      ensures p.timeline[i].balance == deposit * (i + 1) as real
    {
      ZeroRateEntry(deposit, tenure, i);
    }
  }

  lemma ZeroRateEntry(deposit: real, tenure: int, i: int)
    requires 0 <= i < Months(tenure)
    ensures Project(deposit, 0.0, tenure).timeline[i].balance == deposit * (i + 1) as real
  {
    AccruedZeroRate(deposit, tenure, i + 1);
  }

  /** Scaling the monthly deposit by k scales every amount of the projection by k. */
  lemma ProjectLinear(k: real, deposit: real, annualRate: real, tenure: int)
    ensures var p := Project(deposit, annualRate, tenure);
      var q := Project(k * deposit, annualRate, tenure);
      && q.depositAmount == k * p.depositAmount
      && q.maturityAmount == k * p.maturityAmount
      && q.interestEarned == k * p.interestEarned
      && |q.timeline| == |p.timeline|
      && forall i :: 0 <= i < |p.timeline| ==> q.timeline[i] == TimelineEntry(i + 1, k * p.timeline[i].balance)
  {
    ProjectLinearTotals(k, deposit, annualRate, tenure);
    ProjectLinearTimeline(k, deposit, annualRate, tenure);
  }

  lemma ProjectLinearTotals(k: real, deposit: real, annualRate: real, tenure: int)
    ensures var p := Project(deposit, annualRate, tenure);
      var q := Project(k * deposit, annualRate, tenure);
      && q.depositAmount == k * p.depositAmount
      && q.maturityAmount == k * p.maturityAmount
      && q.interestEarned == k * p.interestEarned
  {
    AccruedScales(k, deposit, annualRate, tenure, Months(tenure));
    ScaleTotals(k, deposit, tenure as real,
      Accrued(deposit, annualRate, tenure, Months(tenure)), Accrued(k * deposit, annualRate, tenure, Months(tenure)));
  }

  lemma ProjectLinearTimeline(k: real, deposit: real, annualRate: real, tenure: int)
    ensures var p := Project(deposit, annualRate, tenure);
      var q := Project(k * deposit, annualRate, tenure);
      && |q.timeline| == |p.timeline|
      && forall i :: 0 <= i < |p.timeline| ==> q.timeline[i] == TimelineEntry(i + 1, k * p.timeline[i].balance)
  {
    ProjectTimelineShape(deposit, annualRate, tenure);
    ProjectTimelineShape(k * deposit, annualRate, tenure);
    forall i | 0 <= i < Months(tenure)
      ensures Project(k * deposit, annualRate, tenure).timeline[i]
        == TimelineEntry(i + 1, k * Project(deposit, annualRate, tenure).timeline[i].balance)
    {
      LinearEntry(k, deposit, annualRate, tenure, i);
    }
  }

  lemma LinearEntry(k: real, deposit: real, annualRate: real, tenure: int, i: int)
    requires 0 <= i < Months(tenure)
    ensures var pb := Project(deposit, annualRate, tenure).timeline[i].balance;
      Project(k * deposit, annualRate, tenure).timeline[i] == TimelineEntry(i + 1, k * pb)
  {
    var pb := Accrued(deposit, annualRate, tenure, i + 1);
    var qb := Accrued(k * deposit, annualRate, tenure, i + 1);
    assert Project(deposit, annualRate, tenure).timeline[i].balance == pb;
    assert Project(k * deposit, annualRate, tenure).timeline[i] == TimelineEntry(i + 1, qb);
    AccruedScalesInduction(k, deposit, annualRate, tenure, i + 1);
    ScaledByIsProduct(k, pb, qb);
  }

  lemma ScaledByIsProduct(k: real, x: real, kx: real)
    requires kx == ScaledBy(k, x)
    ensures kx == k * x
  {
  }

  /** The totals of the projection, on plain reals: principal, interest and maturity all scale with the deposit. */
  lemma ScaleTotals(k: real, d: real, t: real, a: real, ka: real)
    requires ka == k * a
    ensures (k * d) * t == k * (d * t)
    ensures ka - (k * d) * t == k * (a - d * t)
    ensures (k * d) * t + (ka - (k * d) * t) == k * (d * t + (a - d * t))
  {
  }

  /**
   * With non-negative deposit and rate, the timeline never decreases and the
   * maturity is at least the principal, so the interest is non-negative.
   */
  lemma ProjectGrowth(deposit: real, annualRate: real, tenure: int)
    requires deposit >= 0.0 && annualRate >= 0.0
    ensures var p := Project(deposit, annualRate, tenure);
      && (forall i, j :: 0 <= i <= j < |p.timeline| ==> p.timeline[i].balance <= p.timeline[j].balance)
      && p.maturityAmount >= p.depositAmount
      && p.interestEarned >= 0.0
  {
    var p := Project(deposit, annualRate, tenure);
    forall i, j | 0 <= i <= j < |p.timeline|
      ensures p.timeline[i].balance <= p.timeline[j].balance
    {
      AccruedMonotone(deposit, annualRate, tenure, i + 1, j + 1);
    }
    AccruedAtLeastPrincipal(deposit, annualRate, tenure, Months(tenure));
    if tenure < 0 {
      assert deposit * tenure as real <= 0.0;
    }
  }

  /**
   * A three-month example at 4% a year (1% a quarter) with a deposit of 100:
   * the first entry already holds 101 although only 100 has been paid in, so
   * the timeline is the maturity value of the deposits so far.
   */
  lemma ProjectThreeMonthExample()
    ensures Project(100.0, 4.0, 3).timeline ==
      [TimelineEntry(1, 101.0), TimelineEntry(2, 201.0), TimelineEntry(3, 301.0)]
    ensures Project(100.0, 4.0, 3).maturityAmount == 301.0
    ensures Project(100.0, 4.0, 3).interestEarned == 1.0
  {
    assert QuartersRemaining(3, 1) == 1;
    assert QuartersRemaining(3, 2) == 0;
    assert QuartersRemaining(3, 3) == 0;
  }

  /**
   * The initial inputs (5000 a month, 7%, 36 months): principal 180000, the
   * first deposit compounds for 12 quarters, the last two for none.
   */
  lemma ProjectDefaultScenario()
    ensures Project(5000.0, 7.0, 36).depositAmount == 180000.0
    ensures QuarterlyRate(7.0) == 0.0175
    ensures QuartersRemaining(36, 1) == 12 && QuartersRemaining(36, 35) == 0 && QuartersRemaining(36, 36) == 0
    ensures Project(5000.0, 7.0, 36).timeline[0].balance == 5000.0 * Pow(1.0175, 12)
    ensures Project(5000.0, 7.0, 36).maturityAmount == 5000.0 * (Pow(1.0175, 12) + 3.0 * (
      Pow(1.0175, 1) + Pow(1.0175, 2) + Pow(1.0175, 3) + Pow(1.0175, 4) + Pow(1.0175, 5) + Pow(1.0175, 6) + Pow(1.0175, 7) + Pow(1.0175, 8) + Pow(1.0175, 9) + Pow(1.0175, 10) + Pow(1.0175, 11)) + 2.0)
  {
    assert QuartersRemaining(36, 1) == 12;
    assert Accrued(5000.0, 7.0, 36, 1) == Contribution(5000.0, 7.0, 36, 1);
    DefaultMaturity();
  }

  /**
   * The initial scenario's maturity: the first deposit compounds for 12
   * quarters, then three deposits each for 11 quarters down to 1, and the
   * last two for none.
   */
  lemma DefaultMaturity()
    ensures Accrued(5000.0, 7.0, 36, 36) == 5000.0 * (Pow(1.0175, 12) + 3.0 * (
      Pow(1.0175, 1) + Pow(1.0175, 2) + Pow(1.0175, 3) + Pow(1.0175, 4) + Pow(1.0175, 5) + Pow(1.0175, 6) + Pow(1.0175, 7) + Pow(1.0175, 8) + Pow(1.0175, 9) + Pow(1.0175, 10) + Pow(1.0175, 11)) + 2.0)
  {
    DefaultContribution(0, 1);
    DefaultQuarter(1);
    DefaultQuarter(2);
    DefaultQuarter(3);
    DefaultQuarter(4);
    DefaultQuarter(5);
    DefaultQuarter(6);
    DefaultQuarter(7);
    DefaultQuarter(8);
    DefaultQuarter(9);
    DefaultQuarter(10);
    DefaultQuarter(11);
    DefaultLastMonths(36);
  }

  /** In the initial scenario the last two deposits earn no interest. */
  lemma DefaultLastMonths(tenure: int)
    requires tenure == 36
    ensures Accrued(5000.0, 7.0, tenure, tenure) == Accrued(5000.0, 7.0, tenure, tenure - 2) + 10000.0
  {
    assert QuartersRemaining(tenure, tenure - 1) == 0 && QuartersRemaining(tenure, tenure) == 0;
    assert Accrued(5000.0, 7.0, tenure, tenure) == Accrued(5000.0, 7.0, tenure, tenure - 1) + Contribution(5000.0, 7.0, tenure, tenure);
    assert Accrued(5000.0, 7.0, tenure, tenure - 1) == Accrued(5000.0, 7.0, tenure, tenure - 2) + Contribution(5000.0, 7.0, tenure, tenure - 1);
  }

  /**
   * In the initial scenario the deposits of months 3j - 1, 3j and 3j + 1 all
   * compound for 12 - j quarters.
   */
  lemma DefaultQuarter(j: int)
    requires 1 <= j <= 11
    ensures Accrued(5000.0, 7.0, 36, 3 * j + 1) == Accrued(5000.0, 7.0, 36, 3 * j - 2) + 15000.0 * Pow(1.0175, 12 - j)
  {
    QuarterOfDeposits(5000.0, 7.0, 36, j);
    DefaultContribution(j, 3 * j);
  }

  /**
   * When the tenure is a whole number of quarters, the deposits of months
   * 3j - 1, 3j and 3j + 1 compound for the same number of quarters.
   */
  lemma QuarterOfDeposits(deposit: real, annualRate: real, tenure: int, j: int)
    requires tenure % 3 == 0 && 1 <= j && 3 * j + 1 <= tenure
    ensures Accrued(deposit, annualRate, tenure, 3 * j + 1) ==
      Accrued(deposit, annualRate, tenure, 3 * j - 2) + 3.0 * Contribution(deposit, annualRate, tenure, 3 * j)
  {
    var m := 3 * j - 1;
    assert QuartersRemaining(tenure, m) == QuartersRemaining(tenure, m + 1) == QuartersRemaining(tenure, m + 2);
    AccruedThreeMonths(deposit, annualRate, tenure, m, Contribution(deposit, annualRate, tenure, m + 1));
  }

  /** Three months whose deposits are worth the same c add 3c to the running sum. */
  lemma AccruedThreeMonths(deposit: real, annualRate: real, tenure: int, m: int, c: real)
    requires 2 <= m && m + 2 <= tenure
    requires Contribution(deposit, annualRate, tenure, m) == c
    requires Contribution(deposit, annualRate, tenure, m + 1) == c
    requires Contribution(deposit, annualRate, tenure, m + 2) == c
    ensures Accrued(deposit, annualRate, tenure, m + 2) == Accrued(deposit, annualRate, tenure, m - 1) + 3.0 * c
  {
    assert Accrued(deposit, annualRate, tenure, m + 2) == Accrued(deposit, annualRate, tenure, m + 1) + c;
    assert Accrued(deposit, annualRate, tenure, m + 1) == Accrued(deposit, annualRate, tenure, m) + c;
  }

  /** In the initial scenario the deposits of months 3j - 1 to 3j + 1 grow for 12 - j quarters at 1.75%. */
  lemma DefaultContribution(j: int, month: int)
    requires 0 <= j <= 11 && 1 <= month && 3 * j - 1 <= month <= 3 * j + 1
    ensures Contribution(5000.0, 7.0, 36, month) == 5000.0 * Pow(1.0175, 12 - j)
  {
    assert QuartersRemaining(36, month) == 12 - j;
    assert 1.0 + QuarterlyRate(7.0) == 1.0175;
  }

  /**
   * A negative tenure runs the month loop zero times: the timeline is empty
   * and maturity is 0, but the principal is still deposit times tenure, so
   * the interest is its negation.
   */
  lemma ProjectNegativeTenure(deposit: real, annualRate: real, tenure: int)
    requires tenure < 0
    ensures var p := Project(deposit, annualRate, tenure);
      && p.timeline == []
      && p.maturityAmount == 0.0
      && p.depositAmount == deposit * tenure as real
      && p.interestEarned == -(deposit * tenure as real)
  {
  }

  // ---------------------------------------------------------------------------
  // Component state
  // ---------------------------------------------------------------------------

  /** What `parseFloat` made of the text typed into the deposit field. */
  datatype ParsedNumber = NaN | Number(value: real)

  /** The values the tenure slider can produce: 3 to 120 months in steps of 3. */
  predicate OnTenureSlider(t: int)
  {
    3 <= t <= 120 && t % 3 == 0
  }

  /** The values the interest-rate slider can produce: 1% to 15%. */
  predicate OnRateSlider(rate: real)
  {
    1.0 <= rate <= 15.0
  }

  /** With a tenure from the slider the timeline is never empty, and its last entry is month `tenure`. */
  lemma SliderTenureGivesTimeline(deposit: real, annualRate: real, tenure: int)
    requires OnTenureSlider(tenure)
    ensures var tl := Project(deposit, annualRate, tenure).timeline;
      |tl| == tenure >= 3 && tl[|tl| - 1].month == tenure
  {
  }

  /** The calculator component's state: the three inputs and the last result. */
  class Calculator {
    var monthlyDeposit: real
    var interestRate: real
    var tenureMonths: int
    var result: Option<CalculationResult>

    ghost predicate Valid()
      reads this
    {
      monthlyDeposit >= 0.0 && OnRateSlider(interestRate) && OnTenureSlider(tenureMonths)
    }

    constructor ()
      ensures Valid()
      ensures monthlyDeposit == 5000.0 && interestRate == 7.0 && tenureMonths == 36
      ensures result == None
    {
      monthlyDeposit := 5000.0;
      interestRate := 7.0;
      tenureMonths := 36;
      result := None;
    }

    /** Stores a parsed deposit only when it is a number and not negative; otherwise keeps the old one. */
    method HandleMonthlyDepositChange(parsed: ParsedNumber)
      requires Valid()
      modifies this`monthlyDeposit
      ensures Valid()
      ensures monthlyDeposit ==
        if parsed.Number? && parsed.value >= 0.0 then parsed.value else old(monthlyDeposit)
    {
      if parsed.Number? && parsed.value >= 0.0 {
        monthlyDeposit := parsed.value;
      }
    }

    /** The rate slider's change handler. */
    method SetInterestRate(rate: real)
      requires Valid() && OnRateSlider(rate)
      modifies this`interestRate
      ensures Valid() && interestRate == rate
    {
      interestRate := rate;
    }

    /** The tenure slider's change handler. */
    method SetTenureMonths(months: int)
      requires Valid() && OnTenureSlider(months)
      modifies this`tenureMonths
      ensures Valid() && tenureMonths == months
    {
      tenureMonths := months;
    }

    /** Recomputes the projection from the current inputs and stores it. */
    method Calculate()
      requires Valid()
      modifies this`result
      ensures Valid()
      ensures result == Some(Project(monthlyDeposit, interestRate, tenureMonths))
      ensures |result.value.timeline| == tenureMonths >= 3
      ensures result.value.timeline[tenureMonths - 1].month == tenureMonths
    {
      var r := CalculateRD(monthlyDeposit, interestRate, tenureMonths);
      result := Some(r);
      SliderTenureGivesTimeline(monthlyDeposit, interestRate, tenureMonths);
    }
  }
}
