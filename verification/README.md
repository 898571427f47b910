# Recurring-deposit calculator: a Dafny model

This project models the computing part of a recurring-deposit (RD) calculator. An RD is a savings product: the saver pays the same amount every month, and the bank compounds interest every quarter.

The model covers two components.

- **`calculateRD`**, in `rd_calculator.dfy`, module `RDCalculator`. It takes a monthly deposit, an annual rate in percent and a tenure in months. It returns the principal, the interest, the maturity amount and a month-by-month timeline. It sits beside the calculator's state: the three inputs, the guard on typed deposits, and the last result.
- **The chart component's data derivation**, in `rd_chart.dfy`, module `RDChart`. From one calculation result it builds three things:
  - the principal/interest pie;
  - a down-sampled growth trajectory;
  - a per-quarter breakdown.

## How the model is built

- **Numbers.** Amounts are exact `real`s. `Math.pow` is a recursive `Pow` on whole exponents. `Math.floor` of a quotient is Euclidean division on non-negative operands. `Math.ceil(t / 3)` is `(t + 2) / 3`. `Math.round` is `floor(x + 0.5)`, so halves round towards positive infinity, as in JavaScript. The tenure is an `int`: the month loop runs `max(0, tenure)` times.
- **Specification functions.** `Project` gives the whole result. `Accrued` is the running `maturity` sum. Each deposit's term is `Contribution`.
- **Methods.** `CalculateRD` is the month loop. `StrideLoop` with `SampleTimeline` is the sampler, and `QuarterlyBreakdown` is the quarter loop. Each is a `while` loop with invariants, and each is proved equal to its specification function. The lemmas state the properties of those functions.
- **Component state.** It is a class, `Calculator`. Its fields are the three inputs and the optional result.
  - The deposit handler receives what `parseFloat` produced (`ParsedNumber`). It stores the value only when it is a number and not negative.
  - `Valid()` is the invariant the handlers keep: the deposit is non-negative, and the rate and tenure are values the sliders can produce.

## Where the model follows the code rather than the description

- **Timeline "balance".** The code records `month*d + (maturity - month*d)` for each month, which is exactly the running `maturity`. That is the maturity value of the deposits so far, not the account balance at that month. `TimelineBalance` states this identity, and the timeline lemmas are about that sum.
- **Tenure.** The code does not validate the tenure, and an out-of-range tenure is not an error. A tenure of zero gives an empty timeline and all-zero totals (`ProjectZeroTenure`). A negative tenure also gives an empty timeline and a maturity of 0. Its principal, however, is still deposit × tenure, which is negative, so the interest is the negation of that (`ProjectNegativeTenure`).
- **Trajectory size.** The comment next to the step computation promises at most ten points. That does not hold: the step is `max(1, floor(len / 10))`, so any timeline shorter than 20 months is drawn month by month. `ShortTimelineSamplesEveryMonth` proves this. The only bound stated is the one that holds: at most one point per month.
- **Quarterly bars.** Quarter i reads timeline position `min(3i - 1, len - 1)` and shows principal `deposit * min(3i, tenure)`. When the tenure is not a multiple of three, the last, partial quarter shows the final month.

## Model

| member | source | states |
|---|---|---|
| RDCalculator.Months | src/components/RDCalculator.tsx:43 | the month loop runs tenure times, and not at all when the tenure is zero or negative |
| RDCalculator.Pow | src/components/RDCalculator.tsx:45 | `Math.pow` on a whole exponent, by repeated multiplication; its properties are in PowOfOne, PowAtLeastOne and PowMonotone |
| RDCalculator.QuarterlyRate | src/components/RDCalculator.tsx:40 | the quarterly rate is a quarter of the annual percentage as a fraction: four times it is annualRate / 100 |
| RDCalculator.QuartersRemaining | src/components/RDCalculator.tsx:44 | the quarters left for the deposit of a month are the whole part of (tenure - month + 1) / 3: three times it is at most that count and within three of it |
| RDCalculator.GrowthFactor | src/components/RDCalculator.tsx:44-45 | the factor (1 + r)^n that the deposit of a month earns over its remaining whole quarters; GrowthFactorNonIncreasing states how it varies |
| RDCalculator.Contribution | src/components/RDCalculator.tsx:48 | what one month's deposit is worth at maturity, deposit times its growth factor; ContributionAtLeastDeposit and ContributionScales state its properties |
| RDCalculator.Accrued | src/components/RDCalculator.tsx:41-49 | the running `maturity` after m turns of the month loop; AccruedZeroRate, AccruedScales, AccruedAtLeastPrincipal and AccruedMonotone state its properties |
| RDCalculator.TimelineBalance | src/components/RDCalculator.tsx:51-54 | the balance recorded for a month, month*d + (maturity - month*d), always equals the running maturity sum |
| RDCalculator.Project | src/components/RDCalculator.tsx:35-68 | the whole result for the three inputs: principal deposit × tenure, maturity as the running sum, interest as their difference, and the timeline of running sums; CalculateRD is proved equal to it, and the Project lemmas below state its properties |
| RDCalculator.CalculateRD | src/components/RDCalculator.tsx:35-68 | the month loop produces the projection: principal, interest and maturity from the running sum, and a timeline whose entry i is month i+1 with the sum of the first i+1 grown deposits |
| RDCalculator.PowOfOne | src/components/RDCalculator.tsx:45 | at a zero rate every growth factor (1 + 0)^n is 1 |
| RDCalculator.PowAtLeastOne | src/components/RDCalculator.tsx:45 | a growth factor over a base of at least 1 is at least 1 |
| RDCalculator.PowMonotone | src/components/RDCalculator.tsx:45 | over a base of at least 1, more quarters never give a smaller factor |
| RDCalculator.QuartersNonIncreasing | src/components/RDCalculator.tsx:44 | later months have no more quarters left than earlier ones, and the counts differ by at most a third of the month gap plus one |
| RDCalculator.GrowthFactorNonIncreasing | src/components/RDCalculator.tsx:44-45 | with a non-negative rate an earlier deposit grows by at least as much as a later one, and every factor is at least 1 |
| RDCalculator.ContributionAtLeastDeposit | src/components/RDCalculator.tsx:45-48 | with non-negative deposit and rate, each month's deposit is worth at least its face value at maturity |
| RDCalculator.AccruedZeroRate | src/components/RDCalculator.tsx:43-49 | at a zero rate the running sum after m months is m deposits |
| RDCalculator.AccruedScales | src/components/RDCalculator.tsx:48-49 | the running sum is linear in the deposit: k times the deposit gives k times the sum |
| RDCalculator.AccruedAtLeastPrincipal | src/components/RDCalculator.tsx:45-49 | with non-negative deposit and rate the running sum after m months is at least m deposits |
| RDCalculator.AccruedMonotone | src/components/RDCalculator.tsx:49 | with non-negative deposit and rate the running sum never decreases from month to month |
| RDCalculator.ProjectTimelineShape | src/components/RDCalculator.tsx:43-55 | the timeline has one entry per month of the tenure, numbered 1, 2, ... in order |
| RDCalculator.ProjectTimelineIsRunningSum | src/components/RDCalculator.tsx:44-54 | each entry is the previous entry (0 for the first) plus that month's deposit times its growth factor |
| RDCalculator.ProjectTotalsReconcile | src/components/RDCalculator.tsx:37-66 | principal is deposit times tenure, maturity is principal plus interest and equals the running sum, the last timeline entry equals maturity, and the inputs are echoed |
| RDCalculator.ProjectZeroTenure | src/components/RDCalculator.tsx:37-57 | a zero tenure gives an empty timeline and all-zero totals |
| RDCalculator.ProjectNegativeTenure | src/components/RDCalculator.tsx:37-57 | a negative tenure runs no months: the timeline is empty and maturity is 0, but the principal is deposit × tenure and the interest is its negation |
| RDCalculator.ProjectZeroRate | src/components/RDCalculator.tsx:37-57 | at a zero rate maturity is deposit times tenure, interest is zero, and month m records m deposits |
| RDCalculator.ProjectLinear | src/components/RDCalculator.tsx:37-57 | scaling the deposit by k scales principal, maturity, interest and every timeline balance by k and keeps the month numbers |
| RDCalculator.ProjectGrowth | src/components/RDCalculator.tsx:45-57 | with non-negative deposit and rate the timeline never decreases, maturity is at least principal, and interest is non-negative |
| RDCalculator.ProjectThreeMonthExample | src/components/RDCalculator.tsx:35-68 | 100 a month at 4% for 3 months: only the first deposit earns one quarter (1%), giving timeline 101, 201, 301, maturity 301 and interest 1 |
| RDCalculator.ProjectDefaultScenario | src/components/RDCalculator.tsx:23-66 | the initial inputs (5000, 7%, 36 months) give principal 180000 and a quarterly rate of 0.0175; the first entry is 5000 · 1.0175^12; the maturity amount is 5000 · (1.0175^12 + 3 · (1.0175^1 + ... + 1.0175^11) + 2) |
| RDCalculator.DefaultMaturity | src/components/RDCalculator.tsx:23-25 | with the initial inputs the maturity is 5000 · (1.0175^12 + 3 · (1.0175^1 + ... + 1.0175^11) + 2): one deposit compounds for 12 quarters, three deposits each for 11 down to 1, and two for none |
| RDCalculator.DefaultQuarter | src/components/RDCalculator.tsx:43-49 | with the initial inputs the three deposits of months 3j - 1, 3j and 3j + 1 add 3 · 5000 · 1.0175^(12 - j) to the running sum |
| RDCalculator.DefaultContribution | src/components/RDCalculator.tsx:44-48 | with the initial inputs the deposit of each month 3j - 1 to 3j + 1 is worth 5000 · 1.0175^(12 - j) at maturity |
| RDCalculator.DefaultLastMonths | src/components/RDCalculator.tsx:44-49 | with the initial inputs the last two deposits earn no interest and add exactly 10000 |
| RDCalculator.QuarterOfDeposits | src/components/RDCalculator.tsx:44-49 | when the tenure is a whole number of quarters, the deposits of months 3j - 1, 3j and 3j + 1 compound alike, so they add three times the same contribution |
| RDCalculator.OnRateSlider | src/components/RDCalculator.tsx:111-118 | the rates the slider can produce, 1 to 15; Calculator.Valid and SetInterestRate rely on it |
| RDCalculator.OnTenureSlider | src/components/RDCalculator.tsx:131-138 | the tenures the slider can produce, 3 to 120 in steps of 3; SliderTenureGivesTimeline states what they guarantee |
| RDCalculator.SliderTenureGivesTimeline | src/components/RDCalculator.tsx:131-138 | any tenure the slider can produce gives a non-empty timeline whose last entry is month tenure, as the chart component needs |
| RDCalculator.Calculator.constructor | src/components/RDCalculator.tsx:23-26 | the initial state is deposit 5000, rate 7, tenure 36 and no result, and satisfies the state invariant |
| RDCalculator.Calculator.HandleMonthlyDepositChange | src/components/RDCalculator.tsx:28-33 | a parsed value is stored only if it is a number and not negative; otherwise the previous deposit is kept, so the deposit stays non-negative |
| RDCalculator.Calculator.SetInterestRate | src/components/RDCalculator.tsx:111-118 | the rate slider's handler stores the slider value and keeps the state invariant |
| RDCalculator.Calculator.SetTenureMonths | src/components/RDCalculator.tsx:131-138 | the tenure slider's handler stores the slider value and keeps the state invariant |
| RDCalculator.Calculator.Calculate | src/components/RDCalculator.tsx:71-73 | recomputing stores the projection of the current inputs as the result; because the tenure came from the slider, the stored timeline has tenure ≥ 3 entries and ends at month tenure |
| RDChart.Round | src/components/RDChart.tsx:36 | Math.round gives the integer within half a unit, with halves going up: n - 0.5 <= x < n + 0.5 |
| RDChart.Decimal | src/components/RDChart.tsx:55 | the decimal text of the quarter number is non-empty and all digits |
| RDChart.DecimalRoundTrip | src/components/RDChart.tsx:55 | reading the decimal text back gives the number |
| RDChart.DecimalInjective | src/components/RDChart.tsx:55 | different quarter numbers print differently |
| RDChart.PieData | src/components/RDChart.tsx:22-25 | the pie has exactly two slices, Principal with the principal and Interest with the interest |
| RDChart.PieDataOfProjection | src/components/RDChart.tsx:22-25 | for a projection the slices add up to the maturity amount, the principal slice is deposit times tenure, and with non-negative inputs neither slice is negative |
| RDChart.Step | src/components/RDChart.tsx:31 | the stride is at least 1; below 20 months it is 1; from 10 months on it is the whole part of len / 10 (10·step <= len < 10·step + 10) |
| RDChart.Stride | src/components/RDChart.tsx:33 | the indices i, i + step, ... below len that the loop visits; StrideFacts, StrideIncreasing and StrideOfOne state its properties |
| RDChart.StrideFacts | src/components/RDChart.tsx:33 | the stride loop starts at its first index, visits only indices below the length, and stops only once the next index would reach the length |
| RDChart.StrideIncreasing | src/components/RDChart.tsx:33 | the indices the stride loop visits strictly increase |
| RDChart.StrideOfOne | src/components/RDChart.tsx:33 | with a stride of 1 the loop visits every index |
| RDChart.SampleIndices | src/components/RDChart.tsx:29-46 | at least one position is sampled, every sampled position is inside the timeline, and the last sampled position has the final month |
| RDChart.SampleIndicesIncreasing | src/components/RDChart.tsx:33-46 | the sampled positions strictly increase, including the appended final one |
| RDChart.SampleIndicesOrdered | src/components/RDChart.tsx:31-46 | sampling starts at the first month and yields at most one point per month of the timeline |
| RDChart.ToPoint | src/components/RDChart.tsx:34-37 | a chart point keeps the entry's month and rounds its balance to within half a unit |
| RDChart.SamplePoints | src/components/RDChart.tsx:29-46 | the trajectory is never empty and its last point has the timeline's final month |
| RDChart.StrideLoop | src/components/RDChart.tsx:30-38 | the stride loop's points are the rounded entries at exactly the stride positions |
| RDChart.SampleTimeline | src/components/RDChart.tsx:29-46 | the stride loop followed by the conditional append produces exactly the sampled trajectory |
| RDChart.SampleAppendsFinal | src/components/RDChart.tsx:40-46 | when the stride misses the final month, appending its rounded entry completes the trajectory |
| RDChart.SampleKeepsStride | src/components/RDChart.tsx:40-46 | when the stride already ends on the final month, nothing is appended |
| RDChart.SampleOfNumberedTimeline | src/components/RDChart.tsx:33-46 | on a timeline numbered 1..len the sampled months strictly increase, the last one is len, and len appears exactly once |
| RDChart.TrajectoryOfProjection | src/components/RDChart.tsx:29-46 | for a projection with a positive tenure, the trajectory months strictly increase and end at month tenure, which is drawn exactly once |
| RDChart.ShortTimelineSamplesEveryMonth | src/components/RDChart.tsx:31-38 | a timeline shorter than 20 months is drawn month by month, so it is not capped at ten points |
| RDChart.QuartersCount | src/components/RDChart.tsx:49 | the number of quarters is the ceiling of tenure / 3: three times one less is below the tenure, three times it is at least the tenure |
| RDChart.MonthIndex | src/components/RDChart.tsx:53 | the position read for quarter i is inside the timeline, never past month 3i, and is either month 3i or the last entry |
| RDChart.MonthsPaid | src/components/RDChart.tsx:56 | the deposits made by the end of quarter i, min(3i, tenure): at most both and equal to one of them |
| RDChart.PrincipalAt | src/components/RDChart.tsx:56 | the principal bar of quarter i, deposit × MonthsPaid; PrincipalAtMonotone and PrincipalAtLastQuarter state its properties |
| RDChart.QuarterRowAt | src/components/RDChart.tsx:53-58 | the bar of quarter i: label Qi, its principal, and the rounded balance at MonthIndex; QuarterlyBreakdown builds exactly these, and QuarterBalanceOfProjection states them for a projection |
| RDChart.QuarterlyData | src/components/RDChart.tsx:48-59 | there is one bar per quarter of the tenure, ceil(tenure / 3), and none for a tenure of zero or less |
| RDChart.QuarterlyBreakdown | src/components/RDChart.tsx:48-59 | the quarter loop builds exactly the quarterly bars |
| RDChart.QuarterlyLabels | src/components/RDChart.tsx:55 | the bars are labelled Q1, Q2, ... in order and no label repeats |
| RDChart.PrincipalAtMonotone | src/components/RDChart.tsx:56 | with a non-negative deposit a later quarter's principal is never smaller |
| RDChart.QuarterlyPrincipalPair | src/components/RDChart.tsx:56 | with a non-negative deposit, of any two bars the later has at least the principal of the earlier |
| RDChart.QuarterlyPrincipal | src/components/RDChart.tsx:56 | with a non-negative deposit the principal bars never decrease |
| RDChart.PrincipalAtLastQuarter | src/components/RDChart.tsx:56 | by the last quarter the principal is deposit times tenure |
| RDChart.QuarterlyPrincipalLast | src/components/RDChart.tsx:56 | the last principal bar is deposit times tenure |
| RDChart.QuarterBalanceOfProjection | src/components/RDChart.tsx:53-57 | a projection's quarter bar shows the rounded running sum after month min(3i, tenure) |
| RDChart.QuarterlyOfProjection | src/components/RDChart.tsx:52-57 | a projection with a positive tenure has ceil(tenure / 3) bars, each showing the rounded running sum after month min(3i, tenure) |
| RDChart.QuarterlyLastOfProjection | src/components/RDChart.tsx:52-57 | the last bar of a projection shows the rounded maturity amount and the whole principal |
| RDChart.WholeQuartersReadQuarterEnds | src/components/RDChart.tsx:53-56 | when the tenure is a whole number of quarters, quarter i reads exactly month 3i and counts 3i deposits |

## Left out

- Floating point: every amount is an exact real. IEEE-754 rounding in `Math.pow`, `+` and `*` is not modelled, so results that depend bit-for-bit on doubles are not captured.
- Text parsing: `parseFloat` on the typed text is not modelled. The handler receives its outcome, either `NaN` or a number. `Infinity` has no counterpart among the reals, and `parseFloat` can produce it.
- Presentation: `toLocaleString` currency formatting, the chart colours, the recharts/JSX rendering, tabs and tooltips are display only.
- React plumbing: `useState` becomes class fields, and the `useEffect` recomputation becomes the explicit `Calculate` method. When React re-renders is not modelled.
- RDCalculator.Calculator.SetInterestRate: requires a value the slider can produce (1 to 15). The slider's step of 0.1 is not modelled, so any real in that range is admitted. The setter itself would take any number, but the slider is its only caller.
- RDCalculator.Calculator.SetTenureMonths: requires a value the slider can produce (3 to 120 in steps of 3). The setter itself would take any number, but the slider is its only caller.
- RDChart.SampleTimeline: requires a non-empty timeline, because the component reads the final entry's month and fails on an empty one. Given that precondition, the stride loop always keeps index 0. So the optional chaining on the last sampled point never meets an empty list, and that branch is not modelled.
- RDChart.QuarterlyBreakdown: requires a non-empty timeline whenever the tenure is positive, because the component otherwise reads position -1 and fails.
- The export dialog, PDF generation, e-mail sending, the SEO text and the page layout are not part of this model. They are I/O and markup around the result.
