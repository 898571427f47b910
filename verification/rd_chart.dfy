/**
 * The chart component's data derivation: the principal/interest pie, the
 * down-sampled growth trajectory and the per-quarter breakdown, all computed
 * from one `CalculationResult`.
 */
module RDChart {
  import opened RDCalculator

  datatype PieSlice = PieSlice(name: string, value: real)

  /** A point of the growth-trajectory chart; the balance is rounded for display. */
  datatype ChartPoint = ChartPoint(month: int, balance: int)

  /** A bar of the quarterly chart. */
  datatype QuarterRow = QuarterRow(quarter: string, principal: real, balance: int)

  // ---------------------------------------------------------------------------
  // Display helpers
  // ---------------------------------------------------------------------------

  /** `Math.round`: the nearest integer, halves rounded towards positive infinity. */
  function Round(x: real): (n: int)
    ensures n as real - 0.5 <= x < n as real + 0.5
  {
    (x + 0.5).Floor
  }

  function DigitChar(d: nat): (c: char)
    requires d < 10
    ensures '0' <= c <= '9' && c as int - '0' as int == d
  {
    ('0' as int + d) as char
  }

  predicate AllDigits(s: string)
  {
    forall i :: 0 <= i < |s| ==> '0' <= s[i] <= '9'
  }

  /** The decimal text of a whole number, as a template literal prints it. */
  function Decimal(n: nat): (s: string)
    ensures |s| >= 1 && AllDigits(s)
    decreases n
  {
    if n < 10 then [DigitChar(n)] else Decimal(n / 10) + [DigitChar(n % 10)]
  }

  /** The number a string of decimal digits denotes. */
  function DecimalValue(s: string): nat
    requires AllDigits(s)
    decreases |s|
  {
    if s == [] then 0
    else DecimalValue(s[..|s| - 1]) * 10 + (s[|s| - 1] as int - '0' as int)
  }

  lemma {:induction false} DecimalRoundTrip(n: nat)
    ensures DecimalValue(Decimal(n)) == n
    decreases n
  {
    if n >= 10 {
      DecimalRoundTrip(n / 10);
      var s := Decimal(n);
      assert s[..|s| - 1] == Decimal(n / 10);
    }
  }

  /** Different numbers print differently, so quarter labels never repeat. */
  lemma DecimalInjective(a: nat, b: nat)
    requires Decimal(a) == Decimal(b)
    ensures a == b
  {
    DecimalRoundTrip(a);
    DecimalRoundTrip(b);
  }

  // ---------------------------------------------------------------------------
  // Pie data
  // ---------------------------------------------------------------------------

  /** The two slices of the breakdown pie: principal first, interest second. */
  function PieData(result: CalculationResult): (slices: seq<PieSlice>)
    ensures |slices| == 2
    ensures slices[0].name == "Principal" && slices[1].name == "Interest"
    ensures slices[0].value == result.depositAmount && slices[1].value == result.interestEarned
  {
    [PieSlice("Principal", result.depositAmount), PieSlice("Interest", result.interestEarned)]
  }

  /**
   * For a projection the two slices add up to the maturity amount, the
   * principal slice is deposit times tenure, and with non-negative deposit
   * and rate neither slice is negative.
   */
  lemma PieDataOfProjection(deposit: real, annualRate: real, tenure: int)
    ensures var p := Project(deposit, annualRate, tenure);
      var slices := PieData(p);
      && slices[0].value + slices[1].value == p.maturityAmount
      && slices[0].value == deposit * tenure as real
    ensures deposit >= 0.0 && annualRate >= 0.0 && tenure >= 0 ==>
      var slices := PieData(Project(deposit, annualRate, tenure));
      slices[0].value >= 0.0 && slices[1].value >= 0.0
  {
    if deposit >= 0.0 && annualRate >= 0.0 && tenure >= 0 {
      ProjectGrowth(deposit, annualRate, tenure);
    }
  }

  // ---------------------------------------------------------------------------
  // Growth trajectory: stride sampling plus the final month
  // ---------------------------------------------------------------------------

  /** The stride of the sampler: `max(1, floor(len / 10))`. */
  function Step(len: nat): (step: nat)
    ensures step >= 1
    ensures len < 20 ==> step == 1
    ensures len >= 10 ==> 10 * step <= len < 10 * step + 10
  {
    if len / 10 > 1 then len / 10 else 1
  }

  /** The indices i, i + step, i + 2 * step, ... below len that the stride loop visits from i. */
  function Stride(i: nat, len: nat, step: nat): seq<nat>
    requires step >= 1
    decreases len - i
  {
    if i >= len then [] else [i] + Stride(i + step, len, step)
  }

  /**
   * The stride starts at i, stays below len, and stops only once the next
   * index would reach len.
   */
  lemma {:induction false} StrideFacts(i: nat, len: nat, step: nat)
    requires step >= 1
    ensures var r := Stride(i, len, step);
      && (r == [] <==> i >= len)
      && (r != [] ==> r[0] == i && r[|r| - 1] + step >= len)
      && (forall k :: 0 <= k < |r| ==> i + k <= r[k] < len)
    decreases len - i
  {
    if i < len {
      StrideFacts(i + step, len, step);
    }
  }

  /** The stride strictly increases. */
  lemma {:induction false} StrideIncreasing(i: nat, len: nat, step: nat)
    requires step >= 1
    ensures var r := Stride(i, len, step);
      forall j, k :: 0 <= j < k < |r| ==> r[j] < r[k]
    decreases len - i
  {
    if i < len {
      StrideIncreasing(i + step, len, step);
      StrideFacts(i + step, len, step);
      var r := Stride(i, len, step);
      var rest := Stride(i + step, len, step);
      forall j, k | 0 <= j < k < |r|
        ensures r[j] < r[k]
      {
        assert r[k] == rest[k - 1];
        if j > 0 {
          assert r[j] == rest[j - 1];
        }
      }
    }
  }

  /**
   * The timeline positions the trajectory chart shows: every `Step`-th one
   * from the start, then the last one unless the last sampled month already
   * is the final month.
   */
  function SampleIndices(timeline: seq<TimelineEntry>): (idx: seq<nat>)
    requires |timeline| >= 1
    ensures |idx| >= 1
    ensures forall k :: 0 <= k < |idx| ==> idx[k] < |timeline|
    ensures timeline[idx[|idx| - 1]].month == timeline[|timeline| - 1].month
  {
    var len := |timeline|;
    var stride := Stride(0, len, Step(len));
    StrideFacts(0, len, Step(len));
    var last := stride[|stride| - 1];
    if timeline[last].month != timeline[len - 1].month then
      assert last < len - 1;
      stride + [len - 1]
    else
      stride
  }

  /** The sampled positions strictly increase: no month is shown twice. */
  lemma SampleIndicesIncreasing(timeline: seq<TimelineEntry>)
    requires |timeline| >= 1
    ensures var idx := SampleIndices(timeline);
      forall j, k :: 0 <= j < k < |idx| ==> idx[j] < idx[k]
  {
    var len := |timeline|;
    var stride := Stride(0, len, Step(len));
    SampleIndicesCases(timeline);
    StrideIncreasing(0, len, Step(len));
    if timeline[stride[|stride| - 1]].month != timeline[len - 1].month {
      AppendIncreasing(stride, len - 1);
    }
  }

  /** Appending a value above the last keeps a strictly increasing sequence strictly increasing. */
  lemma AppendIncreasing(s: seq<nat>, x: nat)
    requires |s| >= 1 && s[|s| - 1] < x
    requires forall j, k :: 0 <= j < k < |s| ==> s[j] < s[k]
    ensures var t := s + [x];
      forall j, k :: 0 <= j < k < |t| ==> t[j] < t[k]
  {
    var t := s + [x];
    forall j, k | 0 <= j < k < |t|
      ensures t[j] < t[k]
    {
      assert t[j] == s[j];
      if k < |s| {
        assert t[k] == s[k];
      } else if j < |s| - 1 {
        assert s[j] < s[|s| - 1];
      }
    }
  }

  /**
   * The sampled positions start at the first month and are never more than
   * the months of the timeline, so the chart has at most one point per month.
   */
  lemma SampleIndicesOrdered(timeline: seq<TimelineEntry>)
    requires |timeline| >= 1
    ensures var idx := SampleIndices(timeline);
      idx[0] == 0 && |idx| <= |timeline|
    ensures SamplePoints(timeline)[0] == ToPoint(timeline[0])
    ensures |SamplePoints(timeline)| <= |timeline|
  {
    var idx := SampleIndices(timeline);
    SampleIndicesCases(timeline);
    StrideFacts(0, |timeline|, Step(|timeline|));
    SampleIndicesIncreasing(timeline);
    AscendingAtLeastIndex(idx, |idx| - 1);
  }

  /** A strictly increasing sequence of naturals holds at position k a value of at least k. */
  lemma {:induction false} AscendingAtLeastIndex(s: seq<nat>, k: nat)
    requires k < |s|
    requires forall j, l :: 0 <= j < l < |s| ==> s[j] < s[l]
    ensures s[k] >= k
  {
    if k > 0 {
      AscendingAtLeastIndex(s, k - 1);
    }
  }

  /** The chart point of a timeline entry: its month, and its balance rounded to the nearest integer. */
  function ToPoint(e: TimelineEntry): (p: ChartPoint)
    ensures p.month == e.month
    ensures p.balance as real - 0.5 <= e.balance < p.balance as real + 0.5
  {
    ChartPoint(e.month, Round(e.balance))
  }

  /** The points of the trajectory chart. */
  function SamplePoints(timeline: seq<TimelineEntry>): (points: seq<ChartPoint>)
    requires |timeline| >= 1
    ensures |points| >= 1
    ensures points[|points| - 1].month == timeline[|timeline| - 1].month
  {
    var idx := SampleIndices(timeline);
    seq(|idx|, k requires 0 <= k < |idx| => ToPoint(timeline[idx[k]]))
  }

  /** The stride loop followed by the conditional append of the final month. */
  method SampleTimeline(timeline: seq<TimelineEntry>) returns (points: seq<ChartPoint>)
    requires |timeline| >= 1
    ensures points == SamplePoints(timeline)
  {
    var len := |timeline|;
    var timelineData := StrideLoop(timeline);
    // the stride loop always keeps index 0, so the list is non-empty here and
    // the optional chaining of the TypeScript code never meets an empty list
    StrideFacts(0, len, Step(len));
    if timelineData[|timelineData| - 1].month != timeline[len - 1].month {
      SampleAppendsFinal(timeline, timelineData);
      timelineData := timelineData + [ToPoint(timeline[len - 1])];
    } else {
      SampleKeepsStride(timeline, timelineData);
    }
    points := timelineData;
  }

  /** The stride loop: the point of every `Step`-th month from the first. */
  method StrideLoop(timeline: seq<TimelineEntry>) returns (timelineData: seq<ChartPoint>)
    ensures PointsAt(timeline, Stride(0, |timeline|, Step(|timeline|)), timelineData)
  {
    var len := |timeline|;
    timelineData := [];
    var step := if len / 10 > 1 then len / 10 else 1;
    assert step == Step(len);
    var i := 0;
    ghost var visited: seq<nat> := [];
    while i < len
      invariant visited + Stride(i, len, step) == Stride(0, len, step)
      invariant PointsAt(timeline, visited, timelineData)
      decreases len - i
    {
      StrideAdvance(visited, i, len, step);
      PointsAtAppend(timeline, visited, timelineData, i);
      timelineData := timelineData + [ToPoint(timeline[i])];
      visited := visited + [i];
      i := i + step;
    }
    StrideDone(visited, i, len, step);
  }

  /** One turn of the stride loop moves index i from the stride still to come to the visited ones. */
  lemma StrideAdvance(visited: seq<nat>, i: nat, len: nat, step: nat)
    requires step >= 1 && i < len
    ensures visited + Stride(i, len, step) == (visited + [i]) + Stride(i + step, len, step)
  {
  }

  /** Once the index has passed the end, the visited indices are the whole stride. */
  lemma StrideDone(visited: seq<nat>, i: nat, len: nat, step: nat)
    requires step >= 1 && i >= len
    requires visited + Stride(i, len, step) == Stride(0, len, step)
    ensures visited == Stride(0, len, step)
  {
    assert visited + [] == visited;
  }

  /** `points` are the chart points of the timeline positions `idx`, one for one. */
  predicate PointsAt(timeline: seq<TimelineEntry>, idx: seq<nat>, points: seq<ChartPoint>)
  {
    && |points| == |idx|
    && forall k :: 0 <= k < |idx| ==> idx[k] < |timeline| && points[k] == ToPoint(timeline[idx[k]])
  }

  /** Reading one more position appends its point. */
  lemma PointsAtAppend(timeline: seq<TimelineEntry>, idx: seq<nat>, points: seq<ChartPoint>, j: nat)
    requires j < |timeline| && PointsAt(timeline, idx, points)
    ensures PointsAt(timeline, idx + [j], points + [ToPoint(timeline[j])])
  {
    var idx', points' := idx + [j], points + [ToPoint(timeline[j])];
    forall k | 0 <= k < |idx'|
      ensures idx'[k] < |timeline| && points'[k] == ToPoint(timeline[idx'[k]])
    {
      if k < |idx| {
        assert idx'[k] == idx[k] && points'[k] == points[k];
      }
    }
  }

  /** When the stride misses the final month, appending its point completes the sampled trajectory. */
  lemma SampleAppendsFinal(timeline: seq<TimelineEntry>, data: seq<ChartPoint>)
    requires |timeline| >= 1
    requires PointsAt(timeline, Stride(0, |timeline|, Step(|timeline|)), data)
    requires |data| >= 1 && data[|data| - 1].month != timeline[|timeline| - 1].month
    ensures data + [ToPoint(timeline[|timeline| - 1])] == SamplePoints(timeline)
  {
    var len := |timeline|;
    var stride := Stride(0, len, Step(len));
    SampleIndicesCases(timeline);
    assert data[|data| - 1].month == timeline[stride[|stride| - 1]].month;
    PointsAtAppend(timeline, stride, data, len - 1);
    PointsOfIndices(timeline, data + [ToPoint(timeline[len - 1])]);
  }

  /** When the stride already ends on the final month, it is the whole sampled trajectory. */
  lemma SampleKeepsStride(timeline: seq<TimelineEntry>, data: seq<ChartPoint>)
    requires |timeline| >= 1
    requires PointsAt(timeline, Stride(0, |timeline|, Step(|timeline|)), data)
    requires |data| >= 1 && data[|data| - 1].month == timeline[|timeline| - 1].month
    ensures data == SamplePoints(timeline)
  {
    var len := |timeline|;
    var stride := Stride(0, len, Step(len));
    SampleIndicesCases(timeline);
    assert data[|data| - 1].month == timeline[stride[|stride| - 1]].month;
    PointsOfIndices(timeline, data);
  }

  /** `SampleIndices` is the stride, completed by the final index when the stride misses the final month. */
  lemma SampleIndicesCases(timeline: seq<TimelineEntry>)
    requires |timeline| >= 1
    ensures var len := |timeline|;
      var stride := Stride(0, len, Step(len));
      && |stride| >= 1 && stride[|stride| - 1] < len
      && (timeline[stride[|stride| - 1]].month != timeline[len - 1].month ==> SampleIndices(timeline) == stride + [len - 1])
      && (timeline[stride[|stride| - 1]].month == timeline[len - 1].month ==> SampleIndices(timeline) == stride)
  {
    StrideFacts(0, |timeline|, Step(|timeline|));
  }

  /** Points read off the sampled indices one by one are the sampled trajectory. */
  lemma PointsOfIndices(timeline: seq<TimelineEntry>, points: seq<ChartPoint>)
    requires |timeline| >= 1
    requires PointsAt(timeline, SampleIndices(timeline), points)
    ensures points == SamplePoints(timeline)
  {
  }

  /** A timeline numbered 1, 2, ... as `calculateRD` builds it. */
  predicate MonthsNumbered(timeline: seq<TimelineEntry>)
  {
    forall i :: 0 <= i < |timeline| ==> timeline[i].month == i + 1
  }

  /**
   * On a numbered timeline the sampled months strictly increase and end at
   * the final month, which therefore appears exactly once.
   */
  lemma SampleOfNumberedTimeline(timeline: seq<TimelineEntry>)
    requires |timeline| >= 1 && MonthsNumbered(timeline)
    ensures var points := SamplePoints(timeline);
      && points[|points| - 1].month == |timeline|
      && (forall j, k :: 0 <= j < k < |points| ==> points[j].month < points[k].month)
      && (forall k :: 0 <= k < |points| - 1 ==> points[k].month != |timeline|)
  {
    var idx := SampleIndices(timeline);
    var points := SamplePoints(timeline);
    SampleIndicesIncreasing(timeline);
    forall j, k | 0 <= j < k < |points|
      ensures points[j].month < points[k].month
    {
      assert points[j].month == idx[j] + 1 && points[k].month == idx[k] + 1;
    }
  }

  /**
   * The trajectory drawn for a projection with a positive tenure: its months
   * strictly increase and end at month `tenure`, which is drawn exactly once.
   */
  lemma TrajectoryOfProjection(deposit: real, annualRate: real, tenure: int)
    requires tenure >= 1
    ensures var points := SamplePoints(Project(deposit, annualRate, tenure).timeline);
      && points[|points| - 1].month == tenure
      && (forall j, k :: 0 <= j < k < |points| ==> points[j].month < points[k].month)
      && (forall k :: 0 <= k < |points| - 1 ==> points[k].month != tenure)
  {
    ProjectTimelineShape(deposit, annualRate, tenure);
    SampleOfNumberedTimeline(Project(deposit, annualRate, tenure).timeline);
  }

  /** The stride loop with step 1 visits every index from i up to len. */
  lemma {:induction false} StrideOfOne(i: nat, len: nat)
    requires i <= len
    ensures |Stride(i, len, 1)| == len - i
    ensures forall k :: 0 <= k < len - i ==> Stride(i, len, 1)[k] == i + k
    decreases len - i
  {
    if i < len {
      StrideOfOne(i + 1, len);
    }
  }

  /**
   * A timeline shorter than 20 months is shown month by month: the sampler
   * does not limit the chart to ten points.
   */
  lemma ShortTimelineSamplesEveryMonth(timeline: seq<TimelineEntry>)
    requires 1 <= |timeline| < 20
    ensures SamplePoints(timeline) == seq(|timeline|, k requires 0 <= k < |timeline| => ToPoint(timeline[k]))
  {
    var len := |timeline|;
    StrideOfOne(0, len);
    SampleIndicesCases(timeline);
    var idx := SampleIndices(timeline);
    assert idx == Stride(0, len, 1);
    assert |idx| == len;
  }

  // ---------------------------------------------------------------------------
  // Quarterly breakdown
  // ---------------------------------------------------------------------------

  /** `Math.ceil(tenure / 3)`: the number of quarters, the last possibly partial. */
  function QuartersCount(tenure: int): (q: int)
    ensures 3 * (q - 1) < tenure <= 3 * q
  {
    (tenure + 2) / 3
  }

  /** The timeline position read for quarter i: month 3i, clamped to the last entry. */
  function MonthIndex(i: int, len: int): (idx: int)
    requires i >= 1 && len >= 1
    ensures 0 <= idx < len
    ensures idx <= 3 * i - 1
    ensures idx == 3 * i - 1 || idx == len - 1
  {
    if 3 * i - 1 <= len - 1 then 3 * i - 1 else len - 1
  }

  /** Months deposited by the end of quarter i: 3i, capped at the tenure. */
  function MonthsPaid(i: int, tenure: int): (n: int)
    ensures n <= 3 * i && n <= tenure
    ensures n == 3 * i || n == tenure
  {
    if 3 * i <= tenure then 3 * i else tenure
  }

  /** The principal bar of quarter i: the deposits made by its end. */
  function PrincipalAt(deposit: real, i: int, tenure: int): real
  {
    deposit * MonthsPaid(i, tenure) as real
  }

  function QuarterRowAt(result: CalculationResult, i: int): QuarterRow
    requires i >= 1 && |result.timeline| >= 1
  {
    QuarterRow(
      "Q" + Decimal(i),
      PrincipalAt(result.monthlyDeposit, i, result.tenureMonths),
      Round(result.timeline[MonthIndex(i, |result.timeline|)].balance))
  }

  /** The bars of the quarterly chart, one per quarter of the tenure. */
  function QuarterlyData(result: CalculationResult): (rows: seq<QuarterRow>)
    requires result.tenureMonths <= 0 || |result.timeline| >= 1
    ensures |rows| == Months(QuartersCount(result.tenureMonths))
  {
    var count := Months(QuartersCount(result.tenureMonths));
    seq(count, k requires 0 <= k < count => QuarterRowAt(result, k + 1))
  }

  /** The loop over quarters 1..ceil(tenure / 3). */
  method QuarterlyBreakdown(result: CalculationResult) returns (quarterlyData: seq<QuarterRow>)
    requires result.tenureMonths <= 0 || |result.timeline| >= 1
    ensures quarterlyData == QuarterlyData(result)
  {
    var len := |result.timeline|;
    var quartersCount := QuartersCount(result.tenureMonths);
    quarterlyData := [];
    var i := 1;
    while i <= quartersCount
      invariant 1 <= i <= Months(quartersCount) + 1
      invariant |quarterlyData| == i - 1
      invariant forall k :: 0 <= k < i - 1 ==> quarterlyData[k] == QuarterRowAt(result, k + 1)
    {
      var monthIndex := MonthIndex(i, len);
      var principal := PrincipalAt(result.monthlyDeposit, i, result.tenureMonths);
      var row := QuarterRow("Q" + Decimal(i), principal, Round(result.timeline[monthIndex].balance));
      quarterlyData := quarterlyData + [row];
      i := i + 1;
    }
    assert |quarterlyData| == |QuarterlyData(result)|;
  }

  /** The bars are labelled Q1, Q2, ... in order, and no label repeats. */
  lemma QuarterlyLabels(result: CalculationResult)
    requires result.tenureMonths <= 0 || |result.timeline| >= 1
    ensures var rows := QuarterlyData(result);
      && (forall k :: 0 <= k < |rows| ==> rows[k].quarter == "Q" + Decimal(k + 1))
      && (forall j, k :: 0 <= j < k < |rows| ==> rows[j].quarter != rows[k].quarter)
  {
    var rows := QuarterlyData(result);
    forall j, k | 0 <= j < k < |rows|
      ensures rows[j].quarter != rows[k].quarter
    {
      if rows[j].quarter == rows[k].quarter {
        assert Decimal(j + 1) == rows[j].quarter[1..];
        assert Decimal(k + 1) == rows[k].quarter[1..];
        DecimalInjective(j + 1, k + 1);
      }
    }
  }

  /** One pair of principal bars: a later quarter never shows less principal. */
  lemma QuarterlyPrincipalPair(result: CalculationResult, j: int, k: int)
    requires result.tenureMonths <= 0 || |result.timeline| >= 1
    requires result.monthlyDeposit >= 0.0
    requires 0 <= j <= k < |QuarterlyData(result)|
    ensures QuarterlyData(result)[j].principal <= QuarterlyData(result)[k].principal
  {
    var rows := QuarterlyData(result);
    var d, t := result.monthlyDeposit, result.tenureMonths;
    assert rows[j].principal == PrincipalAt(d, j + 1, t);
    assert rows[k].principal == PrincipalAt(d, k + 1, t);
    PrincipalAtMonotone(d, j + 1, k + 1, t);
  }

  /** By the last quarter every deposit of the tenure has been made. */
  lemma PrincipalAtLastQuarter(deposit: real, tenure: int)
    requires tenure >= 1
    ensures PrincipalAt(deposit, QuartersCount(tenure), tenure) == deposit * tenure as real
  {
    assert MonthsPaid(QuartersCount(tenure), tenure) == tenure;
  }

  lemma PrincipalAtMonotone(deposit: real, i: int, j: int, tenure: int)
    requires deposit >= 0.0 && i <= j
    ensures PrincipalAt(deposit, i, tenure) <= PrincipalAt(deposit, j, tenure)
  {
    ScaleMonotone(deposit, MonthsPaid(i, tenure) as real, MonthsPaid(j, tenure) as real);
  }

  /** With a non-negative deposit the principal bars never decrease. */
  lemma QuarterlyPrincipal(result: CalculationResult)
    requires result.tenureMonths <= 0 || |result.timeline| >= 1
    requires result.monthlyDeposit >= 0.0
    ensures var rows := QuarterlyData(result);
      forall j, k :: 0 <= j <= k < |rows| ==> rows[j].principal <= rows[k].principal
  {
    var rows := QuarterlyData(result);
    forall j, k | 0 <= j <= k < |rows|
      ensures rows[j].principal <= rows[k].principal
    {
      QuarterlyPrincipalPair(result, j, k);
    }
  }

  /** The last principal bar is the whole principal, deposit times tenure. */
  lemma QuarterlyPrincipalLast(result: CalculationResult)
    requires result.tenureMonths >= 1 && |result.timeline| >= 1
    ensures var rows := QuarterlyData(result);
      rows[|rows| - 1].principal == result.monthlyDeposit * result.tenureMonths as real
  {
    var rows := QuarterlyData(result);
    var q := QuartersCount(result.tenureMonths);
    assert |rows| == q;
    assert rows[q - 1] == QuarterRowAt(result, q);
    PrincipalAtLastQuarter(result.monthlyDeposit, result.tenureMonths);
  }

  lemma ScaleMonotone(d: real, a: real, b: real)
    requires d >= 0.0 && a <= b
    ensures d * a <= d * b
  {
    assert d * (b - a) >= 0.0;
  }

  /**
   * For a projection with a positive tenure there is one bar per quarter, and
   * each shows the rounded timeline value at month min(3i, tenure).
   */
  lemma QuarterlyOfProjection(deposit: real, annualRate: real, tenure: int)
    requires tenure >= 1
    ensures var rows := QuarterlyData(Project(deposit, annualRate, tenure));
      && |rows| == QuartersCount(tenure) >= 1
      && (forall k :: 0 <= k < |rows| ==>
            rows[k].balance == Round(Accrued(deposit, annualRate, tenure, MonthsPaid(k + 1, tenure))))
  {
    var rows := QuarterlyData(Project(deposit, annualRate, tenure));
    forall k | 0 <= k < |rows|
      ensures rows[k].balance == Round(Accrued(deposit, annualRate, tenure, MonthsPaid(k + 1, tenure)))
    {
      QuarterBalanceOfProjection(deposit, annualRate, tenure, k);
    }
  }

  /** The last bar of a projection shows the rounded maturity amount and the whole principal. */
  lemma QuarterlyLastOfProjection(deposit: real, annualRate: real, tenure: int)
    requires tenure >= 1
    ensures var p := Project(deposit, annualRate, tenure);
      var rows := QuarterlyData(p);
      && rows[|rows| - 1].balance == Round(p.maturityAmount)
      && rows[|rows| - 1].principal == p.depositAmount
  {
    var p := Project(deposit, annualRate, tenure);
    var rows := QuarterlyData(p);
    var last := |rows| - 1;
    QuarterBalanceOfProjection(deposit, annualRate, tenure, last);
    assert MonthsPaid(last + 1, tenure) == tenure;
    assert rows[last].principal == PrincipalAt(deposit, QuartersCount(tenure), tenure);
    PrincipalAtLastQuarter(deposit, tenure);
  }

  /** When the tenure is a whole number of quarters, quarter i reads exactly month 3i. */
  lemma WholeQuartersReadQuarterEnds(tenure: int, i: int)
    requires tenure >= 1 && tenure % 3 == 0
    requires 1 <= i <= QuartersCount(tenure)
    ensures MonthIndex(i, tenure) == 3 * i - 1
    ensures MonthsPaid(i, tenure) == 3 * i
  {
  }

  /** One bar of the projection's chart: the rounded running sum after the quarter's last paid month. */
  lemma QuarterBalanceOfProjection(deposit: real, annualRate: real, tenure: int, k: int)
    requires tenure >= 1 && 0 <= k < QuartersCount(tenure)
    ensures var rows := QuarterlyData(Project(deposit, annualRate, tenure));
      rows[k].balance == Round(Accrued(deposit, annualRate, tenure, MonthsPaid(k + 1, tenure)))
  {
    var p := Project(deposit, annualRate, tenure);
    var idx := MonthIndex(k + 1, tenure);
    assert QuarterlyData(p)[k] == QuarterRowAt(p, k + 1);
    assert idx == MonthsPaid(k + 1, tenure) - 1;
    assert p.timeline[idx].balance == Accrued(deposit, annualRate, tenure, idx + 1);
  }
}
