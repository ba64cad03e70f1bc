/** The arithmetic of the strategic dashboard: milestone percentages, the
    progress-bar colour, the chart rows and the no-data guard. Milestone values
    are integers here and the percentage is computed exactly. */
module Dashboard {
  import opened Records

  /** The bar colours `bg-green-500`, `bg-blue-500` and `bg-amber-500`. */
  datatype Colour = Green | Blue | Amber

  /** `Math.round((current / target) * 100)` for a positive target: the
      integer nearest to 100 * current / target, halves rounded up. */
  function RoundedPercent(current: int, target: int): (r: int)
    requires target > 0
    ensures 2 * target * r <= 200 * current + target < 2 * target * r + 2 * target
  {
    (200 * current + target) / (2 * target)
  }

  /** The percentage shown for a milestone: zero without a positive target,
      otherwise the rounded share capped at 100 (no lower cap). */
  function Percentage(current: int, target: int): (r: int)
    ensures r <= 100
    ensures target <= 0 ==> r == 0
    ensures target > 0 && current >= target ==> r == 100
    ensures target > 0 && current >= 0 ==> 0 <= r
  {
    if target > 0 then
      var r := RoundedPercent(current, target);
      assert current >= target ==> r >= 100 by {
        if r < 100 { ScaledLe(target, r, 99); }
      }
      assert current >= 0 ==> r >= 0 by {
        if r < 0 { ScaledLe(target, r, -1); }
      }
      Min(100, r)
    else 0
  }

  function Min(a: int, b: int): int {
    if a <= b then a else b
  }

  /** Scaling by a positive 2 * target keeps the order. */
  lemma ScaledLe(target: int, a: int, b: int)
    requires target > 0 && a <= b
    ensures 2 * target * a <= 2 * target * b
  {
  }

  /** A larger current value never shows a smaller percentage. */
  lemma PercentageMonotone(c1: int, c2: int, target: int)
    requires c1 <= c2
    ensures Percentage(c1, target) <= Percentage(c2, target)
  {
    if target > 0 {
      var r1, r2 := RoundedPercent(c1, target), RoundedPercent(c2, target);
      if r2 < r1 {
        ScaledLe(target, r2 + 1, r1);
      }
    }
  }

  /** The label reads 100 exactly when the share is at least 99.5%. */
  lemma PercentageFullIff(current: int, target: int)
    requires target > 0
    ensures Percentage(current, target) == 100 <==> 200 * current >= 199 * target
  {
    var r := RoundedPercent(current, target);
    assert Percentage(current, target) == 100 <==> r >= 100;
    if r >= 100 {
      ScaledLe(target, 100, r);
    } else {
      ScaledLe(target, r, 99);
    }
  }

  /** Without a lower cap a negative current value shows a percentage of at
      most zero, and one below -0.5% a negative percentage. */
  lemma NegativeCurrentNotClamped(current: int, target: int)
    requires target > 0 && current < 0
    ensures Percentage(current, target) <= 0
    ensures 200 * current + target < 0 ==> Percentage(current, target) < 0
  {
    var r := RoundedPercent(current, target);
    if r > 0 {
      ScaledLe(target, 1, r);
    } else if r == 0 && 200 * current + target < 0 {
      ScaledLe(target, 0, r);
    }
  }

  /** `getProgressColor`: the share as the fraction num/den (den > 0), then
      the thresholds 100 and 50 compared against it. */
  function ProgressColour(current: int, target: int): (r: Colour)
    ensures r == Green <==> target > 0 && current >= target
    ensures r == Blue <==> target > 0 && 2 * current >= target && current < target
    ensures r == Amber <==> target <= 0 || 2 * current < target
  {
    var (num, den) := if target > 0 then (100 * current, target) else (0, 1);
    assert den > 0;
    if num >= 100 * den then Green
    else if 2 * num >= 100 * den then Blue
    else Amber
  }

  /** A green bar always reads 100%, and a bar reading below 50% is always amber. */
  lemma ColourAgreesWithLabelAtTheEnds(current: int, target: int)
    ensures ProgressColour(current, target) == Green ==> Percentage(current, target) == 100
    ensures Percentage(current, target) < 50 ==> ProgressColour(current, target) == Amber
  {
    if target > 0 {
      var r := RoundedPercent(current, target);
      if r < 50 {
        ScaledLe(target, r, 49);
      }
      if 100 <= r {
        ScaledLe(target, 100, r);
      }
    }
  }

  /** The colour follows the unrounded share while the label is rounded, so
      the two disagree near the thresholds: 199 of 200 reads 100% on a blue
      bar, 99 of 200 reads 50% on an amber bar. */
  lemma ColourLagsRoundedLabel()
    ensures Percentage(199, 200) == 100 && ProgressColour(199, 200) == Blue
    ensures Percentage(99, 200) == 50 && ProgressColour(99, 200) == Amber
  {
  }

  /** One row of the performance chart. */
  datatype ChartRow = ChartRow(name: string, progress: int, target: int)

  function ChartRowOf(m: Milestone): ChartRow {
    ChartRow(m.name, m.currentValue, m.targetKPI)
  }

  /** `milestones.map(m => ({ name, Progress: currentValue, Target: targetKPI }))`. */
  function ChartData(milestones: seq<Milestone>): (r: seq<ChartRow>)
    ensures |r| == |milestones|
    ensures forall i :: 0 <= i < |milestones| ==>
              r[i].name == milestones[i].name && r[i].progress == milestones[i].currentValue
              && r[i].target == milestones[i].targetKPI
  {
    seq(|milestones|, i requires 0 <= i < |milestones| => ChartRowOf(milestones[i]))
  }

  /** The chart lists milestones in their own order. */
  lemma ChartDataAppend(a: seq<Milestone>, b: seq<Milestone>)
    ensures ChartData(a + b) == ChartData(a) + ChartData(b)
  {
    var l, r := ChartData(a + b), ChartData(a) + ChartData(b);
    assert forall i :: 0 <= i < |l| ==> l[i] == r[i] by {
      forall i | 0 <= i < |l| ensures l[i] == r[i] {
        if i < |a| { assert (a + b)[i] == a[i]; } else { assert (a + b)[i] == b[i - |a|]; }
      }
    }
  }

  /** One progress bar of the milestone tracker. */
  datatype ProgressBar = ProgressBar(name: string, percentage: int, colour: Colour)

  function BarOf(m: Milestone): ProgressBar {
    ProgressBar(m.name, Percentage(m.currentValue, m.targetKPI), ProgressColour(m.currentValue, m.targetKPI))
  }

  /** What the dashboard shows. */
  datatype Screen =
    | NoLiveData
    | Overview(bars: seq<ProgressBar>, chart: seq<ChartRow>, publishedCount: int, roadmap: seq<MonthPlan>)

  /** The dashboard for the given milestones, roadmap and published count. */
  function Render(milestones: seq<Milestone>, roadmap: seq<MonthPlan>, completedCount: int): (r: Screen)
    ensures r.NoLiveData? <==> |roadmap| == 0 && |milestones| == 0
    ensures r.Overview? ==>
              |r.bars| == |milestones| && r.chart == ChartData(milestones)
              && r.publishedCount == completedCount && r.roadmap == roadmap
    ensures r.Overview? ==> forall i :: 0 <= i < |r.bars| ==> r.bars[i] == BarOf(milestones[i])
    ensures r.Overview? ==> forall i :: 0 <= i < |r.bars| ==>
              r.bars[i].percentage <= 100 && (r.bars[i].colour == Green ==> r.bars[i].percentage == 100)
  {
    if |roadmap| == 0 && |milestones| == 0 then NoLiveData
    else
      var bars := seq(|milestones|, i requires 0 <= i < |milestones| => BarOf(milestones[i]));
      assert forall i :: 0 <= i < |bars| ==> bars[i].colour == Green ==> bars[i].percentage == 100 by {
        forall i | 0 <= i < |bars| ensures bars[i].colour == Green ==> bars[i].percentage == 100 {
          ColourAgreesWithLabelAtTheEnds(milestones[i].currentValue, milestones[i].targetKPI);
        }
      }
      Overview(bars, ChartData(milestones), completedCount, roadmap)
  }
}
