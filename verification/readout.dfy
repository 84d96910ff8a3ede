/** The readout under the chart and the update pass that feeds it.

    The readout shows three figures: how many people there are, how many comparisons
    their birthdays make, and the chance that two of them share a birthday. An update
    rebuilds the comparison list from the current players and animates each figure
    from the number its current text reads as, towards a new interpolation target.
    The odds come from a collaborator and are an input here; the percentage formatter
    of the charting library is a parameter.
 */
module Readout {
  import opened Pairing
  import opened NumberText

  /** What a one-decimal percentage formatter prints for a certainty. */
  const Certain: string := "100.0%"
  /** What the readout prints instead of a certainty. */
  const AlmostCertain: string := "> 99.9%"

  /** The cap applied to a formatted percentage: a certainty is shown as AlmostCertain. */
  function Cap(percent: string): (s: string)
    ensures s != Certain
    ensures s != percent <==> percent == Certain
  {
    if percent == Certain then AlmostCertain else percent
  }

  /** Capping twice is capping once: a shown percentage is never rewritten again. */
  lemma CapIdempotent(percent: string)
    ensures Cap(Cap(percent)) == Cap(percent)
    ensures Cap(percent) == AlmostCertain <==> percent == Certain || percent == AlmostCertain
  {
  }

  /** `num / 100` on a JavaScript number. */
  function Hundredth(num: Number): (r: Number)
    ensures r.NaN? <==> num.NaN?
    ensures num.Finite? ==> r.value * 100.0 == num.value
  {
    match num
    case NaN => NaN
    case Finite(v) => Finite(v / 100.0)
  }

  /** `formatPercent`: `num` percent, printed by `format` as a fraction of one, with the cap. */
  function FormatPercent(format: Number -> string, num: Number): (s: string)
    ensures s != Certain
    ensures format(Hundredth(num)) == Certain ==> s == AlmostCertain
    ensures format(Hundredth(num)) != Certain ==> s == format(Hundredth(num))
  {
    Cap(format(Hundredth(num)))
  }

  /** `d3.interpolateNumber(a, b)` at the end of the transition, t = 1: a * (1 - t) + b * t. */
  function InterpolateEnd(start: Number, target: real): (r: Number)
    ensures r.NaN? <==> start.NaN?
    ensures start.Finite? ==> r == Finite(target)
  {
    match start
    case NaN => NaN
    case Finite(a) => Finite(a * (1.0 - 1.0) + target * 1.0)
  }

  /** The text a count figure (people or comparisons) shows once its tween ends, as written:
      the tween starts from `+` of the figure's current text and ends on `target`. */
  function ShownCount(current: string, target: nat): string {
    match InterpolateEnd(ToNumber(current), target as real)
    case NaN => NaNText
    case Finite(v) => FormatInt(v.Floor)
  }

  /** A count figure ends on its new target exactly when its current text reads as a number;
      otherwise it ends on "NaN". */
  lemma ShownCountReachesTarget(current: string, target: nat)
    ensures ShownCount(current, target) == FormatInt(target) <==> ToNumber(current).Finite?
    ensures ToNumber(current).NaN? ==> ShownCount(current, target) == NaNText
  {
    FormatIntIsNotNaN(target);
  }

  /** As written: once a count figure shows 1000 or more, the next update ends it on "NaN",
      and so does every update after that, whatever the new count. */
  lemma CountStuckAfterThousand(shown: nat, target: nat)
    requires shown >= 1000
    ensures ShownCount(FormatInt(shown), target) == NaNText
    ensures ShownCount(NaNText, target) == NaNText
  {
    FormatIntRoundTrip(shown);
    ShownCountReachesTarget(FormatInt(shown), target);
    NaNTextIsNaN();
    ShownCountReachesTarget(NaNText, target);
  }

  /** 46 or more players make at least 1000 comparisons. */
  lemma ThousandComparisons<Day>(players: seq<Player<Day>>)
    requires |players| >= 46
    ensures |Pairs(players)| >= 1000
  {
    var n := |players|;
    assert n * (n - 1) >= 46 * (n - 1) >= 46 * 45;
  }

  /** As written: after an update with 46 or more players the comparisons figure ends every
      later update on "NaN". */
  lemma ComparisonsStuckAfterThousand<Day>(first: seq<Player<Day>>, later: seq<Player<Day>>)
    requires |first| >= 46
    ensures ShownCount(FormatInt(|Pairs(first)|), |Pairs(later)|) == NaNText
    ensures ShownCount(NaNText, |Pairs(later)|) == NaNText
  {
    ThousandComparisons(first);
    CountStuckAfterThousand(|Pairs(first)|, |Pairs(later)|);
  }

  /** Corrected: the count tween starts from the previous target instead of the text, so the
      figure always ends on the new count. */
  function ShownCountFixed(previous: nat, target: nat): (s: string)
    ensures s == FormatInt(target)
    ensures ToNumber(s) == Finite(target as real) <==> target < 1000
  {
    FormatIntRoundTrip(target);
    match InterpolateEnd(Finite(previous as real), target as real)
    case NaN => NaNText
    case Finite(v) => FormatInt(v.Floor)
  }

  /** The text the chance figure shows once its tween ends, as written: the tween starts from
      `+` of the current text with its first '%' removed and ends on `odds * 100`. */
  function ShownChance(format: Number -> string, current: string, odds: real): string {
    FormatPercent(format, InterpolateEnd(ToNumber(ReplaceFirst(current, '%')), odds * 100.0))
  }

  /** The chance figure ends on the capped, formatted odds when its current text reads as a
      number, and on the capped format of NaN otherwise. */
  lemma ShownChanceReachesTarget(format: Number -> string, current: string, odds: real)
    ensures ToNumber(ReplaceFirst(current, '%')).Finite? ==> ShownChance(format, current, odds) == Cap(format(Finite(odds)))
    ensures ToNumber(ReplaceFirst(current, '%')).NaN? ==> ShownChance(format, current, odds) == Cap(format(NaN))
  {
    assert Hundredth(Finite(odds * 100.0)) == Finite(odds);
  }

  /** As written: an update whose odds print as "100.0%" leaves "> 99.9%" on screen, which reads
      as NaN, so the next update ends on the format of NaN whatever its odds. */
  lemma ChanceStuckAfterCap(format: Number -> string, current: string, odds: real, next: real)
    requires ToNumber(ReplaceFirst(current, '%')).Finite?
    requires format(Finite(odds)) == Certain
    ensures ShownChance(format, current, odds) == AlmostCertain
    ensures ShownChance(format, AlmostCertain, next) == Cap(format(NaN))
  {
    ShownChanceReachesTarget(format, current, odds);
    var stripped := ReplaceFirst(AlmostCertain, '%');
    assert FirstIndex(AlmostCertain, '%') > 0;
    assert stripped[0] == '>';
    ForeignStartIsNaN(stripped);
    ShownChanceReachesTarget(format, AlmostCertain, next);
  }

  /** Corrected: the chance tween starts from the previous target percentage, so the figure
      always ends on the capped, formatted new odds. */
  function ShownChanceFixed(format: Number -> string, previous: real, odds: real): (s: string)
    ensures s == Cap(format(Finite(odds)))
    ensures s != Certain
  {
    assert Hundredth(Finite(odds * 100.0)) == Finite(odds);
    FormatPercent(format, InterpolateEnd(Finite(previous), odds * 100.0))
  }

  /** The interpolation targets of the three figures. */
  datatype Figures = Figures(people: nat, comparisons: nat, chance: real)

  /** The texts of the three figures once their tweens end. */
  datatype Texts = Texts(people: string, comparisons: string, chance: string)

  /** One update of the graphic: the fresh comparison list (one arc each), the interpolation
      targets, and the texts the figures end on when each tween starts from the previous
      targets. `odds` is what the odds collaborator returns for the number of players. */
  method Update<Day>(players: seq<Player<Day>>, odds: real, previous: Figures, format: Number -> string)
    returns (data: seq<Comparison<Day>>, targets: Figures, shown: Texts)
    ensures data == Pairs(players)
    ensures targets.people == |players|
    ensures targets.comparisons == |data| == |players| * (|players| - 1) / 2
    ensures targets.chance == odds * 100.0
    ensures shown.people == FormatInt(|players|)
    ensures shown.comparisons == FormatInt(targets.comparisons)
    ensures shown.chance == Cap(format(Finite(odds)))
  {
    data := BuildComparisons(players);
    targets := Figures(|players|, |data|, odds * 100.0);
    shown := Texts(
      ShownCountFixed(previous.people, targets.people),
      ShownCountFixed(previous.comparisons, targets.comparisons),
      ShownChanceFixed(format, previous.chance, odds));
  }
}
