# Birthday graphic: comparison list, arc clamp and percentage cap

A Dafny model of the logic inside the "math" panel of the birthday-problem graphic
(`src/js/math.js`). On each update the panel takes the ordered list of players, each
with the day of the year of their birthday, and rebuilds from scratch the list of
comparisons: for every player `a` and every player `b` after `a` in the input, one
entry `{start: a.day, end: b.day}`. Each entry becomes one arc, and the length of the
list is the "comparisons" figure of the readout. Two small pieces sit next to it. One
is the clamp of the arc's fraction to at least 2. The other is the cap that shows a
formatted "100.0%" chance as "> 99.9%".

Modules:

- `PairOrder` (`pair_order.dfy`) describes the order in which the nested loops visit
  position pairs `(i, j)` with `i < j < n`, without reference to days. It proves that
  there are n(n-1)/2 of them and that each is linked (`i < j`). It proves that they
  come strictly ascending in lexicographic order, and that `(i, j)` sits at place
  `Rank(n, i, j)` and nowhere else.
- `Pairing` (`pairing.dfy`) holds `Player` and `Comparison` and defines `Pairs`, the
  functional comparison list, shaped like the source's `forEach` over
  `slice(i + 1)`. It also holds the nested-loop method `BuildComparisons`. It proves
  that `Pairs` is the position enumeration with each position replaced by that
  player's day. From that it gets soundness, completeness, exactly-once and order for
  the comparison list itself.
- `ArcGeometry` (`arc_geometry.dfy`) holds the layout constants, `Math.max`, the
  clamped `Fraction` and the bound on the arc's vertical radius that the clamp buys.
- `NumberText` (`number_text.dfy`) holds a JavaScript number (a finite value or NaN).
  It also holds the printing of whole counts with `d3.format(',d')` and the reading of
  text back with unary `+`. It proves that a printed count reads back as itself below
  1000. From 1000 on, the thousands separator makes it read back as NaN.
- `Readout` (`readout.dfy`) holds the "100.0%" cap and `FormatPercent`. It also holds
  the text each figure ends on once its tween finishes, both as the source computes it
  and corrected (see Findings), and `Update`. `Update` returns the comparison list, the
  interpolation targets of the three figures and the corrected texts they end on.

Inputs that come from outside the file are parameters. The odds returned by
`calculateOdds(players.length)` are the `odds: real` argument of `Update`. The
formatter `d3.format('.1%')` is the `format: Number -> string` argument of
`FormatPercent`.

## Model

| member | source | states |
|---|---|---|
| PairOrder.RowStartClosedForm | src/js/math.js:35-36 | the rows of players 0..i-1 contribute i(2n-i-1)/2 comparisons together |
| PairOrder.IndexPairsLength | src/js/math.js:34-37 | the nested loops visit exactly n(n-1)/2 position pairs |
| PairOrder.IndexPairsLinked | src/js/math.js:35-36 | every visited pair (i, j) has i < j < n: the inner loop only looks at later players |
| PairOrder.IndexPairsSorted | src/js/math.js:35-36 | visited pairs come strictly ascending in lexicographic order (outer index, then inner index), so no pair is visited twice |
| PairOrder.IndexPairsComplete | src/js/math.js:35-36 | every pair i < j < n is visited, at place Rank(n, i, j) = i(2n-i-1)/2 + (j-i-1) |
| PairOrder.IndexPairsExactlyOnce | src/js/math.js:35-36 | pair (i, j) with i < j < n sits at place k if and only if k is its rank |
| Pairing.Pairs | src/js/math.js:34-37 | the comparison list of n players has n(n-1)/2 entries, and it is empty exactly when there is at most one player |
| Pairing.Origin | src/js/math.js:35-36 | the positions behind the comparison at place k form a pair i < j < n |
| Pairing.PairsFollowIndexPairs | src/js/math.js:35-36 | the comparison list is the position enumeration with each position replaced by its player's day |
| Pairing.PairsSound | src/js/math.js:35-36 | each entry is (players[i].day, players[j].day) for the pair i < j it comes from, days copied verbatim |
| Pairing.PairsComplete | src/js/math.js:35-36 | for every i < j the entry (players[i].day, players[j].day) is in the list, at place Rank(n, i, j) |
| Pairing.PairsExactlyOnce | src/js/math.js:35-36 | each pair of positions i < j contributes exactly one entry |
| Pairing.PairsOrdered | src/js/math.js:35-36 | entries are ordered by the first player's position, then the second's |
| Pairing.StartMayFollowEnd | src/js/math.js:36 | days are not sorted: players born on days 300 then 12 give the single entry (300, 12) |
| Pairing.PushRow | src/js/math.js:36 | the inner `forEach` appends one entry per later player, in order, and keeps what was already in the list |
| Pairing.BuildComparisons | src/js/math.js:34-37 | the nested loops, starting from an empty list, build exactly the comparison list, of length n(n-1)/2 |
| ArcGeometry.Max | src/js/math.js:48 | `Math.max` returns an argument that is at least as large as both |
| ArcGeometry.Fraction | src/js/math.js:48 | the fraction is at least 2; it is 2 for spans up to 224 pixels and span/112 beyond |
| ArcGeometry.ArcRoomValue | src/js/math.js:10-14 | the divisor height - TEXT_HEIGHT is the nonzero constant 160 - 48 = 112 |
| ArcGeometry.ArcRiseBounded | src/js/math.js:28-30 | for a span of zero or more, the arc's vertical radius diam/fraction is at most half the span and at most the 112 pixels above the text; a negative span always gets fraction 2 and radius diam/2 |
| ArcGeometry.ReversedArcUnbounded | src/js/math.js:46-49 | a pair listed with the later day first and a span below -224 gets fraction 2, and its absolute radius exceeds the 112 pixels of room |
| NumberText.FormatIntRoundTrip | src/js/math.js:19-21 | a count printed with `',d'` reads back through `+` as itself below 1000, and as NaN from 1000 on |
| NumberText.CommaIsNaN | src/js/math.js:81 | `+` reads any text containing a comma as NaN |
| NumberText.ForeignStartIsNaN | src/js/math.js:91 | `+` reads text starting with anything other than a digit, a point or a minus, such as "> 99.9", as NaN |
| NumberText.FormatIntIsNotNaN | src/js/math.js:19-21 | a printed count starts with a digit, so it is never the text "NaN" |
| NumberText.NaNTextIsNaN | src/js/math.js:81 | the text "NaN" reads back as NaN |
| NumberText.ZeroTextIsZero | src/js/math.js:113 | the initial text "0" of a figure reads as 0 |
| Readout.Cap | src/js/math.js:25 | the cap never yields "100.0%", and it changes its input exactly when the input is "100.0%" |
| Readout.CapIdempotent | src/js/math.js:25 | capping an already capped string changes nothing; the result is "> 99.9%" exactly for "100.0%" and "> 99.9%" |
| Readout.Hundredth | src/js/math.js:24 | dividing by 100 keeps NaN as NaN and gives a finite value a hundredth of its size |
| Readout.FormatPercent | src/js/math.js:23-26 | the chance text is never "100.0%"; a formatted "100.0%" becomes "> 99.9%" and every other formatted string is returned unchanged |
| Readout.InterpolateEnd | src/js/math.js:71-72 | at the end of a tween the value is the target when the start is a number, and NaN when the start is NaN |
| Readout.ShownCountReachesTarget | src/js/math.js:79-82 | a count figure ends on its new count if and only if its current text reads as a number; otherwise it ends on "NaN" |
| Readout.CountStuckAfterThousand | src/js/math.js:69-82 | as written, once a count figure shows 1000 or more, the next update ends it on "NaN" whatever the new count, and so does every update after that |
| Readout.ThousandComparisons | src/js/math.js:34-37 | 46 or more players make at least 1000 comparisons |
| Readout.ComparisonsStuckAfterThousand | src/js/math.js:79-82 | as written, after an update with 46 or more players the comparisons figure ends every later update on "NaN" |
| Readout.ShownCountFixed | src/js/math.js:79-82 | corrected: a count tween that starts from the previous count always ends on the printed new count |
| Readout.ShownChanceReachesTarget | src/js/math.js:89-92 | the chance figure ends on the capped, formatted odds if its current text without '%' reads as a number, and on the capped format of NaN otherwise |
| Readout.ChanceStuckAfterCap | src/js/math.js:89-92 | as written, odds that format as "100.0%" show "> 99.9%"; the next update then ends on the format of NaN, whatever its odds |
| Readout.ShownChanceFixed | src/js/math.js:89-92 | corrected: a chance tween that starts from the previous percentage always ends on the capped, formatted new odds |
| Readout.Update | src/js/math.js:32-94 | an update rebuilds the comparison list from the current players alone; the interpolation targets are the player count, the list's length n(n-1)/2 and the odds times 100; with the corrected tweens the figures end on those values printed |

## Findings

| source | as written | input that shows it | evidently intended | confidence | as-written member | corrected member |
|---|---|---|---|---|---|---|
| src/js/math.js:79-82 | the count tweens start from `+` of the figure's text, but `formatInt` prints 1000 and more with a thousands separator, which `+` reads as NaN | an update with 46 players (1,035 comparisons), then any further update: the comparisons figure ends on "NaN" and stays there; the people figure does the same from 1000 players | each update ends the figure on the new count | medium, not executed | Readout.ComparisonsStuckAfterThousand | Readout.ShownCountFixed |
| src/js/math.js:89-92 | the chance tween starts from `+` of the text with '%' removed, but the capped text "> 99.9%" leaves "> 99.9", which `+` reads as NaN | an update whose odds format as "100.0%", then any further update: the chance ends on the format of NaN whatever the odds | each update ends the figure on the new odds | medium, not executed | Readout.ChanceStuckAfterCap | Readout.ShownChanceFixed |

## Left out

- DOM work is not modelled: selecting and removing paths, the data join
  `.data().enter().append`, setting attributes and `getTotalLength`. It is browser
  and D3 I/O.
- Transitions, easing and delays are not modelled. They are animation scheduling.
  Each tween is modelled at its end only (t = 1), not at the values in between.
- Readout.Update: the figures end on their new values only with the corrected tweens,
  which start from the previous targets. The source starts each tween from the text on
  screen, and its figures reach the target only when that text reads as a number. That
  behaviour is `ShownCount` and `ShownChance` (see Findings).
- The linear scale `scale.x`, `resize`, the computation of `diam` from the scale and
  the SVG path string of `makeArc` are not modelled. They are floating-point geometry
  in a foreign library. `ArcGeometry` takes `diam` as an input and models only the
  radius `diam / fraction` that `makeArc` passes on.
- `calculateOdds` is not part of this model. Its result is the `odds` input of `Update`.
- `d3.format('.1%')` is not modelled. It is the `format` parameter of
  `FormatPercent`. `formatInt` is modelled as `FormatInt` for whole, non-negative
  counts only. Those are the values a count tween ends on. The rounding of fractional
  values in mid-tween and the switch to exponent form at 1e21 are left out.
- NumberText.ToNumber: reads "", an optional '-', digits and one optional point. It
  reads everything else as NaN, whereas JavaScript's `+` also accepts surrounding
  whitespace, '+', exponents, "Infinity" and hex. `',d'` never prints those forms;
  what the chance formatter prints is a parameter, so only the capped text is read here.
- `setup` is not modelled. It builds the label DOM declaratively.
- ArcGeometry.Fraction: models JavaScript numbers as exact reals, so it leaves out
  `NaN`, infinities and rounding. With those, `Math.max(2, NaN)` would be `NaN` and
  the "at least 2" bound would not hold. The readout's values are reals too, apart from
  the explicit NaN of `NumberText.Number`.
- ArcGeometry.ArcRiseBounded: bounds the arc height only for spans of zero or more.
  A pair whose earlier player has the later day has a negative span and always gets
  fraction 2, so SVG draws a semicircle of radius |diam|/2 that no 112-pixel limit caps
  (`ReversedArcUnbounded`). Whether callers sort players by day is not shown here.
- The model does not restrict a player's `day`: it is a type parameter, because the
  list only copies it. The source neither checks nor relies on the documented range of
  0 to 364.
- The module-level variable `data` is not modelled as state. `update` assigns it a
  fresh empty list before filling it, so the result depends only on `players`.
  `BuildComparisons` and `Update` have no input for the old list.
