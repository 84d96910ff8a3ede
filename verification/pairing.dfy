/** The comparison list of the birthday graphic.

    Every player carries the day of the year of their birthday. On each update the
    graphic throws away the previous comparison list and builds a fresh one holding,
    for every player a and every player b that comes after a in the input, the
    comparison (start: a's day, end: b's day). Its length is the "comparisons"
    figure the readout shows.
 */
module Pairing {
  import opened PairOrder

  /** A player of the birthday game; `day` is the day of the year of their birthday. The list
      only copies days, so their type is a parameter. */
  datatype Player<Day> = Player(day: Day)

  /** One arc of the graphic: the days of two players, the earlier player's first. */
  datatype Comparison<Day> = Comparison(start: Day, end: Day)

  /** The comparisons of player a with each of the players that come after it, in input order. */
  function Row<Day>(a: Player<Day>, later: seq<Player<Day>>): (r: seq<Comparison<Day>>)
    ensures |r| == |later|
    ensures forall k :: 0 <= k < |r| ==> r[k].start == a.day && r[k].end == later[k].day
  {
    seq(|later|, k requires 0 <= k < |later| => Comparison(a.day, later[k].day))
  }

  /** The comparison list: row of the first player, then the list of the remaining players. */
  function Pairs<Day>(players: seq<Player<Day>>): (r: seq<Comparison<Day>>)
    ensures |r| == |players| * (|players| - 1) / 2
    ensures r == [] <==> |players| <= 1
    decreases |players|
  {
    if |players| == 0 then []
    else
      var rest := Pairs(players[1..]);
      assert (|players| - 1) + |rest| == |players| * (|players| - 1) / 2;
      Row(players[0], players[1..]) + rest
  }

  /** The comparison between the players at positions p.i and p.j. */
  function Compare<Day>(players: seq<Player<Day>>, p: IndexPair): Comparison<Day>
    requires Linked(p, |players|)
  {
    Comparison(players[p.i].day, players[p.j].day)
  }

  /** The players at positions i < j produce the comparison at place k (the inverse of Rank). */
  function Origin(n: nat, k: nat): (p: IndexPair)
    requires k < n * (n - 1) / 2
    ensures Linked(p, n)
  {
    IndexPairsLength(n);
    IndexPairsLinked(n);
    IndexPairs(n)[k]
  }

  /** The list of a suffix unfolds into the row of its first player and the list of the rest. */
  lemma PairsUnfold<Day>(players: seq<Player<Day>>, lo: nat)
    requires lo < |players|
    ensures Pairs(players[lo..]) == Row(players[lo], players[lo + 1..]) + Pairs(players[lo + 1..])
  {
    var suffix := players[lo..];
    assert suffix[0] == players[lo];
    assert suffix[1..] == players[lo + 1..];
  }

  /** Row lo of the comparison list is row lo of the position enumeration with days looked up. */
  lemma RowFollowsIndexRow<Day>(players: seq<Player<Day>>, lo: nat)
    requires lo < |players|
    ensures |Row(players[lo], players[lo + 1..])| == |IndexRow(lo, |players|)|
    ensures forall k :: 0 <= k < |IndexRow(lo, |players|)| ==>
              Linked(IndexRow(lo, |players|)[k], |players|) &&
              Row(players[lo], players[lo + 1..])[k] == Compare(players, IndexRow(lo, |players|)[k])
  {
  }

  lemma {:induction false} PairsFollowFrom<Day>(players: seq<Player<Day>>, lo: nat)
    requires lo <= |players|
    ensures |Pairs(players[lo..])| == |IndexPairsFrom(lo, |players|)|
    ensures forall k :: 0 <= k < |Pairs(players[lo..])| ==>
              Linked(IndexPairsFrom(lo, |players|)[k], |players|) &&
              Pairs(players[lo..])[k] == Compare(players, IndexPairsFrom(lo, |players|)[k])
    decreases |players| - lo
  {
    var n := |players|;
    if lo < n {
      PairsFollowFrom(players, lo + 1);
      RowFollowsIndexRow(players, lo);
      PairsUnfold(players, lo);
      var row, rest := Row(players[lo], players[lo + 1..]), Pairs(players[lo + 1..]);
      var irow, irest := IndexRow(lo, n), IndexPairsFrom(lo + 1, n);
      assert IndexPairsFrom(lo, n) == irow + irest;
      forall k | 0 <= k < |row + rest|
        ensures Linked((irow + irest)[k], n) && (row + rest)[k] == Compare(players, (irow + irest)[k])
      {
        if k < |row| {
          assert (row + rest)[k] == row[k] && (irow + irest)[k] == irow[k];
        } else {
          assert (row + rest)[k] == rest[k - |row|] && (irow + irest)[k] == irest[k - |irow|];
        }
      }
    } else {
      assert players[lo..] == [];
    }
  }

  /** The comparison list is the position enumeration with each position replaced by its player's day. */
  lemma PairsFollowIndexPairs<Day>(players: seq<Player<Day>>)
    ensures |Pairs(players)| == |IndexPairs(|players|)|
    ensures forall k :: 0 <= k < |Pairs(players)| ==>
              Linked(IndexPairs(|players|)[k], |players|) &&
              Pairs(players)[k] == Compare(players, IndexPairs(|players|)[k])
  {
    PairsFollowFrom(players, 0);
    assert players[0..] == players;
  }

  /** Soundness: the comparison at place k copies the days of the players at positions Origin(k),
      an earlier and a later player, verbatim. */
  lemma PairsSound<Day>(players: seq<Player<Day>>)
    ensures forall k :: 0 <= k < |Pairs(players)| ==>
              Pairs(players)[k] == Comparison(players[Origin(|players|, k).i].day, players[Origin(|players|, k).j].day)
  {
    PairsFollowIndexPairs(players);
  }

  /** Completeness: for two positions i < j the comparison of their days sits at place Rank(n, i, j). */
  lemma PairsComplete<Day>(players: seq<Player<Day>>, i: nat, j: nat)
    requires i < j < |players|
    ensures Rank(|players|, i, j) < |Pairs(players)|
    ensures Pairs(players)[Rank(|players|, i, j)] == Comparison(players[i].day, players[j].day)
  {
    PairsFollowIndexPairs(players);
    IndexPairsComplete(|players|);
  }

  /** Each pair of positions i < j contributes exactly one comparison: place k comes from (i, j)
      if and only if k is the rank of (i, j). */
  lemma PairsExactlyOnce<Day>(players: seq<Player<Day>>, i: nat, j: nat)
    requires i < j < |players|
    ensures forall k :: 0 <= k < |Pairs(players)| ==>
              (Origin(|players|, k) == IndexPair(i, j) <==> k == Rank(|players|, i, j))
  {
    PairsFollowIndexPairs(players);
    IndexPairsExactlyOnce(|players|, i, j);
  }

  /** Order: earlier places come from lexicographically earlier position pairs. */
  lemma PairsOrdered<Day>(players: seq<Player<Day>>)
    ensures forall k, l :: 0 <= k < l < |Pairs(players)| ==>
              Before(Origin(|players|, k), Origin(|players|, l))
  {
    PairsFollowIndexPairs(players);
    IndexPairsSorted(|players|);
  }

  /** The days are copied as they stand, not sorted: a later-born player listed first gives start > end. */
  lemma StartMayFollowEnd()
    ensures Pairs([Player(300), Player(12)]) == [Comparison(300, 12)]
  {
  }

  /** One pass of the inner `forEach`: push the comparison of a with each later player, in order. */
  method PushRow<Day>(data: seq<Comparison<Day>>, a: Player<Day>, later: seq<Player<Day>>) returns (out: seq<Comparison<Day>>)
    ensures |out| == |data| + |later|
    ensures out[..|data|] == data
    ensures forall k :: 0 <= k < |later| ==> out[|data| + k] == Comparison(a.day, later[k].day)
    ensures out == data + Row(a, later)
  {
    out := data;
    var j := 0;
    while j < |later|
      invariant 0 <= j <= |later|
      invariant out == data + Row(a, later)[..j]
    {
      out := out + [Comparison(a.day, later[j].day)];
      j := j + 1;
    }
    assert Row(a, later)[..j] == Row(a, later);
  }

  /** Appending row i to the comparisons of the rows before it gives the comparisons of rows 0..i. */
  lemma BuildStep<Day>(players: seq<Player<Day>>, i: nat, data: seq<Comparison<Day>>, next: seq<Comparison<Day>>)
    requires i < |players|
    requires data + Pairs(players[i..]) == Pairs(players)
    requires next == data + Row(players[i], players[i + 1..])
    ensures next + Pairs(players[i + 1..]) == Pairs(players)
  {
    PairsUnfold(players, i);
    assert next + Pairs(players[i + 1..]) == data + (Row(players[i], players[i + 1..]) + Pairs(players[i + 1..]));
  }

  /** The comparison list as `update` builds it: a fresh list, then one row per player in input order. */
  method BuildComparisons<Day>(players: seq<Player<Day>>) returns (data: seq<Comparison<Day>>)
    ensures data == Pairs(players)
    ensures |data| == |players| * (|players| - 1) / 2
  {
    data := [];
    var i := 0;
    while i < |players|
      invariant 0 <= i <= |players|
      invariant data + Pairs(players[i..]) == Pairs(players)
    {
      var next := PushRow(data, players[i], players[i + 1..]);
      BuildStep(players, i, data, next);
      data := next;
      i := i + 1;
    }
    assert players[i..] == [];
  }
}
