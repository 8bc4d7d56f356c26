/**
 * The rank-sum statistic of two samples: midranks over the pooled, sorted values, and their
 * meaning as a count of pairs.
 *
 * Specification functions count half points, so that a tie is worth one and a win two.
 */
module RankSum {
  import opened Options

  datatype Entry = Entry(value: real, first: bool)

  /** Half points of a value against another. */
  function Score(x: real, y: real): nat {
    if x > y then 2 else if x == y then 1 else 0
  }

  /** Half points of each value of `a` against each of `b`: two a win, one a tie. */
  function PairScore(a: seq<real>, b: seq<real>): nat {
    if a == [] then 0 else PairScore(a[..|a| - 1], b) + ScoreAgainst(a[|a| - 1], b)
  }

  function ScoreAgainst(x: real, b: seq<real>): nat {
    if b == [] then 0 else ScoreAgainst(x, b[..|b| - 1]) + Score(x, b[|b| - 1])
  }

  // ---- Sums over tagged entries ------------------------------------------------------------

  /** Half points of a value against the entries of one group. */
  function Row(x: real, s: seq<Entry>, first: bool): nat {
    if s == [] then 0
    else Row(x, s[..|s| - 1], first) + if s[|s| - 1].first == first then Score(x, s[|s| - 1].value) else 0
  }

  function RowAll(x: real, s: seq<Entry>): nat {
    Row(x, s, true) + Row(x, s, false)
  }

  /** Half points of the entries of one group of `s` against those of a group of `t`. */
  function Grid(s: seq<Entry>, first: bool, t: seq<Entry>, other: bool): nat {
    if s == [] then 0
    else Grid(s[..|s| - 1], first, t, other) + if s[|s| - 1].first == first then Row(s[|s| - 1].value, t, other) else 0
  }

  function Count(s: seq<Entry>, first: bool): nat {
    if s == [] then 0 else Count(s[..|s| - 1], first) + if s[|s| - 1].first == first then 1 else 0
  }

  lemma {:induction false} RowCat(x: real, s: seq<Entry>, t: seq<Entry>, first: bool)
    ensures Row(x, s + t, first) == Row(x, s, first) + Row(x, t, first)
  {
    if t == [] {
      assert s + t == s;
    } else {
      assert (s + t)[..|s + t| - 1] == s + t[..|t| - 1];
      RowCat(x, s, t[..|t| - 1], first);
    }
  }

  lemma {:induction false} GridCat(s: seq<Entry>, u: seq<Entry>, first: bool, t: seq<Entry>, other: bool)
    ensures Grid(s + u, first, t, other) == Grid(s, first, t, other) + Grid(u, first, t, other)
  {
    if u == [] {
      assert s + u == s;
    } else {
      assert (s + u)[..|s + u| - 1] == s + u[..|u| - 1];
      GridCat(s, u[..|u| - 1], first, t, other);
    }
  }

  lemma {:induction false} CountCat(s: seq<Entry>, t: seq<Entry>, first: bool)
    ensures Count(s + t, first) == Count(s, first) + Count(t, first)
  {
    if t == [] {
      assert s + t == s;
    } else {
      assert (s + t)[..|s + t| - 1] == s + t[..|t| - 1];
      CountCat(s, t[..|t| - 1], first);
    }
  }

  /** A value and an entry share two half points. */
  lemma {:induction false} RowMirror(x: real, t: seq<Entry>, other: bool, g: bool)
    ensures Row(x, t, other) + Grid(t, other, [Entry(x, g)], g) == 2 * Count(t, other)
  {
    if t != [] {
      var last := t[|t| - 1];
      RowMirror(x, t[..|t| - 1], other, g);
      RowOfOne(last.value, Entry(x, g), g);
    }
  }

  lemma RowOfOne(x: real, e: Entry, first: bool)
    ensures Row(x, [e], first) == if e.first == first then Score(x, e.value) else 0
  {
    assert [e][..0] == [];
  }

  lemma {:induction false} GridOverCat(s: seq<Entry>, first: bool, t: seq<Entry>, u: seq<Entry>, other: bool)
    ensures Grid(s, first, t + u, other) == Grid(s, first, t, other) + Grid(s, first, u, other)
  {
    if s != [] {
      GridOverCat(s[..|s| - 1], first, t, u, other);
      RowCat(s[|s| - 1].value, t, u, other);
    }
  }

  lemma {:induction false} GridOverOther(t: seq<Entry>, other: bool, e: Entry, first: bool)
    requires e.first != first
    ensures Grid(t, other, [e], first) == 0
  {
    if t != [] {
      GridOverOther(t[..|t| - 1], other, e, first);
      RowOfOne(t[|t| - 1].value, e, first);
    }
  }

  lemma OneMore(c: nat, d: nat)
    ensures 2 * (c + 1) * d == 2 * c * d + 2 * d
  {
  }

  /** Every pair of entries shares two half points, whichever way it is counted. */
  lemma {:induction false} GridMirror(s: seq<Entry>, first: bool, t: seq<Entry>, other: bool)
    ensures Grid(s, first, t, other) + Grid(t, other, s, first) == 2 * Count(s, first) * Count(t, other)
  {
    if s == [] {
      GridOverNothing(t, other, first);
    } else {
      var init, last := s[..|s| - 1], s[|s| - 1];
      GridMirror(init, first, t, other);
      assert s == init + [last];
      GridOverCat(t, other, init, [last], first);
      if last.first == first {
        RowMirror(last.value, t, other, first);
        OneMore(Count(init, first), Count(t, other));
      } else {
        GridOverOther(t, other, last, first);
      }
    }
  }

  lemma {:induction false} GridOverNothing(t: seq<Entry>, other: bool, first: bool)
    ensures Grid(t, other, [], first) == 0
  {
    if t != [] {
      GridOverNothing(t[..|t| - 1], other, first);
    }
  }

  // ---- Sorting -----------------------------------------------------------------------------

  ghost predicate Sorted(s: seq<Entry>) {
    forall i, j | 0 <= i < j < |s| :: s[i].value <= s[j].value
  }

  /** Inserts behind the entries that are not greater. */
  function Insert(s: seq<Entry>, e: Entry): (r: seq<Entry>)
    ensures |r| == |s| + 1
  {
    if s == [] || s[|s| - 1].value <= e.value then s + [e] else Insert(s[..|s| - 1], e) + [s[|s| - 1]]
  }

  /** A stable sort by value. */
  function Sort(s: seq<Entry>): (r: seq<Entry>)
    ensures |r| == |s|
  {
    if s == [] then [] else Insert(Sort(s[..|s| - 1]), s[|s| - 1])
  }

  lemma {:induction false} InsertSorts(s: seq<Entry>, e: Entry)
    requires Sorted(s)
    ensures Sorted(Insert(s, e))
    ensures forall x | x in Insert(s, e) :: x in s || x == e
  {
    if s != [] && s[|s| - 1].value > e.value {
      var init, last := s[..|s| - 1], s[|s| - 1];
      InsertSorts(init, e);
      var inserted := Insert(init, e);
      forall i | 0 <= i < |inserted| ensures inserted[i].value <= last.value {
        assert inserted[i] in inserted;
      }
    }
  }

  lemma {:induction false} InsertAdds(s: seq<Entry>, e: Entry, x: real, first: bool, t: seq<Entry>, other: bool)
    ensures Row(x, Insert(s, e), first) == Row(x, s + [e], first)
    ensures Grid(Insert(s, e), first, t, other) == Grid(s + [e], first, t, other)
    ensures Count(Insert(s, e), first) == Count(s + [e], first)
  {
    hide Row, Grid, Count;
    if s != [] && s[|s| - 1].value > e.value {
      var init, last := s[..|s| - 1], s[|s| - 1];
      InsertAdds(init, e, x, first, t, other);
      assert s == init + [last];
      RowCat(x, init, [last], first); RowCat(x, s, [e], first); RowCat(x, init, [e], first);
      RowCat(x, Insert(init, e), [last], first);
      GridCat(init, [last], first, t, other); GridCat(s, [e], first, t, other); GridCat(init, [e], first, t, other);
      GridCat(Insert(init, e), [last], first, t, other);
      CountCat(init, [last], first); CountCat(s, [e], first); CountCat(init, [e], first);
      CountCat(Insert(init, e), [last], first);
    }
  }

  lemma {:induction false} SortSorts(s: seq<Entry>)
    ensures Sorted(Sort(s))
  {
    if s != [] {
      SortSorts(s[..|s| - 1]);
      InsertSorts(Sort(s[..|s| - 1]), s[|s| - 1]);
    }
  }

  ghost predicate SameSums(x: real, s: seq<Entry>, u: seq<Entry>, first: bool, t: seq<Entry>, other: bool) {
    && Row(x, s, first) == Row(x, u, first) && Grid(s, first, t, other) == Grid(u, first, t, other)
    && Count(s, first) == Count(u, first)
  }

  /** Inserting an entry adds as much to every sum as appending it. */
  lemma InsertLikeSnoc(s: seq<Entry>, u: seq<Entry>, e: Entry, x: real, first: bool, t: seq<Entry>, other: bool)
    requires SameSums(x, s, u, first, t, other)
    ensures SameSums(x, Insert(s, e), u + [e], first, t, other)
  {
    hide Row, Grid, Count, Insert;
    InsertAdds(s, e, x, first, t, other);
    RowCat(x, s, [e], first); RowCat(x, u, [e], first);
    GridCat(s, [e], first, t, other); GridCat(u, [e], first, t, other);
    CountCat(s, [e], first); CountCat(u, [e], first);
  }

  /** Sorting keeps every sum over the entries. */
  lemma {:induction false} SortKeepsSums(s: seq<Entry>, x: real, first: bool, t: seq<Entry>, other: bool)
    ensures Row(x, Sort(s), first) == Row(x, s, first)
    ensures Grid(Sort(s), first, t, other) == Grid(s, first, t, other)
    ensures Count(Sort(s), first) == Count(s, first)
  {
    hide Row, Grid, Count, Insert;
    if s != [] {
      var init, last := s[..|s| - 1], s[|s| - 1];
      SortKeepsSums(init, x, first, t, other);
      InsertLikeSnoc(Sort(init), init, last, x, first, t, other);
      assert s == init + [last];
    }
  }

  lemma {:induction false} GridOverSorted(s: seq<Entry>, first: bool, t: seq<Entry>, other: bool)
    ensures Grid(s, first, Sort(t), other) == Grid(s, first, t, other)
  {
    if s != [] {
      GridOverSorted(s[..|s| - 1], first, t, other);
      SortKeepsSums(t, s[|s| - 1].value, other, [], other);
    }
  }

  // ---- Midranks ----------------------------------------------------------------------------

  /** Twice the midrank of a value: one more than its half points against everything. */
  function TwiceRank(x: real, s: seq<Entry>): nat {
    RowAll(x, s) + 1
  }

  lemma {:induction false} RowOfAlike(x: real, s: seq<Entry>, points: nat)
    requires forall i | 0 <= i < |s| :: Score(x, s[i].value) == points
    ensures RowAll(x, s) == points * |s|
  {
    if s != [] {
      RowOfAlike(x, s[..|s| - 1], points);
    }
  }

  lemma RowAllCat(x: real, s: seq<Entry>, t: seq<Entry>)
    ensures RowAll(x, s + t) == RowAll(x, s) + RowAll(x, t)
  {
    RowCat(x, s, t, true);
    RowCat(x, s, t, false);
  }

  /** Against lesser, equal and greater values in turn, a value counts two, one and none. */
  lemma RowOfThree(x: real, below: seq<Entry>, run: seq<Entry>, above: seq<Entry>)
    requires forall i | 0 <= i < |below| :: below[i].value < x
    requires forall i | 0 <= i < |run| :: run[i].value == x
    requires forall i | 0 <= i < |above| :: x < above[i].value
    ensures RowAll(x, below + run + above) == 2 * |below| + |run|
  {
    hide RowAll;
    RowOfAlike(x, below, 2);
    RowOfAlike(x, run, 1);
    RowOfAlike(x, above, 0);
    RowAllCat(x, below + run, above);
    RowAllCat(x, below, run);
  }

  lemma SortedAround(s: seq<Entry>, i: nat, j: nat)
    requires Sorted(s) && i <= j < |s| && s[i].value == s[j].value
    requires i > 0 ==> s[i - 1].value < s[i].value
    requires j + 1 < |s| ==> s[i].value < s[j + 1].value
    ensures forall k | 0 <= k < i :: s[k].value < s[i].value
    ensures forall k | i <= k <= j :: s[k].value == s[i].value
    ensures forall k | j < k < |s| :: s[i].value < s[k].value
  {
    forall k | 0 <= k < |s| && !(i <= k <= j) ensures if k < i then s[k].value < s[i].value else s[i].value < s[k].value {
      assert k < i - 1 ==> s[k].value <= s[i - 1].value;
      assert k > j + 1 ==> s[j + 1].value <= s[k].value;
    }
  }

  /** In sorted order a run of ties `i..j` shares the mean of its 1-based ranks. */
  lemma RunRank(s: seq<Entry>, i: nat, j: nat)
    requires Sorted(s) && i <= j < |s| && s[i].value == s[j].value
    requires i > 0 ==> s[i - 1].value < s[i].value
    requires j + 1 < |s| ==> s[i].value < s[j + 1].value
    ensures forall k | i <= k <= j :: s[k].value == s[i].value && TwiceRank(s[k].value, s) == i + j + 2
  {
    hide RowAll, Sorted;
    var below, run, above := s[..i], s[i..j + 1], s[j + 1..];
    assert s == below + run + above;
    SortedAround(s, i, j);
    RowOfThree(s[i].value, below, run, above);
  }

  /** Ties share the mean of the ranks they span. */
  method Midranks(joined: seq<Entry>) returns (ranks: array<real>)
    requires Sorted(joined)
    ensures fresh(ranks) && ranks.Length == |joined|
    ensures forall k | 0 <= k < |joined| :: ranks[k] == TwiceRank(joined[k].value, joined) as real / 2.0
  {
    hide TwiceRank;
    ranks := new real[|joined|](_ => 0.0);
    var i := 0;
    while i < |joined|
      invariant i <= |joined|
      invariant 0 < i < |joined| ==> joined[i - 1].value < joined[i].value
      invariant forall k | 0 <= k < i :: ranks[k] == TwiceRank(joined[k].value, joined) as real / 2.0
    {
      var j := i;
      while j + 1 < |joined| && joined[j + 1].value == joined[i].value
        invariant i <= j < |joined| && joined[j].value == joined[i].value
      {
        j := j + 1;
      }
      RunRank(joined, i, j);
      var average := (i + j + 2) as real / 2.0;
      for k := i to j + 1
        invariant forall m | 0 <= m < k :: ranks[m] == TwiceRank(joined[m].value, joined) as real / 2.0
      {
        ranks[k] := average;
      }
      i := j + 1;
    }
  }

  // ---- The statistic -----------------------------------------------------------------------

  /** Twice the sum of the ranks of one group of `s` among `t`. */
  function TwiceRankSum(s: seq<Entry>, first: bool, t: seq<Entry>): nat {
    if s == [] then 0
    else
      TwiceRankSum(s[..|s| - 1], first, t) +
      if s[|s| - 1].first == first then TwiceRank(s[|s| - 1].value, t) else 0
  }

  lemma {:induction false} RankSumIsGrids(s: seq<Entry>, first: bool, t: seq<Entry>)
    ensures TwiceRankSum(s, first, t) == Grid(s, first, t, true) + Grid(s, first, t, false) + Count(s, first)
  {
    if s != [] {
      RankSumIsGrids(s[..|s| - 1], first, t);
    }
  }

  lemma {:induction false} Counts(s: seq<Entry>)
    ensures Count(s, true) + Count(s, false) == |s|
  {
    if s != [] {
      Counts(s[..|s| - 1]);
    }
  }

  lemma HalfSquare(g: nat, n: nat)
    requires g + g == 2 * n * n
    ensures g + n == n * (n + 1)
  {
  }

  /** A group's rank sum exceeds the least possible by its half points against the other group. */
  lemma RankSumCountsPairs(s: seq<Entry>, first: bool)
    ensures var n := Count(s, first); TwiceRankSum(s, first, s) == n * (n + 1) + Grid(s, first, s, !first)
  {
    RankSumIsGrids(s, first, s);
    GridMirror(s, first, s, first);
    HalfSquare(Grid(s, first, s, first), Count(s, first));
  }

  /** All ranks add up to N(N + 1) / 2. */
  lemma RanksAddUp(s: seq<Entry>)
    ensures TwiceRankSum(s, true, s) + TwiceRankSum(s, false, s) == |s| * (|s| + 1)
  {
    RankSumCountsPairs(s, true);
    RankSumCountsPairs(s, false);
    GridMirror(s, true, s, false);
    Counts(s);
    SquareOfSum(Count(s, true), Count(s, false));
  }

  lemma SquareOfSum(m: nat, n: nat)
    ensures m * (m + 1) + n * (n + 1) + 2 * m * n == (m + n) * (m + n + 1)
  {
  }

  function Tag(values: seq<real>, first: bool): seq<Entry> {
    if values == [] then [] else Tag(values[..|values| - 1], first) + [Entry(values[|values| - 1], first)]
  }

  function Pool(a: seq<real>, b: seq<real>): seq<Entry> {
    Tag(a, true) + Tag(b, false)
  }

  lemma {:induction false} TaggedRow(x: real, values: seq<real>, tag: bool, first: bool)
    ensures Row(x, Tag(values, tag), first) == if tag == first then ScoreAgainst(x, values) else 0
    ensures Count(Tag(values, tag), first) == if tag == first then |values| else 0
  {
    if values != [] {
      var init := Tag(values[..|values| - 1], tag);
      TaggedRow(x, values[..|values| - 1], tag, first);
      assert Tag(values, tag)[..|init|] == init;
    }
  }

  lemma PoolRow(x: real, a: seq<real>, b: seq<real>, first: bool)
    ensures Row(x, Pool(a, b), first) == ScoreAgainst(x, if first then a else b)
    ensures Count(Pool(a, b), first) == if first then |a| else |b|
  {
    RowCat(x, Tag(a, true), Tag(b, false), first);
    CountCat(Tag(a, true), Tag(b, false), first);
    TaggedRow(x, a, true, first);
    TaggedRow(x, b, false, first);
  }

  lemma {:induction false} TaggedGrid(values: seq<real>, tag: bool, first: bool, a: seq<real>, b: seq<real>, other: bool)
    ensures Grid(Tag(values, tag), first, Pool(a, b), other) ==
            if tag == first then PairScore(values, if other then a else b) else 0
  {
    if values != [] {
      var n := |values| - 1;
      var init := Tag(values[..n], tag);
      TaggedGrid(values[..n], tag, first, a, b, other);
      PoolRow(values[n], a, b, other);
      assert Tag(values, tag)[..|init|] == init;
    }
  }

  /** The grid of the pooled samples is the count over pairs. */
  lemma PoolGrid(a: seq<real>, b: seq<real>)
    ensures Grid(Pool(a, b), true, Pool(a, b), false) == PairScore(a, b)
    ensures Grid(Pool(a, b), false, Pool(a, b), true) == PairScore(b, a)
  {
    GridCat(Tag(a, true), Tag(b, false), true, Pool(a, b), false);
    GridCat(Tag(a, true), Tag(b, false), false, Pool(a, b), true);
    TaggedGrid(a, true, true, a, b, false);
    TaggedGrid(b, false, true, a, b, false);
    TaggedGrid(a, true, false, a, b, true);
    TaggedGrid(b, false, false, a, b, true);
  }

  /** The first sample's rank sum, by what it counts. */
  lemma RankSumOfSamples(a: seq<real>, b: seq<real>)
    ensures var joined := Sort(Pool(a, b));
            && TwiceRankSum(joined, true, joined) == |a| * (|a| + 1) + PairScore(a, b)
            && PairScore(a, b) + PairScore(b, a) == 2 * |a| * |b|
  {
    var pool := Pool(a, b);
    var joined := Sort(pool);
    PoolRow(0.0, a, b, true);
    PoolRow(0.0, a, b, false);
    SortKeepsSums(pool, 0.0, true, joined, false);
    GridOverSorted(pool, true, pool, false);
    PoolGrid(a, b);
    RankSumCountsPairs(joined, true);
    GridMirror(pool, true, pool, false);
  }

  /** Adds up the ranks of the first sample. */
  method FirstRankSum(joined: seq<Entry>, ranks: array<real>) returns (sum: real)
    requires ranks.Length == |joined|
    requires forall k | 0 <= k < |joined| :: ranks[k] == TwiceRank(joined[k].value, joined) as real / 2.0
    ensures sum == TwiceRankSum(joined, true, joined) as real / 2.0
  {
    hide TwiceRank;
    sum := 0.0;
    for k := 0 to |joined|
      invariant sum == TwiceRankSum(joined[..k], true, joined) as real / 2.0
    {
      assert joined[..k + 1][..k] == joined[..k];
      if joined[k].first {
        sum := sum + ranks[k];
      }
    }
    assert joined[..|joined|] == joined;
  }

  datatype Statistic = Statistic(u1: real, u2: real, u: real, mean: real)

  /**
   * The U statistics: pairs won plus half the pairs tied, from either side; the lesser is never
   * above the mean of the null distribution, so its deviation is never positive.
   */
  method Test(a: seq<real>, b: seq<real>) returns (r: Option<Statistic>)
    ensures r.None? <==> a == [] || b == []
    ensures r.Some? ==>
              && r.value.u1 == PairScore(a, b) as real / 2.0
              && r.value.u2 == PairScore(b, a) as real / 2.0
              && r.value.u1 + r.value.u2 == (|a| * |b|) as real
              && r.value.mean == (|a| * |b|) as real / 2.0
              && (r.value.u == r.value.u1 || r.value.u == r.value.u2)
              && 0.0 <= r.value.u <= r.value.mean
  {
    hide PairScore, TwiceRankSum, TwiceRank, Sort, Pool;
    if |a| == 0 || |b| == 0 {
      return None;
    }
    var joined := Sort(Pool(a, b));
    SortSorts(Pool(a, b));
    var ranks := Midranks(joined);
    var r1 := FirstRankSum(joined, ranks);
    RankSumOfSamples(a, b);
    var u1 := r1 - (|a| * (|a| + 1)) as real / 2.0;
    var u2 := (|a| * |b|) as real - u1;
    return Some(Statistic(u1, u2, if u2 < u1 then u2 else u1, (|a| * |b|) as real / 2.0));
  }
}
