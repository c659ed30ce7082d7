/**
 * Post-processing of a search's results for the topic page: rank indices,
 * category filters, the yearly paper-count series with its forecast gate, and
 * the suggested reading list.
 */
module TopicEvolution {
  import opened Wrappers
  import opened PyStrings
  import opened StableSort
  import opened Records

  // ---------------------------------------------------------------------------
  // Rank index

  /** The results with `list_index` set to each one's position. */
  function WithListIndex(s: seq<ResultRecord>): (r: seq<ResultRecord>)
    ensures |r| == |s|
  {
    seq(|s|, i requires 0 <= i < |s| => s[i].(listIndex := Some(i)))
  }

  /** The loop of `get_search_query_results` that writes `list_index` into each result in place. */
  method AssignListIndex(results: array<ResultRecord>)
    modifies results
    ensures results[..] == WithListIndex(old(results[..]))
  {
    var i := 0;
    while i < results.Length
      invariant 0 <= i <= results.Length
      invariant forall j :: 0 <= j < i ==> results[j] == old(results[j]).(listIndex := Some(j))
      invariant forall j :: i <= j < results.Length ==> results[j] == old(results[j])
    {
      results[i] := results[i].(listIndex := Some(i));
      i := i + 1;
    }
  }

  /**
   * The indices are the ranks: result `j` carries index `i` exactly when `j == i`,
   * so every rank in range is carried by exactly one result; nothing else changes.
   */
  lemma ListIndexIsRank(s: seq<ResultRecord>)
    ensures var r := WithListIndex(s);
      && (forall i, j :: 0 <= i < |r| && 0 <= j < |r| ==> (r[j].listIndex == Some(i) <==> i == j))
      && (forall j :: 0 <= j < |r| ==>
            r[j].paper == s[j].paper && r[j].similarityScore == s[j].similarityScore &&
            r[j].readingScore == s[j].readingScore)
  {
  }

  // ---------------------------------------------------------------------------
  // Category filters

  /**
   * `[mapping[label] + "*" for label in categories]`: one prefix pattern per
   * selected label, in order; a label missing from the mapping raises KeyError.
   */
  function CategoryFilters(mapping: map<string, string>, labels: seq<string>): (r: Option<seq<string>>)
    ensures r.Some? <==> forall i :: 0 <= i < |labels| ==> labels[i] in mapping
    ensures r.Some? ==> |r.value| == |labels|
    ensures r.Some? ==> forall i :: 0 <= i < |labels| ==> r.value[i] == mapping[labels[i]] + "*"
  {
    if labels == [] then Some([])
    else if labels[0] !in mapping then None
    else
      match CategoryFilters(mapping, labels[1..])
      case None => None
      case Some(rest) =>
        assert forall i :: 0 < i < |labels| ==> labels[i] == labels[1..][i - 1];
        Some([mapping[labels[0]] + "*"] + rest)
  }

  /** Dropping the final "*" of each filter gives back the mapped pattern. */
  lemma CategoryFiltersStripWildcard(mapping: map<string, string>, labels: seq<string>, i: nat)
    requires CategoryFilters(mapping, labels).Some?
    requires i < |labels|
    ensures var f := CategoryFilters(mapping, labels).value[i];
      |f| >= 1 && f[|f| - 1] == '*' && f[..|f| - 1] == mapping[labels[i]]
  {
  }

  // ---------------------------------------------------------------------------
  // Topic trend

  function MinOf(xs: seq<int>): (m: int)
    requires |xs| > 0
    ensures m in xs && forall x :: x in xs ==> m <= x
  {
    if |xs| == 1 then xs[0]
    else
      var m := MinOf(xs[1..]);
      assert forall x :: x in xs ==> x == xs[0] || x in xs[1..];
      if xs[0] <= m then xs[0] else m
  }

  function MaxOf(xs: seq<int>): (m: int)
    requires |xs| > 0
    ensures m in xs && forall x :: x in xs ==> x <= m
  {
    if |xs| == 1 then xs[0]
    else
      var m := MaxOf(xs[1..]);
      assert forall x :: x in xs ==> x == xs[0] || x in xs[1..];
      if xs[0] >= m then xs[0] else m
  }

  /** Python `list(range(lo, hi))`. */
  function Range(lo: int, hi: int): (r: seq<int>)
    ensures |r| == if lo <= hi then hi - lo else 0
    ensures forall i :: 0 <= i < |r| ==> r[i] == lo + i
    decreases hi - lo
  {
    if lo >= hi then [] else [lo] + Range(lo + 1, hi)
  }

  /** `[v] * n`. */
  function Repeat(v: int, n: nat): (r: seq<int>)
    ensures |r| == n && forall i :: 0 <= i < n ==> r[i] == v
  {
    seq(n, _ => v)
  }

  /** Number of occurrences of `y` in `years`. */
  function Count(years: seq<int>, y: int): nat
  {
    if years == [] then 0 else (if years[0] == y then 1 else 0) + Count(years[1..], y)
  }

  /** The sum of the weights paired with date `k`. */
  function SumFor(dates: seq<int>, weights: seq<int>, k: int): int
    requires |dates| == |weights|
  {
    if dates == [] then 0
    else (if dates[0] == k then weights[0] else 0) + SumFor(dates[1..], weights[1..], k)
  }

  /** One point of the series: a year and its paper count. */
  datatype Point = Point(year: int, count: int)

  /** `DataFrame({'date': dates, 'count_papers': weights}).groupby('date').sum()`: sorted distinct dates with summed weights. */
  function GroupBySum(dates: seq<int>, weights: seq<int>): seq<Point>
    requires |dates| == |weights|
  {
    var keys := SortedDistinct(dates);
    seq(|keys|, i requires 0 <= i < |keys| => Point(keys[i], SumFor(dates, weights, keys[i])))
  }

  /** The series `display_topic_trend` plots: each result's year with weight 1, every year of the span with weight 0. */
  function TrendSeries(years: seq<int>): seq<Point>
    requires |years| > 0
  {
    var allDates := Range(MinOf(years), MaxOf(years) + 1);
    GroupBySum(years + allDates, Repeat(1, |years|) + Repeat(0, |allDates|))
  }

  lemma {:induction false} SumForAppend(d1: seq<int>, w1: seq<int>, d2: seq<int>, w2: seq<int>, k: int)
    requires |d1| == |w1| && |d2| == |w2|
    ensures SumFor(d1 + d2, w1 + w2, k) == SumFor(d1, w1, k) + SumFor(d2, w2, k)
  {
    if d1 != [] {
      SumForAppend(d1[1..], w1[1..], d2, w2, k);
      assert (d1 + d2)[1..] == d1[1..] + d2;
      assert (w1 + w2)[1..] == w1[1..] + w2;
    } else {
      assert d1 + d2 == d2 && w1 + w2 == w2;
    }
  }

  lemma {:induction false} SumForConstant(dates: seq<int>, v: int, k: int)
    ensures SumFor(dates, Repeat(v, |dates|), k) == v * Count(dates, k)
  {
    if dates != [] {
      SumForConstant(dates[1..], v, k);
      assert Repeat(v, |dates|)[1..] == Repeat(v, |dates[1..]|);
    }
  }

  /**
   * Zero-filling: the series runs over every year from the earliest to the
   * latest, ascending and without gaps, and gives each year its number of results.
   */
  lemma TrendSeriesZeroFilled(years: seq<int>)
    requires |years| > 0
    ensures var lo, hi := MinOf(years), MaxOf(years);
      var s := TrendSeries(years);
      && |s| == hi - lo + 1
      && forall i :: 0 <= i < |s| ==> s[i] == Point(lo + i, Count(years, lo + i))
  {
    var lo, hi := MinOf(years), MaxOf(years);
    var allDates := Range(lo, hi + 1);
    var dates := years + allDates;
    var weights := Repeat(1, |years|) + Repeat(0, |allDates|);
    var keys := SortedDistinct(dates);
    forall y
      ensures y in keys <==> y in allDates
    {
      if y in allDates {
        var i :| 0 <= i < |allDates| && allDates[i] == y;
      }
      if y in keys {
        assert y in years || y in allDates;
        if y in years {
          assert allDates[y - lo] == y;
        }
      }
    }
    IncreasingUnique(keys, allDates);
    forall k
      ensures SumFor(dates, weights, k) == Count(years, k)
    {
      SumForAppend(years, Repeat(1, |years|), allDates, Repeat(0, |allDates|), k);
      SumForConstant(years, 1, k);
      SumForConstant(allDates, 0, k);
    }
  }

  /** Total of the counts of a series. */
  function SumCounts(s: seq<Point>): int
  {
    if s == [] then 0 else SumCounts(s[..|s| - 1]) + s[|s| - 1].count
  }

  /** Number of years in `[lo, lo + n)`. */
  function CountBetween(years: seq<int>, lo: int, n: nat): nat
  {
    if years == [] then 0
    else (if lo <= years[0] < lo + n then 1 else 0) + CountBetween(years[1..], lo, n)
  }

  lemma {:induction false} CountBetweenStep(years: seq<int>, lo: int, n: nat)
    ensures CountBetween(years, lo, n + 1) == CountBetween(years, lo, n) + Count(years, lo + n)
  {
    if years != [] {
      CountBetweenStep(years[1..], lo, n);
    }
  }

  lemma {:induction false} CountBetweenAll(years: seq<int>, lo: int, n: nat)
    requires forall y :: y in years ==> lo <= y < lo + n
    ensures CountBetween(years, lo, n) == |years|
  {
    if years != [] {
      assert years[0] in years;
      assert forall y :: y in years[1..] ==> y in years;
      CountBetweenAll(years[1..], lo, n);
    }
  }

  lemma {:induction false} CountBetweenNone(years: seq<int>, lo: int)
    ensures CountBetween(years, lo, 0) == 0
  {
    if years != [] {
      CountBetweenNone(years[1..], lo);
    }
  }

  lemma {:induction false} SumCountsZeroFilled(years: seq<int>, lo: int, n: nat)
    ensures SumCounts(seq(n, i => Point(lo + i, Count(years, lo + i)))) == CountBetween(years, lo, n)
  {
    if n > 0 {
      var s := seq(n, i => Point(lo + i, Count(years, lo + i)));
      assert s[..n - 1] == seq(n - 1, i => Point(lo + i, Count(years, lo + i)));
      SumCountsZeroFilled(years, lo, n - 1);
      CountBetweenStep(years, lo, n - 1);
    } else {
      assert seq(n, i => Point(lo + i, Count(years, lo + i))) == [];
      CountBetweenNone(years, lo);
    }
  }

  /** The counts of the series add up to the number of results. */
  lemma TrendSeriesTotal(years: seq<int>)
    requires |years| > 0
    ensures SumCounts(TrendSeries(years)) == |years|
  {
    var lo, hi := MinOf(years), MaxOf(years);
    TrendSeriesZeroFilled(years);
    var n := hi - lo + 1;
    assert TrendSeries(years) == seq(n, i => Point(lo + i, Count(years, lo + i)));
    SumCountsZeroFilled(years, lo, n);
    CountBetweenAll(years, lo, n);
  }

  /** The trend figure's predicted trace: its x and y values. */
  datatype Forecast = Forecast(xs: seq<int>, ys: seq<real>)

  /**
   * The forecast of `display_topic_trend`: drawn only when the series spans at
   * least five years; it starts at the last year with the last observed count,
   * then the two values the damped-trend model predicts (`predicted`).
   */
  function TopicForecast(years: seq<int>, predicted: (real, real)): (f: Option<Forecast>)
    requires |years| > 0
    ensures f.Some? <==> MaxOf(years) - MinOf(years) + 1 >= 5
    ensures f.Some? ==> f.value.xs == [MaxOf(years), MaxOf(years) + 1, MaxOf(years) + 2]
    ensures f.Some? ==> f.value.ys == [Count(years, MaxOf(years)) as real, predicted.0, predicted.1]
  {
    var lo, hi := MinOf(years), MaxOf(years);
    var allDates := Range(lo, hi + 1);
    var series := TrendSeries(years);
    TrendSeriesZeroFilled(years);
    if |allDates| >= 5 then
      Some(Forecast(Range(hi, hi + 3), [series[|series| - 1].count as real, predicted.0, predicted.1]))
    else None
  }

  lemma {:induction false} CountPositive(years: seq<int>, y: int)
    requires y in years
    ensures Count(years, y) >= 1
  {
    if years[0] != y {
      CountPositive(years[1..], y);
    }
  }

  /** The forecast is anchored on a year that has at least one paper. */
  lemma ForecastAnchorPositive(years: seq<int>, predicted: (real, real))
    requires |years| > 0
    requires TopicForecast(years, predicted).Some?
    ensures TopicForecast(years, predicted).value.ys[0] >= 1.0
  {
    CountPositive(years, MaxOf(years));
  }

  /** Years 2019 and 2021: the missing 2020 is filled with zero, and three years are too few for a forecast. */
  lemma TrendZeroFillExample(predicted: (real, real))
    ensures TrendSeries([2019, 2021]) == [Point(2019, 1), Point(2020, 0), Point(2021, 1)]
    ensures TopicForecast([2019, 2021], predicted).None?
  {
    var years := [2019, 2021];
    assert MinOf(years) == 2019 && MaxOf(years) == 2021;
    TrendSeriesZeroFilled(years);
    assert Count(years, 2019) == 1 && Count(years, 2020) == 0 && Count(years, 2021) == 1;
  }

  // ---------------------------------------------------------------------------
  // Reading list

  /** `len(citations.split(',')) * similarity_score`. */
  function ReadingScore(r: ResultRecord): real
  {
    (CitationCount(r.paper.citations) as real) * r.similarityScore
  }

  /** The results once the scoring loop has written `reading_score` into each. */
  function Scored(s: seq<ResultRecord>): (r: seq<ResultRecord>)
    ensures |r| == |s|
  {
    seq(|s|, i requires 0 <= i < |s| => s[i].(readingScore := Some(ReadingScore(s[i]))))
  }

  /** The comparison of `sorted(..., reverse=True)`. */
  predicate Greater(a: real, b: real)
  {
    a > b
  }

  /** Python's slice `s[:k]`, negative `k` counting from the end. */
  function PyPrefix<T>(s: seq<T>, k: int): (r: seq<T>)
    ensures |r| <= |s|
    ensures k >= 0 ==> |r| == if k < |s| then k else |s|
    ensures r == s[..|r|]
  {
    if k >= 0 then (if k < |s| then s[..k] else s)
    else if |s| + k > 0 then s[..|s| + k]
    else []
  }

  /** The results in decreasing reading score, ties in their original order. */
  function ByReadingScore(s: seq<ResultRecord>): seq<ResultRecord>
  {
    SortBy(Scored(s), ReadingScore, Greater)
  }

  /** What `get_reading_list` returns: the top `k` by reading score, re-ordered by date string. */
  function ReadingListOf(s: seq<ResultRecord>, k: int): seq<ResultRecord>
  {
    SortBy(PyPrefix(ByReadingScore(s), k), DateKey, LexLess)
  }

  /** `get_reading_list`: scores every result in place, then selects and orders. */
  method GetReadingList(results: array<ResultRecord>, k: int) returns (reading: seq<ResultRecord>)
    modifies results
    ensures results[..] == Scored(old(results[..]))
    ensures reading == ReadingListOf(old(results[..]), k)
  {
    var i := 0;
    while i < results.Length
      invariant 0 <= i <= results.Length
      invariant forall j :: 0 <= j < i ==> results[j] == old(results[j]).(readingScore := Some(ReadingScore(old(results[j]))))
      invariant forall j :: i <= j < results.Length ==> results[j] == old(results[j])
    {
      var paper := results[i];
      results[i] := paper.(readingScore := Some(ReadingScore(paper)));
      i := i + 1;
    }
    var top := PyPrefix(SortBy(results[..], ReadingScore, Greater), k);
    reading := SortBy(top, DateKey, LexLess);
  }

  lemma GreaterIsStrictTotalOrder()
    ensures StrictTotalOrder(Greater)
  {
  }

  /** Scoring does not change a record's score, so sorting on it equals sorting on the stored key. */
  lemma ScoredKeepsScore(s: seq<ResultRecord>)
    ensures forall i :: 0 <= i < |s| ==>
      Scored(s)[i].readingScore == Some(ReadingScore(Scored(s)[i])) &&
      ReadingScore(Scored(s)[i]) == ReadingScore(s[i])
  {
    forall i | 0 <= i < |s|
      ensures ReadingScore(Scored(s)[i]) == ReadingScore(s[i])
    {
      assert Scored(s)[i].paper == s[i].paper;
      assert Scored(s)[i].similarityScore == s[i].similarityScore;
    }
  }

  /** The reading list holds `min(k, n)` papers for a non-negative `k`. */
  lemma ReadingListLength(s: seq<ResultRecord>, k: int)
    requires k >= 0
    ensures |ReadingListOf(s, k)| == if k < |s| then k else |s|
  {
    SortByPermutes(Scored(s), ReadingScore, Greater);
    SortByPermutes(PyPrefix(ByReadingScore(s), k), DateKey, LexLess);
  }

  /** The reading list is ordered by the string `year + '-' + month`. */
  lemma ReadingListChronological(s: seq<ResultRecord>, k: int)
    ensures SortedBy(ReadingListOf(s, k), DateKey, LexLess)
  {
    LexLessIsStrictTotalOrder();
    SortBySorted(PyPrefix(ByReadingScore(s), k), DateKey, LexLess);
  }

  /** In a ranking by decreasing score, every element of a prefix scores at least as much as any after it. */
  lemma PrefixDominates(ranked: seq<ResultRecord>, m: nat)
    requires SortedBy(ranked, ReadingScore, Greater)
    requires m <= |ranked|
    ensures forall x, y :: x in ranked[..m] && y in ranked[m..] ==> ReadingScore(x) >= ReadingScore(y)
  {
    forall x, y | x in ranked[..m] && y in ranked[m..]
      ensures ReadingScore(x) >= ReadingScore(y)
    {
      var i :| 0 <= i < m && ranked[..m][i] == x;
      var j :| 0 <= j < |ranked| - m && ranked[m..][j] == y;
      assert ranked[i] == x && ranked[m + j] == y;
      assert !Greater(ReadingScore(ranked[m + j]), ReadingScore(ranked[i]));
    }
  }

  /**
   * The reading list is the top of the ranking: its papers are a selection of
   * the scored results, and none scores below a paper left out.
   */
  lemma ReadingListIsTop(s: seq<ResultRecord>, k: int)
    ensures var ranked := ByReadingScore(s);
      var m := |PyPrefix(ranked, k)|;
      && multiset(ReadingListOf(s, k)) == multiset(ranked[..m])
      && multiset(ranked[..m]) + multiset(ranked[m..]) == multiset(Scored(s))
      && forall x, y :: x in ReadingListOf(s, k) && y in ranked[m..] ==> ReadingScore(x) >= ReadingScore(y)
  {
    var ranked := ByReadingScore(s);
    var top := PyPrefix(ranked, k);
    var m := |top|;
    SortByPermutes(Scored(s), ReadingScore, Greater);
    SortByPermutes(top, DateKey, LexLess);
    assert ranked == ranked[..m] + ranked[m..];
    GreaterIsStrictTotalOrder();
    SortBySorted(Scored(s), ReadingScore, Greater);
    PrefixDominates(ranked, m);
    forall x | x in ReadingListOf(s, k)
      ensures x in ranked[..m]
    {
      assert x in multiset(ReadingListOf(s, k));
    }
  }

  /** Ties on the reading score keep the similarity order: the sort is stable. */
  lemma ReadingScoreTiesKeepRank(s: seq<ResultRecord>, v: real)
    ensures WithKey(ByReadingScore(s), ReadingScore, v) == WithKey(Scored(s), ReadingScore, v)
  {
    GreaterIsStrictTotalOrder();
    SortByStable(Scored(s), ReadingScore, Greater, v);
  }

  /** A paper whose citations field is the sentinel "None" still scores its full similarity. */
  lemma ReadingScoreOfSentinel(r: ResultRecord)
    requires r.paper.citations == "None"
    ensures ReadingScore(r) == r.similarityScore
  {
    CitationCountOfSentinels();
  }
}
