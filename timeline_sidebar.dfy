/**
 * The timeline sidebar: memories grouped by year, latest year first, each
 * year with the months that have memories and its memory count; the badge
 * of each month; and the jump from an empty month to the nearest month
 * that has memories. Memory dates enter as calendar days.
 */
module TimelineSidebar {
  import opened Wrappers
  import opened Dates
  import opened Sorting

  /** One year of `timelineData`: its months in ascending order and its memory count. */
  datatype YearEntry = YearEntry(year: int, months: seq<int>, count: nat)

  /** The per-year accumulator of the `forEach`: the month set, in insertion order, and the count. */
  datatype YearData = YearData(months: seq<int>, count: nat)

  // ---- what the grouping promises ----

  function YearsIn(ds: seq<Day>): set<int>
  {
    set i | 0 <= i < |ds| :: ds[i].year
  }

  function MonthsIn(ds: seq<Day>, year: int): set<int>
  {
    set i | 0 <= i < |ds| && ds[i].year == year :: ds[i].month
  }

  /** The number of memories in a year. */
  function CountIn(ds: seq<Day>, year: int): (n: nat)
    ensures n <= |ds|
  {
    if |ds| == 0 then 0 else CountIn(ds[..|ds| - 1], year) + (if ds[|ds| - 1].year == year then 1 else 0)
  }

  /** The month badge: the memories in that year and month. */
  function Badge(ds: seq<Day>, year: int, month: int): (n: nat)
    ensures n <= CountIn(ds, year)
  {
    if |ds| == 0 then 0
    else Badge(ds[..|ds| - 1], year, month) + (if ds[|ds| - 1].year == year && ds[|ds| - 1].month == month then 1 else 0)
  }

  predicate StrictlyIncreasing(s: seq<int>)
  {
    forall i, j :: 0 <= i < j < |s| ==> s[i] < s[j]
  }

  /** A month shows a badge exactly when it is among the year's months. */
  lemma {:induction false} BadgeIffMonth(ds: seq<Day>, year: int, month: int)
    ensures Badge(ds, year, month) > 0 <==> month in MonthsIn(ds, year)
    decreases |ds|
  {
    if |ds| > 0 {
      var init := ds[..|ds| - 1];
      BadgeIffMonth(init, year, month);
      AppendOne(init, ds[|ds| - 1]);
      assert init + [ds[|ds| - 1]] == ds;
    }
  }

  /** How one more memory changes the years, the months and the counts. */
  lemma AppendOne(ds: seq<Day>, d: Day)
    ensures YearsIn(ds + [d]) == YearsIn(ds) + {d.year}
    ensures forall y :: MonthsIn(ds + [d], y) == MonthsIn(ds, y) + (if d.year == y then {d.month} else {})
    ensures forall y :: CountIn(ds + [d], y) == CountIn(ds, y) + (if d.year == y then 1 else 0)
  {
    var e := ds + [d];
    assert e[..|ds|] == ds;
    assert forall i :: 0 <= i < |ds| ==> e[i] == ds[i];
    assert e[|ds|] == d;
    forall y
      ensures MonthsIn(e, y) == MonthsIn(ds, y) + (if d.year == y then {d.month} else {})
    {
      assert forall m :: m in MonthsIn(e, y) ==> m in MonthsIn(ds, y) + (if d.year == y then {d.month} else {}) by {
        forall m | m in MonthsIn(e, y)
          ensures m in MonthsIn(ds, y) + (if d.year == y then {d.month} else {})
        {
          var i :| 0 <= i < |e| && e[i].year == y && e[i].month == m;
          if i < |ds| {
            assert ds[i].year == y && ds[i].month == m;
          }
        }
      }
    }
    assert forall y :: y in YearsIn(e) ==> y in YearsIn(ds) + {d.year} by {
      forall y | y in YearsIn(e)
        ensures y in YearsIn(ds) + {d.year}
      {
        var i :| 0 <= i < |e| && e[i].year == y;
        if i < |ds| {
          assert ds[i].year == y;
        }
      }
    }
  }

  // ---- counts add up ----

  /** The sum of the counts of some years. */
  function SumCounts(ds: seq<Day>, years: seq<int>): nat
  {
    if |years| == 0 then 0 else SumCounts(ds, years[..|years| - 1]) + CountIn(ds, years[|years| - 1])
  }

  predicate Distinct(s: seq<int>)
  {
    forall i, j :: 0 <= i < j < |s| ==> s[i] != s[j]
  }

  /** The number of the listed years equal to y: one for a year listed once, none for one not listed. */
  function Hits(years: seq<int>, y: int): nat
  {
    if |years| == 0 then 0 else Hits(years[..|years| - 1], y) + (if years[|years| - 1] == y then 1 else 0)
  }

  lemma {:induction false} HitsOnce(years: seq<int>, y: int)
    requires Distinct(years)
    ensures y in years ==> Hits(years, y) == 1
    ensures y !in years ==> Hits(years, y) == 0
    decreases |years|
  {
    if |years| > 0 {
      var init := years[..|years| - 1];
      HitsOnce(init, y);
      assert years == init + [years[|years| - 1]];
    }
  }

  /** A year without memories has no months and a count of 0. */
  lemma {:induction false} NoYearNoCount(ds: seq<Day>, year: int)
    requires year !in YearsIn(ds)
    ensures MonthsIn(ds, year) == {} && CountIn(ds, year) == 0
    decreases |ds|
  {
    if |ds| > 0 {
      var init := ds[..|ds| - 1];
      AppendOne(init, ds[|ds| - 1]);
      assert init + [ds[|ds| - 1]] == ds;
      NoYearNoCount(init, year);
    }
  }

  /** Adding one memory adds one to the sum over any year list, once per listing of its year. */
  lemma {:induction false} SumCountsAppend(ds: seq<Day>, d: Day, years: seq<int>)
    ensures SumCounts(ds + [d], years) == SumCounts(ds, years) + Hits(years, d.year)
    decreases |years|
  {
    AppendOne(ds, d);
    if |years| > 0 {
      SumCountsAppend(ds, d, years[..|years| - 1]);
    }
  }

  /** Over distinct years that cover every memory's year, the counts add up to the number of memories. */
  lemma {:induction false} CountsSumToTotal(ds: seq<Day>, years: seq<int>)
    requires Distinct(years)
    requires forall y :: y in YearsIn(ds) ==> y in years
    ensures SumCounts(ds, years) == |ds|
    decreases |ds|
  {
    if |ds| == 0 {
      ZeroCounts(years);
    } else {
      var init := ds[..|ds| - 1];
      var d := ds[|ds| - 1];
      assert init + [d] == ds;
      AppendOne(init, d);
      CountsSumToTotal(init, years);
      SumCountsAppend(init, d, years);
      HitsOnce(years, d.year);
    }
  }

  lemma {:induction false} ZeroCounts(years: seq<int>)
    ensures SumCounts([], years) == 0
    decreases |years|
  {
    if |years| > 0 {
      ZeroCounts(years[..|years| - 1]);
    }
  }

  // ---- the grouping ----

  predicate StrictlyDecreasing(s: seq<int>)
  {
    forall i, j :: 0 <= i < j < |s| ==> s[i] > s[j]
  }

  /** A sequence is duplicate-free exactly when no element occurs twice in its multiset. */
  lemma {:induction false} DistinctMultiplicity(s: seq<int>)
    ensures Distinct(s) <==> forall x :: multiset(s)[x] <= 1
    decreases |s|
  {
    if |s| > 0 {
      var init, l := s[..|s| - 1], s[|s| - 1];
      assert s == init + [l];
      DistinctMultiplicity(init);
      assert multiset(s) == multiset(init) + multiset{l};
      if Distinct(s) {
        assert Distinct(init);
        assert forall k :: 0 <= k < |init| ==> init[k] != l by {
          forall k | 0 <= k < |init|
            ensures init[k] != l
          {
            assert s[k] != s[|s| - 1];
          }
        }
      } else {
        var i, j :| 0 <= i < j < |s| && s[i] == s[j];
        if j < |s| - 1 {
          assert init[i] == init[j];
          var x :| multiset(init)[x] > 1;
          assert multiset(s)[x] > 1;
        } else {
          assert s[i] in init;
          assert multiset(s)[l] > 1;
        }
      }
    }
  }

  /** Sorting a duplicate-free list of numbers ascending gives a strictly increasing one with the same elements. */
  lemma SortedAscending(s: seq<int>)
    requires Distinct(s)
    ensures TotalPreorder((a: int, b: int) => a <= b)
    ensures StrictlyIncreasing(SortBy(s, (a: int, b: int) => a <= b))
    ensures forall x :: x in SortBy(s, (a: int, b: int) => a <= b) <==> x in s
  {
    var le := (a: int, b: int) => a <= b;
    var r := SortBy(s, le);
    SortByKeepsElements(s, le);
    DistinctMultiplicity(s);
    DistinctMultiplicity(r);
  }

  /** Sorting a duplicate-free list of numbers descending gives a strictly decreasing one with the same elements. */
  lemma SortedDescending(s: seq<int>)
    requires Distinct(s)
    ensures TotalPreorder((a: int, b: int) => a >= b)
    ensures StrictlyDecreasing(SortBy(s, (a: int, b: int) => a >= b))
    ensures forall x :: x in SortBy(s, (a: int, b: int) => a >= b) <==> x in s
  {
    var ge := (a: int, b: int) => a >= b;
    var r := SortBy(s, ge);
    SortByKeepsElements(s, ge);
    DistinctMultiplicity(s);
    DistinctMultiplicity(r);
  }

  /** `Set.add`: a JavaScript set keeps its elements once each, in insertion order. */
  function Add(s: seq<int>, x: int): (r: seq<int>)
    ensures Distinct(s) ==> Distinct(r)
    ensures forall y :: y in r <==> y in s || y == x
  {
    if x in s then s else s + [x]
  }

  /**
   * The `forEach` that fills the year map: the years in insertion order, and
   * per year its months (a set, kept in insertion order) and its count.
   */
  method GroupByYear(ds: seq<Day>) returns (years: seq<int>, groups: map<int, YearData>)
    ensures Distinct(years)
    ensures forall y :: y in years <==> y in YearsIn(ds)
    ensures groups.Keys == YearsIn(ds)
    ensures forall y :: y in groups ==>
      && Distinct(groups[y].months)
      && (forall m :: m in groups[y].months <==> m in MonthsIn(ds, y))
      && groups[y].count == CountIn(ds, y)
  {
    years := [];
    groups := map[];
    for i := 0 to |ds|
      invariant Distinct(years)
      invariant forall y :: y in years <==> y in YearsIn(ds[..i])
      invariant groups.Keys == YearsIn(ds[..i])
      invariant forall y :: y in groups ==>
        && Distinct(groups[y].months)
        && (forall m :: m in groups[y].months <==> m in MonthsIn(ds[..i], y))
        && groups[y].count == CountIn(ds[..i], y)
    {
      var d := ds[i];
      AppendOne(ds[..i], d);
      assert ds[..i + 1] == ds[..i] + [d];
      if d.year !in groups {
        NoYearNoCount(ds[..i], d.year);
        groups := groups[d.year := YearData([], 0)];
        years := years + [d.year];
      }
      var data := groups[d.year];
      groups := groups[d.year := YearData(Add(data.months, d.month), data.count + 1)];
    }
    assert ds[..|ds|] == ds;
  }

  /**
   * `timelineData`: one entry per distinct year, latest first; each with
   * that year's months in ascending order and its number of memories.
   */
  method TimelineData(ds: seq<Day>) returns (r: seq<YearEntry>)
    ensures forall i, j :: 0 <= i < j < |r| ==> r[i].year > r[j].year
    ensures forall y :: y in YearsIn(ds) <==> exists k :: 0 <= k < |r| && r[k].year == y
    ensures forall k :: 0 <= k < |r| ==>
      && StrictlyIncreasing(r[k].months)
      && (forall m :: m in r[k].months <==> m in MonthsIn(ds, r[k].year))
      && r[k].count == CountIn(ds, r[k].year)
    ensures forall k :: 0 <= k < |r| ==> r[k].months != []
    ensures (forall i :: 0 <= i < |ds| ==> WellFormed(ds[i])) ==>
      forall k, m :: 0 <= k < |r| && m in r[k].months ==> 1 <= m <= 12
  {
    var inserted, groups := GroupByYear(ds);
    SortedDescending(inserted);
    var years := SortBy(inserted, (a: int, b: int) => a >= b);
    r := [];
    for k := 0 to |years|
      invariant |r| == k
      invariant forall i :: 0 <= i < k ==> r[i].year == years[i]
      invariant forall i :: 0 <= i < k ==>
        && StrictlyIncreasing(r[i].months)
        && (forall m :: m in r[i].months <==> m in MonthsIn(ds, r[i].year))
        && r[i].count == CountIn(ds, r[i].year)
    {
      assert years[k] in inserted;
      var data := groups[years[k]];
      SortedAscending(data.months);
      var months := SortBy(data.months, (a: int, b: int) => a <= b);
      r := r + [YearEntry(years[k], months, data.count)];
    }
    forall y | y in YearsIn(ds)
      ensures exists k :: 0 <= k < |r| && r[k].year == y
    {
      var k :| 0 <= k < |years| && years[k] == y;
      assert r[k].year == y;
    }
    forall k | 0 <= k < |r|
      ensures r[k].months != []
    {
      NonEmptyYear(ds, r[k].year);
    }
    if forall i :: 0 <= i < |ds| ==> WellFormed(ds[i]) {
      forall k, m | 0 <= k < |r| && m in r[k].months
        ensures 1 <= m <= 12
      {
        assert m in MonthsIn(ds, r[k].year);
      }
    }
  }

  /** A year with memories has a month. */
  lemma NonEmptyYear(ds: seq<Day>, year: int)
    requires year in YearsIn(ds)
    ensures MonthsIn(ds, year) != {}
  {
    var i :| 0 <= i < |ds| && ds[i].year == year;
    assert ds[i].month in MonthsIn(ds, year);
  }

  /** The month button's `disabled`: an empty month, and no year with any month. */
  predicate MonthDisabled(r: seq<YearEntry>, hasPhotos: bool)
  {
    !hasPhotos && !exists k :: 0 <= k < |r| && |r[k].months| > 0
  }

  /**
   * Buttons are drawn only for the listed years, each of which has a month,
   * so no month button of the timeline is ever disabled.
   */
  lemma NoMonthDisabled(r: seq<YearEntry>, k: int, hasPhotos: bool)
    requires 0 <= k < |r| && r[k].months != []
    ensures !MonthDisabled(r, hasPhotos)
  {
    assert |r[k].months| > 0;
  }

  /** The years of the timeline, as listed. */
  function YearsOf(r: seq<YearEntry>): (ys: seq<int>)
    ensures |ys| == |r| && forall k :: 0 <= k < |r| ==> ys[k] == r[k].year
  {
    seq(|r|, k requires 0 <= k < |r| => r[k].year)
  }

  /** The counts of a grouping with the promised shape add up to the number of memories. */
  lemma TimelineCountsSum(ds: seq<Day>, r: seq<YearEntry>)
    requires forall i, j :: 0 <= i < j < |r| ==> r[i].year > r[j].year
    requires forall y :: y in YearsIn(ds) ==> exists k :: 0 <= k < |r| && r[k].year == y
    ensures SumCounts(ds, YearsOf(r)) == |ds|
  {
    var ys := YearsOf(r);
    forall y | y in YearsIn(ds)
      ensures y in ys
    {
      var k :| 0 <= k < |r| && r[k].year == y;
      assert ys[k] == y;
    }
    CountsSumToTotal(ds, ys);
  }

  // ---- jumping to a month ----

  function Abs(x: int): nat
  {
    if x < 0 then -x else x
  }

  /** The first of the months closest to the clicked one: a later month replaces it only when strictly closer. */
  function Nearest(months: seq<int>, month: int): (n: int)
    requires |months| > 0
    ensures n in months
  {
    if |months| == 1 then months[0]
    else
      var n := Nearest(months[..|months| - 1], month);
      var m := months[|months| - 1];
      if Abs(m - month) < Abs(n - month) then m else n
  }

  /** No listed month is closer than the nearest. */
  lemma {:induction false} NearestIsClosest(months: seq<int>, month: int)
    requires |months| > 0
    ensures forall k :: 0 <= k < |months| ==> Abs(Nearest(months, month) - month) <= Abs(months[k] - month)
    decreases |months|
  {
    if |months| > 1 {
      var init := months[..|months| - 1];
      NearestIsClosest(init, month);
      assert forall k :: 0 <= k < |init| ==> init[k] == months[k];
    }
  }

  /** In an ascending month list, a tie goes to the smaller month. */
  lemma {:induction false} NearestTiesToSmaller(months: seq<int>, month: int)
    requires |months| > 0 && StrictlyIncreasing(months)
    ensures forall k :: 0 <= k < |months| && Abs(months[k] - month) == Abs(Nearest(months, month) - month) ==>
      Nearest(months, month) <= months[k]
    decreases |months|
  {
    if |months| > 1 {
      var init := months[..|months| - 1];
      NearestTiesToSmaller(init, month);
      assert forall k :: 0 <= k < |init| ==> init[k] == months[k];
      var n := Nearest(init, month);
      assert n in init;
    }
  }

  /** The `for...of` of `handleMonthClick`. */
  method NearestMonth(months: seq<int>, month: int) returns (nearest: int)
    requires |months| > 0
    ensures nearest == Nearest(months, month)
  {
    nearest := months[0];
    for i := 1 to |months|
      invariant nearest == Nearest(months[..i], month)
    {
      assert months[..i + 1][..i] == months[..i];
      if Abs(months[i] - month) < Abs(nearest - month) {
        nearest := months[i];
      }
    }
    assert months[..|months|] == months;
  }

  /** `timelineData.find(y => y.year === year)`. */
  function FindYear(r: seq<YearEntry>, year: int): (e: Option<YearEntry>)
    ensures e.Some? ==> e.value in r && e.value.year == year
    ensures e.None? <==> forall k :: 0 <= k < |r| ==> r[k].year != year
  {
    if |r| == 0 then None else if r[0].year == year then Some(r[0]) else FindYear(r[1..], year)
  }

  /**
   * `handleMonthClick(year, month, hasPhotos)`: a month with memories is
   * selected as it is; an empty one jumps to the nearest month of that year
   * with memories; a year without any selects nothing.
   */
  method HandleMonthClick(r: seq<YearEntry>, year: int, month: int, hasPhotos: bool) returns (selected: Option<(int, int)>)
    ensures hasPhotos ==> selected == Some((year, month))
    ensures !hasPhotos ==>
      var e := FindYear(r, year);
      && (e.None? || e.value.months == [] ==> selected == None)
      && (e.Some? && e.value.months != [] ==> selected == Some((year, Nearest(e.value.months, month))))
  {
    if hasPhotos {
      return Some((year, month));
    }
    var entry := FindYear(r, year);
    if entry.Some? && |entry.value.months| > 0 {
      var nearest := NearestMonth(entry.value.months, month);
      return Some((year, nearest));
    }
    return None;
  }
}
