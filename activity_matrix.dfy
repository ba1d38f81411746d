/** `create_activity_matrix` of `scraper/main.py`: a day-by-hour grid counting the
    commits of a repository's first weeks. Commit times are whole seconds since
    the Unix epoch in UTC (the source strips the trailing `Z` and parses a naive
    UTC datetime, so the hour of day is the hour of the epoch offset). */
module ActivityMatrix {
  import opened Wrappers
  import opened GitHubApi
  import opened Arithmetic

  const SecondsPerHour: int := 3600
  const SecondsPerDay: int := 86400
  const SecondsPerWeek: int := 604800

  // ---------------------------------------------------------------------------
  // Sorting the commit times
  // ---------------------------------------------------------------------------

  predicate Sorted(s: seq<int>)
  {
    forall i, j :: 0 <= i < j < |s| ==> s[i] <= s[j]
  }

  function Insert(x: int, s: seq<int>): (r: seq<int>)
    requires Sorted(s)
    ensures Sorted(r)
    ensures multiset(r) == multiset(s) + multiset{x}
    decreases |s|
  {
    if s == [] then [x]
    else if x <= s[0] then [x] + s
    else
      var tail := s[1..];
      assert s == [s[0]] + tail;
      var rest := Insert(x, tail);
      LowerBound(s[0], x, tail, rest);
      [s[0]] + rest
  }

  /** A value below `x` and below every element of `tail` is below every
      element of a permutation of `tail` and `x`. */
  lemma LowerBound(lo: int, x: int, tail: seq<int>, rest: seq<int>)
    requires lo <= x && forall i :: 0 <= i < |tail| ==> lo <= tail[i]
    requires multiset(rest) == multiset(tail) + multiset{x}
    ensures forall i :: 0 <= i < |rest| ==> lo <= rest[i]
  {
    forall i | 0 <= i < |rest|
      ensures lo <= rest[i]
    {
      assert rest[i] in multiset(rest);
      if rest[i] != x {
        assert rest[i] in multiset(tail);
      }
    }
  }

  /** `list.sort()` on the commit times: an ascending permutation. */
  function Sort(s: seq<int>): (r: seq<int>)
    ensures Sorted(r)
    ensures multiset(r) == multiset(s)
    decreases |s|
  {
    if s == [] then []
    else
      assert s == [s[0]] + s[1..];
      Insert(s[0], Sort(s[1..]))
  }

  /** The earliest time. */
  function Min(s: seq<int>): (m: int)
    requires |s| > 0
    ensures m in s
    ensures forall i :: 0 <= i < |s| ==> m <= s[i]
    decreases |s|
  {
    if |s| == 1 then s[0]
    else
      var m' := Min(s[1..]);
      assert forall i :: 1 <= i < |s| ==> s[1..][i - 1] == s[i];
      if s[0] <= m' then s[0] else m'
  }

  /** The latest time. */
  function Max(s: seq<int>): (m: int)
    requires |s| > 0
    ensures m in s
    ensures forall i :: 0 <= i < |s| ==> s[i] <= m
    decreases |s|
  {
    if |s| == 1 then s[0]
    else
      var m' := Max(s[1..]);
      assert forall i :: 1 <= i < |s| ==> s[1..][i - 1] == s[i];
      if s[0] >= m' then s[0] else m'
  }

  /** The first and last entries of a sorted arrangement of `s` are its
      earliest and latest times. */
  lemma SortedEnds(s: seq<int>, sorted: seq<int>)
    requires |s| > 0 && Sorted(sorted) && multiset(sorted) == multiset(s)
    ensures |sorted| == |s|
    ensures sorted[0] == Min(s) && sorted[|sorted| - 1] == Max(s)
  {
    assert |sorted| == |multiset(sorted)| == |multiset(s)| == |s|;
    SortedFirstIsMin(s, sorted);
    SortedLastIsMax(s, sorted);
  }

  lemma SortedFirstIsMin(s: seq<int>, sorted: seq<int>)
    requires |s| > 0 && |sorted| == |s| && Sorted(sorted) && multiset(sorted) == multiset(s)
    ensures sorted[0] == Min(s)
  {
    assert sorted[0] in multiset(s);
    var i :| 0 <= i < |s| && s[i] == sorted[0];
    assert Min(s) in multiset(sorted);
    var k :| 0 <= k < |sorted| && sorted[k] == Min(s);
    assert k == 0 || sorted[0] <= sorted[k];
  }

  lemma SortedLastIsMax(s: seq<int>, sorted: seq<int>)
    requires |s| > 0 && |sorted| == |s| && Sorted(sorted) && multiset(sorted) == multiset(s)
    ensures sorted[|sorted| - 1] == Max(s)
  {
    var n := |sorted|;
    assert sorted[n - 1] in multiset(s);
    var i :| 0 <= i < |s| && s[i] == sorted[n - 1];
    assert Max(s) in multiset(sorted);
    var k :| 0 <= k < n && sorted[k] == Max(s);
    assert k == n - 1 || sorted[k] <= sorted[n - 1];
  }

  /** Rearranging the times does not move the earliest or latest one. */
  lemma MinMaxPermutation(a: seq<int>, b: seq<int>)
    requires |a| > 0 && multiset(a) == multiset(b)
    ensures |b| > 0 && Min(a) == Min(b) && Max(a) == Max(b)
  {
    assert |b| == |multiset(b)| == |multiset(a)| == |a|;
    assert Min(a) in multiset(b) && Min(b) in multiset(a);
    assert Max(a) in multiset(b) && Max(b) in multiset(a);
  }

  // ---------------------------------------------------------------------------
  // The window and the grid coordinates
  // ---------------------------------------------------------------------------

  /** `end_time`: the latest commit clamped into the band from `minDelta` to
      `maxDelta` weeks after the first commit; the lower bound wins when the
      band is empty. */
  function WindowEnd(first: int, last: int, maxDelta: int, minDelta: int): (e: int)
    ensures e >= first + minDelta * SecondsPerWeek
    ensures minDelta <= maxDelta ==> e <= first + maxDelta * SecondsPerWeek
    ensures first + minDelta * SecondsPerWeek <= last <= first + maxDelta * SecondsPerWeek ==> e == last
    ensures last < first + minDelta * SecondsPerWeek ==> e == first + minDelta * SecondsPerWeek
    ensures minDelta <= maxDelta && first + maxDelta * SecondsPerWeek < last ==> e == first + maxDelta * SecondsPerWeek
    ensures minDelta > maxDelta ==> e == first + minDelta * SecondsPerWeek
  {
    var upper := if first + maxDelta * SecondsPerWeek <= last then first + maxDelta * SecondsPerWeek else last;
    if first + minDelta * SecondsPerWeek >= upper then first + minDelta * SecondsPerWeek else upper
  }

  /** `(end - start).days + 1`: whole days elapsed (rounded down, as
      `timedelta.days` is), plus the last day. */
  function NumDays(start: int, end: int): (n: int)
    ensures SecondsPerDay * (n - 1) <= end - start < SecondsPerDay * n
    ensures start <= end ==> n >= 1
  {
    (end - start) / SecondsPerDay + 1
  }

  /** `(commit_time - start_time).days`: whole days since the first commit. */
  function DayOf(t: int, start: int): (d: int)
    ensures SecondsPerDay * d <= t - start < SecondsPerDay * (d + 1)
    ensures start <= t ==> d >= 0
  {
    (t - start) / SecondsPerDay
  }

  /** `commit_time.hour`: the hour of the time of day in UTC. */
  function HourOf(t: int): (h: int)
    ensures 0 <= h < 24
    ensures SecondsPerHour * h <= t % SecondsPerDay < SecondsPerHour * (h + 1)
  {
    var q := t / SecondsPerHour;
    assert t == SecondsPerDay * (q / 24) + SecondsPerHour * (q % 24) + t % SecondsPerHour;
    q % 24
  }

  predicate InWindow(t: int, start: int, end: int)
  {
    start <= t <= end
  }

  /** Every time inside the window has a cell of the grid. */
  lemma InWindowLandsInGrid(t: int, start: int, end: int)
    requires InWindow(t, start, end)
    ensures 0 <= DayOf(t, start) < NumDays(start, end)
    ensures 0 <= HourOf(t) < 24
  {
    DivMonotone(t - start, end - start, SecondsPerDay);
  }

  /** The commit falls in cell `(day, hour)` of the window's grid. */
  predicate InCell(t: int, start: int, end: int, day: int, hour: int)
  {
    InWindow(t, start, end) && DayOf(t, start) == day && HourOf(t) == hour
  }

  function CellPred(start: int, end: int, day: int, hour: int): int -> bool
  {
    t => InCell(t, start, end, day, hour)
  }

  function WindowPred(start: int, end: int): int -> bool
  {
    t => InWindow(t, start, end)
  }

  // ---------------------------------------------------------------------------
  // Counting
  // ---------------------------------------------------------------------------

  /** The number of times satisfying `p`. */
  function Count(ts: seq<int>, p: int -> bool): (r: nat)
    ensures r <= |ts|
    decreases |ts|
  {
    if ts == [] then 0
    else Count(ts[..|ts| - 1], p) + (if p(ts[|ts| - 1]) then 1 else 0)
  }

  lemma CountSnoc(ts: seq<int>, t: int, p: int -> bool)
    ensures Count(ts + [t], p) == Count(ts, p) + (if p(t) then 1 else 0)
  {
    assert (ts + [t])[..|ts|] == ts;
  }

  lemma {:induction false} CountAppend(a: seq<int>, b: seq<int>, p: int -> bool)
    ensures Count(a + b, p) == Count(a, p) + Count(b, p)
    decreases |b|
  {
    if b == [] {
      assert a + b == a;
    } else {
      assert (a + b)[..|a + b| - 1] == a + b[..|b| - 1];
      CountAppend(a, b[..|b| - 1], p);
    }
  }

  /** A count depends only on the multiset of times, not on their order. */
  lemma {:induction false} CountPermutation(a: seq<int>, b: seq<int>, p: int -> bool)
    requires multiset(a) == multiset(b)
    ensures Count(a, p) == Count(b, p)
    decreases |a|
  {
    if a == [] {
      assert |b| == |multiset(b)| == 0;
    } else {
      var n := |a| - 1;
      var x := a[n];
      assert a == a[..n] + [x];
      assert x in multiset(b);
      var j :| 0 <= j < |b| && b[j] == x;
      var rest := b[..j] + b[j + 1..];
      assert b == b[..j] + [x] + b[j + 1..];
      assert multiset(rest) == multiset(b) - multiset{x};
      assert multiset(a[..n]) == multiset(a) - multiset{x};
      CountPermutation(a[..n], rest, p);
      CountAppend(b[..j] + [x], b[j + 1..], p);
      CountAppend(b[..j], [x], p);
      CountAppend(b[..j], b[j + 1..], p);
      assert [x][..0] == [];
    }
  }

  // ---------------------------------------------------------------------------
  // The matrix, as a value
  // ---------------------------------------------------------------------------

  /** Row `day`: the number of commits in each hour of that day. */
  function RowOf(ts: seq<int>, start: int, end: int, day: int): seq<int>
  {
    seq(24, hour requires 0 <= hour < 24 => Count(ts, CellPred(start, end, day, hour)))
  }

  function Grid(ts: seq<int>, start: int, end: int, numDays: nat): seq<seq<int>>
  {
    seq(numDays, day requires 0 <= day < numDays => RowOf(ts, start, end, day))
  }

  /** The commit times read from the listing, in listing order. */
  function CommitTimes(commits: seq<Commit>): (ts: seq<int>)
    ensures |ts| == |commits|
    ensures forall i :: 0 <= i < |commits| ==> ts[i] == commits[i].committedAt
  {
    seq(|commits|, i requires 0 <= i < |commits| => commits[i].committedAt)
  }

  /** What `create_activity_matrix` returns for the given commit times: the
      grid of the window that starts at the earliest commit, or the exception
      raised — `IndexError` for no commits (`commit_times[0]`), `ValueError`
      for a negative day count (`np.zeros` with a negative dimension). */
  function ActivityMatrixOf(ts: seq<int>, maxDelta: int, minDelta: int): (r: Result<seq<seq<int>>>)
    ensures r.Ok? <==> |ts| > 0 && (0 <= minDelta || 0 <= maxDelta)
    ensures |ts| == 0 ==> r == Err("IndexError")
    ensures r.Ok? ==>
      var start := Min(ts);
      var end := WindowEnd(start, Max(ts), maxDelta, minDelta);
      && |r.value| == NumDays(start, end)
      && (forall day :: 0 <= day < |r.value| ==> |r.value[day]| == 24)
  {
    if |ts| == 0 then Err("IndexError")
    else
      var start := Min(ts);
      var end := WindowEnd(start, Max(ts), maxDelta, minDelta);
      var numDays := NumDays(start, end);
      if numDays < 0 then Err("ValueError")
      else Ok(Grid(ts, start, end, numDays))
  }

  /** The matrix does not depend on the order of the commits. */
  lemma ActivityMatrixPermutation(a: seq<int>, b: seq<int>, maxDelta: int, minDelta: int)
    requires multiset(a) == multiset(b)
    ensures ActivityMatrixOf(a, maxDelta, minDelta) == ActivityMatrixOf(b, maxDelta, minDelta)
  {
    assert |a| == |multiset(a)| == |multiset(b)| == |b|;
    if |a| > 0 {
      MinMaxPermutation(a, b);
      var start := Min(a);
      var end := WindowEnd(start, Max(a), maxDelta, minDelta);
      forall day, hour | 0 <= hour < 24
        ensures Count(a, CellPred(start, end, day, hour)) == Count(b, CellPred(start, end, day, hour))
      {
        CountPermutation(a, b, CellPred(start, end, day, hour));
      }
      var numDays := NumDays(start, end);
      if numDays >= 0 {
        assert forall day :: 0 <= day < numDays ==> RowOf(a, start, end, day) == RowOf(b, start, end, day);
        assert Grid(a, start, end, numDays) == Grid(b, start, end, numDays);
      }
    }
  }

  /** Every cell counts only commits inside the window, so a matrix cell is
      at most the number of in-window commits. */
  lemma CellsWithinWindow(ts: seq<int>, start: int, end: int, day: int, hour: int)
    ensures Count(ts, CellPred(start, end, day, hour)) <= Count(ts, WindowPred(start, end))
    decreases |ts|
  {
    if ts != [] {
      CellsWithinWindow(ts[..|ts| - 1], start, end, day, hour);
    }
  }

  // ---------------------------------------------------------------------------
  // The matrix total
  // ---------------------------------------------------------------------------

  function Sum(s: seq<int>): int
    decreases |s|
  {
    if s == [] then 0 else Sum(s[..|s| - 1]) + s[|s| - 1]
  }

  function RowSums(rows: seq<seq<int>>): (r: seq<int>)
    ensures |r| == |rows|
  {
    seq(|rows|, day requires 0 <= day < |rows| => Sum(rows[day]))
  }

  /** The sum of all cells. */
  function Total(rows: seq<seq<int>>): int
  {
    Sum(RowSums(rows))
  }

  /** Adding one to entry `k` (when it exists) adds one to the sum. */
  lemma {:induction false} SumBump(a: seq<int>, b: seq<int>, k: int)
    requires |a| == |b|
    requires forall i :: 0 <= i < |a| ==> a[i] == b[i] + (if i == k then 1 else 0)
    ensures Sum(a) == Sum(b) + (if 0 <= k < |a| then 1 else 0)
    decreases |a|
  {
    if a != [] {
      var n := |a| - 1;
      SumBump(a[..n], b[..n], k);
    }
  }

  /** One more commit adds one to its own hour of row `day`, if it falls in
      that day, and nothing to the other hours. */
  lemma RowStep(ts: seq<int>, t: int, start: int, end: int, day: int)
    ensures Sum(RowOf(ts + [t], start, end, day)) ==
      Sum(RowOf(ts, start, end, day)) + (if InWindow(t, start, end) && DayOf(t, start) == day then 1 else 0)
  {
    var a, b := RowOf(ts + [t], start, end, day), RowOf(ts, start, end, day);
    var k := if InWindow(t, start, end) && DayOf(t, start) == day then HourOf(t) else -1;
    forall hour | 0 <= hour < 24
      ensures a[hour] == b[hour] + (if hour == k then 1 else 0)
    {
      CountSnoc(ts, t, CellPred(start, end, day, hour));
    }
    SumBump(a, b, k);
  }

  /** One more commit adds one to the grid total exactly when it lies in the
      window. */
  lemma GridStep(ts: seq<int>, t: int, start: int, end: int)
    requires NumDays(start, end) >= 0
    ensures var n := NumDays(start, end);
      Total(Grid(ts + [t], start, end, n)) == Total(Grid(ts, start, end, n)) + (if InWindow(t, start, end) then 1 else 0)
  {
    var n := NumDays(start, end);
    var a, b := RowSums(Grid(ts + [t], start, end, n)), RowSums(Grid(ts, start, end, n));
    var k := if InWindow(t, start, end) then DayOf(t, start) else -1;
    forall day | 0 <= day < n
      ensures a[day] == b[day] + (if day == k then 1 else 0)
    {
      RowStep(ts, t, start, end, day);
    }
    if InWindow(t, start, end) {
      InWindowLandsInGrid(t, start, end);
    }
    SumBump(a, b, k);
  }

  /** The cells of the window's grid add up to the number of commits inside
      the window: no in-window commit is lost, none is counted twice. */
  lemma {:induction false} GridTotal(ts: seq<int>, start: int, end: int)
    requires NumDays(start, end) >= 0
    ensures Total(Grid(ts, start, end, NumDays(start, end))) == Count(ts, WindowPred(start, end))
    decreases |ts|
  {
    var n := NumDays(start, end);
    if ts == [] {
      var rows := Grid(ts, start, end, n);
      forall day | 0 <= day < n
        ensures RowSums(rows)[day] == 0
      {
        SumBump(rows[day], rows[day], -1);
        AllZeroSum(rows[day]);
      }
      AllZeroSum(RowSums(rows));
    } else {
      var m := |ts| - 1;
      assert ts == ts[..m] + [ts[m]];
      GridTotal(ts[..m], start, end);
      GridStep(ts[..m], ts[m], start, end);
    }
  }

  lemma {:induction false} AllZeroSum(s: seq<int>)
    requires forall i :: 0 <= i < |s| ==> s[i] == 0
    ensures Sum(s) == 0
    decreases |s|
  {
    if s != [] {
      AllZeroSum(s[..|s| - 1]);
    }
  }

  /** The total of the returned matrix is the number of commits inside the
      window, which is at most the number of commits. */
  lemma ActivityMatrixTotal(ts: seq<int>, maxDelta: int, minDelta: int)
    requires ActivityMatrixOf(ts, maxDelta, minDelta).Ok?
    ensures var start := Min(ts);
      var end := WindowEnd(start, Max(ts), maxDelta, minDelta);
      Total(ActivityMatrixOf(ts, maxDelta, minDelta).value) == Count(ts, WindowPred(start, end)) <= |ts|
  {
    var start := Min(ts);
    GridTotal(ts, start, WindowEnd(start, Max(ts), maxDelta, minDelta));
  }

  /** A worked case: commits on 2024-01-01 at 10:00 and 10:30 and on 2024-01-03
      at 23:00 (UTC) with a window of one to five weeks. The lower bound forces
      the window to end on 2024-01-08, so there are eight rows; the first two
      commits share row 0, hour 10, and the third is in row 2, hour 23. */
  lemma ThreeCommitExample()
    ensures var ts := [1704103200, 1704105000, 1704322800];
      && ActivityMatrixOf(ts, 5, 1).Ok?
      && |ActivityMatrixOf(ts, 5, 1).value| == 8
      && ActivityMatrixOf(ts, 5, 1).value[0][10] == 2
      && ActivityMatrixOf(ts, 5, 1).value[2][23] == 1
      && Total(ActivityMatrixOf(ts, 5, 1).value) == 3
  {
    var ts := [1704103200, 1704105000, 1704322800];
    assert Min(ts) == 1704103200;
    assert Max(ts) == 1704322800;
    var start := 1704103200;
    var end := start + SecondsPerWeek;
    assert WindowEnd(start, Max(ts), 5, 1) == end;
    assert ts[..2] == [1704103200, 1704105000] && ts[..2][..1] == [1704103200];
    assert Count(ts, CellPred(start, end, 0, 10)) == 2;
    assert Count(ts, CellPred(start, end, 2, 23)) == 1;
    ActivityMatrixTotal(ts, 5, 1);
    assert Count(ts, WindowPred(start, end)) == 3;
  }

  /** With the arguments of the call in `scrape` (at most three weeks, at least
      one), the matrix has between 8 and 22 rows. */
  lemma CallSiteRows(ts: seq<int>)
    requires |ts| > 0
    ensures ActivityMatrixOf(ts, 3, 1).Ok?
    ensures 8 <= |ActivityMatrixOf(ts, 3, 1).value| <= 22
  {
    var start := Min(ts);
    var end := WindowEnd(start, Max(ts), 3, 1);
    assert start + SecondsPerWeek <= end <= start + 3 * SecondsPerWeek;
    DivMonotone(SecondsPerWeek, end - start, SecondsPerDay);
    DivMonotone(end - start, 3 * SecondsPerWeek, SecondsPerDay);
  }

  // ---------------------------------------------------------------------------
  // The builder
  // ---------------------------------------------------------------------------

  /** The loop of `create_activity_matrix`: a zero `numDays x 24` array that
      receives one increment per in-window commit, at the commit's day and
      hour. */
  method FillMatrix(commitTimes: seq<int>, startTime: int, endTime: int, numDays: nat)
    returns (commitMatrix: array2<int>)
    requires numDays == NumDays(startTime, endTime)
    ensures fresh(commitMatrix)
    ensures commitMatrix.Length0 == numDays && commitMatrix.Length1 == 24
    ensures forall day, hour :: 0 <= day < numDays && 0 <= hour < 24 ==>
      commitMatrix[day, hour] == Count(commitTimes, CellPred(startTime, endTime, day, hour))
  {
    commitMatrix := new int[numDays, 24]((_, _) => 0);
    var k := 0;
    while k < |commitTimes|
      invariant 0 <= k <= |commitTimes|
      invariant forall day, hour :: 0 <= day < numDays && 0 <= hour < 24 ==>
        commitMatrix[day, hour] == Count(commitTimes[..k], CellPred(startTime, endTime, day, hour))
    {
      var commitTime := commitTimes[k];
      assert commitTimes[..k + 1] == commitTimes[..k] + [commitTime];
      forall day, hour | 0 <= day < numDays && 0 <= hour < 24 {
        CountSnoc(commitTimes[..k], commitTime, CellPred(startTime, endTime, day, hour));
      }
      if startTime <= commitTime <= endTime {
        InWindowLandsInGrid(commitTime, startTime, endTime);
        var dayIndex := (commitTime - startTime) / SecondsPerDay;
        var hourIndex := (commitTime / SecondsPerHour) % 24;
        commitMatrix[dayIndex, hourIndex] := commitMatrix[dayIndex, hourIndex] + 1;
      }
      k := k + 1;
    }
    assert commitTimes[..k] == commitTimes;
  }

  /** `create_activity_matrix`: sorts the commit times, fixes the window, and
      fills a zero `days x 24` array one in-window commit at a time; the
      array is returned as a list of rows. */
  method CreateActivityMatrix(commits: seq<Commit>, maxDelta: int, minDelta: int) returns (r: Result<seq<seq<int>>>)
    ensures r == ActivityMatrixOf(CommitTimes(commits), maxDelta, minDelta)
  {
    var times := CommitTimes(commits);
    var commitTimes := Sort(times);
    if |commitTimes| == 0 {
      return Err("IndexError");
    }
    SortedEnds(times, commitTimes);
    var startTime := commitTimes[0];
    var last := commitTimes[|commitTimes| - 1];
    var upper := if startTime + maxDelta * SecondsPerWeek <= last then startTime + maxDelta * SecondsPerWeek else last;
    var endTime := if startTime + minDelta * SecondsPerWeek >= upper then startTime + minDelta * SecondsPerWeek else upper;
    var numDays := (endTime - startTime) / SecondsPerDay + 1;
    assert numDays == NumDays(Min(times), WindowEnd(Min(times), Max(times), maxDelta, minDelta));
    if numDays < 0 {
      return Err("ValueError");
    }
    var commitMatrix := FillMatrix(commitTimes, startTime, endTime, numDays);
    var rows := seq(numDays, day requires 0 <= day < numDays reads commitMatrix =>
      seq(24, hour requires 0 <= hour < 24 reads commitMatrix => commitMatrix[day, hour]));
    forall day | 0 <= day < numDays
      ensures rows[day] == RowOf(times, startTime, endTime, day)
    {
      forall hour | 0 <= hour < 24
        ensures rows[day][hour] == RowOf(times, startTime, endTime, day)[hour]
      {
        CountPermutation(commitTimes, times, CellPred(startTime, endTime, day, hour));
      }
    }
    assert endTime == WindowEnd(Min(times), Max(times), maxDelta, minDelta);
    assert rows == Grid(times, startTime, endTime, numDays);
    r := Ok(rows);
  }
}
