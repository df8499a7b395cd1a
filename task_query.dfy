/** The list request of the task controller: the `filter` query parameter
    picks an optional lower bound on `createdAt`, and one aggregation
    selects the tasks at or after it, returns them newest first and counts
    the active and the complete ones among them. */
module TaskQuery {
  import opened Calendar
  import opened TaskModel

  // ---------------------------------------------------------------------
  // Window resolution
  // ---------------------------------------------------------------------

  /** `new Date(year, month, date)` for the four-digit years a clock
      reads: midnight at the start of that day, with out-of-range days
      rolled into the neighbouring months. */
  function LocalMidnight(year: int, month: int, date: int): (r: int)
    ensures r == MidnightOf(MakeDay(year, month, 1) + (date - 1))
    ensures r % MsPerDay == 0
  {
    MakeDayRollsOver(year, month, date);
    MidnightOf(MakeDay(year, month, date))
  }

  /** The inclusive lower bound on `createdAt` that the `filter` query
      parameter selects, `None` for no bound. A missing parameter is
      "today"; "all" and every unrecognised value give no bound. */
  function WindowStart(filter: Option<string>, now: Now): (r: Option<int>)
    ensures r.None? <==>
      filter.Some? && filter.value != "today" && filter.value != "week" && filter.value != "month"
  {
    var f := if filter.None? then "today" else filter.value;
    if f == "today" then
      Some(LocalMidnight(now.year, now.month, now.date))
    else if f == "week" then
      var mondayDate := now.date - (now.weekday - 1) - (if now.weekday == 0 then 7 else 0);
      Some(LocalMidnight(now.year, now.month, mondayDate))
    else if f == "month" then
      Some(LocalMidnight(now.year, now.month, 1))
    else
      None
  }

  /** Without a filter, and with "today", the window opens at midnight of
      the current day. */
  lemma TodayWindow(year: int, month: int, date: int)
    requires 0 <= month < 12 && 1 <= date <= DaysInMonth(year, month)
    ensures var now := NowAt(year, month, date);
      && WindowStart(None, now) == Some(MidnightOf(now.day))
      && WindowStart(Some("today"), now) == Some(MidnightOf(now.day))
  {
  }

  /** "month" opens the window at midnight of day 1 of the current month,
      `date - 1` days back. */
  lemma MonthWindow(year: int, month: int, date: int)
    requires 0 <= month < 12 && 1 <= date <= DaysInMonth(year, month)
    ensures var now := NowAt(year, month, date);
      && WindowStart(Some("month"), now) == Some(MidnightOf(NowAt(year, month, 1).day))
      && NowAt(year, month, 1).day == now.day - (date - 1)
  {
  }

  /** Days to go back from a day of the week `w` (0 = Sunday) to reach the
      start of the "week" window: `w - 1` from Monday to Saturday, 6 on
      Sunday. */
  function DaysSinceMonday(w: int): int
  {
    if w == 0 then 6 else w - 1
  }

  /** "week" opens the window at midnight of the most recent Monday on or
      before today: `k` days back, where `k` is 0 to 6 and no day in between
      is a Monday. On a Sunday that is the Monday six days earlier. */
  lemma WeekWindow(year: int, month: int, date: int)
    requires 0 <= month < 12 && 1 <= date <= DaysInMonth(year, month)
    ensures var now := NowAt(year, month, date);
      var k := DaysSinceMonday(now.weekday);
      && 0 <= k <= 6
      && WindowStart(Some("week"), now) == Some(MidnightOf(now.day - k))
      && WeekDay(now.day - k) == 1
      && forall d :: now.day - k < d <= now.day ==> WeekDay(d) != 1
  {
    var now := NowAt(year, month, date);
    var k := DaysSinceMonday(now.weekday);
    var mondayDate := now.date - (now.weekday - 1) - (if now.weekday == 0 then 7 else 0);
    assert mondayDate == now.date - k;
    MakeDayRollsOver(now.year, now.month, mondayDate);
    MakeDayRollsOver(now.year, now.month, now.date);
    assert MakeDay(now.year, now.month, mondayDate) == now.day - k;
    if now.weekday == 0 {
      WeekDayBackWrap(now.day, k);
    } else {
      WeekDayBack(now.day, k);
    }
    forall d | now.day - k < d <= now.day
      ensures WeekDay(d) != 1
    {
      var j := now.day - d;
      assert d == now.day - j;
      if j <= now.weekday {
        WeekDayBack(now.day, j);
      } else {
        WeekDayBackWrap(now.day, j);
      }
    }
  }

  /** Sunday 7 January 2024: the "week" window opens on Monday 1 January
      2024, the Monday of the week that is ending, not the next one. */
  lemma SundayWeekWindow()
    ensures var sunday := Now(MakeDay(2024, 0, 7), 2024, 0, 7, 0);
      && ValidNow(sunday)
      && WindowStart(Some("week"), sunday) == Some(LocalMidnight(2024, 0, 1))
  {
  }

  /** Sunday 3 March 2024: the Monday the "week" window computes has
      day-of-month -3 and rolls back into February, to Monday the 26th. */
  lemma RolledOverWeekWindow()
    ensures var sunday := Now(MakeDay(2024, 2, 3), 2024, 2, 3, 0);
      && ValidNow(sunday)
      && WindowStart(Some("week"), sunday) == Some(LocalMidnight(2024, 1, 26))
      && WeekDay(MakeDay(2024, 1, 26)) == 1
  {
  }

  // ---------------------------------------------------------------------
  // The aggregation: $match, then the three facets
  // ---------------------------------------------------------------------

  /** The `$match` stage: a task is selected when there is no bound or its
      `createdAt` is at or after the bound. */
  function InWindow(t: Task, start: Option<int>): (b: bool)
    ensures start.None? ==> b
    ensures forall d :: start == Some(MidnightOf(d)) ==> (b <==> t.createdAt / MsPerDay >= d)
  {
    start.None? || t.createdAt >= start.value
  }

  /** The tasks of `docs` that the `$match` stage lets through, in the
      order the store holds them. */
  function Select(docs: seq<Task>, start: Option<int>): (r: seq<Task>)
    ensures forall t :: t in r ==> InWindow(t, start)
    ensures forall t :: multiset(r)[t] == if InWindow(t, start) then multiset(docs)[t] else 0
  {
    if docs == [] then []
    else
      var rest := Select(docs[1..], start);
      assert docs == [docs[0]] + docs[1..];
      if InWindow(docs[0], start) then [docs[0]] + rest else rest
  }

  /** Newest first: `createdAt` never increases along the sequence. */
  predicate NewestFirst(s: seq<Task>)
  {
    forall i, j :: 0 <= i < j < |s| ==> s[i].createdAt >= s[j].createdAt
  }

  /** Places `t` into a newest-first sequence. */
  function Insert(t: Task, s: seq<Task>): (r: seq<Task>)
    requires NewestFirst(s)
    ensures NewestFirst(r)
    ensures multiset(r) == multiset(s) + multiset{t}
  {
    if s == [] || t.createdAt >= s[0].createdAt then
      [t] + s
    else
      var rest := Insert(t, s[1..]);
      assert s == [s[0]] + s[1..];
      NewerThanInserted(t, s, rest);
      [s[0]] + rest
  }

  /** The head of a newest-first `s` that is newer than `t` is at least as
      new as everything in `Insert(t, s[1..])`, so it may stay in front. */
  lemma NewerThanInserted(t: Task, s: seq<Task>, rest: seq<Task>)
    requires NewestFirst(s) && s != [] && t.createdAt < s[0].createdAt
    requires multiset(rest) == multiset(s[1..]) + multiset{t}
    requires NewestFirst(rest)
    ensures NewestFirst([s[0]] + rest)
  {
    var r := [s[0]] + rest;
    forall i | 0 <= i < |rest| ensures s[0].createdAt >= rest[i].createdAt {
      assert rest[i] in multiset(rest);
      if rest[i] != t {
        assert rest[i] in multiset(s[1..]);
        var j :| 0 <= j < |s[1..]| && s[1..][j] == rest[i];
        assert s[j + 1] == rest[i];
      }
    }
    forall i, j | 0 <= i < j < |r| ensures r[i].createdAt >= r[j].createdAt {
      assert r[j] == rest[j - 1];
      if i > 0 {
        assert r[i] == rest[i - 1];
      }
    }
  }

  /** The `$sort: { createdAt: -1 }` stage of the "tasks" facet: the same
      tasks, newest first. The order among tasks created at the same time
      is whatever this insertion order gives. */
  function SortNewestFirst(s: seq<Task>): (r: seq<Task>)
    ensures NewestFirst(r)
    ensures multiset(r) == multiset(s)
  {
    if s == [] then []
    else
      assert s == [s[0]] + s[1..];
      Insert(s[0], SortNewestFirst(s[1..]))
  }

  /** The number of tasks of `s` whose status is `st`. */
  function CountStatus(s: seq<Task>, st: Status): (n: nat)
    ensures n <= |s|
  {
    if s == [] then 0
    else (if s[0].status == st then 1 else 0) + CountStatus(s[1..], st)
  }

  /** The document `$count: "count"` emits. */
  datatype CountRow = CountRow(count: nat)

  /** The "activeCount" and "completeCount" facets: `$match` on one status,
      then `$count`, which emits one row holding a positive count, or no
      row at all when nothing matches. */
  function CountFacet(s: seq<Task>, st: Status): (rows: seq<CountRow>)
    ensures |rows| <= 1
    ensures rows == [] <==> CountStatus(s, st) == 0
    ensures forall row :: row in rows ==> row.count == CountStatus(s, st)
  {
    var n := CountStatus(s, st);
    if n == 0 then [] else [CountRow(n)]
  }

  /** `rows[0]?.count || 0`: the count of the first row, or 0 when there is
      no row (or the count is 0, which is falsy). */
  function FirstCountOrZero(rows: seq<CountRow>): (n: nat)
    ensures rows == [] ==> n == 0
    ensures rows != [] ==> n == rows[0].count
  {
    if rows == [] || rows[0].count == 0 then 0 else rows[0].count
  }

  /** The whole aggregation over the documents in store order: one `$match`
      and three facets over the tasks it lets through. */
  function Aggregate(docs: seq<Task>, start: Option<int>): (r: Listing)
    ensures NewestFirst(r.tasks)
    ensures multiset(r.tasks) == multiset(Select(docs, start))
    ensures r.activeCount == CountStatus(Select(docs, start), Active)
    ensures r.completeCount == CountStatus(Select(docs, start), Complete)
  {
    var matched := Select(docs, start);
    Listing(
      SortNewestFirst(matched),
      FirstCountOrZero(CountFacet(matched, Active)),
      FirstCountOrZero(CountFacet(matched, Complete)))
  }

  // ---------------------------------------------------------------------
  // What the list request promises
  // ---------------------------------------------------------------------

  /** A count facet reports the number of tasks with its status, and a
      count of 0 arrives as no row that the handler turns into 0. */
  lemma FacetCount(s: seq<Task>, st: Status)
    ensures FirstCountOrZero(CountFacet(s, st)) == CountStatus(s, st)
    ensures CountFacet(s, st) == [] <==> CountStatus(s, st) == 0
  {
  }

  /** Inserting a task into a newest-first list adds one to the count of
      its own status and leaves the other count alone. */
  lemma {:induction false} CountInsert(t: Task, s: seq<Task>, st: Status)
    requires NewestFirst(s)
    ensures CountStatus(Insert(t, s), st) == CountStatus(s, st) + (if t.status == st then 1 else 0)
  {
    if s == [] || t.createdAt >= s[0].createdAt {
      assert ([t] + s)[1..] == s;
    } else {
      CountInsert(t, s[1..], st);
      assert ([s[0]] + Insert(t, s[1..]))[1..] == Insert(t, s[1..]);
    }
  }

  /** Sorting does not change how many tasks have a given status. */
  lemma {:induction false} CountSort(s: seq<Task>, st: Status)
    ensures CountStatus(SortNewestFirst(s), st) == CountStatus(s, st)
  {
    if s != [] {
      CountSort(s[1..], st);
      CountInsert(s[0], SortNewestFirst(s[1..]), st);
    }
  }

  /** Every task is either active or complete, so the two counts add up to
      the length. */
  lemma {:induction false} CountBoth(s: seq<Task>)
    ensures CountStatus(s, Active) + CountStatus(s, Complete) == |s|
  {
    if s != [] {
      CountBoth(s[1..]);
    }
  }

  /** The list holds exactly the tasks of the store inside the window, each
      as often as the store holds it, newest first; without a window it
      holds the whole store. */
  lemma AggregateTasks(docs: seq<Task>, start: Option<int>)
    ensures var r := Aggregate(docs, start);
      && NewestFirst(r.tasks)
      && multiset(r.tasks) == multiset(Select(docs, start))
      && (forall t :: t in r.tasks <==> t in docs && InWindow(t, start))
      && (start.None? ==> multiset(r.tasks) == multiset(docs))
  {
  }

  /** The two counters count the listed tasks by status, and together they
      count every listed task. */
  lemma AggregateCounts(docs: seq<Task>, start: Option<int>)
    ensures var r := Aggregate(docs, start);
      && r.activeCount == CountStatus(r.tasks, Active)
      && r.completeCount == CountStatus(r.tasks, Complete)
      && r.activeCount + r.completeCount == |r.tasks|
  {
    var matched := Select(docs, start);
    FacetCount(matched, Active);
    FacetCount(matched, Complete);
    CountSort(matched, Active);
    CountSort(matched, Complete);
    CountBoth(SortNewestFirst(matched));
  }

  /** An empty store lists nothing, with both counters 0 rather than
      absent. */
  lemma EmptyStoreListing(start: Option<int>)
    ensures Aggregate([], start) == Listing([], 0, 0)
  {
  }

  /** A store of one task, listed without a bound, lists that task and
      counts it under its own status only. */
  lemma OneTaskListing(t: Task)
    ensures Aggregate([t], None)
      == Listing([t], if t.status == Active then 1 else 0, if t.status == Complete then 1 else 0)
  {
    assert Select([t], None) == [t];
    assert [t][1..] == [];
  }
}
