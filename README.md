# Task tracker controller, modelled in Dafny

A model of the task controller of a small task-tracking REST backend
(`backend/src/controller/tasksController.js`). The controller has four
handlers over one collection of task documents:

- `getAllTasks` turns the `filter` query parameter ("today" when missing,
  "week", "month", "all" or anything else) and the current time into an
  optional inclusive lower bound on `createdAt`. It then runs one
  aggregation: a `$match` on that bound, then three facets. The facets give
  the matching tasks sorted newest first, the number that are active and
  the number that are complete. A facet that counts nothing yields no row,
  and the handler reports 0 for it.
- `createTask` inserts a new active task with the given title.
- `updateTask` writes title, status and completion time into the task with
  a given id and returns the updated task, or reports that the id is unknown.
- `deleteTask` removes the task with a given id and returns it, or reports
  that the id is unknown.

The project has four modules:

- `Calendar` (`calendar.dfy`): the day arithmetic behind
  `new Date(year, month, day)` and `getDay()`. It follows the ECMAScript
  language specification's DayFromYear, MakeDay and WeekDay definitions,
  including the roll-over of out-of-range days into neighbouring months. A
  request's "now" is a value `Now(day, year, month, date, weekday)`: a day
  number with the calendar view of it. `ValidNow` says the two agree, and
  `NowAt` builds the one for a given year, month and day-of-month.
- `TaskModel` (`task_model.dfy`): tasks, the status enum, the handler
  outcomes (`Ok`, `NotFound`, `SystemFailure`) and the list response.
- `TaskQuery` (`task_query.dfy`): the window resolution and the
  aggregation, as pure functions, with the lemmas that state what a list
  request returns.
- `TaskStore` (`task_store.dfy`): the collection as a class `Store`. Its
  fields are a map from id to task, the order in which a scan meets the
  documents, and the next id to hand out. Create, update and delete are
  methods that change it in place. List is a method that only reads it.

Each handler's `catch` branch is modelled by a `fault` input. When `fault`
is set, the storage call throws before it changes anything, and the handler
reports `SystemFailure`. The clock is an input as well: `now` for the list
request and `createdAt` for create. Time values are milliseconds of local
time.

## Model

| member | source | states |
|---|---|---|
| `Calendar.NowAt` | backend/src/controller/tasksController.js:6-11 | The clock reading for a given year, month and day-of-month has a day number and a day of the week that agree with that view. |
| `Calendar.ValidNowIsNowAt` | backend/src/controller/tasksController.js:6-11 | Every consistent clock reading is the one `NowAt` gives for its year, month and day-of-month. So the window lemmas, which are stated for `NowAt`, cover every "now". |
| `TaskQuery.WindowStart` | backend/src/controller/tasksController.js:5-28 | There is no lower bound exactly when the parameter is present and is none of "today", "week" and "month". So "all" and unrecognised values select every task, and a missing parameter behaves as "today". |
| `TaskQuery.TodayWindow` | backend/src/controller/tasksController.js:5-12 | With no filter, and with "today", the bound is midnight of the current day. |
| `TaskQuery.MonthWindow` | backend/src/controller/tasksController.js:20-22 | "month" gives midnight of day 1 of the current year and month, which is `date - 1` days before today. |
| `TaskQuery.WeekWindow` | backend/src/controller/tasksController.js:14-18 | "week" gives midnight of the day `k` days back, where `k` is `weekday - 1` from Monday to Saturday and 6 on Sunday. That day is a Monday, and no later day up to today is a Monday. So it is the most recent Monday on or before today. |
| `TaskQuery.SundayWeekWindow` | backend/src/controller/tasksController.js:14-18 | On Sunday 2024-01-07 the week window opens on Monday 2024-01-01, the Monday of the ending week. |
| `TaskQuery.RolledOverWeekWindow` | backend/src/controller/tasksController.js:15-17 | On Sunday 2024-03-03 the computed day-of-month is -3. The date constructor rolls it back to Monday 2024-02-26, and the window opens there. |
| `Calendar.MakeDayRollsOver` | backend/src/controller/tasksController.js:15-17 | A day-of-month outside the month, including zero or a negative one, means the first of the month plus that offset. The week computation relies on this. |
| `Calendar.AtOrAfterMidnight` | backend/src/controller/tasksController.js:30 | A `createdAt` passes the `$gte` test against midnight of a day exactly when it falls on that day or later. |
| `Calendar.MonthStartsFollowLengths` | backend/src/controller/tasksController.js:11 | The month-start table that dates are built from agrees with the month lengths: each month starts where the previous one ends, and December ends where the next year begins. |
| `Calendar.YearLength` | backend/src/controller/tasksController.js:11 | The day numbers of consecutive January firsts differ by 366 in a leap year and 365 otherwise. |
| `Calendar.MakeDayInYear` | backend/src/controller/tasksController.js:11-21 | A day-of-month that exists in its month gives a day number inside that year: on or after its January 1st and before the next one. |
| `Calendar.DayZeroIsPreviousMonthEnd` | backend/src/controller/tasksController.js:15-17 | Day 0 of a month is the last day of the month before it, and day 0 of January is December 31st of the previous year. |
| `Calendar.WeekDay` | backend/src/controller/tasksController.js:16 | The day of the week is always one of the seven values 0 (Sunday) to 6 (Saturday). |
| `TaskQuery.LocalMidnight` | backend/src/controller/tasksController.js:11-21 | The date constructor gives the midnight of the first of the month plus `date - 1` days, for any day-of-month, and the result is a whole number of days. |
| `TaskQuery.InWindow` | backend/src/controller/tasksController.js:30-34 | Without a bound every task passes. With the bound at midnight of a day, a task passes exactly when it was created on that day or later. |
| `TaskQuery.Select` | backend/src/controller/tasksController.js:30-34 | Every selected task is inside the window, and every task inside the window is selected as often as the store holds it. |
| `TaskQuery.SortNewestFirst` | backend/src/controller/tasksController.js:37 | The result is ordered by `createdAt` non-increasing and is a permutation of the input. |
| `TaskQuery.CountFacet` | backend/src/controller/tasksController.js:38-42 | A `$count` facet has at most one row. It has none exactly when no task has the status, and its row holds the number of tasks that have it. |
| `TaskQuery.FirstCountOrZero` | backend/src/controller/tasksController.js:48-49 | The handler reads 0 from a facet with no row and the count of the first row otherwise. |
| `TaskQuery.Aggregate` | backend/src/controller/tasksController.js:33-49 | The listed tasks are newest first and are a permutation of the window-selected tasks. The two counters are the numbers of window-selected tasks with each status. |
| `TaskQuery.FacetCount` | backend/src/controller/tasksController.js:38-49 | A count facet, read with the handler's fallback to 0, reports the number of matched tasks with that status. The facet has no row exactly when that number is 0, and 0 is then reported instead of an absent value. |
| `TaskQuery.CountSort` | backend/src/controller/tasksController.js:37-41 | Sorting does not change how many tasks have a given status. So counting before the sort, as the facets do, counts the listed tasks. |
| `TaskQuery.CountBoth` | backend/src/controller/tasksController.js:38-42 | Active count plus complete count equals the number of tasks, since status has two values. |
| `TaskQuery.AggregateTasks` | backend/src/controller/tasksController.js:30-47 | The listed tasks are newest first. They are a permutation of the window-selected tasks, and a task is listed exactly when it is stored and inside the window. Without a bound, the list is a permutation of the whole store. |
| `TaskQuery.AggregateCounts` | backend/src/controller/tasksController.js:33-49 | `activeCount` and `completeCount` are the numbers of listed tasks with each status, and they add up to the length of the list. |
| `TaskQuery.EmptyStoreListing` | backend/src/controller/tasksController.js:47-49 | An empty collection lists no tasks, with both counters 0. |
| `TaskQuery.OneTaskListing` | backend/src/controller/tasksController.js:33-49 | A store of one task, listed without a bound, lists that task, with 1 under its own status and 0 under the other. |
| `TaskStore.Store.Documents` | backend/src/controller/tasksController.js:33-34 | The aggregation's input holds exactly the stored documents, each once: it is as long as the scan order and no two of its entries are equal. |
| `TaskStore.CountSelectedIds` | backend/src/controller/tasksController.js:33-42 | Over a scan order that names each document once, counting the window-selected documents of a status counts the identifiers whose document is in the window and has that status. |
| `TaskStore.StoredListing` | backend/src/controller/tasksController.js:33-49 | For a store whose scan order names each stored document once, `activeCount` and `completeCount` are the numbers of stored tasks in the window with each status, and the list is as long as the number of stored tasks in the window. |
| `TaskStore.Store.List` | backend/src/controller/tasksController.js:4-55 | The list handler returns the aggregation over the store for the resolved window, or `SystemFailure` when storage throws. A task is listed exactly when it is stored and inside the window. The list is as long as the number of stored tasks in the window, and the two counters are the numbers of stored tasks in the window with each status. The store is not modified. |
| `TaskStore.Store.Create` | backend/src/controller/tasksController.js:59-79 | The store gains one new document under a fresh id, with the given title, status active, no completion time and the given `createdAt`, and that document is returned. On a storage failure nothing changes. |
| `TaskStore.Store.Update` | backend/src/controller/tasksController.js:82-114 | On a known id, the document gets the supplied title, status and completion time, the updated document is returned, and every other id's document is unchanged. On an unknown id the result is `NotFound` and the store is unchanged. |
| `TaskStore.Store.Delete` | backend/src/controller/tasksController.js:117-136 | On a known id, exactly that id is removed and its prior document is returned. On an unknown id the result is `NotFound` and nothing changes. |
| `TaskStore.DeleteTwice` | backend/src/controller/tasksController.js:120-125 | A second delete of the same id reports `NotFound`, whether or not the first one found the document. |
| `TaskStore.CreateUpdateList` | backend/src/controller/tasksController.js:59-106 | Creating "X", updating it to "Y", complete, completed at `done`, and listing with "all" yields exactly that task. The active count is 0 and the complete count is 1. |

## Left out

- Routing (`backend/src/routes/tasksRouters.js`) and the database connection (`backend/src/config/db.js`): declarative wiring, and I/O with process exit.
- HTTP status codes, JSON bodies, `console.error` logging and `async`/`await`. Outcomes are the `Outcome` datatype, which has no notion of delivery.
- Storage failures are an input flag. Their causes (network, schema validation such as a missing title, a malformed id string that cannot be cast) are not modelled. A failure is taken to change nothing.
- Time zones and daylight saving time: time values are local-time milliseconds, and midnight is `day * 86400000`.
- The wall clock: "now" is a parameter, and only its day matters to the window. `createdAt` of a new task is a parameter too, since the schema sets it automatically.
- Identifiers are natural numbers handed out in increasing order. This stands in for the driver's generated ObjectIds, so all that is claimed is that a new id is fresh.
- The order of tasks with equal `createdAt`: MongoDB's `$sort` does not fix it. The model uses one admissible order (insertion order) and claims only newest-first order and permutation.
- The Task schema file is not part of this model. Status is a two-value datatype, a new task has no completion time, and `createdAt` is a given field.
- `TaskStore.Store.Update` writes exactly the three supplied values. The driver's treatment of fields left undefined in the request body is not modelled.
- Concurrency between requests, and snapshot isolation inside one aggregation: one list request is a single atomic evaluation over the store.
- `TaskQuery.LocalMidnight` and `Calendar.MakeDayInYear` do not model the date constructor's mapping of years 0 to 99 onto 1900 to 1999. The year always comes from the current clock, which never reads such a year.
- Invalid dates (NaN time values) are not modelled. No day number the handlers compute can produce one.
