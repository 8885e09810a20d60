# Uptime monitor lifecycle in Dafny

This project models the monitor lifecycle of a small Flask uptime-monitoring
service (`app.py`). The network, clock, database and background scheduler are
abstracted away, so the service becomes a state machine over immutable values:

- `users`: user id → `User(username, passwordHash)`, with the hash opaque;
- `monitors`: monitor id → `Monitor`, holding owner, name, URL, interval,
  status, last check time, response time, and the 24 h / 30 d uptime;
- `history`: an append-only sequence of `HistoryEntry`;
- `jobs`: scheduler job id (`monitor_{id}`) → `Job(monitorId, periodSeconds)`.

The transitions are pure functions in module `App`:

- `CheckMonitor` is `check_monitor`. A scheduler firing is `FireJob`.
- `AddMonitor` is `add_monitor`: it creates the monitor, schedules it, then
  checks it once.
- `RestartAsWritten` is a restart of the process: the database file stays,
  the scheduler starts empty. `Restart` is the corrected restart (see Findings).
- `DeleteMonitor` is `delete_monitor`.
- `Register` is `register`.
- `ViewMonitor` and `Home` are the two read paths.

Parameters stand for what the code gets from outside:

- `caller` is the logged-in user.
- `probe : Request -> Outcome` is the HTTP client.
- `now` is the clock.
- `id` / `userId` is the primary key the database assigns.

Modules:

- `Decimal`: Python's spelling of non-negative integers, and its inverse.
- `Models`: records, uptime constants and job ids.
- `Probe`: classification of a probe outcome, the message format and the
  uptime rule.
- `Scheduler`: the job table.
- `History`: the per-monitor window and the chart.
- `App`: transitions, the state invariant `Inv` and its preservation lemmas.

Uptime figures are in hundredths of a percent: 100.0 is 10000, 99.9 is 9990,
99.8 is 9980. The code writes these fixed values after every check, chosen by
the status alone, and the comment at app.py:85 calls this simplified. The
model writes the same fixed values.

The rest is modelled as written, including the following:

- After a transport error, the monitor's interval (in seconds) is stored as
  the response time (in milliseconds).
- `add_job` on a job id that is already taken raises. `AddMonitor` reports
  this as `JobConflict` after the monitor row was created.
  `AddMonitorPreservesInv` shows this cannot happen in a state satisfying
  the invariant.
- `remove_job` on a missing job raises. The exception is swallowed, so
  `UnscheduleMonitor` leaves the table as it was.
- The client call can end in an exception that is not one of the client's
  request errors (the `Raised` outcome). The `except` at app.py:66 does not
  catch it, so such a check records nothing. `add_monitor` then fails with
  the row and its job already committed; `AddMonitor` reports this as
  `CheckFailed`.
- The client refuses a timeout that is not positive (`Probe.Rejected`). It
  checks the URL first, so a malformed URL still gives a request error, and
  the check records `down`. Any other URL raises an error that is not a
  request error. `Probe.ChecksTimeout` states this rule about the probe, and
  `App.NonPositiveIntervalNeverUp` shows that under it such a monitor is
  never `up`.

## Model

| member | source | states |
|---|---|---|
| Decimal.ParseFromNat | app.py:101 | parsing the decimal spelling Python gives an id or status code yields that number back |
| Decimal.ParseIsInverse | app.py:101 | a string parses to `n` exactly when it is the decimal spelling of `n`; a leading zero is rejected |
| Decimal.FromNatInjective | app.py:101 | two numbers have the same decimal spelling only if they are equal |
| Models.JobIdRoundTrip | app.py:101 | the monitor id can be read back out of the job id `monitor_{id}` |
| Models.JobIdInjective | app.py:101 | distinct monitors get distinct job ids |
| Probe.ResponseMessageRoundTrip | app.py:65 | the message `<code> - <reason>` determines both the code and the reason, whatever the reason contains |
| Probe.ParseResponseMessageExact | app.py:65 | a message reads back as (code, reason) exactly when it is `<code> - <reason>` with the code spelled as `str()` spells it |
| Probe.Classify | app.py:61-69 | status is `up` iff a response arrived with code < 400, and `down` iff there was a transport error or code >= 400. On a response, the response time is the elapsed ms and the message reads back as (code, reason), which by `ParseResponseMessageExact` makes it exactly `<code> - <reason>`. On a transport error, the response time is the interval and the message is the error text |
| Probe.UptimeAfter | app.py:85-91 | `up` writes exactly 100.0/100.0 and `down` exactly 99.9/99.8, so 30d <= 24h <= 100.0 |
| Probe.TimeoutAsWrittenIsThousandthOfPeriod | app.py:62 | as written, the client timeout is a thousandth of the interval: 0.06 s for a 60 s monitor |
| Probe.ProbeTimeout | app.py:62 | the corrected timeout is the interval in seconds, 1000 times the timeout as written |
| Probe.RejectedIffIntervalNotPositive | app.py:62-66 | the client refuses the check's request exactly when the interval is not positive, with the corrected timeout and with the one as written alike |
| Scheduler.AddJob | app.py:96-102 | adding a job fails iff its id is taken. Otherwise it adds exactly that id, with that job, and keeps every other job |
| Scheduler.ScheduleMonitor | app.py:95-102 | scheduling monitor `id` adds job `monitor_{id}` with period = interval, or fails iff that id is already scheduled |
| Scheduler.RemoveJob | app.py:225 | removing a job fails iff the id is unknown. Otherwise it removes exactly that id and keeps the rest |
| Scheduler.UnscheduleMonitor | app.py:223-227 | the delete's job removal drops exactly `monitor_{id}`. A missing job is tolerated and nothing else changes |
| Scheduler.UnscheduleIdempotent | app.py:224-227 | a second removal of the same job, which raises and is swallowed, changes nothing |
| Scheduler.UnscheduleKeepsOthers | app.py:225 | removing the job of one monitor never removes the job of another |
| History.ForMonitor | app.py:200 | the entries of one monitor are the history entries with that monitor id, each exactly as often as it occurs in the history, and no others |
| History.ForMonitorAppend | app.py:77-83 | the empty history has no entries, and appending an entry extends its own monitor's entries by it at the end and leaves every other monitor's entries unchanged; this fixes the order |
| History.SortNewestFirst | app.py:201 | the timestamp-descending order is a permutation of its input with non-increasing timestamps, whichever way ties are broken |
| History.Window | app.py:200-203 | the page shows min(30, n) of the monitor's n entries, all of that monitor, newest first, as a sub-multiset, and no entry left out is newer than any shown |
| History.ChartOf | app.py:206-207 | the chart's labels and data are the window's timestamps and response times, read back to front |
| History.ChartIsChronological | app.py:206-207 | the chart of a newest-first window has non-decreasing labels |
| History.ForMonitorChronological | app.py:200-201 | the entries of one monitor in a chronological history are chronological |
| History.SortChronologicalIsReverse | app.py:201 | the model's newest-first sort of a chronological sequence, with ties in recording order, reverses it |
| History.WindowOfChronological | app.py:200-203 | with a monotone clock and ties in recording order, the window is the monitor's last (at most 30) entries, reversed |
| History.ChartOfChronological | app.py:205-207 | with a monotone clock and ties in recording order, the chart data are the response times of the monitor's last (at most 30) entries, in recording order |
| History.NewestFirstOfIncreasingIsReverse | app.py:201 | with strictly increasing timestamps, every newest-first order the database may return is the reverse of recording order |
| History.QueryOfIncreasing | app.py:200-207 | with strictly increasing timestamps, whatever order the query returns, the page shows the monitor's last (at most 30) entries newest first, and the chart has their response times in recording order |
| App.ApplyCheck | app.py:71-91 | a check overwrites status, response time and last-checked time, writes 100.0/100.0 after `up` and 99.9/99.8 after `down`, and keeps name, URL, interval and owner |
| App.CheckMonitor | app.py:54-93 | a missing monitor, or one whose client call raises an exception that is not a request error, leaves the whole state unchanged. Otherwise exactly one entry is appended, with the monitor id, status, response time and timestamp written to the row. The classification and uptime rules hold. Earlier entries, other monitors, jobs and users are unchanged |
| App.CheckKeepsHistoryChronological | app.py:74-83 | if the clock reading is no earlier than every recorded entry, a check keeps the history chronological |
| App.CheckKeepsHistoryIncreasing | app.py:74-83 | if the clock reading is later than every recorded entry, a check keeps the timestamps strictly increasing |
| App.NonPositiveIntervalNeverUp | app.py:62-69 | when the client refuses a non-positive timeout, a check of a monitor with such an interval either records nothing or records `down` with the request error's text |
| App.ProbeAllowedOnePeriod | app.py:62 | with the corrected timeout, a probe may take exactly one period of its job, which is more than the timeout as written |
| App.FireJob | app.py:96-98 | an unknown job, or a job whose monitor is gone, changes nothing. A known job runs exactly the check of its monitor, so one entry is appended for that monitor unless its check raises |
| App.EmptyStateInv | app.py:46-52 | the first start, on an empty database, satisfies the invariant: one job per monitor, unique usernames, well-formed rows |
| App.RestartAsWrittenStopsChecks | app.py:46-52 | as written, after a restart every stored monitor has no job, the invariant fails, and no firing checks anything |
| App.Restart | app.py:46-52 | the corrected restart keeps users, monitors and history and registers one job per stored monitor under `monitor_{id}` with its interval |
| App.RestartKeepsInv | app.py:46-52 | the corrected restart restores the invariant from any stored tables, and under the invariant it registers exactly the jobs that were running |
| App.ExactlyOneJobPerMonitor | app.py:95-102 | under the invariant, a registered monitor has exactly one job (`monitor_{id}`) and an unregistered id has none |
| App.CheckMonitorPreservesInv | app.py:54-93 | a check keeps the invariant |
| App.FireJobPreservesInv | app.py:96-98 | a scheduler firing keeps the invariant |
| App.FiredJobNamesItsMonitor | app.py:98-101 | under the invariant, every job's id names the monitor it checks, and that monitor exists |
| App.AddMonitor | app.py:160-186 | the new row carries the owner, name, URL and interval. Other monitors and users are unchanged. The route fails with a job conflict iff `monitor_{id}` is taken, and then jobs are unchanged. Otherwise exactly the job `monitor_{id}` with period = interval is added. The route then fails iff the first check raises. After a failure the row keeps the column defaults: `unknown`, no last check, no response time, both uptimes 100.0. The history is unchanged. After success the state is exactly the first check of the new row with its job in place, so the row is `up` or `down` and one entry is appended |
| App.AddMonitorRecordsOneEntry | app.py:182-183 | a successful creation adds exactly one entry to the new monitor's history |
| App.AddMonitorPreservesInv | app.py:170-183 | under the invariant, creation never meets a job conflict: it succeeds iff the first check does not raise, and keeps the invariant either way. A fresh id with no earlier history ends with exactly one entry after a success |
| App.DeleteMonitor | app.py:214-232 | an unknown id gives NotFound and someone else's monitor gives NotOwner, both with no change. The owner's delete removes exactly the monitor and the job `monitor_{id}`, and keeps every other monitor, job, user and all history |
| App.DeleteMonitorPreservesInv | app.py:223-230 | a delete keeps the invariant |
| App.DeletedMonitorIsNeverChecked | app.py:223-230 | after a delete, no job checks the monitor, and a late firing or check of it changes nothing |
| App.Register | app.py:142-150 | the reply is UsernameTaken iff the username exists, and then nothing changes. Otherwise exactly one user with that name and hash is added, and usernames stay unique |
| App.RegisterPreservesInv | app.py:142-150 | registration keeps the invariant |
| App.ViewMonitor | app.py:190-212 | NotFound iff the id is unknown, and NotOwner iff another user owns it. The owner gets the row and min(30, n) of the monitor's n entries, newest first, from the history, with no entry left out newer than one shown. The chart is drawn from exactly those entries, in chronological order |
| App.Home | app.py:105-120 | the page lists exactly the caller's monitors. The up count is the number of them that are `up`, and the down count the number that are `down`. up + down <= their number, with equality iff none is `unknown` |
| App.CountsPartition | app.py:114-115 | the up, down and unknown monitors partition any set of monitors |
| App.HomeCountsMissUnchecked | app.py:114-115 | under the invariant, the counts cover all the caller's monitors iff every one has been checked |

## Left out

- Flask routing, templates, `flash`, redirects and the session cookie are not modelled. The logged-in user is the `caller` parameter, and route outcomes are the `Reply` values. The not-logged-in redirect is not modelled.
- The `login` and `logout` routes are left out because authentication is not part of the monitor lifecycle. `generate_password_hash` is opaque: `Register` takes the hash as a parameter.
- SQLAlchemy persistence and commits are not modelled; each route is one atomic transition. The choice of a new primary key is a parameter, with `requires id !in ...`.
- History rows of a deleted monitor stay in the history sequence. No cascade is declared, and what the database does with those rows on delete is not modelled. By default the ORM would set their `monitor_id` to NULL, which the non-null column at app.py:40 rejects. So the commit at app.py:230 of a delete of a monitor with history would likely fail after its job was removed. `DeleteMonitor`'s `Done` case describes the delete the route intends, not that failure. If the database later reuses the id, those rows would count for the new monitor, so `AddMonitorPreservesInv` promises exactly one entry only when the id had no earlier history.
- APScheduler's threads and timer firing are not modelled. `FireJob` is a transition that may be applied at any time, with no timing, jitter or concurrency between jobs. How the trigger treats a non-positive interval is not modelled; the job records the interval as given.
- `requests.get` is not modelled: the `probe` parameter returns the outcome. The elapsed time arrives as whole milliseconds, already truncated as `int(... * 1000)` does. Status codes are non-negative integers. Exceptions from the client that are not request errors are the `Raised` outcome. Exceptions from the database are not modelled.
- Wall-clock time is not modelled. One `now` reading stands for both `last_checked` and the history entry's timestamp, which the code reads separately.
- The `strftime` formatting of chart labels is left out: labels are the raw timestamps.
- Uptime values are hundredths of a percent, not floats.
- The form's `int(...)` conversion and its error on non-numeric input are left out: the interval arrives as an integer.
- SortChronologicalIsReverse: holds of the model's sort, which breaks ties between equal timestamps by recording order. The database does not promise that order. For distinct timestamps, `History.NewestFirstOfIncreasingIsReverse` gives the result for every order.
- WindowOfChronological: with equal timestamps, the entries shown and their order rest on the model's tie order, which the database does not promise. For distinct timestamps, `History.QueryOfIncreasing` states the window for every order.
- ChartOfChronological: inherits the tie order of `WindowOfChronological`. For distinct timestamps, `History.QueryOfIncreasing` states the chart for every order.
- App.CheckMonitor: the probe is given the corrected timeout (`Probe.ProbeRequest`), not `interval/1000`. The code as written is kept in `Probe.TimeoutAsWritten`; see Findings.

## Findings

| source | as written | input that shows it | evidently intended | confidence | as-written member | corrected member |
|---|---|---|---|---|---|---|
| app.py:51-52 | the scheduler starts empty at every start while `uptime.db` keeps the stored monitors (`create_all` at app.py:48 only creates missing tables), and nothing calls `schedule_monitor` for them | one stored monitor, then a restart: no job `monitor_{id}` exists, and that monitor is never checked again | every stored monitor is scheduled again at start-up, so it keeps being checked every interval seconds | medium, not executed | App.RestartAsWrittenStopsChecks | App.RestartKeepsInv |
| app.py:62 | `timeout=monitor.interval/1000`, while the same interval is the job period in seconds (app.py:100) | interval = 60 gives a 0.06 s timeout for a monitor checked once a minute | the timeout is the interval in seconds, the same unit the scheduler uses | medium, not executed | Probe.TimeoutAsWrittenIsThousandthOfPeriod | Probe.ProbeTimeout |
