/**
  The monitor lifecycle of the web application as atomic transitions on the
  whole state: a check (run immediately on creation and then by the monitor's
  job), creating and deleting a monitor, registering a user, and the two read
  paths (the monitor page and the home page counts).

  The logged-in user is the `caller` parameter; the HTTP client is the `probe`
  parameter; the clock is the `now` parameter; the database's choice of a new
  primary key is the `id` / `userId` parameter.
 */
module App {
  import opened Wrappers
  import opened Models
  import Probe
  import Scheduler
  import History

  /** What a route reports besides the state it leaves. */
  datatype Reply =
    | Done
    | NotFound        // the 404 of `get_or_404`
    | NotOwner        // the monitor belongs to another user: redirect home
    | UsernameTaken   // 'Username already exists'
    | JobConflict     // the scheduler refused the job id: the route fails after the monitor row was committed
    | CheckFailed     // the check raised: the route fails after the row and its job were committed

  datatype Step = Step(state: State, reply: Reply)

  // ---------------------------------------------------------------- checks

  /** The monitor row after a check classified as `c` at `now`. */
  function ApplyCheck(m: Monitor, c: Probe.Classification, now: Timestamp): (m': Monitor)
    requires c.status != Unknown
    ensures m'.name == m.name && m'.url == m.url && m'.interval == m.interval && m'.owner == m.owner
    ensures m'.status == c.status && m'.responseTime == Some(c.responseTime) && m'.lastChecked == Some(now)
    ensures m'.uptime30d <= m'.uptime24h <= FullUptime
    ensures m'.status == Up <==> m'.uptime24h == FullUptime
    ensures m'.status == Up ==> m'.uptime30d == FullUptime
    ensures m'.status == Down ==> m'.uptime24h == DownUptime24h && m'.uptime30d == DownUptime30d
  {
    var u := Probe.UptimeAfter(c.status);
    m.(status := c.status, responseTime := Some(c.responseTime), lastChecked := Some(now),
       uptime24h := u.0, uptime30d := u.1)
  }

  /** Only monitor `id` and the history may differ between `st` and `st'`. */
  ghost predicate OnlyMonitorChanged(st: State, st': State, id: MonitorId) {
    && st'.users == st.users
    && st'.jobs == st.jobs
    && st'.monitors.Keys == st.monitors.Keys
    && forall k :: k in st.monitors && k != id ==> st'.monitors[k] == st.monitors[k]
  }

  /** `e` is the history entry and `m'` the row a check of `m` (monitor `id`)
      writes when the client reported `o` at `now`. */
  ghost predicate CheckRecorded(id: MonitorId, m: Monitor, m': Monitor, e: HistoryEntry, o: Probe.Outcome, now: Timestamp) {
    && m'.name == m.name && m'.url == m.url && m'.interval == m.interval && m'.owner == m.owner
    && (m'.status == Up <==> o.Response? && o.code < Probe.FirstFailingCode)
    && m'.status != Unknown
    && m'.lastChecked == Some(now)
    && m'.responseTime == Some(e.responseTime)
    && e.monitorId == id && e.status == m'.status && e.timestamp == now
    && (o.Response? ==> e.responseTime == o.elapsedMs
                        && Probe.ParseResponseMessage(e.message) == Some((o.code, o.reason)))
    && (o.TransportError? ==> e.responseTime == m.interval && e.message == o.text)
    && (m'.status == Up ==> m'.uptime24h == FullUptime && m'.uptime30d == FullUptime)
    && (m'.status == Down ==> m'.uptime24h == DownUptime24h && m'.uptime30d == DownUptime30d)
  }

  /** The check of monitor `id` raises before it records anything: the client
      call ends in an exception that is not a request error. */
  predicate CheckRaises(st: State, id: MonitorId, probe: Probe.Request -> Probe.Outcome) {
    id in st.monitors && probe(Probe.ProbeRequest(st.monitors[id])).Raised?
  }

  /** `check_monitor`: a missing monitor is left alone, and so is one whose
      check raises; otherwise one probe is classified, the row overwritten and
      exactly one history entry appended. */
  function CheckMonitor(st: State, id: MonitorId, probe: Probe.Request -> Probe.Outcome, now: Timestamp): (st': State)
    ensures id !in st.monitors ==> st' == st
    ensures CheckRaises(st, id, probe) ==> st' == st
    ensures id in st.monitors ==> OnlyMonitorChanged(st, st', id)
    ensures id in st.monitors && !CheckRaises(st, id, probe) ==>
      |st'.history| == |st.history| + 1 && st'.history[..|st.history|] == st.history
    ensures id in st.monitors && !CheckRaises(st, id, probe) ==>
      CheckRecorded(id, st.monitors[id], st'.monitors[id], st'.history[|st.history|],
                    probe(Probe.ProbeRequest(st.monitors[id])), now)
  {
    if id !in st.monitors then st
    else if CheckRaises(st, id, probe) then st
    else
      var m := st.monitors[id];
      var c := Probe.Classify(probe(Probe.ProbeRequest(m)), m.interval);
      var e := HistoryEntry(id, now, c.status, c.responseTime, c.message);
      st.(monitors := st.monitors[id := ApplyCheck(m, c, now)], history := st.history + [e])
  }

  /** With a clock that never goes back, a check keeps the history chronological
      (`History.WindowOfChronological` then describes the monitor page, with ties
      broken in recording order). */
  lemma CheckKeepsHistoryChronological(st: State, id: MonitorId, probe: Probe.Request -> Probe.Outcome, now: Timestamp)
    requires History.Chronological(st.history)
    requires forall i :: 0 <= i < |st.history| ==> st.history[i].timestamp <= now
    ensures History.Chronological(CheckMonitor(st, id, probe, now).history)
  {
  }

  /** With a clock that always moves forward, a check keeps the timestamps
      strictly increasing, so the monitor page shows exactly the monitor's latest
      entries whatever order the database returns (`History.QueryOfIncreasing`). */
  lemma CheckKeepsHistoryIncreasing(st: State, id: MonitorId, probe: Probe.Request -> Probe.Outcome, now: Timestamp)
    requires History.Increasing(st.history)
    requires forall i :: 0 <= i < |st.history| ==> st.history[i].timestamp < now
    ensures History.Increasing(CheckMonitor(st, id, probe, now).history)
  {
  }

  /** Under the client's rule for a refused timeout, a check of a monitor whose
      interval is not positive either raises and records nothing, or records a
      request error: such a monitor is never `up`. */
  lemma NonPositiveIntervalNeverUp(st: State, id: MonitorId, probe: Probe.Request -> Probe.Outcome, now: Timestamp)
    requires Probe.ChecksTimeout(probe)
    requires id in st.monitors && st.monitors[id].interval <= 0
    ensures var st' := CheckMonitor(st, id, probe, now);
            st' == st || (st'.monitors[id].status == Down
                          && st'.history[|st.history|].message == probe(Probe.ProbeRequest(st.monitors[id])).text)
  {
    assert Probe.Rejected(Probe.ProbeRequest(st.monitors[id]));
  }

  /** With the corrected timeout a probe may take up to one period of its job. */
  lemma ProbeAllowedOnePeriod(id: MonitorId, m: Monitor)
    ensures Probe.ProbeRequest(m).timeoutSeconds == Scheduler.JobFor(id, m).periodSeconds as real
    ensures m.interval > 0 ==> Probe.TimeoutAsWritten(m.interval) < Probe.ProbeRequest(m).timeoutSeconds
  {
  }

  /** A scheduler firing: the job runs the check of the monitor it was created for. */
  function FireJob(st: State, jobId: string, probe: Probe.Request -> Probe.Outcome, now: Timestamp): (st': State)
    ensures jobId !in st.jobs ==> st' == st
    ensures jobId in st.jobs && st.jobs[jobId].monitorId !in st.monitors ==> st' == st
    ensures jobId in st.jobs ==> st' == CheckMonitor(st, st.jobs[jobId].monitorId, probe, now)
    ensures jobId in st.jobs && st.jobs[jobId].monitorId in st.monitors
            && !CheckRaises(st, st.jobs[jobId].monitorId, probe) ==>
      |st'.history| == |st.history| + 1 && st'.history[|st.history|].monitorId == st.jobs[jobId].monitorId
  {
    if jobId in st.jobs then CheckMonitor(st, st.jobs[jobId].monitorId, probe, now) else st
  }

  // ------------------------------------------------------------ invariant

  /** What every check leaves in a row: uptimes in range with 30d <= 24h, and a
      status of `unknown` exactly while the monitor has never been checked. */
  ghost predicate WellFormed(m: Monitor) {
    && m.uptime30d <= m.uptime24h <= FullUptime
    && (m.status == Unknown <==> m.lastChecked.None?)
    && (m.responseTime.None? <==> m.lastChecked.None?)
  }

  /** One job per monitor, under `monitor_{id}` and with the monitor's interval,
      and no job without its monitor. */
  ghost predicate JobsMatch(st: State) {
    && (forall id :: id in st.monitors ==>
          JobId(id) in st.jobs && st.jobs[JobId(id)] == Scheduler.JobFor(id, st.monitors[id]))
    && (forall j :: j in st.jobs ==>
          st.jobs[j].monitorId in st.monitors && j == JobId(st.jobs[j].monitorId))
  }

  ghost predicate UniqueUsernames(users: map<UserId, User>) {
    forall a, b :: a in users && b in users && users[a].username == users[b].username ==> a == b
  }

  ghost predicate Inv(st: State) {
    && JobsMatch(st)
    && UniqueUsernames(st.users)
    && forall id :: id in st.monitors ==> WellFormed(st.monitors[id])
  }

  /** The first start, on an empty database, satisfies the invariant. */
  lemma EmptyStateInv()
    ensures Inv(EmptyState)
  {
  }

  /** The jobs that would check monitor `id`. */
  function JobsOf(jobs: map<string, Job>, id: MonitorId): set<string> {
    set j | j in jobs && jobs[j].monitorId == id
  }

  /** Under the invariant a registered monitor has exactly one job, and an
      unregistered id has none. */
  lemma ExactlyOneJobPerMonitor(st: State, id: MonitorId)
    requires Inv(st)
    ensures id in st.monitors ==> JobsOf(st.jobs, id) == {JobId(id)}
    ensures id !in st.monitors ==> JobsOf(st.jobs, id) == {}
  {
    if id in st.monitors {
      assert JobId(id) in JobsOf(st.jobs, id);
    }
  }

  lemma CheckMonitorPreservesInv(st: State, id: MonitorId, probe: Probe.Request -> Probe.Outcome, now: Timestamp)
    requires Inv(st)
    ensures Inv(CheckMonitor(st, id, probe, now))
  {
    var st' := CheckMonitor(st, id, probe, now);
    if id in st.monitors {
      assert forall k :: k in st'.monitors ==> Scheduler.JobFor(k, st'.monitors[k]) == Scheduler.JobFor(k, st.monitors[k]);
    }
  }

  lemma FireJobPreservesInv(st: State, jobId: string, probe: Probe.Request -> Probe.Outcome, now: Timestamp)
    requires Inv(st)
    ensures Inv(FireJob(st, jobId, probe, now))
  {
    if jobId in st.jobs {
      CheckMonitorPreservesInv(st, st.jobs[jobId].monitorId, probe, now);
    }
  }

  /** Under the invariant a job always fires on the monitor its id names. */
  lemma FiredJobNamesItsMonitor(st: State, jobId: string)
    requires Inv(st)
    requires jobId in st.jobs
    ensures JobMonitorId(jobId) == Some(st.jobs[jobId].monitorId)
    ensures st.jobs[jobId].monitorId in st.monitors
  {
    JobIdRoundTrip(st.jobs[jobId].monitorId);
  }

  // -------------------------------------------------------------- restart

  /** A restart of the service as written: the database file keeps every table,
      while the scheduler starts empty and nothing registers the stored monitors again. */
  function RestartAsWritten(st: State): (st': State)
    ensures st'.users == st.users && st'.monitors == st.monitors && st'.history == st.history
    ensures st'.jobs == map[]
  {
    st.(jobs := map[])
  }

  /** After a restart as written, every stored monitor has lost its job, the
      invariant is broken, and no firing checks anything any more. */
  lemma RestartAsWrittenStopsChecks(st: State, id: MonitorId, jobId: string,
                                    probe: Probe.Request -> Probe.Outcome, now: Timestamp)
    requires id in st.monitors
    ensures JobsOf(RestartAsWritten(st).jobs, id) == {}
    ensures !Inv(RestartAsWritten(st))
    ensures FireJob(RestartAsWritten(st), jobId, probe, now) == RestartAsWritten(st)
  {
    assert JobId(id) !in RestartAsWritten(st).jobs;
  }

  /** One job per stored monitor, under its job id and with its interval. */
  function JobsFor(monitors: map<MonitorId, Monitor>): (jobs: map<string, Job>)
    ensures forall id :: id in monitors ==>
              JobId(id) in jobs && jobs[JobId(id)] == Scheduler.JobFor(id, monitors[id])
    ensures forall j :: j in jobs ==> jobs[j].monitorId in monitors && j == JobId(jobs[j].monitorId)
  {
    assert forall a: MonitorId, b: MonitorId :: JobId(a) == JobId(b) ==> a == b by {
      forall a: MonitorId, b: MonitorId
        ensures JobId(a) == JobId(b) ==> a == b
      {
        JobIdInjective(a, b);
      }
    }
    map id | id in monitors :: JobId(id) := Scheduler.JobFor(id, monitors[id])
  }

  /** The corrected restart: the database is kept and every stored monitor is
      scheduled again. */
  function Restart(st: State): (st': State)
    ensures st'.users == st.users && st'.monitors == st.monitors && st'.history == st.history
    ensures JobsMatch(st')
  {
    st.(jobs := JobsFor(st.monitors))
  }

  /** A corrected restart restores the invariant from any stored tables that
      satisfy it, and under the invariant it registers exactly the jobs that
      were running before. */
  lemma RestartKeepsInv(st: State)
    requires UniqueUsernames(st.users)
    requires forall id :: id in st.monitors ==> WellFormed(st.monitors[id])
    ensures Inv(Restart(st))
    ensures Inv(st) ==> Restart(st) == st
  {
    if Inv(st) {
      var jobs := Restart(st).jobs;
      assert jobs.Keys == st.jobs.Keys by {
        forall j | j in st.jobs
          ensures j in jobs
        {
          assert j == JobId(st.jobs[j].monitorId);
        }
      }
      forall j | j in jobs
        ensures jobs[j] == st.jobs[j]
      {
        assert j == JobId(jobs[j].monitorId);
      }
    }
  }

  // --------------------------------------------------------------- create

  /** `add_monitor`: store the row with status `unknown`, schedule its job, then
      check it once; a check that raises fails the route with the row and the
      job already in place. */
  function AddMonitor(st: State, owner: UserId, id: MonitorId, name: string, url: string, interval: int,
                      probe: Probe.Request -> Probe.Outcome, now: Timestamp): (r: Step)
    requires id !in st.monitors  // the database hands out an unused primary key
    ensures r.reply == Done || r.reply == JobConflict || r.reply == CheckFailed
    ensures r.reply == JobConflict <==> JobId(id) in st.jobs
    ensures r.reply == CheckFailed <==>
              JobId(id) !in st.jobs && probe(Probe.Request(url, Probe.ProbeTimeout(interval))).Raised?
    ensures r.state.users == st.users
    ensures r.state.monitors.Keys == st.monitors.Keys + {id}
    ensures forall k :: k in st.monitors ==> r.state.monitors[k] == st.monitors[k]
    ensures var m := r.state.monitors[id];
            m.owner == owner && m.name == name && m.url == url && m.interval == interval
    ensures r.reply != Done ==> r.state.history == st.history && r.state.monitors[id].status == Unknown
    ensures r.reply != Done ==> var m := r.state.monitors[id];
              m.lastChecked == None && m.responseTime == None && m.uptime24h == FullUptime && m.uptime30d == FullUptime
    ensures r.reply == JobConflict ==> r.state.jobs == st.jobs
    ensures r.reply != JobConflict ==> r.state.jobs == st.jobs[JobId(id) := Job(id, interval)]
    ensures r.reply == Done ==> r.state.monitors[id].status != Unknown
    ensures r.reply == Done ==>
              |r.state.history| == |st.history| + 1 && r.state.history[..|st.history|] == st.history
    ensures r.reply == Done ==>
              r.state == CheckMonitor(st.(monitors := st.monitors[id := NewMonitor(name, url, interval, owner)],
                                          jobs := st.jobs[JobId(id) := Job(id, interval)]), id, probe, now)
  {
    var m := NewMonitor(name, url, interval, owner);
    var created := st.(monitors := st.monitors[id := m]);
    match Scheduler.ScheduleMonitor(created.jobs, id, m)
    case None => Step(created, JobConflict)
    case Some(jobs) =>
      var scheduled := created.(jobs := jobs);
      if CheckRaises(scheduled, id, probe) then Step(scheduled, CheckFailed)
      else
      var checked := CheckMonitor(scheduled, id, probe, now);
      var e := checked.history[|st.history|];
      assert checked.history == st.history + [e];
      assert checked.jobs == jobs == st.jobs[JobId(id) := Job(id, interval)];
      assert checked.monitors.Keys == st.monitors.Keys + {id};
      assert forall k :: k in st.monitors ==> checked.monitors[k] == st.monitors[k];
      Step(checked, Done)
  }

  /** A successful creation adds exactly one entry to the new monitor's history. */
  lemma AddMonitorRecordsOneEntry(st: State, owner: UserId, id: MonitorId, name: string, url: string, interval: int,
                                  probe: Probe.Request -> Probe.Outcome, now: Timestamp)
    requires id !in st.monitors
    ensures var r := AddMonitor(st, owner, id, name, url, interval, probe, now);
            r.reply == Done ==> History.CountFor(r.state.history, id) == History.CountFor(st.history, id) + 1
  {
    var r := AddMonitor(st, owner, id, name, url, interval, probe, now);
    if r.reply == Done {
      var e := r.state.history[|st.history|];
      assert r.state.history == st.history + [e];
      History.ForMonitorAppend(st.history, e, id);
    }
  }

  /** Under the invariant the job id of a new monitor is always free, so creation
      succeeds exactly when its first check does not raise; either way the
      invariant holds afterwards, and a new id with no earlier history ends with
      exactly one entry. */
  lemma AddMonitorPreservesInv(st: State, owner: UserId, id: MonitorId, name: string, url: string, interval: int,
                               probe: Probe.Request -> Probe.Outcome, now: Timestamp)
    requires Inv(st)
    requires id !in st.monitors
    ensures AddMonitor(st, owner, id, name, url, interval, probe, now).reply ==
              if probe(Probe.Request(url, Probe.ProbeTimeout(interval))).Raised? then CheckFailed else Done
    ensures Inv(AddMonitor(st, owner, id, name, url, interval, probe, now).state)
    ensures History.CountFor(st.history, id) == 0 && !probe(Probe.Request(url, Probe.ProbeTimeout(interval))).Raised? ==>
              History.CountFor(AddMonitor(st, owner, id, name, url, interval, probe, now).state.history, id) == 1
  {
    AddMonitorRecordsOneEntry(st, owner, id, name, url, interval, probe, now);
    FreshIdUnscheduled(st, id);
    var m := NewMonitor(name, url, interval, owner);
    var scheduled := st.(monitors := st.monitors[id := m],
                         jobs := st.jobs[JobId(id) := Scheduler.JobFor(id, m)]);
    ScheduledKeepsInv(st, id, m);
    assert AddMonitor(st, owner, id, name, url, interval, probe, now).state == CheckMonitor(scheduled, id, probe, now);
    CheckMonitorPreservesInv(scheduled, id, probe, now);
  }

  /** Under the invariant an id without a monitor has no job under its name either. */
  lemma FreshIdUnscheduled(st: State, id: MonitorId)
    requires JobsMatch(st)
    requires id !in st.monitors
    ensures JobId(id) !in st.jobs
  {
    if JobId(id) in st.jobs {
      var k := st.jobs[JobId(id)].monitorId;
      JobIdInjective(k, id);
      assert false;
    }
  }

  /** A new unchecked row together with its job keeps the invariant. */
  lemma ScheduledKeepsInv(st: State, id: MonitorId, m: Monitor)
    requires Inv(st)
    requires id !in st.monitors
    requires m.status == Unknown && m.lastChecked == None && m.responseTime == None
    requires m.uptime24h == FullUptime && m.uptime30d == FullUptime
    ensures Inv(st.(monitors := st.monitors[id := m], jobs := st.jobs[JobId(id) := Scheduler.JobFor(id, m)]))
  {
    var st' := st.(monitors := st.monitors[id := m], jobs := st.jobs[JobId(id) := Scheduler.JobFor(id, m)]);
    forall k | k in st'.monitors
      ensures JobId(k) in st'.jobs && st'.jobs[JobId(k)] == Scheduler.JobFor(k, st'.monitors[k])
    {
      if k != id {
        JobIdInjective(k, id);
      }
    }
  }

  // --------------------------------------------------------------- delete

  /** `delete_monitor`: 404 for an unknown id, nothing for someone else's
      monitor; otherwise its job is removed (a missing job is tolerated) and
      then the row. */
  function DeleteMonitor(st: State, caller: UserId, id: MonitorId): (r: Step)
    ensures r.reply == Done || r.reply == NotFound || r.reply == NotOwner
    ensures r.reply == NotFound <==> id !in st.monitors
    ensures r.reply == NotOwner <==> id in st.monitors && st.monitors[id].owner != caller
    ensures r.reply != Done ==> r.state == st
    ensures r.reply == Done ==> r.state.monitors.Keys == st.monitors.Keys - {id}
    ensures r.reply == Done ==> forall k :: k in r.state.monitors ==> r.state.monitors[k] == st.monitors[k]
    ensures r.reply == Done ==> r.state.jobs.Keys == st.jobs.Keys - {JobId(id)}
    ensures r.reply == Done ==> forall j :: j in r.state.jobs ==> r.state.jobs[j] == st.jobs[j]
    ensures r.reply == Done ==> r.state.history == st.history && r.state.users == st.users
  {
    if id !in st.monitors then Step(st, NotFound)
    else if st.monitors[id].owner != caller then Step(st, NotOwner)
    else
      var jobs := Scheduler.UnscheduleMonitor(st.jobs, id);
      Step(st.(jobs := jobs, monitors := st.monitors - {id}), Done)
  }

  lemma DeleteMonitorPreservesInv(st: State, caller: UserId, id: MonitorId)
    requires Inv(st)
    ensures Inv(DeleteMonitor(st, caller, id).state)
  {
    var r := DeleteMonitor(st, caller, id);
    if r.reply == Done {
      var st' := r.state;
      forall k | k in st'.monitors
        ensures JobId(k) in st'.jobs
      {
        JobIdInjective(k, id);
      }
    }
  }

  /** After a delete no job of the monitor remains, and neither a late firing
      of its old job id nor a direct check changes anything. */
  lemma DeletedMonitorIsNeverChecked(st: State, caller: UserId, id: MonitorId,
                                     probe: Probe.Request -> Probe.Outcome, now: Timestamp)
    requires Inv(st)
    requires DeleteMonitor(st, caller, id).reply == Done
    ensures var st' := DeleteMonitor(st, caller, id).state;
            && JobsOf(st'.jobs, id) == {}
            && FireJob(st', JobId(id), probe, now) == st'
            && CheckMonitor(st', id, probe, now) == st'
  {
    var st' := DeleteMonitor(st, caller, id).state;
    DeleteMonitorPreservesInv(st, caller, id);
    ExactlyOneJobPerMonitor(st', id);
  }

  // --------------------------------------------------------------- users

  /** `register`: a taken username changes nothing, otherwise one user is added. */
  function Register(st: State, userId: UserId, username: string, passwordHash: string): (r: Step)
    requires userId !in st.users  // the database hands out an unused primary key
    ensures r.reply == Done || r.reply == UsernameTaken
    ensures r.reply == UsernameTaken <==> exists k :: k in st.users && st.users[k].username == username
    ensures r.reply == UsernameTaken ==> r.state == st
    ensures r.reply == Done ==> r.state.users.Keys == st.users.Keys + {userId}
    ensures r.reply == Done ==> |r.state.users| == |st.users| + 1
    ensures r.reply == Done ==> r.state.users[userId] == User(username, passwordHash)
    ensures r.reply == Done ==> forall k :: k in st.users ==> r.state.users[k] == st.users[k]
    ensures r.state.monitors == st.monitors && r.state.history == st.history && r.state.jobs == st.jobs
    ensures UniqueUsernames(st.users) ==> UniqueUsernames(r.state.users)
  {
    if exists k :: k in st.users && st.users[k].username == username then Step(st, UsernameTaken)
    else
      var u := User(username, passwordHash);
      assert forall k :: k in st.users ==> st.users[k].username != username;
      AddUserKeepsUnique(st.users, userId, u);
      Step(st.(users := st.users[userId := u]), Done)
  }

  /** A user whose name nobody has yet keeps usernames unique. */
  lemma AddUserKeepsUnique(users: map<UserId, User>, userId: UserId, u: User)
    requires userId !in users
    requires forall k :: k in users ==> users[k].username != u.username
    ensures users[userId := u].Keys == users.Keys + {userId}
    ensures forall k :: k in users ==> users[userId := u][k] == users[k]
    ensures |users[userId := u]| == |users| + 1
    ensures UniqueUsernames(users) ==> UniqueUsernames(users[userId := u])
  {
  }

  lemma RegisterPreservesInv(st: State, userId: UserId, username: string, passwordHash: string)
    requires Inv(st)
    requires userId !in st.users
    ensures Inv(Register(st, userId, username, passwordHash).state)
  {
  }

  // ------------------------------------------------------------ read paths

  datatype MonitorPage = MonitorPage(monitor: Monitor, recent: seq<HistoryEntry>, chart: History.Chart)

  datatype PageReply = Page(page: MonitorPage) | Refused(reply: Reply)

  /** `view_monitor`: for the owner, the row, its newest-first window of at most
      30 entries and the chart drawn from that window oldest first. */
  function ViewMonitor(st: State, caller: UserId, id: MonitorId): (r: PageReply)
    ensures r == Refused(NotFound) <==> id !in st.monitors
    ensures r == Refused(NotOwner) <==> id in st.monitors && st.monitors[id].owner != caller
    ensures r.Page? <==> id in st.monitors && st.monitors[id].owner == caller
    ensures r.Page? ==> r.page.monitor == st.monitors[id]
    ensures r.Page? ==> |r.page.recent| == History.Min(History.WindowSize, History.CountFor(st.history, id))
    ensures r.Page? ==> forall i :: 0 <= i < |r.page.recent| ==> r.page.recent[i].monitorId == id
    ensures r.Page? ==> History.NewestFirst(r.page.recent)
    ensures r.Page? ==> multiset(r.page.recent) <= multiset(st.history)
    ensures r.Page? ==> forall e, x ::
              (e in multiset(History.ForMonitor(st.history, id)) - multiset(r.page.recent) && x in r.page.recent)
              ==> e.timestamp <= x.timestamp
    ensures r.Page? ==> r.page.chart == History.ChartOf(r.page.recent)
    ensures r.Page? ==> forall i, j :: 0 <= i < j < |r.page.chart.labels| ==> r.page.chart.labels[i] <= r.page.chart.labels[j]
  {
    if id !in st.monitors then Refused(NotFound)
    else if st.monitors[id].owner != caller then Refused(NotOwner)
    else
      var w := History.Window(st.history, id);
      History.ChartIsChronological(w);
      Page(MonitorPage(st.monitors[id], w, History.ChartOf(w)))
  }

  datatype HomePage = HomePage(monitors: set<MonitorId>, upCount: nat, downCount: nat)

  function OwnedBy(st: State, owner: UserId): set<MonitorId> {
    set k | k in st.monitors && st.monitors[k].owner == owner
  }

  function WithStatus(st: State, ids: set<MonitorId>, s: Status): set<MonitorId>
    requires ids <= st.monitors.Keys
  {
    set k | k in ids && st.monitors[k].status == s
  }

  /** `home`: the caller's monitors with the number of them up and down; the
      two counts cover all of them exactly when none is still `unknown`. */
  function Home(st: State, caller: UserId): (r: HomePage)
    ensures r.monitors == OwnedBy(st, caller)
    ensures r.upCount == |set k | k in r.monitors && st.monitors[k].status == Up|
    ensures r.downCount == |set k | k in r.monitors && st.monitors[k].status == Down|
    ensures r.upCount + r.downCount <= |r.monitors|
    ensures r.upCount + r.downCount == |r.monitors| <==>
              forall k :: k in r.monitors ==> st.monitors[k].status != Unknown
  {
    var owned := OwnedBy(st, caller);
    CountsPartition(st, owned);
    assert WithStatus(st, owned, Up) == set k | k in owned && st.monitors[k].status == Up;
    assert WithStatus(st, owned, Down) == set k | k in owned && st.monitors[k].status == Down;
    HomePage(owned, |WithStatus(st, owned, Up)|, |WithStatus(st, owned, Down)|)
  }

  /** The up, down and unknown monitors among `ids` split them into three parts. */
  lemma CountsPartition(st: State, ids: set<MonitorId>)
    requires ids <= st.monitors.Keys
    ensures |WithStatus(st, ids, Up)| + |WithStatus(st, ids, Down)| + |WithStatus(st, ids, Unknown)| == |ids|
    ensures WithStatus(st, ids, Unknown) == {} <==> forall k :: k in ids ==> st.monitors[k].status != Unknown
  {
    var up := WithStatus(st, ids, Up);
    var down := WithStatus(st, ids, Down);
    var unknown := WithStatus(st, ids, Unknown);
    assert up !! down;
    assert (up + down) !! unknown;
    assert ids == up + down + unknown;
    if unknown != {} {
      var k :| k in unknown;
      assert k in ids && st.monitors[k].status == Unknown;
    }
  }

  /** Under the invariant the home counts miss exactly the monitors never checked. */
  lemma HomeCountsMissUnchecked(st: State, caller: UserId)
    requires Inv(st)
    ensures var r := Home(st, caller);
            r.upCount + r.downCount == |r.monitors| <==>
              forall k :: k in r.monitors ==> st.monitors[k].lastChecked.Some?
  {
  }
}
