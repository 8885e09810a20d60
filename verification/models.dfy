/**
  The persistent records of the uptime service (users, monitors, history rows)
  and the scheduler's job table, as immutable values.

  Uptime percentages are kept in hundredths of a percent: 100.0 is 10000.
 */
module Models {
  import opened Wrappers
  import Decimal

  type UserId = nat
  type MonitorId = nat

  /** An instant read from the clock; only its order matters. */
  type Timestamp = int

  datatype Status = Unknown | Up | Down

  /** 100.0, the column default and the value written after an `up` check. */
  const FullUptime: nat := 10000
  /** 99.9 and 99.8, the values written after a `down` check. */
  const DownUptime24h: nat := 9990
  const DownUptime30d: nat := 9980

  datatype User = User(username: string, passwordHash: string)

  datatype Monitor = Monitor(
    name: string,
    url: string,
    interval: int,             // seconds between scheduled checks
    owner: UserId,
    status: Status,
    lastChecked: Option<Timestamp>,
    uptime24h: nat,
    uptime30d: nat,
    responseTime: Option<int>  // milliseconds, or the interval after a transport error
  )

  datatype HistoryEntry = HistoryEntry(
    monitorId: MonitorId,
    timestamp: Timestamp,
    status: Status,
    responseTime: int,
    message: string
  )

  /** A recurring scheduler job: call the check of `monitorId` every `periodSeconds`. */
  datatype Job = Job(monitorId: MonitorId, periodSeconds: int)

  datatype State = State(
    users: map<UserId, User>,
    monitors: map<MonitorId, Monitor>,
    history: seq<HistoryEntry>,
    jobs: map<string, Job>
  )

  /** The state of the first start, on an empty database: empty tables, no jobs.
      A later start keeps the database file; see `App.RestartAsWritten`. */
  const EmptyState := State(map[], map[], [], map[])

  /** A monitor row as created from the add form, before any check has run. */
  function NewMonitor(name: string, url: string, interval: int, owner: UserId): (m: Monitor)
    ensures m.status == Unknown && m.lastChecked == None && m.responseTime == None
    ensures m.uptime24h == FullUptime && m.uptime30d == FullUptime
    ensures m.name == name && m.url == url && m.interval == interval && m.owner == owner
  {
    Monitor(name, url, interval, owner, Unknown, None, FullUptime, FullUptime, None)
  }

  const JobPrefix := "monitor_"

  /** The scheduler id under which the job of monitor `id` is registered. */
  function JobId(id: MonitorId): string {
    JobPrefix + Decimal.FromNat(id)
  }

  /** Recovers the monitor id from a job id of the form `monitor_<digits>`. */
  function JobMonitorId(jobId: string): Option<MonitorId> {
    if |jobId| >= |JobPrefix| && jobId[..|JobPrefix|] == JobPrefix
    then Decimal.Parse(jobId[|JobPrefix|..])
    else None
  }

  lemma JobIdRoundTrip(id: MonitorId)
    ensures JobMonitorId(JobId(id)) == Some(id)
  {
    var j := JobId(id);
    assert j[..|JobPrefix|] == JobPrefix;
    assert j[|JobPrefix|..] == Decimal.FromNat(id);
    Decimal.ParseFromNat(id);
  }

  /** Two monitors never share a job id, so removing one job cannot touch another monitor's. */
  lemma JobIdInjective(a: MonitorId, b: MonitorId)
    ensures JobId(a) == JobId(b) <==> a == b
  {
    JobIdRoundTrip(a);
    JobIdRoundTrip(b);
  }
}
