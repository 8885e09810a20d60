/**
  The background scheduler reduced to its job table: job id to recurring job.
  Timer firing, threads and jitter are outside this model; a firing is the
  `App.FireJob` transition.
 */
module Scheduler {
  import opened Wrappers
  import opened Models

  type Jobs = map<string, Job>

  /** The job `schedule_monitor` registers for monitor `id`. */
  function JobFor(id: MonitorId, m: Monitor): (j: Job)
    ensures j.monitorId == id && j.periodSeconds == m.interval
  {
    Job(id, m.interval)
  }

  /** Registers `job` under `jobId`; `None` is the scheduler's conflicting-id
      error, raised when the id is already taken (no replacement is asked for). */
  function AddJob(jobs: Jobs, jobId: string, job: Job): (r: Option<Jobs>)
    ensures r.None? <==> jobId in jobs
    ensures r.Some? ==> r.value.Keys == jobs.Keys + {jobId}
    ensures r.Some? ==> r.value[jobId] == job
    ensures r.Some? ==> forall k :: k in jobs ==> r.value[k] == jobs[k]
  {
    if jobId in jobs then None else Some(jobs[jobId := job])
  }

  /** Removes the job `jobId`; `None` is the scheduler's lookup error for an unknown id. */
  function RemoveJob(jobs: Jobs, jobId: string): (r: Option<Jobs>)
    ensures r.None? <==> jobId !in jobs
    ensures r.Some? ==> r.value.Keys == jobs.Keys - {jobId}
    ensures r.Some? ==> forall k :: k in r.value ==> r.value[k] == jobs[k]
  {
    if jobId in jobs then Some(jobs - {jobId}) else None
  }

  /** `schedule_monitor`: a job for monitor `id` under `monitor_{id}`, every interval seconds. */
  function ScheduleMonitor(jobs: Jobs, id: MonitorId, m: Monitor): (r: Option<Jobs>)
    ensures r.None? <==> JobId(id) in jobs
    ensures r.Some? ==> r.value.Keys == jobs.Keys + {JobId(id)}
    ensures r.Some? ==> r.value[JobId(id)] == Job(id, m.interval)
    ensures r.Some? ==> forall k :: k in jobs ==> r.value[k] == jobs[k]
  {
    AddJob(jobs, JobId(id), JobFor(id, m))
  }

  /** The job removal in `delete_monitor`: a missing job is tolerated and leaves
      the table as it was. */
  function UnscheduleMonitor(jobs: Jobs, id: MonitorId): (r: Jobs)
    ensures r.Keys == jobs.Keys - {JobId(id)}
    ensures forall k :: k in r ==> r[k] == jobs[k]
  {
    RemoveJob(jobs, JobId(id)).GetOr(jobs)
  }

  /** Unscheduling is idempotent: a second removal of the same job changes nothing. */
  lemma UnscheduleIdempotent(jobs: Jobs, id: MonitorId)
    ensures UnscheduleMonitor(UnscheduleMonitor(jobs, id), id) == UnscheduleMonitor(jobs, id)
  {
  }

  /** Unscheduling one monitor leaves the job of every other monitor in place. */
  lemma UnscheduleKeepsOthers(jobs: Jobs, id: MonitorId, other: MonitorId)
    requires other != id
    ensures JobId(other) in UnscheduleMonitor(jobs, id) <==> JobId(other) in jobs
  {
    JobIdInjective(id, other);
  }
}
