/** Scheduler data and decisions: the job table kept by the service layer, the OS crontab kept by
    the domain layer, what each request may do to them, and what one monitoring pass writes. */
module SchedulerJobs {
  import opened Common

  const MAX_CONCURRENT_JOBS: nat := 10
  const JOB_LIFETIME_THRESHOLD_SECS: real := 30.0

  /** Stands for a UUID; only equality and freshness matter. */
  type JobId = nat
  type Time = real

  datatype Job = Job(
    name: string,
    description: Option<string>,
    cronSchedule: string,
    command: string,
    enabled: bool,
    createdAt: Time,
    lastRun: Option<Time>,
    nextRun: Option<Time>)

  /** The `scheduler_jobs` table: rows by primary key. The name column carries no unique constraint. */
  type Table = map<JobId, Job>

  /** The crontab as seen through the domain layer: is the item with this id enabled? */
  type Crontab = map<JobId, bool>

  function ActiveIds(t: Table): set<JobId> { set id | id in t && t[id].enabled }

  function EnabledIds(c: Crontab): set<JobId> { set id | id in c && c[id] }

  ghost predicate NamesDistinct(t: Table) {
    forall i, j :: i in t && j in t && i != j ==> t[i].name != t[j].name
  }

  ghost predicate WithinCap(t: Table) { |ActiveIds(t)| <= MAX_CONCURRENT_JOBS }

  datatype Error =
    | JobInvalidName
    | JobInvalidCronExpression
    | JobNameAlreadyExists
    | JobNotFound
    | JobDependencyError
    | JobFieldIsNotEditable
    | NullInRequiredColumn
    | DomainCallFailed

  // ---------- create ----------

  datatype CreateRequest = CreateRequest(
    name: string, description: Option<string>, cronSchedule: string, command: string, enabled: bool)

  /** What request validation made of the incoming dictionary. */
  datatype CreateInput = Invalid(mentionsCron: bool) | Validated(request: CreateRequest)

  predicate NameTaken(t: Table, name: string) { exists id :: id in t && t[id].name == name }

  function DecideCreate(t: Table, input: CreateInput): Result<CreateRequest, Error> {
    match input
    case Invalid(cron) => Err(if cron then JobInvalidCronExpression else JobInvalidName)
    case Validated(req) =>
      if req.enabled && |ActiveIds(t)| >= MAX_CONCURRENT_JOBS then Err(JobInvalidName)
      else if NameTaken(t, req.name) then Err(JobNameAlreadyExists)
      else Ok(req)
  }

  function NewJob(req: CreateRequest, now: Time): Job {
    Job(req.name, req.description, req.cronSchedule, req.command, req.enabled, now, None, None)
  }

  // ---------- edit ----------

  /** A key of the edit payload: not there, there with a null, or there with a value. */
  datatype Field<+T> = Absent | Null | Value(v: T)

  datatype EditPayload = EditPayload(
    name: Field<string>,
    description: Field<string>,
    cronSchedule: Field<string>,
    command: Field<string>,
    enabled: Field<bool>,
    scheduleRejected: bool,  // the cron library refuses the text of `cronSchedule`
    otherKeys: set<string>)  // payload keys that are not editable columns

  /** The row `get_by_name` may hand back for the requested name: any that bears it. Without such a row, or
      without a name in the payload, nothing is handed back and `lookup` says nothing. */
  predicate PossibleLookup(t: Table, p: EditPayload, lookup: JobId) {
    p.name.Value? && NameTaken(t, p.name.v) ==> lookup in t && t[lookup].name == p.name.v
  }

  function DecideEdit(t: Table, id: JobId, p: EditPayload, lookup: JobId): Result<Job, Error> {
    if id !in t then Err(JobNotFound)
    else if p.cronSchedule.Value? && p.scheduleRejected then Err(JobInvalidCronExpression)
    else if p.name.Value? && NameTaken(t, p.name.v) && lookup != id then Err(JobNameAlreadyExists)
    else if p.otherKeys != {} then Err(JobFieldIsNotEditable)
    else if p.enabled == Value(true) && !t[id].enabled && |ActiveIds(t)| >= MAX_CONCURRENT_JOBS
    then Err(JobFieldIsNotEditable)
    else if p.name.Null? || p.cronSchedule.Null? || p.command.Null? || p.enabled.Null?
    then Err(NullInRequiredColumn)
    else Ok(Edited(t[id], p))
  }

  function Edited(job: Job, p: EditPayload): Job {
    job.(name := if p.name.Value? then p.name.v else job.name,
         description := match p.description
                        case Absent => job.description
                        case Null => None
                        case Value(d) => Some(d),
         cronSchedule := if p.cronSchedule.Value? then p.cronSchedule.v else job.cronSchedule,
         command := if p.command.Value? then p.command.v else job.command,
         enabled := if p.enabled.Value? then p.enabled.v else job.enabled)
  }

  // ---------- delete ----------

  function DecideDelete(t: Table, id: JobId): Result<Job, Error> {
    if id !in t then Err(JobNotFound)
    else if t[id].enabled then Err(JobDependencyError)
    else Ok(t[id])
  }

  // ---------- the domain layer's effect on the crontab ----------

  /** A new crontab item is enabled whatever the job's own flag says: the domain layer's `create`
      never looks at that flag. */
  function CronCreate(c: Crontab, id: JobId): Crontab { c[id := true] }

  /** `edit` raises when the item is missing. */
  function CronEdit(c: Crontab, id: JobId, enabled: bool): Crontab {
    if id in c then c[id := enabled] else c
  }

  function CronDelete(c: Crontab, id: JobId): Crontab { c - {id} }

  // ---------- the monitoring pass ----------

  /** A run time in a crontab report: missing or empty, not an ISO date, or a date. */
  datatype Stamp = Missing | Malformed | At(time: Time)

  datatype OsJob = OsJob(id: JobId, enabled: Option<bool>, lastRun: Stamp, nextRun: Stamp)

  /** The report as a dictionary by id; a later entry replaces an earlier one. */
  function JobMap(report: seq<OsJob>): map<JobId, OsJob> {
    if report == [] then map[]
    else JobMap(report[..|report| - 1])[report[|report| - 1].id := report[|report| - 1]]
  }

  /** `os` is what a successful `list_all` says about crontab `c`. */
  predicate Reports(os: map<JobId, OsJob>, c: Crontab) {
    os.Keys == c.Keys && forall id :: id in c ==> os[id].enabled == Some(c[id])
  }

  function SyncStamp(current: Option<Time>, s: Stamp): Option<Time> {
    if s.At? then Some(s.time) else current
  }

  function Synchronized(job: Job, os: OsJob): Job {
    job.(lastRun := SyncStamp(job.lastRun, os.lastRun),
         nextRun := SyncStamp(job.nextRun, os.nextRun),
         enabled := if os.enabled.Some? then os.enabled.value else job.enabled)
  }

  predicate Aged(job: Job, now: Time) { now - job.createdAt > JOB_LIFETIME_THRESHOLD_SECS }

  function PassRow(id: JobId, job: Job, os: map<JobId, OsJob>, now: Time): Job {
    if id in os then Synchronized(job, os[id])
    else if job.enabled && Aged(job, now) then job.(enabled := false)
    else job
  }

  function Pass(t: Table, os: map<JobId, OsJob>, now: Time): Table {
    map id | id in t :: PassRow(id, t[id], os, now)
  }

  function Orphans(t: Table, os: map<JobId, OsJob>): set<JobId> { os.Keys - t.Keys }

  // ---------- whole operations on both replicas ----------

  /** How a domain call goes: it takes effect and returns; it raises and never takes effect; or it
      raises (times out) although the effect happens. */
  datatype Fate = Done | Lost | LateButDone

  /** Both replicas, with every id ever handed out (UUIDs are never reused). */
  datatype System = System(jobs: Table, crontab: Crontab, used: set<JobId>)

  datatype Operation =
    | Create(input: CreateInput, id: JobId, createdAt: Time, fate: Fate)
    | Edit(target: JobId, payload: EditPayload, lookup: JobId, fate: Fate)
    | Delete(target: JobId, fate: Fate)
    | Monitor(report: Option<seq<OsJob>>, now: Time, fates: JobId -> Fate)

  function Perform(s: System, op: Operation): System {
    match op
    case Create(input, id, createdAt, fate) =>
      var d := DecideCreate(s.jobs, input);
      if id in s.used || d.Err? then s
      else System(s.jobs[id := NewJob(d.value, createdAt)],
                  if fate.Lost? then s.crontab else CronCreate(s.crontab, id),
                  s.used + {id})
    case Edit(id, p, lookup, fate) =>
      var d := DecideEdit(s.jobs, id, p, lookup);
      if !PossibleLookup(s.jobs, p, lookup) || d.Err? then s
      else s.(jobs := s.jobs[id := d.value],
              crontab := if fate.Lost? then s.crontab else CronEdit(s.crontab, id, d.value.enabled))
    case Delete(id, fate) =>
      var d := DecideDelete(s.jobs, id);
      if d.Err? then s
      else s.(jobs := s.jobs - {id},
              crontab := if fate.Lost? then s.crontab else CronDelete(s.crontab, id))
    case Monitor(report, now, fates) =>
      if report.None? then s
      else
        var os := JobMap(report.value);
        s.(jobs := Pass(s.jobs, os, now),
           crontab := s.crontab - (set id | id in Orphans(s.jobs, os) && !fates(id).Lost?))
  }

  function Run(s: System, ops: seq<Operation>): System {
    if ops == [] then s else Perform(Run(s, ops[..|ops| - 1]), ops[|ops| - 1])
  }

  const EMPTY: System := System(map[], map[], {})
}
