/** The scheduler service layer as the imperative code runs it. Each method is proved to have exactly
    the effect that `SchedulerJobs.Perform` gives the operation, and to answer as decided. */
module SchedulerService {
  import opened Common
  import opened SchedulerJobs

  class SchedulerServiceLayerManager {
    var jobs: Table         // what is committed in the database
    var crontab: Crontab    // what the domain layer has put in the OS crontab
    var used: set<JobId>

    ghost function Both(): System
      reads this
    {
      System(jobs, crontab, used)
    }

    constructor ()
      ensures Both() == EMPTY
    {
      jobs, crontab, used := map[], map[], {};
    }

    method CreateJob(input: CreateInput, id: JobId, now: Time, fate: Fate) returns (r: Result<Job, Error>)
      requires id !in used
      modifies this
      ensures Both() == Perform(old(Both()), Create(input, id, now, fate))
      ensures var d := DecideCreate(old(jobs), input);
              r == if d.Err? then Err(d.error)
                   else if fate.Done? then Ok(NewJob(d.value, now))
                   else Err(DomainCallFailed)
    {
      if input.Invalid? {
        return Err(if input.mentionsCron then JobInvalidCronExpression else JobInvalidName);
      }
      var req := input.request;
      if req.enabled && |ActiveIds(jobs)| >= MAX_CONCURRENT_JOBS { return Err(JobInvalidName); }
      if NameTaken(jobs, req.name) { return Err(JobNameAlreadyExists); }

      var newJob := NewJob(req, now);
      jobs, used := jobs[id := newJob], used + {id};  // commit

      if !fate.Lost? { crontab := CronCreate(crontab, id); }
      if !fate.Done? { return Err(DomainCallFailed); }
      return Ok(newJob);
    }

    /** `lookup` is the row that the query by the requested name hands back, if any has it. */
    method EditJob(id: JobId, p: EditPayload, lookup: JobId, fate: Fate) returns (r: Result<Job, Error>)
      requires PossibleLookup(jobs, p, lookup)
      modifies this
      ensures Both() == Perform(old(Both()), Edit(id, p, lookup, fate))
      ensures var d := DecideEdit(old(jobs), id, p, lookup);
              r == if d.Err? then Err(d.error)
                   else if fate.Done? && id in old(crontab) then Ok(d.value)
                   else Err(DomainCallFailed)
    {
      hide Edited, NameTaken, ActiveIds;
      if id !in jobs { return Err(JobNotFound); }
      var invalid := ValidateEditData(id, p, lookup);
      if invalid.Some? { return Err(invalid.value); }

      var job := SetFields(jobs[id], p);
      if p.name.Null? || p.cronSchedule.Null? || p.command.Null? || p.enabled.Null? {
        return Err(NullInRequiredColumn);  // the commit raises and the session rolls back
      }
      jobs := jobs[id := job];  // commit

      var found := id in crontab;
      if !fate.Lost? { crontab := CronEdit(crontab, id, job.enabled); }
      if !fate.Done? || !found { return Err(DomainCallFailed); }
      return Ok(job);
    }

    /** The `setattr` loop. A null in a required column is only noticed by the commit. */
    method SetFields(row: Job, p: EditPayload) returns (job: Job)
      ensures job == Edited(row, p)
    {
      job := row;
      if p.name.Value? { job := job.(name := p.name.v); }
      if p.description.Value? { job := job.(description := Some(p.description.v)); }
      if p.description.Null? { job := job.(description := None); }
      if p.cronSchedule.Value? { job := job.(cronSchedule := p.cronSchedule.v); }
      if p.command.Value? { job := job.(command := p.command.v); }
      if p.enabled.Value? { job := job.(enabled := p.enabled.v); }
    }

    method ValidateEditData(id: JobId, p: EditPayload, lookup: JobId) returns (e: Option<Error>)
      requires id in jobs
      ensures e.Some? ==> DecideEdit(jobs, id, p, lookup) == Err(e.value)
      ensures e.None? ==>
                DecideEdit(jobs, id, p, lookup) ==
                if p.name.Null? || p.cronSchedule.Null? || p.command.Null? || p.enabled.Null?
                then Err(NullInRequiredColumn) else Ok(Edited(jobs[id], p))
    {
      if p.cronSchedule.Value? && p.scheduleRejected { return Some(JobInvalidCronExpression); }
      if p.name.Value? && NameTaken(jobs, p.name.v) && lookup != id { return Some(JobNameAlreadyExists); }
      if p.otherKeys != {} { return Some(JobFieldIsNotEditable); }
      if p.enabled == Value(true) && !jobs[id].enabled {
        if |ActiveIds(jobs)| >= MAX_CONCURRENT_JOBS { return Some(JobFieldIsNotEditable); }
      }
      return None;
    }

    method DeleteJob(id: JobId, fate: Fate) returns (r: Result<Job, Error>)
      modifies this
      ensures Both() == Perform(old(Both()), Delete(id, fate))
      ensures var d := DecideDelete(old(jobs), id);
              r == if d.Ok? && !fate.Done? then Err(DomainCallFailed) else d
    {
      if id !in jobs { return Err(JobNotFound); }
      var job := jobs[id];
      if job.enabled { return Err(JobDependencyError); }
      jobs := jobs - {id};  // commit
      if !fate.Lost? { crontab := CronDelete(crontab, id); }
      if !fate.Done? { return Err(DomainCallFailed); }
      return Ok(job);
    }

    /** One uninterrupted monitoring pass. `report` is the answer to `list_all` (None: the call
        raised); rows are visited, and orphans deleted, in any order. */
    method Monitoring(report: Option<seq<OsJob>>, now: Time, fates: JobId -> Fate)
      modifies this
      ensures Both() == Perform(old(Both()), Monitor(report, now, fates))
    {
      if report.None? { return; }
      var osJobsMap := ById(report.value);
      var session, leftovers := SynchronizeRows(osJobsMap, now);
      DeleteOrphans(leftovers, fates);
      jobs := session;  // commit
    }

    method ById(osJobs: seq<OsJob>) returns (m: map<JobId, OsJob>)
      ensures m == JobMap(osJobs)
    {
      m := map[];
      for i := 0 to |osJobs|
        invariant m == JobMap(osJobs[..i])
      {
        assert osJobs[..i + 1][..i] == osJobs[..i];
        m := m[osJobs[i].id := osJobs[i]];
      }
      assert osJobs[..|osJobs|] == osJobs;
    }

    /** Walks the loaded rows, consuming the report; nothing is committed yet. */
    method SynchronizeRows(os: map<JobId, OsJob>, now: Time) returns (session: Table, leftovers: set<JobId>)
      ensures session == Pass(jobs, os, now)
      ensures leftovers == Orphans(jobs, os)
    {
      var osJobsMap := os;
      session := jobs;
      var todo := jobs.Keys;
      while todo != {}
        invariant todo <= jobs.Keys && session.Keys == jobs.Keys
        invariant forall id :: id in todo ==> session[id] == jobs[id]
        invariant forall id :: id in jobs && id !in todo ==> session[id] == PassRow(id, jobs[id], os, now)
        invariant osJobsMap == os - (jobs.Keys - todo)
      {
        var id :| id in todo;
        var dbJob := session[id];
        if id in osJobsMap {
          dbJob := SynchronizeOsToDbInfo(dbJob, osJobsMap[id]);
          osJobsMap := osJobsMap - {id};
        } else if dbJob.enabled && now - dbJob.createdAt > JOB_LIFETIME_THRESHOLD_SECS {
          dbJob := dbJob.(enabled := false);
        }
        session := session[id := dbJob];
        todo := todo - {id};
      }
      leftovers := osJobsMap.Keys;
    }

    method DeleteOrphans(orphanIds: set<JobId>, fates: JobId -> Fate)
      modifies this`crontab
      ensures crontab == old(crontab) - set id | id in orphanIds && !fates(id).Lost?
    {
      var todo := orphanIds;
      while todo != {}
        invariant todo <= orphanIds
        invariant crontab == old(crontab) - set id | id in orphanIds - todo && !fates(id).Lost?
      {
        var orphanId :| orphanId in todo;
        if !fates(orphanId).Lost? { crontab := CronDelete(crontab, orphanId); }
        todo := todo - {orphanId};
      }
    }

    method SynchronizeOsToDbInfo(dbJob: Job, os: OsJob) returns (r: Job)
      ensures r == Synchronized(dbJob, os)
    {
      r := dbJob;
      if os.lastRun.At? { r := r.(lastRun := Some(os.lastRun.time)); }
      if os.nextRun.At? { r := r.(nextRun := Some(os.nextRun.time)); }
      if os.enabled.Some? && r.enabled != os.enabled.value { r := r.(enabled := os.enabled.value); }
    }
  }
}
