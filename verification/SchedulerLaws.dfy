/** The scheduler's operations field by field, in terms of their inputs and the tables before and after. */
module SchedulerLaws {
  import opened Common
  import opened SchedulerJobs
  import SchedulerTheorems
  import SchedulerProtocol

  /** Everything but the columns a pass may write. */
  ghost predicate SameDefinition(a: Job, b: Job) {
    && a.name == b.name && a.description == b.description && a.cronSchedule == b.cronSchedule
    && a.command == b.command && a.createdAt == b.createdAt
  }

  function Active(t: Table): nat { |set id | id in t && t[id].enabled| }

  lemma ActiveAreCounted(t: Table)
    ensures Active(t) == |ActiveIds(t)|
  {
    assert (set id | id in t && t[id].enabled) == ActiveIds(t);
  }

  // ---------- a monitoring pass ----------

  /** Entry `i` is the last one of the report with this id. */
  ghost predicate LastEntry(report: seq<OsJob>, i: int, id: JobId) {
    0 <= i < |report| && report[i].id == id && forall j :: i < j < |report| ==> report[j].id != id
  }

  ghost predicate Unreported(report: seq<OsJob>, id: JobId) { forall j :: 0 <= j < |report| ==> report[j].id != id }

  lemma JobMapGivesLast(report: seq<OsJob>, i: nat, id: JobId)
    requires LastEntry(report, i, id)
    ensures id in JobMap(report) && JobMap(report)[id] == report[i]
  {
    SchedulerTheorems.JobMapKeepsLast(report, id);
  }

  /** A reported row takes over the run times that its last entry gives as dates and keeps the others; it
      takes over the entry's flag, if it has one; nothing else changes. */
  lemma ReportedRowAfterPass(s: System, report: seq<OsJob>, now: Time, fates: JobId -> Fate, id: JobId, i: nat)
    requires id in s.jobs && LastEntry(report, i, id)
    ensures var jobs, entry := Perform(s, Monitor(Some(report), now, fates)).jobs, report[i];
            && id in jobs && SameDefinition(jobs[id], s.jobs[id])
            && jobs[id].lastRun == (match entry.lastRun case At(t) => Some(t) case _ => s.jobs[id].lastRun)
            && jobs[id].nextRun == (match entry.nextRun case At(t) => Some(t) case _ => s.jobs[id].nextRun)
            && jobs[id].enabled == (match entry.enabled case Some(b) => b case None => s.jobs[id].enabled)
  {
    JobMapGivesLast(report, i, id);
  }

  /** A row that is not reported stays as it is, except that an active one older than 30 seconds is disabled. */
  lemma UnreportedRowAfterPass(s: System, report: seq<OsJob>, now: Time, fates: JobId -> Fate, id: JobId)
    requires id in s.jobs && Unreported(report, id)
    ensures var jobs := Perform(s, Monitor(Some(report), now, fates)).jobs;
            && id in jobs && SameDefinition(jobs[id], s.jobs[id])
            && jobs[id].lastRun == s.jobs[id].lastRun && jobs[id].nextRun == s.jobs[id].nextRun
            && (jobs[id].enabled <==> s.jobs[id].enabled && now - s.jobs[id].createdAt <= 30.0)
  {
    SchedulerTheorems.JobMapKeepsLast(report, id);
  }

  /** A pass makes and removes no row; a crontab item goes exactly when it is reported, has no row, and its
      deletion is not lost, and the others keep their flag. Without a report nothing happens. */
  lemma ReplicasAfterPass(s: System, report: seq<OsJob>, now: Time, fates: JobId -> Fate)
    ensures var s1 := Perform(s, Monitor(Some(report), now, fates));
            && s1.jobs.Keys == s.jobs.Keys && s1.used == s.used
            && (forall id :: id in s1.crontab <==>
                  id in s.crontab && (Unreported(report, id) || id in s.jobs || fates(id) == Lost))
            && (forall id :: id in s1.crontab ==> s1.crontab[id] == s.crontab[id])
    ensures Perform(s, Monitor(None, now, fates)) == s
  {
    forall id { SchedulerTheorems.JobMapKeepsLast(report, id); }
  }

  // ---------- create ----------

  /** A request is refused for the first of these reasons that applies, in this order. */
  lemma CreateIsDecided(t: Table, input: CreateInput)
    ensures input.Invalid? ==>
              DecideCreate(t, input) == Err(if input.mentionsCron then JobInvalidCronExpression else JobInvalidName)
    ensures input.Validated? && input.request.enabled && Active(t) >= 10 ==>
              DecideCreate(t, input) == Err(JobInvalidName)
    ensures input.Validated? && (input.request.enabled ==> Active(t) < 10) ==>
              DecideCreate(t, input) ==
              if exists id :: id in t && t[id].name == input.request.name then Err(JobNameAlreadyExists)
              else Ok(input.request)
  {
    ActiveAreCounted(t);
  }

  /** An accepted request adds one row with the requested fields and no run times; whatever its flag, its
      crontab item is enabled unless the call is lost. A refused one changes nothing. */
  lemma CreateAddsRow(s: System, input: CreateInput, id: JobId, now: Time, fate: Fate)
    requires id !in s.used
    ensures var s1 := Perform(s, Create(input, id, now, fate));
            if DecideCreate(s.jobs, input).Err? then s1 == s
            else
              var req := input.request;
              && s1.used == s.used + {id} && s1.jobs.Keys == s.jobs.Keys + {id}
              && (forall k :: k in s.jobs && k != id ==> s1.jobs[k] == s.jobs[k])
              && s1.jobs[id].name == req.name && s1.jobs[id].description == req.description
              && s1.jobs[id].cronSchedule == req.cronSchedule && s1.jobs[id].command == req.command
              && s1.jobs[id].enabled == req.enabled && s1.jobs[id].createdAt == now
              && s1.jobs[id].lastRun == None && s1.jobs[id].nextRun == None && s1.jobs[id] == NewJob(req, now)
              && (fate == Lost ==> s1.crontab == s.crontab)
              && (fate != Lost ==> s1.crontab.Keys == s.crontab.Keys + {id} && s1.crontab[id])
              && (forall k :: k in s.crontab && k != id ==> s1.crontab[k] == s.crontab[k])
  {
  }

  // ---------- edit ----------

  /** What the payload leaves to the column: its value, or the old one when the key is absent. */
  ghost predicate Written<T>(f: Field<T>, before: T, after: T) {
    match f
    case Value(v) => after == v
    case _ => after == before
  }

  ghost predicate NullsRequired(p: EditPayload) {
    p.name == Null || p.cronSchedule == Null || p.command == Null || p.enabled == Null
  }

  /** An edit is refused for the first of these reasons that applies, in this order. */
  lemma EditIsDecided(t: Table, id: JobId, p: EditPayload, lookup: JobId)
    ensures var d := DecideEdit(t, id, p, lookup);
            var taken := p.name.Value? && (exists k :: k in t && t[k].name == p.name.v) && lookup != id;
            if id !in t then d == Err(JobNotFound)
            else if p.cronSchedule.Value? && p.scheduleRejected then d == Err(JobInvalidCronExpression)
            else if taken then d == Err(JobNameAlreadyExists)
            else if exists key :: key in p.otherKeys then d == Err(JobFieldIsNotEditable)
            else if p.enabled == Value(true) && !t[id].enabled && Active(t) >= 10
            then d == Err(JobFieldIsNotEditable)
            else if NullsRequired(p) then d == Err(NullInRequiredColumn)
            else d.Ok?
  {
    ActiveAreCounted(t);
  }

  /** An accepted edit writes the given fields of its one row and nothing else (a null clears the description
      only), and hands the new flag to the crontab item, if there is one and the call is not lost. */
  lemma EditWritesRow(s: System, id: JobId, p: EditPayload, lookup: JobId, fate: Fate)
    requires p.name.Value? && (exists k :: k in s.jobs && s.jobs[k].name == p.name.v) ==>
               lookup in s.jobs && s.jobs[lookup].name == p.name.v
    ensures var s1 := Perform(s, Edit(id, p, lookup, fate));
            if DecideEdit(s.jobs, id, p, lookup).Err? then s1 == s
            else
              && s1.used == s.used && s1.jobs.Keys == s.jobs.Keys && id in s.jobs
              && s1.jobs[id] == DecideEdit(s.jobs, id, p, lookup).value
              && (forall k :: k in s.jobs && k != id ==> s1.jobs[k] == s.jobs[k])
              && Written(p.name, s.jobs[id].name, s1.jobs[id].name)
              && (p.description == Null ==> s1.jobs[id].description == None)
              && (p.description == Absent ==> s1.jobs[id].description == s.jobs[id].description)
              && (p.description.Value? ==> s1.jobs[id].description == Some(p.description.v))
              && Written(p.cronSchedule, s.jobs[id].cronSchedule, s1.jobs[id].cronSchedule)
              && Written(p.command, s.jobs[id].command, s1.jobs[id].command)
              && Written(p.enabled, s.jobs[id].enabled, s1.jobs[id].enabled)
              && s1.jobs[id].createdAt == s.jobs[id].createdAt
              && s1.jobs[id].lastRun == s.jobs[id].lastRun && s1.jobs[id].nextRun == s.jobs[id].nextRun
              && s1.crontab.Keys == s.crontab.Keys
              && (forall k :: k in s.crontab ==>
                    s1.crontab[k] == if k == id && fate != Lost then s1.jobs[id].enabled else s.crontab[k])
  {
  }

  // ---------- delete ----------

  /** Exactly an existing job that is not active is deleted: its row goes, and its crontab item unless the call
      is lost; nothing else changes. */
  lemma DeleteRemovesRow(s: System, id: JobId, fate: Fate)
    ensures var s1, d := Perform(s, Delete(id, fate)), DecideDelete(s.jobs, id);
            if id !in s.jobs then d == Err(JobNotFound) && s1 == s
            else if s.jobs[id].enabled then d == Err(JobDependencyError) && s1 == s
            else
              && d == Ok(s.jobs[id]) && s1.used == s.used
              && s1.jobs.Keys == s.jobs.Keys - {id} && (forall k :: k in s1.jobs ==> s1.jobs[k] == s.jobs[k])
              && s1.crontab.Keys == s.crontab.Keys - (if fate == Lost then {} else {id})
              && (forall k :: k in s1.crontab ==> s1.crontab[k] == s.crontab[k])
  {
  }

  // ---------- the commit of a pass among other requests ----------

  /** A column the pass changed takes the pass's value, one it did not change keeps what was committed in the
      meantime. */
  ghost predicate Merged<T>(committed: T, loaded: T, changed: T, after: T) {
    after == if changed != loaded then changed else committed
  }

  /** Committing a pass writes only run times and flags, column by column; and nothing at all if a row that the
      pass changed has been deleted in the meantime. */
  lemma CommitWritesChangedColumns(s: SchedulerProtocol.State, k: nat)
    requires k in s.monitors && s.monitors[k].Syncing? && s.monitors[k].orphans == {}
    ensures var m := s.monitors[k];
            var commit := SchedulerProtocol.CommitPass(k);
            var jobs := SchedulerProtocol.Apply(SchedulerProtocol.CODE, s, commit).jobs;
            if exists id :: id in m.rows && id in m.session && m.rows[id] != m.session[id] && id !in s.jobs
            then jobs == s.jobs
            else
              && jobs.Keys == s.jobs.Keys
              && forall id :: id in jobs ==>
                   && SameDefinition(jobs[id], s.jobs[id])
                   && (if id in m.rows && id in m.session
                       then
                         && Merged(s.jobs[id].enabled, m.rows[id].enabled, m.session[id].enabled, jobs[id].enabled)
                         && Merged(s.jobs[id].lastRun, m.rows[id].lastRun, m.session[id].lastRun, jobs[id].lastRun)
                         && Merged(s.jobs[id].nextRun, m.rows[id].nextRun, m.session[id].nextRun, jobs[id].nextRun)
                       else jobs[id] == s.jobs[id])
  {
  }
}
