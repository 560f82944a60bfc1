/** The scheduler as a concurrent system. Requests are split between their database commit and their
    domain call, monitors between their crontab read, their database read, each orphan deletion and
    their commit; domain messages may be lost, delayed, reordered and redelivered.

    A machine is run by an arbitrary list of steps; a step that is not enabled does nothing. The three
    orderings the code fixes are parameters, so that the safety theorem can say that the code's choice
    is the only safe one. */
module SchedulerProtocol {
  import opened Common
  import opened SchedulerJobs
  import SchedulerTheorems

  datatype Order = Order(createCommitsFirst: bool, deleteCommitsFirst: bool, crontabReadFirst: bool)

  /** `create_job` and `delete_job` commit before they call; `monitoring` lists the crontab before it
      loads the rows. */
  const CODE: Order := Order(true, true, true)

  datatype Message = CreateMsg(id: JobId) | EditMsg(id: JobId, enabled: bool) | DeleteMsg(id: JobId)

  /** The one request being served (the service layer takes one message at a time), between its two
      halves. */
  datatype Handler =
    | Idle
    | Creating(id: JobId, job: Job)
    | Editing(id: JobId, enabled: bool)
    | Deleting(id: JobId)

  datatype Monitor =
    | HasCrontab(os: map<JobId, OsJob>)
    | HasRows(rows: Table)
    | Syncing(rows: Table, session: Table, orphans: set<JobId>)

  datatype State = State(
    jobs: Table,                   // committed rows
    used: set<JobId>,              // ids handed out so far
    crontab: Crontab,
    sent: set<Message>,            // domain messages ever published; any of them may be delivered later
    handler: Handler,
    monitors: map<nat, Monitor>)   // monitoring passes under way

  datatype Step =
    | BeginCreate(input: CreateInput, id: JobId, now: Time)
    | BeginEdit(target: JobId, payload: EditPayload, lookup: JobId)
    | BeginDelete(target: JobId)
    | Finish
    | Abandon                                             // the service dies between the two halves
    | Deliver(m: Message)
    | FirstRead(k: nat, report: seq<OsJob>, now: Time)
    | SecondRead(k: nat, report: seq<OsJob>, now: Time)
    | DeleteOrphan(k: nat, orphan: JobId)
    | CommitPass(k: nat)
    | AbandonPass(k: nat)

  const INIT: State := State(map[], {}, map[], {}, Idle, map[])

  function Handle(c: Crontab, m: Message): Crontab {
    match m
    case CreateMsg(id) => CronCreate(c, id)
    case EditMsg(id, enabled) => CronEdit(c, id, enabled)
    case DeleteMsg(id) => CronDelete(c, id)
  }

  /** The rows a pass changed since it loaded them. */
  function Dirty(rows: Table, session: Table): set<JobId> {
    set id | id in rows && id in session && rows[id] != session[id]
  }

  /** An UPDATE names only the changed columns, and a flush that finds a changed row gone fails as a
      whole. */
  function Flush(jobs: Table, rows: Table, session: Table): Table {
    if !(Dirty(rows, session) <= jobs.Keys) then
      jobs
    else
      map id | id in jobs ::
        (if id in Dirty(rows, session) then FlushRow(jobs[id], rows[id], session[id]) else jobs[id])
  }

  function FlushRow(job: Job, loaded: Job, changed: Job): Job {
    job.(enabled := if changed.enabled != loaded.enabled then changed.enabled else job.enabled,
         lastRun := if changed.lastRun != loaded.lastRun then changed.lastRun else job.lastRun,
         nextRun := if changed.nextRun != loaded.nextRun then changed.nextRun else job.nextRun)
  }

  function Publish(s: State, m: Message): State { s.(sent := s.sent + {m}) }

  function Apply(o: Order, s: State, step: Step): State {
    match step
    case BeginCreate(input, id, now) =>
      var d := DecideCreate(s.jobs, input);
      if !s.handler.Idle? || id in s.used || d.Err? then s
      else
        var job := NewJob(d.value, now);
        var s1 := s.(used := s.used + {id}, handler := Creating(id, job));
        if o.createCommitsFirst then s1.(jobs := s.jobs[id := job]) else Publish(s1, CreateMsg(id))
    case BeginEdit(id, p, lookup) =>
      var d := DecideEdit(s.jobs, id, p, lookup);
      if !s.handler.Idle? || !PossibleLookup(s.jobs, p, lookup) || d.Err? then s
      else s.(jobs := s.jobs[id := d.value], handler := Editing(id, d.value.enabled))
    case BeginDelete(id) =>
      if !s.handler.Idle? || DecideDelete(s.jobs, id).Err? then s
      else
        var s1 := s.(handler := Deleting(id));
        if o.deleteCommitsFirst then s1.(jobs := s.jobs - {id}) else Publish(s1, DeleteMsg(id))
    case Finish =>
      var s1 := s.(handler := Idle);
      (match s.handler
       case Idle => s
       case Creating(id, job) =>
         if o.createCommitsFirst then Publish(s1, CreateMsg(id)) else s1.(jobs := s.jobs[id := job])
       case Editing(id, enabled) => Publish(s1, EditMsg(id, enabled))
       case Deleting(id) =>
         if o.deleteCommitsFirst then Publish(s1, DeleteMsg(id)) else s1.(jobs := s.jobs - {id}))
    case Abandon => s.(handler := Idle)
    case Deliver(m) =>
      if m !in s.sent then s else s.(crontab := Handle(s.crontab, m))
    case FirstRead(k, report, now) =>
      if k in s.monitors then s
      else if !o.crontabReadFirst then s.(monitors := s.monitors[k := HasRows(s.jobs)])
      else if !Reports(JobMap(report), s.crontab) then s
      else s.(monitors := s.monitors[k := HasCrontab(JobMap(report))])
    case SecondRead(k, report, now) =>
      if k !in s.monitors then s
      else (match s.monitors[k]
            case HasCrontab(os) =>
              s.(monitors := s.monitors[k := Synchronize(s.jobs, os, now)])
            case HasRows(rows) =>
              if !Reports(JobMap(report), s.crontab) then s
              else s.(monitors := s.monitors[k := Synchronize(rows, JobMap(report), now)])
            case Syncing(_, _, _) => s)
    case DeleteOrphan(k, id) =>
      if k !in s.monitors || !s.monitors[k].Syncing? || id !in s.monitors[k].orphans then s
      else
        var m := s.monitors[k];
        Publish(s, DeleteMsg(id)).(monitors := s.monitors[k := m.(orphans := m.orphans - {id})])
    case CommitPass(k) =>
      if k !in s.monitors || !s.monitors[k].Syncing? || s.monitors[k].orphans != {} then s
      else s.(jobs := Flush(s.jobs, s.monitors[k].rows, s.monitors[k].session), monitors := s.monitors - {k})
    case AbandonPass(k) => s.(monitors := s.monitors - {k})
  }

  function Synchronize(rows: Table, os: map<JobId, OsJob>, now: Time): Monitor {
    Syncing(rows, Pass(rows, os, now), Orphans(rows, os))
  }

  function Run(o: Order, s: State, steps: seq<Step>): State {
    if steps == [] then s else Apply(o, Run(o, s, steps[..|steps| - 1]), steps[|steps| - 1])
  }

  // ---------- safety ----------

  /** No request to delete a crontab item, whether an orphan's or a deleted job's, names a job that is
      live. Published messages are never forgotten, so this covers every later moment too. */
  ghost predicate Safe(s: State) {
    forall id :: DeleteMsg(id) in s.sent ==> id !in s.jobs
  }

  /** No request is under way, a job is live, its deletion was asked for, and its crontab item is not there. */
  ghost predicate Harmed(s: State) {
    s.handler.Idle? && exists id :: DeleteMsg(id) in s.sent && id in s.jobs && id !in s.crontab
  }

  ghost predicate Dead(s: State, id: JobId) { id in s.used && id !in s.jobs }

  ghost predicate MonitorInvariant(s: State, m: Monitor) {
    match m
    case HasCrontab(os) => os.Keys <= s.used
    case HasRows(_) => false
    case Syncing(rows, session, orphans) => forall id :: id in orphans ==> Dead(s, id)
  }

  ghost predicate Invariant(s: State) {
    && s.jobs.Keys <= s.used
    && s.crontab.Keys <= s.used
    && (forall id :: CreateMsg(id) in s.sent ==> id in s.used)
    && (forall id :: DeleteMsg(id) in s.sent ==> Dead(s, id))
    && (s.handler.Creating? ==> s.handler.id in s.used)
    && (s.handler.Deleting? ==> Dead(s, s.handler.id))
    && (forall k :: k in s.monitors ==> MonitorInvariant(s, s.monitors[k]))
    && NamesDistinct(s.jobs)
  }

  lemma FlushKeepsRows(jobs: Table, rows: Table, session: Table)
    ensures Flush(jobs, rows, session).Keys == jobs.Keys
    ensures forall id :: id in jobs ==> Flush(jobs, rows, session)[id].name == jobs[id].name
  {
  }

  /** Ids that are dead stay dead, and a monitor's invariant survives any step that only hands out
      fresh ids and removes rows. */
  lemma MonitorsKeep(s: State, s': State)
    requires Invariant(s) && s'.used >= s.used
    requires forall id :: Dead(s, id) ==> Dead(s', id)
    requires forall k :: k in s'.monitors ==> k in s.monitors && s'.monitors[k] == s.monitors[k]
    ensures forall k :: k in s'.monitors ==> MonitorInvariant(s', s'.monitors[k])
  {
  }

  lemma BeginKeepsInvariant(s: State, step: Step)
    requires Invariant(s) && (step.BeginCreate? || step.BeginEdit? || step.BeginDelete?)
    ensures Invariant(Apply(CODE, s, step))
    ensures forall id :: Dead(s, id) ==> Dead(Apply(CODE, s, step), id)
  {
    var s' := Apply(CODE, s, step);
    if step.BeginEdit? {
      var edit := Edit(step.target, step.payload, step.lookup, Lost);
      SchedulerTheorems.OperationKeepsNames(System(s.jobs, s.crontab, s.used), edit);
    }
    MonitorsKeep(s, s');
  }

  lemma FinishKeepsInvariant(s: State, step: Step)
    requires Invariant(s) && (step.Finish? || step.Abandon? || step.Deliver? || step.AbandonPass?)
    ensures Invariant(Apply(CODE, s, step))
    ensures forall id :: Dead(s, id) ==> Dead(Apply(CODE, s, step), id)
  {
    MonitorsKeep(s, Apply(CODE, s, step));
  }

  lemma ReadKeepsInvariant(s: State, step: Step)
    requires Invariant(s) && (step.FirstRead? || step.SecondRead? || step.DeleteOrphan?)
    ensures Invariant(Apply(CODE, s, step))
    ensures forall id :: Dead(s, id) ==> Dead(Apply(CODE, s, step), id)
  {
    var s' := Apply(CODE, s, step);
    forall k | k in s'.monitors ensures MonitorInvariant(s', s'.monitors[k]) {
      assert k != step.k ==> k in s.monitors && s'.monitors[k] == s.monitors[k];
      if k == step.k && k in s.monitors { assert MonitorInvariant(s, s.monitors[k]); }
    }
  }

  lemma CommitKeepsInvariant(s: State, k: nat)
    requires Invariant(s)
    ensures Invariant(Apply(CODE, s, CommitPass(k)))
    ensures forall id :: Dead(s, id) ==> Dead(Apply(CODE, s, CommitPass(k)), id)
  {
    var s' := Apply(CODE, s, CommitPass(k));
    if s' != s {
      FlushKeepsRows(s.jobs, s.monitors[k].rows, s.monitors[k].session);
      MonitorsKeep(s, s');
    }
  }

  lemma StepKeepsInvariant(s: State, step: Step)
    requires Invariant(s)
    ensures Invariant(Apply(CODE, s, step))
    ensures forall id :: Dead(s, id) ==> Dead(Apply(CODE, s, step), id)
  {
    if step.BeginCreate? || step.BeginEdit? || step.BeginDelete? {
      BeginKeepsInvariant(s, step);
    } else if step.FirstRead? || step.SecondRead? || step.DeleteOrphan? {
      ReadKeepsInvariant(s, step);
    } else if step.CommitPass? {
      CommitKeepsInvariant(s, step.k);
    } else {
      FinishKeepsInvariant(s, step);
    }
  }

  lemma {:induction false} RunKeepsInvariant(steps: seq<Step>)
    ensures Invariant(Run(CODE, INIT, steps))
  {
    if steps == [] {
    } else {
      RunKeepsInvariant(steps[..|steps| - 1]);
      StepKeepsInvariant(Run(CODE, INIT, steps[..|steps| - 1]), steps[|steps| - 1]);
    }
  }

  /** Names stay distinct in every interleaving, although the table does not enforce it. */
  lemma {:induction false} NamesDistinctInEveryRun(steps: seq<Step>)
    ensures NamesDistinct(Run(CODE, INIT, steps).jobs)
  {
    RunKeepsInvariant(steps);
  }

  /** In every interleaving, delivering any published message leaves the crontab item of every live job
      in place. */
  lemma LiveItemsSurviveDelivery(steps: seq<Step>, m: Message, id: JobId)
    requires id in Run(CODE, INIT, steps).jobs && id in Run(CODE, INIT, steps).crontab
    ensures id in Run(CODE, INIT, steps + [Deliver(m)]).crontab
  {
    RunKeepsInvariant(steps);
    assert (steps + [Deliver(m)])[..|steps|] == steps;
  }

  // ---------- each ordering is needed ----------

  function AnyRequest(enabled: bool): CreateInput {
    Validated(CreateRequest("job", None, "* * * * *", "ls", enabled))
  }

  function ReportOf(id: JobId): seq<OsJob> { [OsJob(id, Some(true), Missing, Missing)] }

  lemma RunPlus(o: Order, s: State, steps: seq<Step>, step: Step)
    ensures Run(o, s, steps + [step]) == Apply(o, Run(o, s, steps), step)
  {
    assert (steps + [step])[..|steps|] == steps;
  }

  lemma FirstIdReported(c: Crontab)
    requires c == map[0 := true]
    ensures Reports(JobMap(ReportOf(0)), c)
  {
    assert ReportOf(0)[..0] == [];
    assert JobMap(ReportOf(0)) == map[0 := OsJob(0, Some(true), Missing, Missing)];
  }

  /** One more step of a run, with the state it leads to. */
  lemma Next(o: Order, steps: seq<Step>, s: State, step: Step) returns (s': State)
    requires s == Run(o, INIT, steps)
    ensures s' == Apply(o, s, step) == Run(o, INIT, steps + [step])
  {
    s' := Apply(o, s, step);
    RunPlus(o, INIT, steps, step);
  }

  lemma CreateFromStart(o: Order, steps: seq<Step>, s: State, enabled: bool) returns (s': State)
    requires s == Run(o, INIT, steps)
    requires s.jobs == map[] && s.used == {} && s.handler.Idle?
    ensures s' == Run(o, INIT, steps + [BeginCreate(AnyRequest(enabled), 0, 0.0)])
    ensures s'.handler == Creating(0, NewJob(AnyRequest(enabled).request, 0.0))
    ensures s'.crontab == s.crontab && s'.monitors == s.monitors
    ensures o.createCommitsFirst ==> s'.jobs == map[0 := s'.handler.job] && s'.sent == s.sent
    ensures !o.createCommitsFirst ==> s'.jobs == map[] && s'.sent == s.sent + {CreateMsg(0)}
  {
    assert ActiveIds(s.jobs) == {};
    assert DecideCreate(s.jobs, AnyRequest(enabled)).Ok?;
    s' := Next(o, steps, s, BeginCreate(AnyRequest(enabled), 0, 0.0));
  }

  /** Calling the domain first lets a monitor see the item while the row is still missing. */
  lemma EagerCreateUnsafe(o: Order) returns (steps: seq<Step>)
    requires !o.createCommitsFirst
    ensures !Safe(Run(o, INIT, steps)) && Harmed(Run(o, INIT, steps))
  {
    var s1 := CreateFromStart(o, [], INIT, true);
    steps := [] + [BeginCreate(AnyRequest(true), 0, 0.0)];
    var s2 := Next(o, steps, s1, Deliver(CreateMsg(0)));
    steps := steps + [Deliver(CreateMsg(0))];
    var s5;
    steps, s5 := OrphanDeleted(o, steps, s2);
    var s6 := Next(o, steps, s5, Finish);
    steps := steps + [Finish];
    steps := DeletionIsDelivered(o, steps, s6);
  }

  /** A deletion that names a live job reaches the crontab. */
  lemma DeletionIsDelivered(o: Order, before: seq<Step>, s: State) returns (steps: seq<Step>)
    requires s == Run(o, INIT, before)
    requires DeleteMsg(0) in s.sent && 0 in s.jobs && s.handler.Idle?
    ensures !Safe(Run(o, INIT, steps)) && Harmed(Run(o, INIT, steps))
  {
    var s1 := Next(o, before, s, Deliver(DeleteMsg(0)));
    steps := before + [Deliver(DeleteMsg(0))];
    assert DeleteMsg(0) in s1.sent && 0 in s1.jobs && 0 !in s1.crontab;
  }

  /** A whole pass that finds item 0 in the crontab and no row for it. */
  lemma OrphanDeleted(o: Order, before: seq<Step>, s: State) returns (steps: seq<Step>, s': State)
    requires s == Run(o, INIT, before)
    requires s.crontab == map[0 := true] && s.jobs == map[] && s.monitors == map[]
    ensures s' == Run(o, INIT, steps)
    ensures DeleteMsg(0) in s'.sent && s'.handler == s.handler && s'.jobs == s.jobs
  {
    FirstIdReported(s.crontab);
    var s1 := Next(o, before, s, FirstRead(0, ReportOf(0), 0.0));
    steps := before + [FirstRead(0, ReportOf(0), 0.0)];
    var s2 := Next(o, steps, s1, SecondRead(0, ReportOf(0), 0.0));
    steps := steps + [SecondRead(0, ReportOf(0), 0.0)];
    assert s2.monitors[0].Syncing? && 0 in s2.monitors[0].orphans;
    s' := Next(o, steps, s2, DeleteOrphan(0, 0));
    steps := steps + [DeleteOrphan(0, 0)];
  }

  /** Calling the domain first publishes the deletion of a row that is still there, and stays there when the
      service dies before the commit. */
  lemma EagerDeleteUnsafe(o: Order) returns (steps: seq<Step>)
    requires !o.deleteCommitsFirst
    ensures !Safe(Run(o, INIT, steps)) && Harmed(Run(o, INIT, steps))
  {
    var s1 := CreateFromStart(o, [], INIT, false);
    steps := [] + [BeginCreate(AnyRequest(false), 0, 0.0)];
    var s2 := Next(o, steps, s1, Finish);
    steps := steps + [Finish];
    assert 0 in s2.jobs && !s2.jobs[0].enabled && CreateMsg(0) in s2.sent;
    var s3 := Next(o, steps, s2, Deliver(CreateMsg(0)));
    steps := steps + [Deliver(CreateMsg(0))];
    var s4 := Next(o, steps, s3, BeginDelete(0));
    steps := steps + [BeginDelete(0)];
    var s5 := Next(o, steps, s4, Abandon);
    steps := steps + [Abandon];
    steps := DeletionIsDelivered(o, steps, s5);
  }

  /** Loading the rows first makes a job created in between look like an orphan. */
  lemma RowsFirstUnsafe(o: Order) returns (steps: seq<Step>)
    requires o.createCommitsFirst && !o.crontabReadFirst
    ensures !Safe(Run(o, INIT, steps)) && Harmed(Run(o, INIT, steps))
  {
    var s1 := Next(o, [], INIT, FirstRead(0, [], 0.0));
    steps := [] + [FirstRead(0, [], 0.0)];
    var s2 := CreateFromStart(o, steps, s1, true);
    steps := steps + [BeginCreate(AnyRequest(true), 0, 0.0)];
    steps := FinishedCreateMakesOrphan(o, steps, s2);
  }

  lemma FinishedCreateMakesOrphan(o: Order, before: seq<Step>, s: State) returns (steps: seq<Step>)
    requires s == Run(o, INIT, before) && o.createCommitsFirst
    requires s.crontab == map[] && s.monitors == map[0 := HasRows(map[])]
    requires 0 in s.jobs && s.handler.Creating? && s.handler.id == 0
    ensures !Safe(Run(o, INIT, steps)) && Harmed(Run(o, INIT, steps))
  {
    var s1 := Next(o, before, s, Finish);
    steps := before + [Finish];
    var s2 := Next(o, steps, s1, Deliver(CreateMsg(0)));
    steps := steps + [Deliver(CreateMsg(0))];
    steps := StaleRowsMakeOrphan(o, steps, s2);
  }

  lemma StaleRowsMakeOrphan(o: Order, before: seq<Step>, s: State) returns (steps: seq<Step>)
    requires s == Run(o, INIT, before)
    requires s.crontab == map[0 := true] && s.monitors == map[0 := HasRows(map[])]
    requires 0 in s.jobs && s.handler.Idle?
    ensures !Safe(Run(o, INIT, steps)) && Harmed(Run(o, INIT, steps))
  {
    FirstIdReported(s.crontab);
    var s1 := Next(o, before, s, SecondRead(0, ReportOf(0), 0.0));
    steps := before + [SecondRead(0, ReportOf(0), 0.0)];
    assert s1.monitors[0].Syncing? && 0 in s1.monitors[0].orphans;
    var s2 := Next(o, steps, s1, DeleteOrphan(0, 0));
    steps := steps + [DeleteOrphan(0, 0)];
    steps := DeletionIsDelivered(o, steps, s2);
  }

  /** The code's order is safe in every interleaving, and no other combination of the three orderings is:
      with any other some run asks for the deletion of a live job's item, and some run carries it out. */
  lemma SafeIffCodeOrder(o: Order)
    ensures (forall steps :: Safe(Run(o, INIT, steps))) <==> o == CODE
    ensures (forall steps :: !Harmed(Run(o, INIT, steps))) <==> o == CODE
  {
    if o == CODE {
      forall steps ensures Safe(Run(o, INIT, steps)) && !Harmed(Run(o, INIT, steps)) { RunKeepsInvariant(steps); }
    } else if !o.createCommitsFirst {
      var steps := EagerCreateUnsafe(o);
    } else if !o.deleteCommitsFirst {
      var steps := EagerDeleteUnsafe(o);
    } else {
      var steps := RowsFirstUnsafe(o);
    }
  }
}
