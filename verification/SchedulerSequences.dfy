/** The interleaved scheduler against the whole operations: requests and passes that run without
    interruption have exactly the effect that `SchedulerJobs.Perform` gives them. */
module SchedulerSequences {
  import opened Common
  import opened SchedulerJobs
  import opened SchedulerProtocol

  /** The two replicas of a protocol state. */
  function Replicas(s: State): System { System(s.jobs, s.crontab, s.used) }

  function RunCode(s: State, steps: seq<Step>): State { SchedulerProtocol.Run(CODE, s, steps) }

  function Delivered(fate: Fate, m: Message): seq<Step> { if fate.Lost? then [] else [Deliver(m)] }

  function CreateSteps(input: CreateInput, id: JobId, now: Time, fate: Fate): seq<Step> {
    [BeginCreate(input, id, now), Finish] + Delivered(fate, CreateMsg(id))
  }

  function EditSteps(t: Table, id: JobId, p: EditPayload, lookup: JobId, fate: Fate): seq<Step> {
    var d := DecideEdit(t, id, p, lookup);
    [BeginEdit(id, p, lookup), Finish] + if d.Ok? then Delivered(fate, EditMsg(id, d.value.enabled)) else []
  }

  function DeleteSteps(t: Table, id: JobId, fate: Fate): seq<Step> {
    [BeginDelete(id), Finish] + if DecideDelete(t, id).Ok? then Delivered(fate, DeleteMsg(id)) else []
  }

  lemma RunTwo(s: State, a: Step, b: Step)
    ensures RunCode(s, [a, b]) == Apply(CODE, Apply(CODE, s, a), b)
  {
    RunPlus(CODE, s, [], a);
    RunPlus(CODE, s, [a], b);
    assert [] + [a] == [a] && [a] + [b] == [a, b];
  }

  lemma RunThen(s: State, a: Step, b: Step, fate: Fate, m: Message)
    ensures RunCode(s, [a, b] + Delivered(fate, m)) ==
            var s2 := Apply(CODE, Apply(CODE, s, a), b);
            if fate.Lost? then s2 else Apply(CODE, s2, Deliver(m))
  {
    RunTwo(s, a, b);
    if fate.Lost? {
      assert [a, b] + Delivered(fate, m) == [a, b];
    } else {
      RunPlus(CODE, s, [a, b], Deliver(m));
    }
  }

  lemma CreateIsPerformed(s: State, input: CreateInput, id: JobId, now: Time, fate: Fate)
    requires Invariant(s) && s.handler.Idle? && id !in s.used
    ensures Replicas(RunCode(s, CreateSteps(input, id, now, fate))) ==
            Perform(Replicas(s), Create(input, id, now, fate))
  {
    hide DecideCreate;
    RunThen(s, BeginCreate(input, id, now), Finish, fate, CreateMsg(id));
    assert CreateMsg(id) !in s.sent;
  }

  lemma EditIsPerformed(s: State, id: JobId, p: EditPayload, lookup: JobId, fate: Fate)
    requires s.handler.Idle? && PossibleLookup(s.jobs, p, lookup)
    ensures Replicas(RunCode(s, EditSteps(s.jobs, id, p, lookup, fate))) ==
            Perform(Replicas(s), Edit(id, p, lookup, fate))
  {
    hide DecideEdit, PossibleLookup;
    var d := DecideEdit(s.jobs, id, p, lookup);
    if d.Ok? {
      RunThen(s, BeginEdit(id, p, lookup), Finish, fate, EditMsg(id, d.value.enabled));
    } else {
      RunTwo(s, BeginEdit(id, p, lookup), Finish);
      assert EditSteps(s.jobs, id, p, lookup, fate) == [BeginEdit(id, p, lookup), Finish];
    }
  }

  lemma DeleteIsPerformed(s: State, id: JobId, fate: Fate)
    requires s.handler.Idle?
    ensures Replicas(RunCode(s, DeleteSteps(s.jobs, id, fate))) == Perform(Replicas(s), Delete(id, fate))
  {
    hide DecideDelete;
    if DecideDelete(s.jobs, id).Ok? {
      RunThen(s, BeginDelete(id), Finish, fate, DeleteMsg(id));
    } else {
      RunTwo(s, BeginDelete(id), Finish);
      assert DeleteSteps(s.jobs, id, fate) == [BeginDelete(id), Finish];
    }
  }

  // ---------- a whole pass ----------

  lemma FlushOfPass(t: Table, os: map<JobId, OsJob>, now: Time)
    ensures Flush(t, t, Pass(t, os, now)) == Pass(t, os, now)
  {
    var session := Pass(t, os, now);
    assert Dirty(t, session) <= t.Keys;
    forall id | id in t ensures FlushRow(t[id], t[id], session[id]) == session[id] {
    }
  }

  /** The orphan loop of pass `k`, each deletion delivered or lost before the next. */
  lemma OrphansAreDeleted(s: State, before: seq<Step>, s1: State, k: nat, fates: JobId -> Fate)
    returns (steps: seq<Step>, s2: State)
    requires s1 == RunCode(s, before) && k in s1.monitors && s1.monitors[k].Syncing?
    ensures s2 == RunCode(s, steps)
    ensures s2.jobs == s1.jobs && s2.used == s1.used && s2.handler == s1.handler
    ensures s2.crontab == s1.crontab - Reached(fates, s1.monitors[k].orphans)
    ensures s2.monitors == s1.monitors[k := s1.monitors[k].(orphans := {})]
    decreases |s1.monitors[k].orphans|
  {
    var orphans := s1.monitors[k].orphans;
    if orphans == {} {
      steps, s2 := before, s1;
      assert Reached(fates, {}) == {} && s1.crontab - {} == s1.crontab;
    } else {
      var id :| id in orphans;
      var next, s3 := OneOrphanDeleted(s, before, s1, k, id, fates);
      hide RunCode, Reached;
      steps, s2 := OrphansAreDeleted(s, next, s3, k, fates);
      ReachedSplit(fates, orphans, id);
      MinusTwice(s1.crontab, if fates(id).Lost? then {} else {id}, Reached(fates, orphans - {id}));
      assert s2.monitors == s1.monitors[k := s1.monitors[k].(orphans := {})];
    }
  }

  lemma ReachedSplit(fates: JobId -> Fate, ids: set<JobId>, id: JobId)
    requires id in ids
    ensures Reached(fates, ids) == (if fates(id).Lost? then {} else {id}) + Reached(fates, ids - {id})
  {
  }

  lemma MinusTwice(c: Crontab, a: set<JobId>, b: set<JobId>)
    ensures (c - a) - b == c - (a + b)
  {
  }

  /** The ids whose deletion arrives. */
  function Reached(fates: JobId -> Fate, ids: set<JobId>): set<JobId> { set id | id in ids && !fates(id).Lost? }

  lemma OneOrphanDeleted(s: State, before: seq<Step>, s1: State, k: nat, orphan: JobId, fates: JobId -> Fate)
    returns (steps: seq<Step>, s2: State)
    requires s1 == RunCode(s, before) && k in s1.monitors && s1.monitors[k].Syncing?
    requires orphan in s1.monitors[k].orphans
    ensures s2 == RunCode(s, steps)
    ensures s2.jobs == s1.jobs && s2.used == s1.used && s2.handler == s1.handler
    ensures s2.crontab == s1.crontab - if fates(orphan).Lost? then {} else {orphan}
    ensures s2.monitors == s1.monitors[k := s1.monitors[k].(orphans := s1.monitors[k].orphans - {orphan})]
  {
    RunPlus(CODE, s, before, DeleteOrphan(k, orphan));
    steps, s2 := before + [DeleteOrphan(k, orphan)], Apply(CODE, s1, DeleteOrphan(k, orphan));
    if fates(orphan).Lost? {
      assert s1.crontab - {} == s1.crontab;
    } else {
      RunPlus(CODE, s, steps, Deliver(DeleteMsg(orphan)));
      steps, s2 := steps + [Deliver(DeleteMsg(orphan))], Apply(CODE, s2, Deliver(DeleteMsg(orphan)));
    }
  }

  lemma PassIsPerformed(s: State, k: nat, report: seq<OsJob>, now: Time, fates: JobId -> Fate)
    returns (steps: seq<Step>)
    requires k !in s.monitors && Reports(JobMap(report), s.crontab)
    ensures Replicas(RunCode(s, steps)) == Perform(Replicas(s), Monitor(Some(report), now, fates))
    ensures RunCode(s, steps).monitors == s.monitors && RunCode(s, steps).handler == s.handler
  {
    var os := JobMap(report);
    RunTwo(s, FirstRead(k, report, now), SecondRead(k, report, now));
    var s1 := RunCode(s, [FirstRead(k, report, now), SecondRead(k, report, now)]);
    assert s1.monitors == s.monitors[k := Synchronize(s.jobs, os, now)];
    var s2;
    steps, s2 := OrphansAreDeleted(s, [FirstRead(k, report, now), SecondRead(k, report, now)], s1, k, fates);
    RunPlus(CODE, s, steps, CommitPass(k));
    steps := steps + [CommitPass(k)];
    FlushOfPass(s.jobs, os, now);
    assert s.monitors[k := s2.monitors[k]] - {k} == s.monitors;
    hide Pass, Flush, Orphans, JobMap;
    assert Reached(fates, Orphans(s.jobs, os)) == set id | id in Orphans(s.jobs, os) && !fates(id).Lost?;
  }
}
