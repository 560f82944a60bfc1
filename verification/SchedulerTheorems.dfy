/** What the scheduler's operations keep over whole runs, when a monitoring pass makes the two
    replicas agree, and exactly when the cap on active jobs survives. */
module SchedulerTheorems {
  import opened Common
  import opened SchedulerJobs

  lemma SubsetSize<T>(a: set<T>, b: set<T>)
    requires a <= b
    ensures |a| <= |b|
  {
    if a == {} {
    } else {
      var x :| x in a;
      SubsetSize(a - {x}, b - {x});
    }
  }

  /** The report by id knows exactly the reported ids, each with its last entry. */
  lemma {:induction false} JobMapKeepsLast(report: seq<OsJob>, id: JobId)
    ensures id in JobMap(report) <==> exists i :: 0 <= i < |report| && report[i].id == id
    ensures id in JobMap(report) ==>
              exists i :: 0 <= i < |report| && report[i] == JobMap(report)[id] && report[i].id == id &&
                          forall j :: i < j < |report| ==> report[j].id != id
  {
    if report == [] {
    } else {
      var init, last := report[..|report| - 1], report[|report| - 1];
      JobMapKeepsLast(init, id);
      assert forall i :: 0 <= i < |init| ==> init[i] == report[i];
      if last.id == id {
        assert report[|report| - 1] == JobMap(report)[id];
      } else if id in JobMap(init) {
        var i :| 0 <= i < |init| && init[i] == JobMap(init)[id] && init[i].id == id &&
                 forall j :: i < j < |init| ==> init[j].id != id;
        assert report[i] == JobMap(report)[id];
      }
    }
  }

  lemma RunOneMore(s: System, ops: seq<Operation>, op: Operation)
    ensures Run(s, ops + [op]) == Perform(Run(s, ops), op)
  {
    assert (ops + [op])[..|ops|] == ops;
  }

  // ---------- convergence of one pass ----------

  /** One pass whose orphan deletions succeed: no row is added, removed or renamed, crontab ids fall
      inside table ids, and the enabled ids of the replicas agree exactly when no enabled row that the
      crontab lacks is still inside its grace period. */
  lemma PassConverges(s: System, report: seq<OsJob>, now: Time, fates: JobId -> Fate)
    requires Reports(JobMap(report), s.crontab)
    requires forall id :: !fates(id).Lost?
    ensures var s' := Perform(s, Monitor(Some(report), now, fates));
            && s'.jobs.Keys == s.jobs.Keys
            && s'.crontab.Keys <= s'.jobs.Keys
            && (ActiveIds(s'.jobs) == EnabledIds(s'.crontab) <==>
                forall id :: id in s.jobs && id !in s.crontab && s.jobs[id].enabled ==> Aged(s.jobs[id], now))
  {
    var s' := Perform(s, Monitor(Some(report), now, fates));
    var os := JobMap(report);
    forall id | id in s.jobs && id in s.crontab
      ensures s'.jobs[id].enabled == s'.crontab[id] == s.crontab[id]
    {
      assert os[id].enabled == Some(s.crontab[id]);
    }
    if id :| id in s.jobs && id !in s.crontab && s.jobs[id].enabled && !Aged(s.jobs[id], now) {
      assert id in ActiveIds(s'.jobs) && id !in EnabledIds(s'.crontab);
    }
  }

  /** The run times a report gives are those the row has, or none. */
  predicate TimesStand(job: Job, os: OsJob) {
    && (os.lastRun.At? ==> job.lastRun == Some(os.lastRun.time))
    && (os.nextRun.At? ==> job.nextRun == Some(os.nextRun.time))
  }

  /** An enabled row that the crontab lacks is within its grace period at the first time and past it at the
      second. */
  predicate Ages(s: System, id: JobId, now: Time, now2: Time)
    requires id in s.jobs
  {
    id !in s.crontab && s.jobs[id].enabled && Aged(s.jobs[id], now2) && !Aged(s.jobs[id], now)
  }

  ghost predicate NoneAges(s: System, now: Time, now2: Time) { forall id :: id in s.jobs ==> !Ages(s, id, now, now2) }

  /** A further pass at any later or earlier time, over the crontab as the first pass left it, whatever run
      times it reports by then: the crontab stays, and so do the rows' activity, exactly when no row ages,
      and the rows altogether, exactly when besides every reported run time is the one the row has. */
  lemma SecondPassChangesNothingIff(s: System, report: seq<OsJob>, now: Time, fates: JobId -> Fate,
                                    report2: seq<OsJob>, now2: Time, fates2: JobId -> Fate)
    requires Reports(JobMap(report), s.crontab)
    requires forall id :: !fates(id).Lost?
    requires Reports(JobMap(report2), Perform(s, Monitor(Some(report), now, fates)).crontab)
    ensures var s1 := Perform(s, Monitor(Some(report), now, fates));
            var s2 := Perform(s1, Monitor(Some(report2), now2, fates2));
            && s2.crontab == s1.crontab && s2.used == s1.used && s2.jobs.Keys == s1.jobs.Keys
            && (ActiveIds(s2.jobs) == ActiveIds(s1.jobs) <==> NoneAges(s, now, now2))
            && (s2 == s1 <==>
                && NoneAges(s, now, now2)
                && forall id :: id in s1.jobs && id in s1.crontab ==> TimesStand(s1.jobs[id], JobMap(report2)[id]))
  {
    var s1 := Perform(s, Monitor(Some(report), now, fates));
    var os, os2 := JobMap(report), JobMap(report2);
    SecondPassKeepsCrontab(s, report, now, fates, report2, now2, fates2);
    var s2 := Perform(s1, Monitor(Some(report2), now2, fates2));
    hide JobMap, TimesStand, Pass, Perform, NoneAges, ActiveIds;
    TwoPasses(s, os, now, os2, now2);
    assert forall id :: id in s1.jobs && id in s1.crontab <==> id in s.jobs && id in os2;
  }

  lemma TwoPasses(s: System, os: map<JobId, OsJob>, now: Time, os2: map<JobId, OsJob>, now2: Time)
    requires Reports(os, s.crontab)
    requires forall id :: id in os2 <==> id in s.crontab && id in s.jobs
    requires forall id :: id in os2 ==> os2[id].enabled == Some(s.crontab[id])
    ensures var t1 := Pass(s.jobs, os, now);
            var t2 := Pass(t1, os2, now2);
            && t1.Keys == t2.Keys == s.jobs.Keys
            && (ActiveIds(t2) == ActiveIds(t1) <==> NoneAges(s, now, now2))
            && (t2 == t1 <==>
                NoneAges(s, now, now2) && forall id :: id in s.jobs && id in os2 ==> TimesStand(t1[id], os2[id]))
  {
    var t1 := Pass(s.jobs, os, now);
    var t2 := Pass(t1, os2, now2);
    forall id | id in s.jobs
      ensures t2[id].enabled == t1[id].enabled <==> !Ages(s, id, now, now2)
      ensures t2[id] == t1[id] <==> !Ages(s, id, now, now2) && (id in os2 ==> TimesStand(t1[id], os2[id]))
    {
      PassRowTwice(id, s.jobs[id], os, now, os2, now2);
    }
    hide PassRow, Ages, TimesStand;
    SameActiveIff(t1, t2);
  }

  lemma SameActiveIff(t: Table, t2: Table)
    requires t.Keys == t2.Keys
    ensures ActiveIds(t2) == ActiveIds(t) <==> forall id :: id in t ==> t2[id].enabled == t[id].enabled
  {
    if ActiveIds(t2) == ActiveIds(t) {
      forall id | id in t ensures t2[id].enabled == t[id].enabled {
        assert id in ActiveIds(t) <==> t[id].enabled;
        assert id in ActiveIds(t2) <==> t2[id].enabled;
      }
    }
  }

  lemma {:induction false} SecondPassKeepsCrontab(s: System, report: seq<OsJob>, now: Time, fates: JobId -> Fate,
                                                  report2: seq<OsJob>, now2: Time, fates2: JobId -> Fate)
    requires Reports(JobMap(report), s.crontab)
    requires forall id :: !fates(id).Lost?
    requires Reports(JobMap(report2), Perform(s, Monitor(Some(report), now, fates)).crontab)
    ensures var s1 := Perform(s, Monitor(Some(report), now, fates));
            && s1.jobs == Pass(s.jobs, JobMap(report), now)
            && (forall id :: id in s1.crontab <==> id in s.crontab && id in s.jobs)
            && (forall id :: id in s1.crontab ==> s1.crontab[id] == s.crontab[id])
            && Perform(s1, Monitor(Some(report2), now2, fates2)) == s1.(jobs := Pass(s1.jobs, JobMap(report2), now2))
  {
    hide JobMap;
    var s1 := Perform(s, Monitor(Some(report), now, fates));
    var os2 := JobMap(report2);
    assert Orphans(s1.jobs, os2) == {};
    assert s1.crontab - {} == s1.crontab;
    assert (set id | id in Orphans(s1.jobs, os2) && !fates2(id).Lost?) == {};
  }

  lemma PassRowTwice(id: JobId, job: Job, os: map<JobId, OsJob>, now: Time, os2: map<JobId, OsJob>, now2: Time)
    requires id in os2 <==> id in os
    requires id in os ==> os[id].enabled.Some? && os2[id].enabled == os[id].enabled
    ensures var row := PassRow(id, job, os, now);
            var ages := id !in os && job.enabled && Aged(job, now2) && !Aged(job, now);
            && (PassRow(id, row, os2, now2).enabled == row.enabled <==> !ages)
            && (PassRow(id, row, os2, now2) == row <==> !ages && (id in os ==> TimesStand(row, os2[id])))
  {
  }

  // ---------- names ----------

  lemma OperationKeepsNames(s: System, op: Operation)
    requires NamesDistinct(s.jobs)
    ensures NamesDistinct(Perform(s, op).jobs)
  {
    match op
    case Create(input, id, createdAt, fate) =>
    case Edit(id, p, lookup, fate) =>
      var d := DecideEdit(s.jobs, id, p, lookup);
      if PossibleLookup(s.jobs, p, lookup) && d.Ok? {
        forall k | k in s.jobs && k != id ensures s.jobs[k].name != d.value.name {}
      }
    case Delete(id, fate) =>
    case Monitor(report, now, fates) =>
  }

  /** While names are distinct the one row a name query hands back decides correctly: a new name is refused
      exactly when another row bears it. */
  lemma LookupDecidesIff(t: Table, id: JobId, p: EditPayload, lookup: JobId)
    requires NamesDistinct(t) && id in t && p.name.Value? && PossibleLookup(t, p, lookup)
    ensures NameTaken(t, p.name.v) && lookup != id <==> exists k :: k in t && k != id && t[k].name == p.name.v
  {
  }

  /** In every run, whatever the domain calls do and whatever the crontab reports say. */
  lemma {:induction false} NamesStayDistinct(s: System, ops: seq<Operation>)
    requires NamesDistinct(s.jobs)
    ensures NamesDistinct(Run(s, ops).jobs)
  {
    if ops == [] {
    } else {
      NamesStayDistinct(s, ops[..|ops| - 1]);
      OperationKeepsNames(Run(s, ops[..|ops| - 1]), ops[|ops| - 1]);
    }
  }

  // ---------- the cap ----------

  /** A pass leaves every job's activity at or below what it was exactly when each row the crontab
      reports as enabled is already enabled. */
  lemma PassActivatesNothingIff(t: Table, os: map<JobId, OsJob>, now: Time)
    ensures ActiveIds(Pass(t, os, now)) <= ActiveIds(t) <==>
            forall id :: id in t && id in os && os[id].enabled == Some(true) ==> t[id].enabled
  {
    if id :| id in t && id in os && os[id].enabled == Some(true) && !t[id].enabled {
      assert id in ActiveIds(Pass(t, os, now)) && id !in ActiveIds(t);
    }
  }

  ghost predicate KeepsCap(s: System, op: Operation) {
    op.Monitor? && op.report.Some? ==>
      var os := JobMap(op.report.value);
      forall id :: id in s.jobs && id in os && os[id].enabled == Some(true) ==> s.jobs[id].enabled
  }

  lemma OneMoreActive(before: Table, after: Table, id: JobId)
    requires WithinCap(before)
    requires ActiveIds(after) <= ActiveIds(before) + {id}
    requires id in ActiveIds(after) && id !in ActiveIds(before) ==> |ActiveIds(before)| < MAX_CONCURRENT_JOBS
    ensures WithinCap(after)
  {
    if id in ActiveIds(after) {
      SubsetSize(ActiveIds(after), ActiveIds(before) + {id});
    } else {
      SubsetSize(ActiveIds(after), ActiveIds(before));
    }
  }

  lemma OperationKeepsCap(s: System, op: Operation)
    requires WithinCap(s.jobs) && KeepsCap(s, op)
    ensures WithinCap(Perform(s, op).jobs)
  {
    var s' := Perform(s, op);
    match op
    case Create(input, id, createdAt, fate) => if s' != s { OneMoreActive(s.jobs, s'.jobs, id); }
    case Edit(id, p, lookup, fate) => if s' != s { OneMoreActive(s.jobs, s'.jobs, id); }
    case Delete(id, fate) => SubsetSize(ActiveIds(s'.jobs), ActiveIds(s.jobs));
    case Monitor(report, now, fates) =>
      if report.Some? { PassActivatesNothingIff(s.jobs, JobMap(report.value), now); }
      SubsetSize(ActiveIds(s'.jobs), ActiveIds(s.jobs));
  }

  /** In every run of requests and passes, with domain calls failing arbitrarily, at most
      MAX_CONCURRENT_JOBS jobs are active, as long as each pass found every job that the crontab
      reports as enabled already enabled in the table. */
  lemma {:induction false} CapHolds(s: System, ops: seq<Operation>)
    requires WithinCap(s.jobs)
    requires forall n :: 0 <= n < |ops| ==> KeepsCap(Run(s, ops[..n]), ops[n])
    ensures WithinCap(Run(s, ops).jobs)
  {
    if ops == [] {
    } else {
      var n := |ops| - 1;
      forall m | 0 <= m < n ensures KeepsCap(Run(s, ops[..n][..m]), ops[..n][m]) {
        assert ops[..n][..m] == ops[..m];
      }
      CapHolds(s, ops[..n]);
      OperationKeepsCap(Run(s, ops[..n]), ops[n]);
    }
  }

  // ---------- runs in which nothing fails ----------

  /** Every domain call takes effect and returns, and every report is what `list_all` says. */
  ghost predicate FailureFree(s: System, op: Operation) {
    match op
    case Create(_, _, _, fate) => fate.Done?
    case Edit(_, _, _, fate) => fate.Done?
    case Delete(_, fate) => fate.Done?
    case Monitor(report, _, fates) =>
      (report.Some? ==> Reports(JobMap(report.value), s.crontab)) && forall id :: !fates(id).Lost?
  }

  ghost predicate FailureFreeRun(s: System, ops: seq<Operation>) {
    forall n :: 0 <= n < |ops| ==> FailureFree(Run(s, ops[..n]), ops[n])
  }

  predicate CreatesActive(op: Operation) {
    op.Create? && op.input.Validated? ==> op.input.request.enabled
  }

  /** The replicas hold the same ids, and no job is active without its crontab item being enabled. */
  ghost predicate Aligned(s: System) {
    && s.jobs.Keys == s.crontab.Keys
    && forall id :: id in s.jobs && s.jobs[id].enabled ==> s.crontab[id]
  }

  ghost predicate Agreed(s: System) {
    && s.jobs.Keys == s.crontab.Keys
    && forall id :: id in s.jobs ==> s.jobs[id].enabled == s.crontab[id]
  }

  lemma PassOnAligned(s: System, report: seq<OsJob>, now: Time, fates: JobId -> Fate)
    requires Aligned(s) && Reports(JobMap(report), s.crontab)
    ensures var s' := Perform(s, Monitor(Some(report), now, fates));
            Agreed(s') && s'.crontab == s.crontab && ActiveIds(s'.jobs) == EnabledIds(s.crontab)
  {
    var os := JobMap(report);
    assert Orphans(s.jobs, os) == {};
    forall id | id in s.jobs
      ensures PassRow(id, s.jobs[id], os, now).enabled == s.crontab[id]
    {
      assert os[id].enabled == Some(s.crontab[id]);
    }
  }

  lemma {:induction false} FailureFreeRunsStayAligned(ops: seq<Operation>)
    requires FailureFreeRun(EMPTY, ops)
    ensures Aligned(Run(EMPTY, ops))
    ensures (forall op :: op in ops ==> CreatesActive(op)) ==> Agreed(Run(EMPTY, ops))
  {
    if ops == [] {
    } else {
      var n := |ops| - 1;
      forall m | 0 <= m < n ensures FailureFree(Run(EMPTY, ops[..n][..m]), ops[..n][m]) {
        assert ops[..n][..m] == ops[..m];
      }
      FailureFreeRunsStayAligned(ops[..n]);
      var s, op := Run(EMPTY, ops[..n]), ops[n];
      if op.Monitor? && op.report.Some? {
        PassOnAligned(s, op.report.value, op.now, op.fates);
      } else {
        StepStaysAligned(s, op);
      }
    }
  }

  lemma StepStaysAligned(s: System, op: Operation)
    requires Aligned(s) && FailureFree(s, op) && (op.Monitor? ==> op.report.None?)
    ensures Aligned(Perform(s, op))
    ensures Agreed(s) && CreatesActive(op) ==> Agreed(Perform(s, op))
  {
  }

  /** Without failures, and with every job created active, the cap holds in every run, passes
      included, and the replicas agree after every operation. */
  lemma {:induction false} CapWithoutFailures(ops: seq<Operation>)
    requires FailureFreeRun(EMPTY, ops)
    requires forall op :: op in ops ==> CreatesActive(op)
    ensures WithinCap(Run(EMPTY, ops).jobs) && Agreed(Run(EMPTY, ops))
  {
    forall n | 0 <= n < |ops| ensures KeepsCap(Run(EMPTY, ops[..n]), ops[n]) {
      forall m | 0 <= m < n ensures FailureFree(Run(EMPTY, ops[..n][..m]), ops[..n][m]) {
        assert ops[..n][..m] == ops[..m];
      }
      FailureFreeRunsStayAligned(ops[..n]);
      assert FailureFree(Run(EMPTY, ops[..n]), ops[n]);
    }
    assert ActiveIds(EMPTY.jobs) == {};
    CapHolds(EMPTY, ops);
    FailureFreeRunsStayAligned(ops);
  }

  /** With jobs created disabled the cap is not kept: after any failure-free run, a pass leaves the
      cap intact exactly when at most MAX_CONCURRENT_JOBS crontab items are enabled beforehand. */
  lemma {:induction false} PassKeepsCapIff(ops: seq<Operation>, report: seq<OsJob>, now: Time, fates: JobId -> Fate)
    requires FailureFreeRun(EMPTY, ops)
    requires Reports(JobMap(report), Run(EMPTY, ops).crontab)
    ensures WithinCap(Perform(Run(EMPTY, ops), Monitor(Some(report), now, fates)).jobs) <==>
            |EnabledIds(Run(EMPTY, ops).crontab)| <= MAX_CONCURRENT_JOBS
  {
    FailureFreeRunsStayAligned(ops);
    PassOnAligned(Run(EMPTY, ops), report, now, fates);
  }

  // A concrete failure-free run that breaks the cap: jobs created disabled, then one pass.

  function Name(n: nat): (name: string)
    ensures |name| == n + 1
  {
    if n == 0 then "j" else Name(n - 1) + "j"
  }

  function CreateDisabled(id: nat): Operation {
    Create(Validated(CreateRequest(Name(id), None, "* * * * *", "ls", false)), id, 0.0, Done)
  }

  function DisabledJobs(n: nat): seq<Operation> {
    if n == 0 then [] else DisabledJobs(n - 1) + [CreateDisabled(n - 1)]
  }

  function FullReport(n: nat): seq<OsJob> {
    if n == 0 then [] else FullReport(n - 1) + [OsJob(n - 1, Some(true), Missing, Missing)]
  }

  lemma FullReportIds(n: nat)
    ensures |FullReport(n)| == n
    ensures var m := JobMap(FullReport(n));
            (forall id :: id in m <==> 0 <= id < n) && forall id :: id in m ==> m[id].enabled == Some(true)
  {
    if n == 0 {
    } else {
      FullReportIds(n - 1);
      assert FullReport(n)[..n - 1] == FullReport(n - 1);
    }
  }

  ghost predicate DisabledOnly(s: System, n: nat) {
    && s.used == s.jobs.Keys == s.crontab.Keys && |s.used| == n
    && (forall id :: id in s.used <==> 0 <= id < n)
    && (forall id :: id in s.crontab ==> s.crontab[id])
    && forall id :: id in s.jobs ==> |s.jobs[id].name| == id + 1 && !s.jobs[id].enabled
  }

  lemma {:induction false} DisabledStep(s: System, n: nat) returns (s': System)
    requires DisabledOnly(s, n)
    ensures s' == Perform(s, CreateDisabled(n)) && DisabledOnly(s', n + 1)
  {
    var req := CreateDisabled(n).input.request;
    assert !NameTaken(s.jobs, req.name) by {
      assert forall id :: id in s.jobs ==> |s.jobs[id].name| < |req.name|;
    }
    assert DecideCreate(s.jobs, Validated(req)) == Ok(req);
    s' := Perform(s, CreateDisabled(n));
    assert s' == System(s.jobs[n := NewJob(req, 0.0)], s.crontab[n := true], s.used + {n});
  }

  lemma {:induction false} DisabledJobsState(n: nat) returns (s: System)
    ensures s == Run(EMPTY, DisabledJobs(n)) && DisabledOnly(s, n)
  {
    if n == 0 {
      s := EMPTY;
    } else {
      var prev := DisabledJobsState(n - 1);
      s := DisabledStep(prev, n - 1);
      assert s == Run(EMPTY, DisabledJobs(n)) by {
        RunOneMore(EMPTY, DisabledJobs(n - 1), CreateDisabled(n - 1));
      }
    }
  }

  function FirstPass(n: nat): Operation { Monitor(Some(FullReport(n)), 0.0, _ => Done) }

  lemma FailureFreeOneMore(s: System, ops: seq<Operation>, op: Operation)
    requires FailureFreeRun(s, ops) && FailureFree(Run(s, ops), op)
    ensures FailureFreeRun(s, ops + [op])
  {
    var more := ops + [op];
    forall m | 0 <= m < |more| ensures FailureFree(Run(s, more[..m]), more[m]) {
      assert more[..m] == ops[..m];
      assert ops[..|ops|] == ops;
    }
  }

  lemma FirstPassIsFailureFree(s: System, n: nat)
    requires DisabledOnly(s, n)
    ensures FailureFree(s, FirstPass(n))
  {
    FullReportIds(n);
  }

  lemma CreatingIsFailureFree(s: System, id: nat)
    ensures FailureFree(s, CreateDisabled(id))
  {
  }

  lemma {:induction false} DisabledRunIsFailureFree(n: nat)
    ensures FailureFreeRun(EMPTY, DisabledJobs(n))
    ensures FailureFreeRun(EMPTY, DisabledJobs(n) + [FirstPass(n)])
  {
    hide FailureFree, DisabledOnly, Perform, Run, FirstPass, CreateDisabled;
    if n == 0 {
      assert DisabledJobs(0) == [];
    } else {
      DisabledRunIsFailureFree(n - 1);
      CreatingIsFailureFree(Run(EMPTY, DisabledJobs(n - 1)), n - 1);
      FailureFreeOneMore(EMPTY, DisabledJobs(n - 1), CreateDisabled(n - 1));
    }
    var s := DisabledJobsState(n);
    FirstPassIsFailureFree(s, n);
    FailureFreeOneMore(EMPTY, DisabledJobs(n), FirstPass(n));
  }

  lemma DisabledJobsAreReported(s: System, n: nat)
    requires DisabledOnly(s, n)
    ensures |EnabledIds(s.crontab)| == n && Reports(JobMap(FullReport(n)), s.crontab)
  {
    assert EnabledIds(s.crontab) == s.used;
    FullReportIds(n);
  }

  /** Create more than MAX_CONCURRENT_JOBS disabled jobs; nothing fails; after one pass all are active. */
  lemma {:induction false} CapBrokenWithoutFailures(n: nat)
    requires n > MAX_CONCURRENT_JOBS
    ensures var ops := DisabledJobs(n) + [FirstPass(n)];
            FailureFreeRun(EMPTY, ops) && !WithinCap(Run(EMPTY, ops).jobs)
  {
    hide FailureFreeRun, DisabledOnly, Reports, Perform, Run, WithinCap, DisabledJobs, JobMap, EnabledIds;
    DisabledRunIsFailureFree(n);
    var s := DisabledJobsState(n);
    DisabledJobsAreReported(s, n);
    PassKeepsCapIff(DisabledJobs(n), FullReport(n), 0.0, FirstPass(n).fates);
    RunOneMore(EMPTY, DisabledJobs(n), FirstPass(n));
  }
}
