/** What a network monitoring pass means: how many rows each name has afterwards, when names stay distinct,
    the exact table for distinct names, and why a second pass over a report of the system changes nothing. */
module NetworkTheorems {
  import opened NetworkSync

  // ---------- any table, repeated names included ----------

  /** The rows a name has after a pass: a doomed name keeps one row if it is reported and none otherwise; any
      other name keeps its rows, and gets one if it is reported and had none. */
  function RowsAfter(rows: nat, reported: bool, doomed: bool): nat {
    if doomed then (if reported then 1 else 0) else if reported && rows == 0 then 1 else rows
  }

  lemma UpsertedSize(v: Table, name: string, os: Report, u: Table)
    requires Upserted(v, name, os, u)
    ensures |u| == if name in os && v == map[] then 1 else |v|
  {
    if name in os && v != map[] {
      var id :| id in v && u == v[id := Synced(v[id], os[name])];
      assert u.Keys == v.Keys;
    }
  }

  lemma RowCounts(t: Table, os: Report, t2: Table, name: string)
    requires Reconciled(t, os, t2)
    ensures |Bearers(t2, name)| == RowsAfter(|Bearers(t, name)|, name in os, Doomed(name))
  {
    hide Bearers, Doomed, Upserted;
    var v, w := Bearers(t, name), Bearers(t2, name);
    assert NameReconciled(v, name, os, w);
    var u :| Upserted(v, name, os, u) && Pruned(u, name, LeftOver(v, name, os), w);
    UpsertedSize(v, name, os, u);
    if !Doomed(name) { assert |w| == |w.Keys| == |u.Keys| == |u|; }
  }

  lemma BearersAreNamed(t: Table, name: string)
    ensures Bearers(t, name) != map[] <==> name in Names(t)
    ensures |Bearers(t, name)| == 0 <==> name !in Names(t)
  {
    if name in Names(t) {
      var id :| id in t && t[id].name == name;
      assert id in Bearers(t, name);
    } else {
      assert forall id :: id in t ==> t[id].name in Names(t);
      assert Bearers(t, name) == map[];
    }
  }

  /** The names after a pass: the system's, and those old ones that are neither there nor doomed. */
  lemma PassNames(t: Table, os: Report, t2: Table, name: string)
    requires Reconciled(t, os, t2)
    ensures name in Names(t2) <==> name in os || (name in Names(t) && !Doomed(name))
  {
    RowCounts(t, os, t2, name);
    BearersAreNamed(t, name);
    BearersAreNamed(t2, name);
  }

  lemma SoleBearer(t: Table, id: Id)
    requires id in t && |Bearers(t, t[id].name)| <= 1
    ensures Bearers(t, t[id].name) == map[id := t[id]]
  {
    var v := Bearers(t, t[id].name);
    assert id in v;
    forall k | k in v ensures k == id {
      if k != id {
        assert {k, id} <= v.Keys && |{k, id}| == 2;
        NoLarger({k, id}, v.Keys);
      }
    }
    assert v.Keys == {id};
  }

  lemma NoLarger<T>(a: set<T>, b: set<T>)
    requires a <= b
    ensures |a| <= |b|
  {
    assert b == a + (b - a);
  }

  lemma DistinctIffSole(t: Table)
    ensures DistinctNames(t) <==> forall name :: |Bearers(t, name)| <= 1
  {
    if DistinctNames(t) {
      forall name ensures |Bearers(t, name)| <= 1 {
        var v := Bearers(t, name);
        if id :| id in v {
          assert v.Keys == {id};
        } else {
          assert v == map[];
        }
      }
    }
    if forall name :: |Bearers(t, name)| <= 1 {
      forall i, j | i in t && j in t && t[i].name == t[j].name ensures i == j {
        SoleBearer(t, i);
        assert j in Bearers(t, t[i].name);
      }
    }
  }

  /** Names are distinct after a pass exactly when no name but doomed ones was repeated before it. */
  lemma NamesDistinctAfterPassIff(t: Table, os: Report, t2: Table)
    requires Reconciled(t, os, t2)
    ensures DistinctNames(t2) <==> forall name :: !Doomed(name) ==> |Bearers(t, name)| <= 1
  {
    hide Bearers, Doomed, Reconciled, DistinctNames;
    forall name ensures |Bearers(t2, name)| <= 1 <==> Doomed(name) || |Bearers(t, name)| <= 1 {
      RowCounts(t, os, t2, name);
    }
    DistinctIffSole(t2);
  }

  /** A name that the system reports, and that is not doomed, has a row in error afterwards exactly when it
      had more than one row: the report strikes out only one of them. */
  lemma ReportedInErrorIff(t: Table, os: Report, t2: Table, name: string)
    requires Reconciled(t, os, t2) && name in os && !Doomed(name)
    ensures (exists id :: id in Bearers(t2, name) && t2[id].status == Error) <==> |Bearers(t, name)| > 1
  {
    hide Doomed;
    var v, w := Bearers(t, name), Bearers(t2, name);
    assert NameReconciled(v, name, os, w);
    var u :| Upserted(v, name, os, u) && Pruned(u, name, LeftOver(v, name, os), w);
    if |v| > 1 {
      assert u != map[] by { UpsertedSize(v, name, os, u); }
      var id :| id in w && w[id].status == Error;
    } else if v == map[] {
      assert w == u;
    } else {
      var id :| id in v && u == v[id := Synced(v[id], os[name])];
      SoleBearer(t, id);
      assert w == u == map[id := Synced(v[id], os[name])];
    }
  }

  // ---------- tables with distinct names ----------

  /** What one pass over report `os` makes of `t`, up to the ids of new rows. */
  ghost predicate IsPass(t: Table, os: Report, t2: Table) {
    && DistinctNames(t2)
    && (forall id :: id in t && t[id].name in os ==> id in t2 && t2[id] == Synced(t[id], os[t[id].name]))
    && (forall id :: id in t && t[id].name !in os && Doomed(t[id].name) ==> id !in t2)
    && (forall id :: id in t && t[id].name !in os && !Doomed(t[id].name) ==> id in t2 && t2[id] == Marked(t[id]))
    && (forall id :: id in t2 && id !in t ==>
          t2[id].name in os && t2[id].name !in Names(t) && t2[id] == Created(t2[id].name, os[t2[id].name]))
    && (forall n :: n in os ==> n in Names(t2))
  }

  lemma OldRowAfterPass(t: Table, os: Report, t2: Table, id: Id)
    requires DistinctNames(t) && Reconciled(t, os, t2) && id in t
    ensures t[id].name in os ==> id in t2 && t2[id] == Synced(t[id], os[t[id].name])
    ensures t[id].name !in os && Doomed(t[id].name) ==> id !in t2
    ensures t[id].name !in os && !Doomed(t[id].name) ==> id in t2 && t2[id] == Marked(t[id])
  {
    hide Doomed, Synced;
    var name := t[id].name;
    DistinctIffSole(t);
    SoleBearer(t, id);
    var v, w := Bearers(t, name), Bearers(t2, name);
    assert id in t2 ==> id in w;
    assert NameReconciled(v, name, os, w);
    var u :| Upserted(v, name, os, u) && Pruned(u, name, LeftOver(v, name, os), w);
    if name in os {
      assert u == map[id := Synced(t[id], os[name])];
      assert u.Keys == {id};
      SameSize(w.Keys, u.Keys);
      assert id in w;
    } else if Doomed(name) {
      assert w == map[];
    } else {
      assert u.Keys == {id} == w.Keys;
      assert id in w;
    }
  }

  lemma SameSize<T>(a: set<T>, b: set<T>)
    requires a <= b && |a| == |b|
    ensures a == b
  {
    assert b == a + (b - a);
  }

  lemma NewRowAfterPass(t: Table, os: Report, t2: Table, id: Id)
    requires Reconciled(t, os, t2) && id in t2 && id !in t
    ensures t2[id].name in os && t2[id].name !in Names(t) && t2[id] == Created(t2[id].name, os[t2[id].name])
  {
    hide Doomed;
    var name := t2[id].name;
    var v, w := Bearers(t, name), Bearers(t2, name);
    assert id in w && id !in v;
    assert NameReconciled(v, name, os, w);
    var u :| Upserted(v, name, os, u) && Pruned(u, name, LeftOver(v, name, os), w);
    BearersAreNamed(t, name);
    assert id in u && id !in v;
  }

  /** With distinct names a pass gives exactly one table, up to the ids of new rows. */
  lemma PassIsExact(t: Table, os: Report, t2: Table)
    requires DistinctNames(t) && Reconciled(t, os, t2)
    ensures IsPass(t, os, t2)
  {
    hide Bearers, Reconciled, Doomed, Names;
    forall id | id in t { OldRowAfterPass(t, os, t2, id); }
    forall id | id in t2 && id !in t { NewRowAfterPass(t, os, t2, id); }
    forall n | n in os { PassNames(t, os, t2, n); }
    DistinctIffSole(t);
    NamesDistinctAfterPassIff(t, os, t2);
  }

  /** Status is available for exactly the reported names and error for the others; rows that stay keep their
      id and name. */
  lemma PassStatus(t: Table, os: Report, t2: Table, id: Id)
    requires DistinctNames(t) && Reconciled(t, os, t2) && id in t2
    ensures t2[id].status == if t2[id].name in os then Available else Error
    ensures id in t ==> t2[id].name == t[id].name
  {
    PassIsExact(t, os, t2);
  }

  // ---------- a second pass ----------

  /** After two passes over one report, a row of the first is changed by the second exactly when it was new
      and the report has extra specs for it. */
  lemma SecondPassOnRow(t: Table, os: Report, t2: Table, t3: Table, id: Id)
    requires IsPass(t, os, t2) && IsPass(t2, os, t3) && id in t2
    ensures id in t3
    ensures t3[id] == t2[id] <==>
            !(t2[id].name in os && t2[id].name !in Names(t) && ReportedSpecs(os[t2[id].name]) != map[])
  {
    hide Names, ReportedSpecs, Doomed;
    if id in t { NameIsThere(t, id); }
  }

  lemma NameIsThere(t: Table, id: Id)
    requires id in t
    ensures t[id].name in Names(t)
  {
  }

  lemma NewNameHasRow(t: Table, os: Report, t2: Table, n: string)
    requires IsPass(t, os, t2) && n in os
    ensures exists id :: id in t2 && t2[id].name == n
  {
    assert n in Names(t2);
  }

  lemma NoNewRows(t: Table, os: Report, t2: Table, t3: Table)
    requires IsPass(t, os, t2) && IsPass(t2, os, t3)
    ensures t3.Keys <= t2.Keys
  {
    forall id | id in t3 ensures id in t2 {
      if id !in t2 { assert false; }
    }
  }

  /** For any report at all, a second pass over it changes nothing exactly when no interface that was new to
      the first pass has extra specs there. */
  lemma SecondPassIsIdentityIff(t: Table, os: Report, t2: Table, t3: Table)
    requires DistinctNames(t) && Reconciled(t, os, t2) && Reconciled(t2, os, t3)
    ensures t3 == t2 <==> forall n :: n in os && n !in Names(t) ==> ReportedSpecs(os[n]) == map[]
  {
    PassIsExact(t, os, t2);
    PassIsExact(t2, os, t3);
    NoNewRows(t, os, t2, t3);
    hide IsPass, ReportedSpecs, Reconciled, Names;
    forall id | id in t2 { SecondPassOnRow(t, os, t2, t3, id); }
    assert t3.Keys == t2.Keys;
    if t3 == t2 {
      forall n | n in os && n !in Names(t) ensures ReportedSpecs(os[n]) == map[] {
        NewNameHasRow(t, os, t2, n);
        var id :| id in t2 && t2[id].name == n;
        SecondPassOnRow(t, os, t2, t3, id);
      }
    }
  }

  lemma ReaderWritesNoExtraSpecs(interfaces: seq<SystemInterface>)
    ensures forall n :: n in ReadReport(interfaces) ==> ReadReport(interfaces)[n].extraSpecs.None?
  {
    if interfaces == [] {
    } else {
      ReaderWritesNoExtraSpecs(interfaces[..|interfaces| - 1]);
    }
  }

  /** Whatever the system reader finds, two passes over its report are one: the second changes no row. */
  lemma SystemSecondPassIsIdentity(t: Table, interfaces: seq<SystemInterface>, t2: Table, t3: Table)
    requires DistinctNames(t)
    requires Reconciled(t, ReadReport(interfaces), t2) && Reconciled(t2, ReadReport(interfaces), t3)
    ensures t3 == t2
  {
    ReaderWritesNoExtraSpecs(interfaces);
    SecondPassIsIdentityIff(t, ReadReport(interfaces), t2, t3);
  }

  /** The price: the specs the reader did find go unused, and every reported interface ends without extra
      specs, those it had before included. */
  lemma {:induction false} SystemPassClearsExtraSpecs(t: Table, interfaces: seq<SystemInterface>, t2: Table, id: Id)
    requires DistinctNames(t) && Reconciled(t, ReadReport(interfaces), t2)
    requires id in t2 && t2[id].name in ReadReport(interfaces)
    ensures t2[id].extraSpecs == map[]
  {
    ReaderWritesNoExtraSpecs(interfaces);
    PassIsExact(t, ReadReport(interfaces), t2);
  }
}
