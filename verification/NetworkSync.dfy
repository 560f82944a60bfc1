/** Reconciliation of the interfaces table with the operating system: one monitoring pass, as the loops run
    it and as a relation between the table before, the report and the table after. */
module NetworkSync {
  import opened Common

  type Id = nat

  datatype Status = New | Creating | Available | Error | Deleting

  /** The columns every pass overwrites; a key the report lacks becomes a null. */
  datatype Columns = Columns(
    mac: Option<string>, ip: Option<string>, netmask: Option<int>, gateway: Option<string>,
    infType: Option<string>, powerState: Option<string>)

  /** The columns that only a new row takes from the report. */
  datatype Hardware = Hardware(mtu: Option<int>, speed: Option<int>)

  datatype Row = Row(
    name: string, columns: Columns, hardware: Hardware, status: Status, extraSpecs: map<string, string>)

  type Table = map<Id, Row>

  /** One interface of the report; its name is its key there. The system reader writes `specs`, the sync
      looks for `extraSpecs`. */
  datatype OsInterface = OsInterface(
    columns: Columns, hardware: Hardware, specs: map<string, string>, extraSpecs: Option<map<string, string>>)

  type Report = map<string, OsInterface>

  // ---------- the system reader ----------

  datatype Address = Address(family: string, local: string, prefixLength: int)

  datatype SystemInterface = SystemInterface(
    name: string, mtu: int, operState: string, address: string, addresses: seq<Address>,
    physical: bool, duplex: Option<string>, speed: Option<int>, slotPort: Option<string>)

  function LastInet(addresses: seq<Address>): Option<Address> {
    if addresses == [] then None
    else if addresses[|addresses| - 1].family == "inet" then Some(addresses[|addresses| - 1])
    else LastInet(addresses[..|addresses| - 1])
  }

  function With(m: map<string, string>, key: string, value: Option<string>): map<string, string> {
    if value.Some? && value.value != "" then m[key := value.value] else m
  }

  function ReadInterface(s: SystemInterface): OsInterface {
    var inet := LastInet(s.addresses);
    OsInterface(
      Columns(
        Some(s.address),
        if inet.Some? then Some(inet.value.local) else None,
        if inet.Some? then Some(inet.value.prefixLength) else None,
        None,
        Some(if s.physical then "physical" else "virtual"),
        Some(s.operState)),
      Hardware(Some(s.mtu), s.speed),
      if s.physical then With(With(map[], "duplex", s.duplex), "slot_port", s.slotPort) else map[],
      None)
  }

  /** The report by name; a later interface wins. */
  function ReadReport(interfaces: seq<SystemInterface>): Report {
    if interfaces == [] then map[]
    else
      var last := interfaces[|interfaces| - 1];
      ReadReport(interfaces[..|interfaces| - 1])[last.name := ReadInterface(last)]
  }

  // ---------- rows ----------

  function Names(t: Table): set<string> { set id | id in t :: t[id].name }

  ghost predicate DistinctNames(t: Table) {
    forall i, j :: i in t && j in t && i != j ==> t[i].name != t[j].name
  }

  /** The names of interfaces that are deleted rather than marked when the system no longer has them. */
  predicate Doomed(name: string) { "ovs-system" <= name || "vnet" <= name || "veth" <= name }

  function ReportedSpecs(os: OsInterface): map<string, string> {
    if os.extraSpecs.Some? then os.extraSpecs.value else map[]
  }

  /** An existing row: columns and extra specs follow the report, hardware stays. */
  function Synced(row: Row, os: OsInterface): Row {
    row.(columns := os.columns, extraSpecs := ReportedSpecs(os), status := Available)
  }

  /** A new row: no extra specs yet. */
  function Created(name: string, os: OsInterface): Row { Row(name, os.columns, os.hardware, Available, map[]) }

  function Marked(row: Row): Row { row.(status := Error) }

  /** The rows that bear one name. The table does not keep names distinct. */
  function Bearers(t: Table, name: string): Table { map id | id in t && t[id].name == name :: t[id] }

  lemma BearersAfterPut(t: Table, id: Id, row: Row, name: string)
    requires id in t ==> t[id].name == row.name
    ensures Bearers(t[id := row], name) == if name == row.name then Bearers(t, name)[id := row] else Bearers(t, name)
  {
  }

  lemma BearersAfterDelete(t: Table, id: Id, name: string)
    requires id in t
    ensures Bearers(t - {id}, name) == if name == t[id].name then Bearers(t, name) - {id} else Bearers(t, name)
  {
  }

  // ---------- the pass, name by name ----------

  /** From `v` to `w`, the bearers of a reported name: one of them follows the report, or there is a new one. */
  ghost predicate Upserted(v: Table, name: string, os: Report, w: Table) {
    if name !in os then w == v
    else if v == map[] then exists id :: w == map[id := Created(name, os[name])]
    else exists id :: id in v && w == v[id := Synced(v[id], os[name])]
  }

  /** From `v` to `w`, the bearers of a name that was looked up `times` times as left over: each look-up
      deletes one bearer of a doomed name and marks one of any other name. */
  ghost predicate Pruned(v: Table, name: string, times: nat, w: Table) {
    if Doomed(name) then
      && w.Keys <= v.Keys && (forall id :: id in w ==> w[id] == v[id])
      && |w| == if times <= |v| then |v| - times else 0
    else
      && w.Keys == v.Keys && (forall id :: id in w ==> w[id] == v[id] || w[id] == Marked(v[id]))
      && (times == 0 ==> w == v)
      && (times > 0 && v != map[] ==> exists id :: id in w && w[id].status == Error)
  }

  /** How often a name is left over: every row lists its name, and the report strikes it out once. */
  function LeftOver(v: Table, name: string, os: Report): nat {
    if name in os && v != map[] then |v| - 1 else |v|
  }

  ghost predicate NameReconciled(v: Table, name: string, os: Report, w: Table) {
    exists u :: Upserted(v, name, os, u) && Pruned(u, name, LeftOver(v, name, os), w)
  }

  /** Where the first loop stands when the names in `todo` are still to come. */
  ghost predicate AllUpserted(t: Table, os: Report, todo: set<string>, left: seq<string>, t1: Table) {
    RowsUpserted(t, os, todo, t1) && NamesLeft(t, os, todo, left)
  }

  ghost predicate RowsUpserted(t: Table, os: Report, todo: set<string>, t1: Table) {
    && t.Keys <= t1.Keys && (forall id :: id in t ==> t1[id].name == t[id].name)
    && forall n :: if n in todo then Bearers(t1, n) == Bearers(t, n) else Upserted(Bearers(t, n), n, os, Bearers(t1, n))
  }

  ghost predicate NamesLeft(t: Table, os: Report, todo: set<string>, left: seq<string>) {
    forall n :: multiset(left)[n] == if n in todo then |Bearers(t, n)| else LeftOver(Bearers(t, n), n, os)
  }

  /** Where the second loop stands when it has looked up the names `done`. */
  ghost predicate AllPruned(t: Table, done: seq<string>, t1: Table) {
    && t1.Keys <= t.Keys && (forall id :: id in t1 ==> t1[id].name == t[id].name)
    && forall n :: Pruned(Bearers(t, n), n, multiset(done)[n], Bearers(t1, n))
  }

  /** Only bearers of `name` differ, and rows keep their names. */
  ghost predicate SoleChange(t: Table, name: string, t1: Table) {
    && (forall n :: n != name ==> Bearers(t1, n) == Bearers(t, n))
    && (forall id :: id in t && id in t1 ==> t1[id].name == t[id].name)
  }

  /** What one pass over report `os` makes of `t`, repeated names included. */
  ghost predicate Reconciled(t: Table, os: Report, t2: Table) {
    && (forall name :: NameReconciled(Bearers(t, name), name, os, Bearers(t2, name)))
    && (forall id :: id in t && id in t2 ==> t2[id].name == t[id].name)
  }

  // ---------- the loops ----------

  /** `list.remove` */
  function RemoveFirst(xs: seq<string>, x: string): seq<string>
    requires x in xs
  {
    if xs[0] == x then xs[1..] else [xs[0]] + RemoveFirst(xs[1..], x)
  }

  lemma RemoveFirstRemovesOne(xs: seq<string>, x: string)
    requires x in xs
    ensures multiset(RemoveFirst(xs, x)) == multiset(xs) - multiset{x}
  {
    assert xs == [xs[0]] + xs[1..];
  }

  class NetworkServiceLayerManager {
    var interfaces: Table
    var nextId: Id  // ids given out so far are below; stands for fresh UUIDs

    ghost predicate Valid()
      reads this
    {
      forall id :: id in interfaces ==> id < nextId
    }

    constructor (t: Table, nextId: Id)
      requires forall id :: id in t ==> id < nextId
      ensures Valid() && interfaces == t
    {
      interfaces, this.nextId := t, nextId;
    }

    /** `get_by_name`: some row with the name, any of them if there are several. */
    method GetByName(name: string) returns (found: Option<Id>)
      ensures found.Some? ==> found.value in interfaces && interfaces[found.value].name == name
      ensures found.None? <==> Bearers(interfaces, name) == map[]
    {
      if id :| id in interfaces && interfaces[id].name == name {
        assert id in Bearers(interfaces, name);
        return Some(id);
      }
      return None;
    }

    method ListNames() returns (names: seq<string>)
      ensures ListsNames(names, interfaces)
    {
      names := [];
      var todo := interfaces.Keys;
      ghost var listed: Table := map[];
      while todo != {}
        invariant todo <= interfaces.Keys && listed.Keys == interfaces.Keys - todo
        invariant forall id :: id in listed ==> listed[id] == interfaces[id]
        invariant ListsNames(names, listed)
      {
        hide ListsNames;
        var id :| id in todo;
        OneMoreListed(names, listed, id, interfaces[id]);
        names, listed, todo := names + [interfaces[id].name], listed[id := interfaces[id]], todo - {id};
      }
      assert listed == interfaces;
    }

    /** One uninterrupted pass, in any order of the report and for any row a look-up comes back with. */
    method Monitoring(os: Report)
      requires Valid()
      modifies this
      ensures Valid() && Reconciled(old(interfaces), os, interfaces)
    {
      var dbNames := ListNames();
      var left := UpsertReported(os, dbNames);
      ghost var t0, t1 := old(interfaces), interfaces;
      hide Bearers, Upserted, Pruned;
      MarkMissing(left);
      PassComposes(t0, os, t1, left, interfaces);
    }

    /** The first loop, each interface of the report in its own transaction; what remains of `dbNames` is
        left over. */
    method UpsertReported(os: Report, dbNames: seq<string>) returns (left: seq<string>)
      requires Valid() && ListsNames(dbNames, interfaces)
      modifies this
      ensures Valid() && AllUpserted(old(interfaces), os, {}, left, interfaces)
    {
      left := dbNames;
      var todo := os.Keys;
      assert AllUpserted(interfaces, os, todo, left, interfaces);
      while todo != {}
        invariant Valid() && todo <= os.Keys
        invariant AllUpserted(old(interfaces), os, todo, left, interfaces)
      {
        hide AllUpserted;
        var osName :| osName in todo;
        ghost var t1, left1 := interfaces, left;
        UpsertOne(os, osName);
        if osName in left { left := RemoveFirst(left, osName); }
        UpsertedOnceMore(old(interfaces), os, todo, left1, t1, osName, left, interfaces);
        todo := todo - {osName};
      }
    }

    /** The body of the first loop. */
    method UpsertOne(os: Report, osName: string)
      requires Valid() && osName in os
      modifies this
      ensures Valid() && SoleChange(old(interfaces), osName, interfaces) && old(interfaces).Keys <= interfaces.Keys
      ensures Upserted(Bearers(old(interfaces), osName), osName, os, Bearers(interfaces, osName))
    {
      var found := GetByName(osName);
      ghost var before := interfaces;
      var id := if found.Some? then found.value else nextId;
      var row := if found.Some? then Synced(interfaces[id], os[osName]) else Created(osName, os[osName]);
      forall n { BearersAfterPut(before, id, row, n); }
      assert found.Some? ==> id in Bearers(before, osName);
      assert map[][id := row] == map[id := row];
      interfaces := interfaces[id := row];
      if found.None? { nextId := nextId + 1; }
    }

    /** The second loop: left-over names, one transaction each. */
    method MarkMissing(left: seq<string>)
      requires Valid()
      modifies this`interfaces
      ensures Valid() && AllPruned(old(interfaces), left, interfaces)
    {
      assert AllPruned(interfaces, [], interfaces);
      for i := 0 to |left|
        invariant Valid() && AllPruned(old(interfaces), left[..i], interfaces)
      {
        hide AllPruned, Bearers, LookedUp;
        assert left[..i + 1] == left[..i] + [left[i]];
        ghost var t1 := interfaces;
        MarkOne(left[i]);
        AllPrunedOnceMore(old(interfaces), left[..i], t1, left[i], interfaces);
      }
      assert left[..|left|] == left;
    }

    /** The body of the second loop. */
    method MarkOne(name: string)
      requires Valid()
      modifies this`interfaces
      ensures Valid() && SoleChange(old(interfaces), name, interfaces) && interfaces.Keys <= old(interfaces).Keys
      ensures LookedUp(Bearers(old(interfaces), name), name, Bearers(interfaces, name))
    {
      var found := GetByName(name);
      if found.None? { return; }
      var id := found.value;
      ghost var before := interfaces;
      assert id in Bearers(before, name);
      if Doomed(name) {
        forall n { BearersAfterDelete(before, id, n); }
        interfaces := interfaces - {id};
      } else {
        forall n { BearersAfterPut(before, id, Marked(interfaces[id]), n); }
        interfaces := interfaces[id := Marked(interfaces[id])];
      }
    }
  }

  /** Each name as often as rows bear it. */
  ghost predicate ListsNames(names: seq<string>, t: Table) { forall n :: multiset(names)[n] == |Bearers(t, n)| }

  lemma OneMoreListed(names: seq<string>, listed: Table, id: Id, row: Row)
    requires ListsNames(names, listed) && id !in listed
    ensures ListsNames(names + [row.name], listed[id := row])
  {
    forall n ensures multiset(names + [row.name])[n] == |Bearers(listed[id := row], n)| {
      BearersAfterPut(listed, id, row, n);
      assert id !in Bearers(listed, n);
    }
  }

  /** One look-up of a left-over name. */
  ghost predicate LookedUp(v: Table, name: string, w: Table) {
    if v == map[] then w == v
    else exists id :: id in v && w == if Doomed(name) then v - {id} else v[id := Marked(v[id])]
  }

  lemma PassComposes(t: Table, os: Report, t1: Table, left: seq<string>, t2: Table)
    requires AllUpserted(t, os, {}, left, t1) && AllPruned(t1, left, t2)
    ensures Reconciled(t, os, t2)
  {
    hide Bearers, Upserted, Pruned;
    forall n ensures NameReconciled(Bearers(t, n), n, os, Bearers(t2, n)) {
      assert Upserted(Bearers(t, n), n, os, Bearers(t1, n));
      assert Pruned(Bearers(t1, n), n, multiset(left)[n], Bearers(t2, n));
    }
  }

  lemma {:induction false} UpsertedOnceMore(t: Table, os: Report, todo: set<string>, left: seq<string>, t1: Table,
                                            name: string, left2: seq<string>, t2: Table)
    requires AllUpserted(t, os, todo, left, t1) && name in todo && name in os
    requires left2 == if name in left then RemoveFirst(left, name) else left
    requires SoleChange(t1, name, t2) && t1.Keys <= t2.Keys
    requires Upserted(Bearers(t1, name), name, os, Bearers(t2, name))
    ensures AllUpserted(t, os, todo - {name}, left2, t2)
  {
    hide RowsUpserted, NamesLeft;
    RowsOnceMore(t, os, todo, t1, name, t2);
    LeftOnceMore(t, os, todo, left, name, left2);
  }

  lemma RowsOnceMore(t: Table, os: Report, todo: set<string>, t1: Table, name: string, t2: Table)
    requires RowsUpserted(t, os, todo, t1) && name in todo
    requires SoleChange(t1, name, t2) && t1.Keys <= t2.Keys
    requires Upserted(Bearers(t1, name), name, os, Bearers(t2, name))
    ensures RowsUpserted(t, os, todo - {name}, t2)
  {
    hide Bearers, Upserted;
  }

  lemma LeftOnceMore(t: Table, os: Report, todo: set<string>, left: seq<string>, name: string, left2: seq<string>)
    requires NamesLeft(t, os, todo, left) && name in todo && name in os
    requires left2 == if name in left then RemoveFirst(left, name) else left
    ensures NamesLeft(t, os, todo - {name}, left2)
  {
    hide Bearers, RemoveFirst;
    StruckOut(left, name, left2);
    assert Bearers(t, name) == map[] <==> |Bearers(t, name)| == 0;
  }

  lemma {:induction false} StruckOut(left: seq<string>, name: string, left2: seq<string>)
    requires left2 == if name in left then RemoveFirst(left, name) else left
    ensures multiset(left2)[name] == if multiset(left)[name] == 0 then 0 else multiset(left)[name] - 1
    ensures forall n :: n != name ==> multiset(left2)[n] == multiset(left)[n]
  {
    assert name in left <==> multiset(left)[name] > 0;
    if name in left { RemoveFirstRemovesOne(left, name); }
  }

  lemma AllPrunedOnceMore(t: Table, done: seq<string>, t1: Table, name: string, t2: Table)
    requires AllPruned(t, done, t1)
    requires SoleChange(t1, name, t2) && t2.Keys <= t1.Keys
    requires LookedUp(Bearers(t1, name), name, Bearers(t2, name))
    ensures AllPruned(t, done + [name], t2)
  {
    forall n { PrunedAt(t, done, t1, name, t2, n); }
    hide Bearers, Pruned, LookedUp;
    assert forall n :: Pruned(Bearers(t, n), n, multiset(done + [name])[n], Bearers(t2, n));
  }

  lemma PrunedAt(t: Table, done: seq<string>, t1: Table, name: string, t2: Table, n: string)
    requires AllPruned(t, done, t1) && SoleChange(t1, name, t2)
    requires LookedUp(Bearers(t1, name), name, Bearers(t2, name))
    ensures Pruned(Bearers(t, n), n, multiset(done + [name])[n], Bearers(t2, n))
  {
    hide Bearers, Pruned, LookedUp;
    assert Pruned(Bearers(t, n), n, multiset(done)[n], Bearers(t1, n));
    if n == name { PrunedOnceMore(Bearers(t, n), n, multiset(done)[n], Bearers(t1, n), Bearers(t2, n)); }
  }

  lemma PrunedOnceMore(v: Table, name: string, times: nat, w: Table, w2: Table)
    requires Pruned(v, name, times, w) && LookedUp(w, name, w2)
    ensures Pruned(v, name, times + 1, w2)
  {
    if Doomed(name) {
      DeletedOnceMore(v, name, times, w, w2);
    } else {
      MarkedOnceMore(v, name, times, w, w2);
    }
  }

  lemma DeletedOnceMore(v: Table, name: string, times: nat, w: Table, w2: Table)
    requires Doomed(name) && Pruned(v, name, times, w) && LookedUp(w, name, w2)
    ensures Pruned(v, name, times + 1, w2)
  {
    hide Doomed;
    if w != map[] {
      var id :| id in w && w2 == w - {id};
      assert w2.Keys == w.Keys - {id};
      assert |w2| == |w| - 1;
    }
  }

  lemma MarkedOnceMore(v: Table, name: string, times: nat, w: Table, w2: Table)
    requires !Doomed(name) && Pruned(v, name, times, w) && LookedUp(w, name, w2)
    ensures Pruned(v, name, times + 1, w2)
  {
    hide Doomed;
    if w == map[] {
      assert v.Keys == {};
    } else {
      var id :| id in w && w2 == w[id := Marked(w[id])];
      assert w2[id].status == Error;
      assert Marked(Marked(v[id])) == Marked(v[id]);
    }
  }
}
