/** The network pass field by field, in terms of the tables and the report, and what the report takes over
    from the system. */
module NetworkLaws {
  import opened Common
  import opened NetworkSync
  import opened NetworkTheorems

  // ---------- rows ----------

  /** The extra specs a report gives; none without the key. */
  ghost predicate GivesSpecs(os: OsInterface, specs: map<string, string>) {
    match os.extraSpecs
    case Some(given) => specs == given
    case None => specs == map[]
  }

  /** A row with a reported name has the reported columns and is available. If it was there before, it keeps
      its name and hardware and takes over the extra specs; if it is new, its hardware is the reported one and
      it has no extra specs. */
  lemma ReportedRowAfterPass(t: Table, os: Report, t2: Table, id: Id)
    requires DistinctNames(t) && Reconciled(t, os, t2) && id in t2 && t2[id].name in os
    ensures var row, reported := t2[id], os[t2[id].name];
            && row.columns == reported.columns && row.status == Available
            && (id in t ==>
                  row.name == t[id].name && row.hardware == t[id].hardware && GivesSpecs(reported, row.extraSpecs))
            && (id !in t ==> row.hardware == reported.hardware && row.extraSpecs == map[])
  {
    PassIsExact(t, os, t2);
  }

  /** Every reported name has a row after the pass. */
  lemma ReportedNameHasRow(t: Table, os: Report, t2: Table, name: string)
    requires Reconciled(t, os, t2) && name in os
    ensures exists id :: id in t2 && t2[id].name == name
  {
    PassNames(t, os, t2, name);
  }

  /** The three kinds of names that are not kept without the system. */
  ghost predicate StartsDoomed(name: string) {
    exists rest :: name == "ovs-system" + rest || name == "vnet" + rest || name == "veth" + rest
  }

  lemma DoomedIff(name: string)
    ensures Doomed(name) <==> StartsDoomed(name)
  {
    if "ovs-system" <= name { assert name == "ovs-system" + name[10..]; }
    if "vnet" <= name { assert name == "vnet" + name[4..]; }
    if "veth" <= name { assert name == "veth" + name[4..]; }
  }

  /** A row whose name is not reported goes if the name is doomed; otherwise it stays and only its status
      changes, to error. */
  lemma LeftOverRowAfterPass(t: Table, os: Report, t2: Table, id: Id)
    requires DistinctNames(t) && Reconciled(t, os, t2) && id in t && t[id].name !in os
    ensures id in t2 <==> !StartsDoomed(t[id].name)
    ensures id in t2 ==>
              && t2[id].name == t[id].name && t2[id].columns == t[id].columns && t2[id].hardware == t[id].hardware
              && t2[id].extraSpecs == t[id].extraSpecs && t2[id].status == Error
  {
    PassIsExact(t, os, t2);
    DoomedIff(t[id].name);
  }

  /** In any table, repeated names included, an old row that stays keeps its name and hardware, and its columns
      and extra specs are both its old ones or both the reported ones. */
  lemma AnyRowAfterPass(t: Table, os: Report, t2: Table, id: Id)
    requires Reconciled(t, os, t2) && id in t && id in t2
    ensures t2[id].name == t[id].name && t2[id].hardware == t[id].hardware
    ensures || (t2[id].columns == t[id].columns && t2[id].extraSpecs == t[id].extraSpecs)
            || (t[id].name in os && t2[id].columns == os[t[id].name].columns &&
                GivesSpecs(os[t[id].name], t2[id].extraSpecs))
  {
    hide Doomed;
    var name := t[id].name;
    var v, w := Bearers(t, name), Bearers(t2, name);
    assert id in v && id in w;
    assert NameReconciled(v, name, os, w);
    var u :| Upserted(v, name, os, u) && Pruned(u, name, LeftOver(v, name, os), w);
    assert id in u && (w[id] == u[id] || w[id] == Marked(u[id]));
    if name in os {
      var k :| k in v && u == v[k := Synced(v[k], os[name])];
    }
  }

  // ---------- the left-over list ----------

  /** `list.remove` takes out the first occurrence. */
  lemma RemoveFirstIs(xs: seq<string>, x: string) returns (i: nat)
    requires x in xs
    ensures i < |xs| && xs[i] == x && x !in xs[..i] && RemoveFirst(xs, x) == xs[..i] + xs[i + 1..]
  {
    if xs[0] == x {
      i := 0;
    } else {
      var rest := xs[1..];
      var k := RemoveFirstIs(rest, x);
      i := k + 1;
      assert xs[..i] == [xs[0]] + rest[..k];
      assert xs[i + 1..] == rest[k + 1..];
    }
  }

  // ---------- the report ----------

  /** `i` is the last interface with this name. */
  ghost predicate LastNamed(interfaces: seq<SystemInterface>, i: int, name: string) {
    && 0 <= i < |interfaces| && interfaces[i].name == name
    && forall j :: i < j < |interfaces| ==> interfaces[j].name != name
  }

  lemma {:induction false} ReportKeepsLast(interfaces: seq<SystemInterface>, name: string)
    ensures name in ReadReport(interfaces) <==> exists i :: LastNamed(interfaces, i, name)
    ensures forall i :: LastNamed(interfaces, i, name) ==> ReadReport(interfaces)[name] == ReadInterface(interfaces[i])
  {
    if interfaces == [] {
    } else {
      hide ReadInterface;
      var init, last := interfaces[..|interfaces| - 1], interfaces[|interfaces| - 1];
      ReportKeepsLast(init, name);
      assert forall i :: 0 <= i < |init| ==> init[i] == interfaces[i];
      if last.name == name {
        assert LastNamed(interfaces, |interfaces| - 1, name);
      } else {
        forall i ensures LastNamed(interfaces, i, name) <==> LastNamed(init, i, name) {}
      }
    }
  }

  /** `i` is the last inet address. */
  ghost predicate LastInetAt(addresses: seq<Address>, i: int) {
    && 0 <= i < |addresses| && addresses[i].family == "inet"
    && forall j :: i < j < |addresses| ==> addresses[j].family != "inet"
  }

  lemma {:induction false} LastInetIs(addresses: seq<Address>)
    ensures LastInet(addresses).None? <==> forall i :: 0 <= i < |addresses| ==> addresses[i].family != "inet"
    ensures forall i :: LastInetAt(addresses, i) ==> LastInet(addresses) == Some(addresses[i])
    ensures LastInet(addresses).Some? ==> exists i :: LastInetAt(addresses, i)
  {
    if addresses == [] {
    } else {
      var init, last := addresses[..|addresses| - 1], addresses[|addresses| - 1];
      LastInetIs(init);
      assert forall i :: 0 <= i < |init| ==> init[i] == addresses[i];
      if last.family == "inet" {
        assert LastInetAt(addresses, |addresses| - 1);
      } else {
        forall i ensures LastInetAt(addresses, i) <==> LastInetAt(init, i) {}
      }
    }
  }

  /** What the report says of an interface: its last inet address and prefix length, or neither; no gateway;
      type by whether it is physical; duplex and slot only for physical ones that have them, under a key of
      their own. */
  lemma {:induction false} InterfaceIsReported(interfaces: seq<SystemInterface>, i: int, name: string)
    requires LastNamed(interfaces, i, name)
    ensures name in ReadReport(interfaces)
    ensures var sys, reported := interfaces[i], ReadReport(interfaces)[name];
            && reported.columns.mac == Some(sys.address) && reported.columns.powerState == Some(sys.operState)
            && reported.columns.gateway == None
            && reported.columns.infType == Some(if sys.physical then "physical" else "virtual")
            && (forall k :: LastInetAt(sys.addresses, k) ==>
                  reported.columns.ip == Some(sys.addresses[k].local) &&
                  reported.columns.netmask == Some(sys.addresses[k].prefixLength))
            && ((forall k :: 0 <= k < |sys.addresses| ==> sys.addresses[k].family != "inet") ==>
                  reported.columns.ip == None && reported.columns.netmask == None)
            && reported.hardware.mtu == Some(sys.mtu) && reported.hardware.speed == sys.speed
            && reported.extraSpecs == None
            && (forall key :: key in reported.specs <==>
                  && sys.physical
                  && ((key == "duplex" && sys.duplex.Some? && sys.duplex.value != "") ||
                      (key == "slot_port" && sys.slotPort.Some? && sys.slotPort.value != "")))
            && ("duplex" in reported.specs ==> sys.duplex == Some(reported.specs["duplex"]))
            && ("slot_port" in reported.specs ==> sys.slotPort == Some(reported.specs["slot_port"]))
  {
    ReportKeepsLast(interfaces, name);
    LastInetIs(interfaces[i].addresses);
  }
}
