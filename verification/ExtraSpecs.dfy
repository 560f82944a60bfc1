/** The extra-spec rows of a network interface, updated in place on the row objects themselves. */
module ExtraSpecs {

  class InterfaceExtraSpec {
    const key: string
    var value: string

    constructor (key: string, value: string)
      ensures this.key == key && this.value == value
    {
      this.key, this.value := key, value;
    }
  }

  type Rows = seq<InterfaceExtraSpec>

  /** The rows whose key is wanted, in their order. */
  function Wanted(rows: Rows, specs: map<string, string>): Rows {
    if rows == [] then []
    else Wanted(rows[..|rows| - 1], specs) + if rows[|rows| - 1].key in specs then [rows[|rows| - 1]] else []
  }

  lemma WantedMembers(rows: Rows, specs: map<string, string>)
    ensures forall i :: 0 <= i < |Wanted(rows, specs)| ==>
              Wanted(rows, specs)[i] in rows && Wanted(rows, specs)[i].key in specs
    ensures forall i :: 0 <= i < |rows| && rows[i].key in specs ==> rows[i] in Wanted(rows, specs)
  {
    if rows == [] {
    } else {
      var init := rows[..|rows| - 1];
      WantedMembers(init, specs);
      assert forall i :: 0 <= i < |init| ==> rows[i] == init[i];
    }
  }

  lemma WantedConcat(a: Rows, b: Rows, specs: map<string, string>)
    ensures Wanted(a + b, specs) == Wanted(a, specs) + Wanted(b, specs)
  {
    if b == [] {
      assert a + b == a;
    } else {
      WantedConcat(a, b[..|b| - 1], specs);
      assert (a + b)[..|a + b| - 1] == a + b[..|b| - 1];
    }
  }

  lemma AllWanted(rows: Rows, specs: map<string, string>)
    requires forall s :: s in rows ==> s.key in specs
    ensures Wanted(rows, specs) == rows
  {
    if rows == [] {
    } else {
      AllWanted(rows[..|rows| - 1], specs);
    }
  }

  predicate DistinctKeys(rows: Rows) { forall i, j :: 0 <= i < j < |rows| ==> rows[i].key != rows[j].key }

  /** No wanted key stands twice. */
  predicate WantedOnce(rows: Rows, specs: map<string, string>) {
    forall i, j :: 0 <= i < j < |rows| && rows[i].key in specs ==> rows[i].key != rows[j].key
  }

  predicate Lacks(rows: Rows, key: string) { forall i :: 0 <= i < |rows| ==> rows[i].key != key }

  lemma OneMoreRow(rows: Rows, last: InterfaceExtraSpec, specs: map<string, string>)
    ensures DistinctKeys(rows + [last]) <==> DistinctKeys(rows) && Lacks(rows, last.key)
    ensures WantedOnce(rows + [last], specs) <==>
            WantedOnce(rows, specs) && (last.key in specs ==> Lacks(rows, last.key))
  {
    var all := rows + [last];
    assert forall i :: 0 <= i < |rows| ==> all[i] == rows[i];
    assert all[|rows|] == last;
  }

  /** Dropping rows leaves keys distinct exactly when no wanted key was repeated. */
  lemma {:induction false} WantedDistinctIff(rows: Rows, specs: map<string, string>)
    ensures DistinctKeys(Wanted(rows, specs)) <==> WantedOnce(rows, specs)
  {
    if rows == [] {
    } else {
      var init, last := rows[..|rows| - 1], rows[|rows| - 1];
      var kept := Wanted(init, specs);
      WantedDistinctIff(init, specs);
      OneMoreRow(init, last, specs);
      assert rows == init + [last];
      if last.key in specs {
        assert Lacks(kept, last.key) <==> Lacks(init, last.key) by {
          WantedMembers(init, specs);
          if !Lacks(init, last.key) {
            var i :| 0 <= i < |init| && init[i].key == last.key;
            var w :| 0 <= w < |kept| && kept[w] == init[i];
          }
        }
        OneMoreRow(kept, last, specs);
      } else {
        assert kept + [] == kept;
      }
    }
  }

  /** The position of the first row with the key, or the number of rows. */
  function IndexOf(rows: Rows, key: string): (r: nat)
    ensures r <= |rows| && forall j :: 0 <= j < r ==> rows[j].key != key
    ensures r < |rows| ==> rows[r].key == key
  {
    if rows == [] then 0
    else
      var before := IndexOf(rows[..|rows| - 1], key);
      if before < |rows| - 1 || rows[|rows| - 1].key == key then before else |rows|
  }

  predicate HasKey(rows: Rows, key: string) { IndexOf(rows, key) < |rows| }

  lemma HasKeyAppended(rows: Rows, row: InterfaceExtraSpec, key: string)
    ensures HasKey(rows + [row], key) <==> HasKey(rows, key) || key == row.key
  {
    assert (rows + [row])[..|rows|] == rows;
  }

  /** Row `i` is the row that a look-up by its key finds. */
  predicate FirstOfKey(rows: Rows, i: nat)
    requires i < |rows|
  {
    rows[i] == rows[IndexOf(rows, rows[i].key)]
  }

  /** The rows `added` have wanted keys, each once, that no old row has. */
  ghost predicate NewKeys(before: Rows, added: Rows, wanted: set<string>) {
    && DistinctKeys(added)
    && (forall i :: 0 <= i < |added| ==> added[i].key in wanted && !HasKey(before, added[i].key))
  }

  ghost predicate HoldsSpecs(rows: Rows, specs: map<string, string>)
    reads rows
  {
    forall i :: 0 <= i < |rows| ==> rows[i].key in specs && rows[i].value == specs[rows[i].key]
  }

  ghost function Values(rows: Rows): (r: seq<string>)
    reads rows
    ensures |r| == |rows| && forall i :: 0 <= i < |r| ==> r[i] == rows[i].value
  {
    if rows == [] then [] else Values(rows[..|rows| - 1]) + [rows[|rows| - 1].value]
  }

  /** The values `vs` of the rows, with the first row of each key in `keys` set to what `specs` wants. */
  ghost function Spelt(rows: Rows, specs: map<string, string>, keys: set<string>, vs: seq<string>): seq<string>
    requires |vs| == |rows| && keys <= specs.Keys
  {
    seq(|rows|, i requires 0 <= i < |rows| =>
      if rows[i].key in keys && FirstOfKey(rows, i) then specs[rows[i].key] else vs[i])
  }

  lemma IndexInConcat(a: Rows, b: Rows, key: string)
    ensures IndexOf(a + b, key) == if HasKey(a, key) then IndexOf(a, key) else |a| + IndexOf(b, key)
  {
    var i, k := IndexOf(a + b, key), if HasKey(a, key) then IndexOf(a, key) else |a| + IndexOf(b, key);
    assert k < |a + b| ==> (a + b)[k].key == key;
    assert forall j :: 0 <= j < k ==> (a + b)[j].key != key;
  }

  lemma NewKeysLackKey(before: Rows, added: Rows, keys: set<string>, key: string)
    requires NewKeys(before, added, keys) && key !in keys
    ensures IndexOf(before + added, key) == if HasKey(before, key) then IndexOf(before, key) else |before + added|
    ensures HasKey(before + added, key) <==> HasKey(before, key)
    ensures HasKey(before, key) <==> IndexOf(before + added, key) < |before + added|
    ensures HasKey(before, key) ==> IndexOf(before + added, key) < |before|
  {
    IndexInConcat(before, added, key);
  }

  lemma MoreKeys(before: Rows, added: Rows, keys: set<string>, row: InterfaceExtraSpec)
    requires NewKeys(before, added, keys) && row.key !in keys && !HasKey(before, row.key)
    ensures NewKeys(before, added + [row], keys + {row.key})
  {
  }

  lemma NewRowsAreOthers(before: Rows, added: Rows, keys: set<string>, i: nat)
    requires NewKeys(before, added, keys) && i < |before| && before[i].key !in keys
    ensures forall j :: 0 <= j < |added| ==> added[j] != before[i]
    ensures NewKeys(before, added, keys + {before[i].key})
  {
  }

  lemma {:induction false} SpeltOverwritten(rows: Rows, specs: map<string, string>, keys: set<string>, key: string,
                                            vs: seq<string>, vs2: seq<string>)
    requires |vs| == |vs2| == |rows| && keys <= specs.Keys && key in specs && HasKey(rows, key)
    requires forall j :: 0 <= j < |rows| ==>
               vs2[j] == if rows[j] == rows[IndexOf(rows, key)] then specs[key] else Spelt(rows, specs, keys, vs)[j]
    ensures vs2 == Spelt(rows, specs, keys + {key}, vs)
  {
  }

  lemma SpeltUnchanged(rows: Rows, specs: map<string, string>, keys: set<string>, key: string, vs: seq<string>)
    requires |vs| == |rows| && keys <= specs.Keys && key in specs && !HasKey(rows, key)
    ensures Spelt(rows, specs, keys + {key}, vs) == Spelt(rows, specs, keys, vs)
  {
  }

  lemma NewKeyAppended(before: Rows, added: Rows, specs: map<string, string>, keys: set<string>, key: string,
                       vs: seq<string>, row: InterfaceExtraSpec)
    requires |vs| == |before| && keys <= specs.Keys && key in specs && row.key == key
    requires NewKeys(before, added, keys) && key !in keys && !HasKey(before, key)
    ensures NewKeys(before, added + [row], keys + {key})
    ensures Spelt(before, specs, keys + {key}, vs) == Spelt(before, specs, keys, vs)
    ensures forall k :: HasKey(before + (added + [row]), k) <==> HasKey(before + added, k) || k == key
  {
    hide Spelt, HasKey, NewKeys;
    MoreKeys(before, added, keys, row);
    SpeltUnchanged(before, specs, keys, key, vs);
    assert before + (added + [row]) == before + added + [row];
    forall k { HasKeyAppended(before + added, row, k); }
  }

  class Interface {
    var extraSpecs: Rows

    constructor (rows: Rows)
      ensures extraSpecs == rows
    {
      extraSpecs := rows;
    }

    /** Afterwards the rows are the old rows whose key is wanted, as the same objects in their old order,
        followed by one new row for each wanted key that no old row had. The first old row of a wanted key
        has the wanted value; every other old row, kept or dropped, keeps its value. */
    method UpdateExtraSpecs(specs: map<string, string>)
      modifies this, extraSpecs
      ensures var kept, before := Wanted(old(extraSpecs), specs), old(extraSpecs);
              && kept <= extraSpecs
              && NewKeys(before, extraSpecs[|kept|..], specs.Keys) && HoldsSpecs(extraSpecs[|kept|..], specs)
              && (forall i :: |kept| <= i < |extraSpecs| ==> fresh(extraSpecs[i]))
              && Values(before) == Spelt(before, specs, specs.Keys, old(Values(extraSpecs)))
      ensures forall k :: k in specs ==> HasKey(extraSpecs, k)
      ensures DistinctKeys(old(extraSpecs)) ==> DistinctKeys(extraSpecs) && HoldsSpecs(extraSpecs, specs)
    {
      hide DistinctKeys, Wanted, Spelt, NewKeys, HasKey, HoldsSpecs;
      var todo := specs.Keys;
      ghost var before, was := extraSpecs, Values(extraSpecs);
      ghost var added: Rows := [];
      NothingYet(before, specs, was);
      assert specs.Keys - specs.Keys == {};
      while todo != {}
        invariant todo <= specs.Keys && extraSpecs == before + added
        invariant NewKeys(before, added, specs.Keys - todo) && HoldsSpecs(added, specs)
        invariant forall i :: 0 <= i < |added| ==> fresh(added[i])
        invariant Values(before) == Spelt(before, specs, specs.Keys - todo, was)
        invariant forall k :: k in specs && k !in todo ==> HasKey(before + added, k)
      {
        var key :| key in todo;
        added := SetSpec(before, added, specs, specs.Keys - todo, key, was);
        assert specs.Keys - todo + {key} == specs.Keys - (todo - {key});
        todo := todo - {key};
      }
      assert specs.Keys - {} == specs.Keys;
      Filtered(before, added, specs);
      extraSpecs := Wanted(extraSpecs, specs);
      if DistinctKeys(before) { DistinctRowsSpellSpecs(before, added, specs, was); }
    }

    /** The loop's body. */
    method SetSpec(ghost before: Rows, ghost added: Rows, specs: map<string, string>, ghost keys: set<string>,
                   key: string, ghost was: seq<string>) returns (ghost added2: Rows)
      requires key in specs && key !in keys && keys <= specs.Keys && |was| == |before|
      requires extraSpecs == before + added && NewKeys(before, added, keys) && HoldsSpecs(added, specs)
      requires Values(before) == Spelt(before, specs, keys, was)
      modifies this, extraSpecs
      ensures extraSpecs == before + added2 && added <= added2
      ensures NewKeys(before, added2, keys + {key}) && HoldsSpecs(added2, specs)
      ensures forall i :: |added| <= i < |added2| ==> fresh(added2[i])
      ensures Values(before) == Spelt(before, specs, keys + {key}, was)
      ensures forall k :: HasKey(before + added2, k) <==> HasKey(before + added, k) || k == key
    {
      hide Spelt, HasKey, HoldsSpecs, NewKeys;
      var i := FindByKey(key);
      NewKeysLackKey(before, added, keys, key);
      if i < |extraSpecs| {
        added2 := added;
        NewRowsAreOthers(before, added, keys, i);
        Overwrite(before, added, specs, i);
        SpeltOverwritten(before, specs, keys, key, was, Values(before));
      } else {
        ghost var row := Append(before, added, specs, key);
        added2 := added + [row];
        NewKeyAppended(before, added, specs, keys, key, was, row);
      }
    }

    method Overwrite(ghost before: Rows, ghost added: Rows, specs: map<string, string>, i: nat)
      requires i < |before| && extraSpecs == before + added && before[i].key in specs
      requires HoldsSpecs(added, specs) && forall j :: 0 <= j < |added| ==> added[j] != before[i]
      modifies extraSpecs
      ensures HoldsSpecs(added, specs)
      ensures forall j :: 0 <= j < |before| ==>
                Values(before)[j] == if before[j] == before[i] then specs[before[i].key] else old(Values(before))[j]
    {
      assert extraSpecs[i] == before[i];
      extraSpecs[i].value := specs[extraSpecs[i].key];
    }

    method Append(ghost before: Rows, ghost added: Rows, specs: map<string, string>, key: string)
      returns (ghost row: InterfaceExtraSpec)
      requires extraSpecs == before + added && key in specs && HoldsSpecs(added, specs)
      modifies this
      ensures extraSpecs == before + (added + [row]) && row.key == key && fresh(row)
      ensures HoldsSpecs(added + [row], specs) && Values(before) == old(Values(before))
    {
      var newRow := new InterfaceExtraSpec(key, specs[key]);
      row := newRow;
      extraSpecs := extraSpecs + [newRow];
      assert before + added + [row] == before + (added + [row]);
      assert Values(before) == old(Values(before));
    }

    method FindByKey(key: string) returns (i: nat)
      ensures i == IndexOf(extraSpecs, key)
    {
      i := 0;
      while i < |extraSpecs| && extraSpecs[i].key != key
        invariant i <= |extraSpecs| && forall j :: 0 <= j < i ==> extraSpecs[j].key != key
      {
        i := i + 1;
      }
    }
  }

  // ---------- what the rows spell out ----------

  /** The rows after an update hold exactly the wanted values exactly when every old row of a wanted key that
      is not the first of its key happened to hold its value already. */
  lemma {:induction false} UpdatedRowsHoldSpecsIff(before: Rows, added: Rows, specs: map<string, string>,
                                                   was: seq<string>)
    requires |was| == |before| && HoldsSpecs(added, specs)
    requires Values(before) == Spelt(before, specs, specs.Keys, was)
    ensures HoldsSpecs(Wanted(before, specs) + added, specs) <==>
            forall i :: 0 <= i < |before| && before[i].key in specs && !FirstOfKey(before, i) ==>
              was[i] == specs[before[i].key]
  {
    hide FirstOfKey;
    WantedMembers(before, specs);
    var kept := Wanted(before, specs);
    assert forall i :: 0 <= i < |before| ==> before[i].value == Spelt(before, specs, specs.Keys, was)[i];
    if HoldsSpecs(kept + added, specs) {
      forall i | 0 <= i < |before| && before[i].key in specs ensures before[i].value == specs[before[i].key] {
        var w :| 0 <= w < |kept| && kept[w] == before[i];
        assert (kept + added)[w] == before[i];
      }
    }
  }

  /** And they have distinct keys, each wanted key once, exactly when no wanted key was repeated before. */
  lemma UpdatedKeysDistinctIff(before: Rows, added: Rows, specs: map<string, string>)
    requires NewKeys(before, added, specs.Keys)
    ensures DistinctKeys(Wanted(before, specs) + added) <==> WantedOnce(before, specs)
  {
    WantedDistinctIff(before, specs);
    WantedMembers(before, specs);
    var kept := Wanted(before, specs);
    var all := kept + added;
    assert forall w, i :: 0 <= w < |kept| && 0 <= i < |added| ==> kept[w].key != added[i].key;
    assert forall w :: 0 <= w < |kept| ==> all[w] == kept[w];
  }

  /** From distinct keys on, the rows spell out exactly the wanted mapping, each key once. */
  lemma {:induction false} DistinctRowsSpellSpecs(before: Rows, added: Rows, specs: map<string, string>,
                                                  was: seq<string>)
    requires |was| == |before| && DistinctKeys(before)
    requires NewKeys(before, added, specs.Keys) && HoldsSpecs(added, specs)
    requires Values(before) == Spelt(before, specs, specs.Keys, was)
    ensures DistinctKeys(Wanted(before, specs) + added) && HoldsSpecs(Wanted(before, specs) + added, specs)
  {
    hide Wanted, Spelt, NewKeys, HoldsSpecs;
    UpdatedRowsHoldSpecsIff(before, added, specs, was);
    UpdatedKeysDistinctIff(before, added, specs);
    forall i | 0 <= i < |before| ensures FirstOfKey(before, i) {
      var f := IndexOf(before, before[i].key);
      assert f == i;
    }
  }

  /** Row `f` is the first with its key. */
  ghost predicate FirstWithKey(rows: Rows, f: nat) {
    f < |rows| && forall j :: 0 <= j < f ==> rows[j].key != rows[f].key
  }

  lemma FirstIsIndex(rows: Rows, f: nat)
    requires FirstWithKey(rows, f)
    ensures IndexOf(rows, rows[f].key) == f
  {
  }

  /** The values after an update, row by row: an unwanted row, and a row whose key another row has first, keep
      theirs; the first row of a wanted key has the wanted one. */
  lemma {:induction false} UpdatedValues(before: Rows, specs: map<string, string>, was: seq<string>, i: nat, f: nat)
    requires |was| == |before| && Values(before) == Spelt(before, specs, specs.Keys, was)
    requires i < |before| && FirstWithKey(before, f) && before[f].key == before[i].key
    ensures before[i].value ==
            if before[i].key in specs && before[f] == before[i] then specs[before[i].key] else was[i]
  {
    FirstIsIndex(before, f);
    SpeltIs(before, specs, was, i);
    hide IndexOf, Spelt;
  }

  lemma SpeltIs(before: Rows, specs: map<string, string>, was: seq<string>, i: nat)
    requires |was| == |before| && i < |before|
    ensures Spelt(before, specs, specs.Keys, was)[i] ==
            if before[i].key in specs && before[i] == before[IndexOf(before, before[i].key)]
            then specs[before[i].key] else was[i]
  {
    hide IndexOf;
  }

  /** The filter goes row by row, in order. */
  lemma WantedInOrder(a: Rows, b: Rows, row: InterfaceExtraSpec, specs: map<string, string>)
    ensures Wanted(a + b, specs) == Wanted(a, specs) + Wanted(b, specs)
    ensures Wanted([row], specs) == if row.key in specs then [row] else []
  {
    WantedConcat(a, b, specs);
    assert [row][..0] == [];
  }

  lemma NothingYet(before: Rows, specs: map<string, string>, vs: seq<string>)
    requires |vs| == |before|
    ensures Spelt(before, specs, {}, vs) == vs && NewKeys(before, [], {}) && HoldsSpecs([], specs)
  {
  }

  lemma {:induction false} Filtered(before: Rows, added: Rows, specs: map<string, string>)
    requires NewKeys(before, added, specs.Keys)
    ensures Wanted(before + added, specs) == Wanted(before, specs) + added
    ensures forall k :: k in specs && HasKey(before + added, k) ==> HasKey(Wanted(before + added, specs), k)
  {
    WantedConcat(before, added, specs);
    AllWanted(added, specs);
    WantedMembers(before + added, specs);
  }
}
