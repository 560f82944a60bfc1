/** What the comparison of frozen rows says about the parameters themselves, field by field. */
module ParameterLaws {
  import opened Common
  import opened HandlerParameters
  import opened ParameterRows

  /** A missing hint reads as an empty one. */
  function Hint(p: Parameter): string { match p.typeHint case Some(h) => h case None => "" }

  /** The same parameter: the same name, kind and hint, and both marked as not required or neither. */
  ghost predicate Alike(p: Parameter, q: Parameter) {
    && p.name == q.name && p.kind == q.kind && Hint(p) == Hint(q)
    && (p.required == Some(false) <==> q.required == Some(false))
  }

  lemma RowsAgreeIff(p: Parameter, q: Parameter)
    ensures RowOf(p) == RowOf(q) <==> Alike(p, q)
  {
  }

  /** The rows of a list, index by index. */
  lemma RowsFieldByField(ps: seq<Parameter>, i: nat)
    requires i < |ps|
    ensures |Rows(ps)| == |ps|
    ensures Rows(ps)[i].name == ps[i].name && Rows(ps)[i].kind == ps[i].kind
    ensures Rows(ps)[i].required <==> ps[i].required == None || ps[i].required == Some(true)
    ensures Rows(ps)[i].typeHint == match ps[i].typeHint case Some(h) => h case None => ""
  {
    RowNames(ps);
  }

  // ---------- the same parameters up to their order ----------

  /** How many parameters of the list are like `p`. */
  ghost function Alikes(ps: seq<Parameter>, p: Parameter): nat {
    if ps == [] then 0 else Alikes(ps[..|ps| - 1], p) + if Alike(ps[|ps| - 1], p) then 1 else 0
  }

  ghost predicate SameParameters(a: seq<Parameter>, b: seq<Parameter>) {
    forall p: Parameter :: Alikes(a, p) == Alikes(b, p)
  }

  lemma {:induction false} AlikesAreCounted(ps: seq<Parameter>, p: Parameter)
    ensures multiset(Rows(ps))[RowOf(p)] == Alikes(ps, p)
  {
    if ps == [] {
    } else {
      var init, last := ps[..|ps| - 1], ps[|ps| - 1];
      AlikesAreCounted(init, p);
      RowsAgreeIff(last, p);
      hide RowOf, Alike;
      assert multiset(Rows(init) + [RowOf(last)]) == multiset(Rows(init)) + multiset{RowOf(last)};
    }
  }

  lemma {:induction false} SameParametersIff(a: seq<Parameter>, b: seq<Parameter>)
    ensures SameParameters(a, b) <==> multiset(Rows(a)) == multiset(Rows(b))
  {
    hide Rows, Alikes;
    if SameParameters(a, b) {
      forall r: Row ensures multiset(Rows(a))[r] == multiset(Rows(b))[r] {
        var p := Parameter(r.name, r.kind, Some(r.required), Some(r.typeHint));
        assert RowOf(p) == r;
        AlikesAreCounted(a, p);
        AlikesAreCounted(b, p);
      }
    }
    if multiset(Rows(a)) == multiset(Rows(b)) {
      forall p: Parameter ensures Alikes(a, p) == Alikes(b, p) {
        AlikesAreCounted(a, p);
        AlikesAreCounted(b, p);
      }
    }
  }

  /** Lists that freeze alike have the same parameters up to their order, and for a list without two different
      parameters of one name the converse holds against every other list. */
  lemma FrozenAlikeIff(a: seq<Parameter>, b: seq<Parameter>)
    ensures Freeze(a) == Freeze(b) ==> SameParameters(a, b)
    ensures (forall p, q :: p in a && q in a && p.name == q.name ==> Alike(p, q)) ==>
              (Freeze(a) == Freeze(b) <==> SameParameters(a, b))
  {
    SameParametersIff(a, b);
    FreezeIsCanonical(a, b);
    if forall p, q :: p in a && q in a && p.name == q.name ==> Alike(p, q) {
      RowNames(a);
      hide Freeze, SameParameters, Alike;
      forall r, t | r in Rows(a) && t in Rows(a) && r.name == t.name ensures r == t {
        var i :| 0 <= i < |a| && RowOf(a[i]) == r;
        var j :| 0 <= j < |a| && RowOf(a[j]) == t;
        RowsAgreeIff(a[i], a[j]);
        assert a[i] in a && a[j] in a;
      }
    }
  }

  // ---------- name by name ----------

  /** The parameters of one name, in their order. */
  function OfName(ps: seq<Parameter>, name: string): seq<Parameter> {
    if ps == [] then []
    else
      var before, last := OfName(ps[..|ps| - 1], name), ps[|ps| - 1];
      if last.name == name then before + [last] else before
  }

  ghost predicate AllAlike(a: seq<Parameter>, b: seq<Parameter>) {
    |a| == |b| && forall i :: 0 <= i < |a| ==> Alike(a[i], b[i])
  }

  /** For this name both lists have like parameters in the same order. */
  ghost predicate AlikeForName(a: seq<Parameter>, b: seq<Parameter>, name: string) {
    AllAlike(OfName(a, name), OfName(b, name))
  }

  lemma NamedRows(ps: seq<Parameter>, name: string)
    ensures Named(Rows(ps), name) == Rows(OfName(ps, name))
  {
    if ps == [] {
    } else {
      var init, last := ps[..|ps| - 1], ps[|ps| - 1];
      NamedRows(init, name);
      NamedConcat(Rows(init), [RowOf(last)], name);
      OneNamed(RowOf(last), name);
      RowsConcat(OfName(init, name), [last]);
      RowsOfOne(last);
      assert Rows(ps) == Rows(init) + [RowOf(last)];
    }
  }

  lemma SameRowsIff(a: seq<Parameter>, b: seq<Parameter>)
    ensures Rows(a) == Rows(b) <==> AllAlike(a, b)
  {
    RowNames(a);
    RowNames(b);
    hide Rows, Alike;
    if Rows(a) == Rows(b) {
      forall i | 0 <= i < |a| ensures Alike(a[i], b[i]) { RowsAgreeIff(a[i], b[i]); }
    }
    if AllAlike(a, b) {
      forall i | 0 <= i < |a| ensures Rows(a)[i] == Rows(b)[i] { RowsAgreeIff(a[i], b[i]); }
    }
  }

  /** Any two lists freeze alike exactly when for every name they have like parameters in the same order. */
  lemma FrozenAlikeByName(a: seq<Parameter>, b: seq<Parameter>)
    ensures Freeze(a) == Freeze(b) <==> forall name :: AlikeForName(a, b, name)
  {
    hide Freeze, Rows, AlikeForName;
    FreezeEqualIff(a, b);
    if SameByName(Rows(a), Rows(b)) {
      forall name ensures AlikeForName(a, b, name) { NamedAlikeIff(a, b, name); }
    }
    if forall name :: AlikeForName(a, b, name) {
      forall name ensures Named(Rows(a), name) == Named(Rows(b), name) {
        NamedAlikeIff(a, b, name);
      }
      assert SameByName(Rows(a), Rows(b));
    }
  }

  lemma {:induction false} NamedAlikeIff(a: seq<Parameter>, b: seq<Parameter>, name: string)
    ensures Named(Rows(a), name) == Named(Rows(b), name) <==> AlikeForName(a, b, name)
  {
    NamedRows(a, name);
    NamedRows(b, name);
    SameRowsIff(OfName(a, name), OfName(b, name));
  }

  /** A frozen list is in ascending order of its names. */
  lemma FrozenAscends(ps: seq<Parameter>, i: nat, j: nat)
    requires i < j < |Freeze(ps)|
    ensures !Names.Less(Freeze(ps)[j].name, Freeze(ps)[i].name)
  {
    SortRowsKeeps(Rows(ps));
  }
}
