/** Route parameters as the comparator compares them: defaults filled in, sorted by name. */
module ParameterRows {
  import opened Common
  import opened Names
  import opened HandlerParameters

  datatype Row = Row(name: string, kind: string, required: bool, typeHint: string)

  /** A missing `required` counts as true, a missing type hint as empty. */
  function RowOf(p: Parameter): Row {
    Row(p.name, p.kind, p.required.None? || p.required.value, if p.typeHint.Some? then p.typeHint.value else "")
  }

  function Rows(ps: seq<Parameter>): seq<Row> {
    if ps == [] then [] else Rows(ps[..|ps| - 1]) + [RowOf(ps[|ps| - 1])]
  }

  /** Inserts after every row whose name is not greater: the sort is stable. */
  function InsertRow(r: Row, s: seq<Row>): seq<Row> {
    if s == [] then [r] else if Less(r.name, s[0].name) then [r] + s else [s[0]] + InsertRow(r, s[1..])
  }

  /** `rows.sort(key=name)` */
  function SortRows(rows: seq<Row>): seq<Row> {
    if rows == [] then [] else InsertRow(rows[|rows| - 1], SortRows(rows[..|rows| - 1]))
  }

  /** `_freeze_http_parameter_rows` */
  function Freeze(ps: seq<Parameter>): seq<Row> { SortRows(Rows(ps)) }

  ghost predicate DistinctNames(rows: seq<Row>) {
    forall i, j :: 0 <= i < j < |rows| ==> rows[i].name != rows[j].name
  }

  ghost predicate Ascending(rows: seq<Row>) {
    forall i, j :: 0 <= i < j < |rows| ==> !Less(rows[j].name, rows[i].name)
  }

  /** The rows of one name, in their order. */
  function Named(rows: seq<Row>, name: string): seq<Row> {
    if rows == [] then []
    else Named(rows[..|rows| - 1], name) + if rows[|rows| - 1].name == name then [rows[|rows| - 1]] else []
  }

  ghost predicate SameByName(a: seq<Row>, b: seq<Row>) { forall name :: Named(a, name) == Named(b, name) }

  /** Rows with equal names are equal. */
  ghost predicate Uniform(rows: seq<Row>) { forall p, q :: p in rows && q in rows && p.name == q.name ==> p == q }

  lemma DistinctIsUniform(rows: seq<Row>)
    requires DistinctNames(rows)
    ensures Uniform(rows)
  {
  }

  // ---------- rows of one name ----------

  lemma NamedConcat(x: seq<Row>, y: seq<Row>, name: string)
    ensures Named(x + y, name) == Named(x, name) + Named(y, name)
  {
    if y == [] {
      assert x + y == x;
    } else {
      NamedConcat(x, y[..|y| - 1], name);
      assert (x + y)[..|x + y| - 1] == x + y[..|y| - 1];
    }
  }

  lemma NamedHead(rows: seq<Row>, name: string)
    requires rows != []
    ensures Named(rows, name) == (if rows[0].name == name then [rows[0]] else []) + Named(rows[1..], name)
    ensures Named(rows[1..], name) == if rows[0].name == name then Named(rows, name)[1..] else Named(rows, name)
  {
    assert rows == [rows[0]] + rows[1..];
    assert [rows[0]][..0] == [];
    NamedConcat([rows[0]], rows[1..], name);
  }

  lemma NamedContents(rows: seq<Row>, name: string, x: Row)
    ensures multiset(Named(rows, name))[x] == if x.name == name then multiset(rows)[x] else 0
  {
    if rows == [] {
    } else {
      NamedContents(rows[..|rows| - 1], name, x);
      assert rows == rows[..|rows| - 1] + [rows[|rows| - 1]];
    }
  }

  lemma NamedMembers(rows: seq<Row>, name: string)
    ensures forall x :: x in Named(rows, name) <==> x in rows && x.name == name
  {
    forall x ensures x in Named(rows, name) <==> x in rows && x.name == name {
      NamedContents(rows, name, x);
      assert x in rows <==> multiset(rows)[x] > 0;
      assert x in Named(rows, name) <==> multiset(Named(rows, name))[x] > 0;
    }
  }

  // ---------- the sort is stable ----------

  lemma InsertRowContents(r: Row, s: seq<Row>)
    ensures multiset(InsertRow(r, s)) == multiset(s) + multiset{r}
  {
    if s == [] {
    } else {
      assert s == [s[0]] + s[1..];
    }
  }

  lemma NotLessIsTransitive(a: string, b: string, c: string)
    requires !Less(b, a) && !Less(c, b)
    ensures !Less(c, a)
  {
    LessIsTotal(a, b);
    LessIsTotal(b, c);
    LessIsTotal(a, c);
    if Less(a, b) && Less(b, c) { LessIsTransitive(a, b, c); }
  }

  lemma ConsAscending(r: Row, s: seq<Row>)
    requires Ascending(s) && forall x :: x in s ==> !Less(x.name, r.name)
    ensures Ascending([r] + s)
  {
    var t := [r] + s;
    forall i, j | 0 <= i < j < |t| ensures !Less(t[j].name, t[i].name) {
      assert t[j] == s[j - 1] && s[j - 1] in s;
    }
  }

  lemma {:induction false} InsertRowAscending(r: Row, s: seq<Row>)
    requires Ascending(s)
    ensures Ascending(InsertRow(r, s))
  {
    hide Less;
    if s == [] {
    } else if Less(r.name, s[0].name) {
      LessIsTotal(r.name, s[0].name);
      forall x | x in s ensures !Less(x.name, r.name) {
        if x != s[0] { NotLessIsTransitive(r.name, s[0].name, x.name); }
      }
      ConsAscending(r, s);
    } else {
      InsertRowAscending(r, s[1..]);
      InsertRowContents(r, s[1..]);
      var t := InsertRow(r, s[1..]);
      forall x | x in t ensures !Less(x.name, s[0].name) {
        assert x in multiset(t);
      }
      ConsAscending(s[0], t);
    }
  }

  /** A row goes behind all rows of its own name and leaves the others' order alone. */
  lemma {:induction false} InsertRowIsStable(r: Row, s: seq<Row>, name: string)
    requires Ascending(s)
    ensures Named(InsertRow(r, s), name) == Named(s, name) + if r.name == name then [r] else []
  {
    hide Less, Named;
    if s == [] {
      OneNamed(r, name);
    } else if Less(r.name, s[0].name) {
      forall x | x in s ensures x.name != r.name {
        LessIsTotal(r.name, s[0].name);
        if x != s[0] { NotLessIsTransitive(r.name, s[0].name, x.name); }
      }
      NoneNamed(s, r.name);
      NamedHead([r] + s, name);
    } else {
      InsertRowIsStable(r, s[1..], name);
      NamedHead(s, name);
      NamedHead([s[0]] + InsertRow(r, s[1..]), name);
    }
  }

  lemma NoneNamed(s: seq<Row>, name: string)
    requires forall x :: x in s ==> x.name != name
    ensures Named(s, name) == []
  {
  }

  lemma OneNamed(r: Row, name: string)
    ensures Named([r], name) == if r.name == name then [r] else []
    ensures Named([], name) == []
  {
    assert [r][..0] == [];
  }

  lemma {:induction false} SortRowsKeeps(rows: seq<Row>)
    ensures multiset(SortRows(rows)) == multiset(rows)
    ensures Ascending(SortRows(rows))
    ensures forall name :: Named(SortRows(rows), name) == Named(rows, name)
  {
    if rows == [] {
    } else {
      var init, last := rows[..|rows| - 1], rows[|rows| - 1];
      assert rows == init + [last];
      SortRowsKeeps(init);
      InsertRowContents(last, SortRows(init));
      InsertRowAscending(last, SortRows(init));
      forall name ensures Named(SortRows(rows), name) == Named(rows, name) {
        InsertRowIsStable(last, SortRows(init), name);
      }
    }
  }

  lemma {:induction false} AscendingIsDetermined(a: seq<Row>, b: seq<Row>)
    requires Ascending(a) && Ascending(b) && SameByName(a, b)
    ensures a == b
  {
    hide Less, Named;
    if a == [] {
      NotEmpty(b, a);
    } else {
      NotEmpty(a, b);
      LeastName(a, b);
      LeastName(b, a);
      LessIsTotal(a[0].name, b[0].name);
      NamedHead(a, a[0].name);
      NamedHead(b, a[0].name);
      assert a[0] == Named(a, a[0].name)[0] == b[0];
      forall name ensures Named(a[1..], name) == Named(b[1..], name) {
        NamedHead(a, name);
        NamedHead(b, name);
      }
      AscendingIsDetermined(a[1..], b[1..]);
      assert a == [a[0]] + a[1..] && b == [b[0]] + b[1..];
    }
  }

  lemma NotEmpty(a: seq<Row>, b: seq<Row>)
    requires SameByName(a, b)
    ensures a != [] ==> b != []
  {
    if a != [] {
      NamedMembers(a, a[0].name);
      assert a[0] in Named(a, a[0].name);
    }
  }

  /** The first name of `a` is nowhere undercut by `b`'s first, when `b` has the same names. */
  lemma LeastName(a: seq<Row>, b: seq<Row>)
    requires a != [] && b != [] && Ascending(a) && SameByName(a, b)
    ensures !Less(b[0].name, a[0].name)
  {
    hide Less, Named;
    NamedMembers(a, b[0].name);
    NamedMembers(b, b[0].name);
    assert b[0] in Named(b, b[0].name);
    var i :| 0 <= i < |a| && a[i] == b[0];
    LessIsTotal(a[0].name, a[0].name);
  }

  // ---------- when two lists freeze alike ----------

  /** Lists freeze alike exactly when, name by name, they have the same rows in the same order. */
  lemma {:induction false} FreezeEqualIff(a: seq<Parameter>, b: seq<Parameter>)
    ensures Freeze(a) == Freeze(b) <==> SameByName(Rows(a), Rows(b))
  {
    hide Less, Named, SortRows, Rows;
    SortRowsKeeps(Rows(a));
    SortRowsKeeps(Rows(b));
    if Freeze(a) == Freeze(b) {
      forall name ensures Named(Rows(a), name) == Named(Rows(b), name) {
        assert Named(Freeze(a), name) == Named(Rows(a), name);
        assert Named(Freeze(b), name) == Named(Rows(b), name);
      }
    }
    if SameByName(Rows(a), Rows(b)) { AscendingIsDetermined(Freeze(a), Freeze(b)); }
  }

  lemma {:induction false} UniformNamed(x: seq<Row>, y: seq<Row>, name: string)
    requires Uniform(x) && multiset(x) == multiset(y)
    ensures Named(x, name) == Named(y, name)
  {
    var xs, ys := Named(x, name), Named(y, name);
    hide Named;
    forall r ensures multiset(xs)[r] == multiset(ys)[r] {
      NamedContents(x, name, r);
      NamedContents(y, name, r);
    }
    assert multiset(xs) == multiset(ys);
    assert |xs| == |multiset(xs)| == |ys|;
    NamedMembers(x, name);
    forall i | 0 <= i < |xs| ensures xs[i] == ys[i] {
      assert ys[i] in multiset(ys);
      assert xs[i] in x && ys[i] in xs;
    }
  }

  /** Frozen rows are a canonical form: equal frozen rows always come from the same rows up to order, and
      the converse holds for a list whose rows with equal names are equal, so for distinct names. */
  lemma FreezeIsCanonical(a: seq<Parameter>, b: seq<Parameter>)
    ensures Freeze(a) == Freeze(b) ==> multiset(Rows(a)) == multiset(Rows(b))
    ensures Uniform(Rows(a)) || DistinctNames(Rows(a)) ==>
              (Freeze(a) == Freeze(b) <==> multiset(Rows(a)) == multiset(Rows(b)))
  {
    hide Named, Rows, SortRows;
    SortRowsKeeps(Rows(a));
    SortRowsKeeps(Rows(b));
    if (Uniform(Rows(a)) || DistinctNames(Rows(a))) && multiset(Rows(a)) == multiset(Rows(b)) {
      if DistinctNames(Rows(a)) { DistinctIsUniform(Rows(a)); }
      forall name { UniformNamed(Rows(a), Rows(b), name); }
      FreezeEqualIff(a, b);
    }
  }

  lemma RowsConcat(x: seq<Parameter>, y: seq<Parameter>)
    ensures Rows(x + y) == Rows(x) + Rows(y)
  {
    if y == [] {
      assert x + y == x;
    } else {
      RowsConcat(x, y[..|y| - 1]);
      assert (x + y)[..|x + y| - 1] == x + y[..|y| - 1];
    }
  }

  function ToFront(a: seq<Parameter>, i: nat): seq<Parameter>
    requires i < |a|
  {
    [a[i]] + (a[..i] + a[i + 1..])
  }

  lemma {:induction false} ToFrontPermutes(a: seq<Parameter>, i: nat)
    requires i < |a|
    ensures multiset(Rows(ToFront(a, i))) == multiset(Rows(a))
    ensures Rows(ToFront(a, i)) != [] && Rows(ToFront(a, i))[0] == RowOf(a[i])
  {
    hide Rows;
    MovedPermutes(a[..i], a[i], a[i + 1..]);
    assert a == a[..i] + ([a[i]] + a[i + 1..]);
  }

  lemma MovedPermutes(x: seq<Parameter>, p: Parameter, y: seq<Parameter>)
    ensures multiset(Rows([p] + (x + y))) == multiset(Rows(x + ([p] + y)))
    ensures Rows([p] + (x + y)) != [] && Rows([p] + (x + y))[0] == RowOf(p)
  {
    RowsOfOne(p);
    RowsConcat(x, [p] + y);
    RowsConcat([p], y);
    RowsConcat(x, y);
    RowsConcat([p], x + y);
    hide Rows;
    Exchanged(Rows(x), Rows([p]), Rows(y));
  }

  lemma RowsOfOne(p: Parameter)
    ensures Rows([p]) == [RowOf(p)]
  {
    assert [p][..0] == [];
  }

  lemma Exchanged(x: seq<Row>, m: seq<Row>, y: seq<Row>)
    ensures multiset(x + (m + y)) == multiset(m + (x + y))
  {
  }

  lemma RowNames(ps: seq<Parameter>)
    ensures |Rows(ps)| == |ps| && forall i :: 0 <= i < |ps| ==> Rows(ps)[i] == RowOf(ps[i])
  {
    if ps == [] {
    } else {
      RowNames(ps[..|ps| - 1]);
    }
  }

  /** The rows of a handler always have distinct names, as its arguments have: on the code's side frozen
      rows are canonical. */
  lemma HandlerRowsAreDistinct(a: Arguments)
    requires DistinctArguments(AllArguments(a))
    ensures DistinctNames(Rows(Recorded(AllArguments(a))))
  {
    RecordedArePublic(AllArguments(a));
    RowNames(Recorded(AllArguments(a)));
  }

  /** The order of a list never shows, whatever permutation of its rows is frozen, exactly when its rows with
      equal names are equal. */
  lemma OrderNeverShowsIff(a: seq<Parameter>)
    ensures (forall b :: multiset(Rows(b)) == multiset(Rows(a)) ==> Freeze(b) == Freeze(a)) <==> Uniform(Rows(a))
  {
    if Uniform(Rows(a)) {
      forall b | multiset(Rows(b)) == multiset(Rows(a)) ensures Freeze(b) == Freeze(a) { FreezeIsCanonical(a, b); }
    } else {
      var p, q :| p in Rows(a) && q in Rows(a) && p.name == q.name && p != q;
      RowNames(a);
      var i :| 0 <= i < |a| && RowOf(a[i]) == p;
      var j :| 0 <= j < |a| && RowOf(a[j]) == q;
      ToFrontPermutes(a, i);
      ToFrontPermutes(a, j);
      FrontShows(ToFront(a, i), ToFront(a, j));
      assert Freeze(ToFront(a, i)) != Freeze(a) || Freeze(ToFront(a, j)) != Freeze(a);
    }
  }

  lemma {:induction false} FrontShows(b: seq<Parameter>, c: seq<Parameter>)
    requires Rows(b) != [] && Rows(c) != [] && Rows(b)[0].name == Rows(c)[0].name && Rows(b)[0] != Rows(c)[0]
    ensures Freeze(b) != Freeze(c)
  {
    hide Named, Rows, SortRows;
    var name := Rows(b)[0].name;
    NamedHead(Rows(b), name);
    NamedHead(Rows(c), name);
    assert Named(Rows(b), name)[0] != Named(Rows(c), name)[0];
    FreezeEqualIff(b, c);
  }

  /** With a repeated name the order of the list shows through. */
  lemma RepeatedNamesAreNotCanonical()
    ensures var p, q := Parameter("x", "query", None, None), Parameter("x", "body", None, None);
            multiset(Rows([p, q])) == multiset(Rows([q, p])) && Freeze([p, q]) != Freeze([q, p])
  {
    var p, q := Parameter("x", "query", None, None), Parameter("x", "body", None, None);
    FreezeOfTwo(p, q);
    FreezeOfTwo(q, p);
  }

  lemma FreezeOfTwo(p: Parameter, q: Parameter)
    requires p.name == q.name
    ensures Rows([p, q]) == [RowOf(p), RowOf(q)] == Freeze([p, q])
  {
    assert [p, q][..1] == [p] && [p][..0] == [];
    assert Rows([p]) == [RowOf(p)];
    var rows := Rows([p, q]);
    assert rows[..1] == [RowOf(p)] && [RowOf(p)][..0] == [];
    LessIsTotal(p.name, p.name);
    assert SortRows(rows[..1]) == [RowOf(p)];
    assert SortRows(rows) == InsertRow(RowOf(q), [RowOf(p)]);
    assert InsertRow(RowOf(q), [RowOf(p)][1..]) == [RowOf(q)];
  }
}
