/** The order of warnings: layers by name; in a layer classes, methods, files and functions, each kind by
    name; and last the routes as the code lists them, repetitions included. */
module WarningOrder {
  import opened Names
  import opened SourceTrees
  import opened Requirements

  datatype Extra =
    | ClassInUnlistedLayer(layer: string, name: string)
    | UnlistedClass(layer: string, name: string)
    | UnlistedMethod(layer: string, name: string, method_: string)
    | UnlistedFile(layer: string, path: string)
    | UnlistedFunction(layer: string, path: string, function_: string)
    | UnlistedRoute(layer: string, key: RouteKey)

  function Rank(x: Extra): nat {
    match x
    case ClassInUnlistedLayer(_, _) => 0
    case UnlistedClass(_, _) => 1
    case UnlistedMethod(_, _, _) => 2
    case UnlistedFile(_, _) => 3
    case UnlistedFunction(_, _, _) => 4
    case UnlistedRoute(_, _) => 5
  }

  function Major(x: Extra): string {
    match x
    case ClassInUnlistedLayer(_, name) => name
    case UnlistedClass(_, name) => name
    case UnlistedMethod(_, name, _) => name
    case UnlistedFile(_, path) => path
    case UnlistedFunction(_, path, _) => path
    case UnlistedRoute(_, _) => ""
  }

  function Minor(x: Extra): string {
    match x
    case UnlistedMethod(_, _, m) => m
    case UnlistedFunction(_, _, f) => f
    case _ => ""
  }

  ghost predicate Before(x: Extra, y: Extra) {
    || Less(x.layer, y.layer)
    || (x.layer == y.layer &&
        (Rank(x) < Rank(y) ||
         (Rank(x) == Rank(y) && (Less(Major(x), Major(y)) || (Major(x) == Major(y) && Less(Minor(x), Minor(y)))))))
  }

  /** Routes of one layer come in the code's order, which is not a matter of their names. */
  predicate RoutesOfOneLayer(x: Extra, y: Extra) { x.UnlistedRoute? && y.UnlistedRoute? && x.layer == y.layer }

  ghost predicate Follows(x: Extra, y: Extra) { Before(x, y) || RoutesOfOneLayer(x, y) }

  ghost predicate InOrder(ws: seq<Extra>) { forall i, j :: 0 <= i < j < |ws| ==> Follows(ws[i], ws[j]) }

  /** The route keys warned about in a layer, in order. */
  function RouteKeysIn(ws: seq<Extra>, layer: string): seq<RouteKey> {
    if ws == [] then []
    else
      var last := ws[|ws| - 1];
      RouteKeysIn(ws[..|ws| - 1], layer) + if last.UnlistedRoute? && last.layer == layer then [last.key] else []
  }

  /** The complete keys of the routes that are not in `spec`, in the routes' order. */
  function UnlistedKeys(routes: seq<Endpoint>, spec: set<RouteKey>): seq<RouteKey> {
    if routes == [] then []
    else
      var before, k := UnlistedKeys(routes[..|routes| - 1], spec), Key(routes[|routes| - 1]);
      if Incomplete(k) || k in spec then before else before + [k]
  }

  lemma UnlistedKeysHas(routes: seq<Endpoint>, spec: set<RouteKey>, k: RouteKey)
    ensures k in UnlistedKeys(routes, spec) <==>
            (exists r :: r in routes && Key(r) == k) && !Incomplete(k) && k !in spec
  {
    hide Key, Incomplete;
    if routes == [] {
    } else {
      var init, last := routes[..|routes| - 1], routes[|routes| - 1];
      UnlistedKeysHas(init, spec, k);
      assert routes == init + [last];
      assert last in routes && forall r :: r in init ==> r in routes;
    }
  }

  function RoutesOf(layer: string, keys: seq<RouteKey>): seq<Extra> {
    if keys == [] then [] else RoutesOf(layer, keys[..|keys| - 1]) + [UnlistedRoute(layer, keys[|keys| - 1])]
  }

  lemma RoutesOfAppend(layer: string, keys: seq<RouteKey>, k: RouteKey)
    ensures RoutesOf(layer, keys + [k]) == RoutesOf(layer, keys) + [UnlistedRoute(layer, k)]
  {
    assert (keys + [k])[..|keys|] == keys;
  }

  lemma {:induction false} RoutesOfKeys(layer: string, keys: seq<RouteKey>)
    ensures var ws := RoutesOf(layer, keys);
            && (forall x :: x in ws <==> x.UnlistedRoute? && x.layer == layer && x.key in keys)
            && InOrder(ws) && RouteKeysIn(ws, layer) == keys
  {
    if keys == [] {
    } else {
      hide InOrder, Before, RouteKeysIn, RoutesOf;
      var init, last := keys[..|keys| - 1], keys[|keys| - 1];
      var ws, x := RoutesOf(layer, init), UnlistedRoute(layer, last);
      assert keys == init + [last];
      RoutesOfKeys(layer, init);
      RoutesOfAppend(layer, init, last);
      assert forall y :: y in ws ==> RoutesOfOneLayer(y, x);
      InOrderAppend(ws, x);
      RouteKeysConcat(ws, [x], layer);
      RouteKeysHead([x], layer);
      NoRouteKeys([], layer);
      assert [x][1..] == [];
    }
  }

  lemma InOrderConcat(v: seq<Extra>, w: seq<Extra>)
    requires InOrder(v) && InOrder(w) && forall x, y :: x in v && y in w ==> Follows(x, y)
    ensures InOrder(v + w)
  {
    hide Follows;
  }

  lemma InOrderAppend(v: seq<Extra>, x: Extra)
    requires InOrder(v) && forall y :: y in v ==> Follows(y, x)
    ensures InOrder(v + [x])
  {
    hide Follows;
  }

  lemma EarlierIsLess(names: seq<string>, i: nat)
    requires StrictlySorted(names) && i < |names|
    ensures forall n :: n in names[..i] ==> Less(n, names[i])
  {
  }

  lemma RouteKeysConcat(v: seq<Extra>, w: seq<Extra>, layer: string)
    ensures RouteKeysIn(v + w, layer) == RouteKeysIn(v, layer) + RouteKeysIn(w, layer)
  {
    if w == [] {
      assert v + w == v;
    } else {
      RouteKeysConcat(v, w[..|w| - 1], layer);
      assert (v + w)[..|v + w| - 1] == v + w[..|w| - 1];
    }
  }

  lemma NoRouteKeys(ws: seq<Extra>, layer: string)
    requires forall x :: x in ws ==> !x.UnlistedRoute? || x.layer != layer
    ensures RouteKeysIn(ws, layer) == []
  {
    if ws == [] {
    } else {
      NoRouteKeys(ws[..|ws| - 1], layer);
    }
  }

  lemma RouteKeysHead(ws: seq<Extra>, layer: string)
    requires ws != []
    ensures RouteKeysIn(ws, layer) ==
            (if ws[0].UnlistedRoute? && ws[0].layer == layer then [ws[0].key] else []) + RouteKeysIn(ws[1..], layer)
  {
    assert ws == [ws[0]] + ws[1..];
    assert [ws[0]][..0] == [];
    RouteKeysConcat([ws[0]], ws[1..], layer);
  }

  lemma RouteKeysHas(ws: seq<Extra>, layer: string, key: RouteKey)
    ensures key in RouteKeysIn(ws, layer) <==> UnlistedRoute(layer, key) in ws
  {
    if ws == [] {
    } else {
      RouteKeysHas(ws[..|ws| - 1], layer, key);
      assert ws == ws[..|ws| - 1] + [ws[|ws| - 1]];
    }
  }

  /** The four lists of one layer, one after the other. */
  lemma {:induction false} SectionsInOrder(classes: seq<Extra>, methods: seq<Extra>, files: seq<Extra>,
                                           routes: seq<Extra>, layer: string)
    requires InOrder(classes) && InOrder(methods) && InOrder(files) && InOrder(routes)
    requires forall x :: x in classes ==> x.layer == layer && Rank(x) <= 1
    requires forall x :: x in methods ==> x.layer == layer && Rank(x) == 2
    requires forall x :: x in files ==> x.layer == layer && 3 <= Rank(x) <= 4
    requires forall x :: x in routes ==> x.layer == layer && Rank(x) == 5
    ensures InOrder(classes + methods + files + routes)
    ensures RouteKeysIn(classes + methods + files + routes, layer) == RouteKeysIn(routes, layer)
  {
    hide InOrder, RouteKeysIn;
    InOrderConcat(classes, methods);
    InOrderConcat(classes + methods, files);
    InOrderConcat(classes + methods + files, routes);
    NoRouteKeys(classes + methods + files, layer);
    RouteKeysConcat(classes + methods + files, routes, layer);
  }

  lemma BeforeIsStrict(x: Extra, y: Extra)
    ensures !(Before(x, y) && Before(y, x))
  {
    LessIsTotal(x.layer, y.layer);
    LessIsTotal(Major(x), Major(y));
    LessIsTotal(Minor(x), Minor(y));
  }

  /** Membership apart from routes, and the route keys layer by layer. */
  ghost predicate SameWarnings(v: seq<Extra>, w: seq<Extra>) {
    && (forall x: Extra :: !x.UnlistedRoute? ==> (x in v <==> x in w))
    && forall layer :: RouteKeysIn(v, layer) == RouteKeysIn(w, layer)
  }

  lemma SameMembers(v: seq<Extra>, w: seq<Extra>, x: Extra)
    requires SameWarnings(v, w) && x in v
    ensures x in w
  {
    if x.UnlistedRoute? {
      RouteKeysHas(v, x.layer, x.key);
      RouteKeysHas(w, x.layer, x.key);
    }
  }

  lemma SameHead(v: seq<Extra>, w: seq<Extra>)
    requires InOrder(v) && InOrder(w) && SameWarnings(v, w) && v != [] && w != []
    ensures v[0] == w[0]
  {
    hide Before, RouteKeysIn;
    SameMembers(v, w, v[0]);
    assert SameWarnings(w, v);
    SameMembers(w, v, w[0]);
    var i :| 0 <= i < |w| && w[i] == v[0];
    var j :| 0 <= j < |v| && v[j] == w[0];
    BeforeIsStrict(v[0], w[0]);
    if i != 0 && j != 0 {
      assert Follows(w[0], v[0]) && Follows(v[0], w[0]);
      assert RoutesOfOneLayer(v[0], w[0]) || RoutesOfOneLayer(w[0], v[0]);
      RouteKeysHead(v, v[0].layer);
      RouteKeysHead(w, v[0].layer);
      assert RouteKeysIn(v, v[0].layer)[0] == v[0].key;
      assert RouteKeysIn(w, v[0].layer)[0] == w[0].key;
    }
  }

  lemma TailHas(v: seq<Extra>, x: Extra)
    requires InOrder(v) && v != [] && !x.UnlistedRoute?
    ensures x in v[1..] <==> x in v && x != v[0]
  {
    assert v == [v[0]] + v[1..];
    BeforeIsStrict(v[0], v[0]);
    if x in v[1..] {
      var i :| 0 <= i < |v| - 1 && v[1..][i] == x;
      assert Follows(v[0], v[i + 1]);
    }
  }

  /** What the warnings contain, their order and the route keys leave no freedom: they determine the list. */
  lemma {:induction false} WarningsAreDetermined(v: seq<Extra>, w: seq<Extra>)
    requires InOrder(v) && InOrder(w) && SameWarnings(v, w)
    ensures v == w
  {
    hide Follows, RouteKeysIn;
    if v == [] || w == [] {
      if v != [] { SameMembers(v, w, v[0]); }
      assert SameWarnings(w, v);
      if w != [] { SameMembers(w, v, w[0]); }
    } else {
      SameHead(v, w);
      forall x: Extra | !x.UnlistedRoute? ensures x in v[1..] <==> x in w[1..] {
        TailHas(v, x);
        TailHas(w, x);
      }
      forall layer ensures RouteKeysIn(v[1..], layer) == RouteKeysIn(w[1..], layer) {
        RouteKeysHead(v, layer);
        RouteKeysHead(w, layer);
        SameSuffix(if v[0].UnlistedRoute? && v[0].layer == layer then [v[0].key] else [],
                   RouteKeysIn(v[1..], layer), RouteKeysIn(w[1..], layer));
      }
      WarningsAreDetermined(v[1..], w[1..]);
      assert v == [v[0]] + v[1..] && w == [w[0]] + w[1..];
    }
  }

  lemma SameSuffix<T>(a: seq<T>, x: seq<T>, y: seq<T>)
    requires a + x == a + y
    ensures x == y
  {
    assert x == (a + x)[|a|..];
    assert y == (a + y)[|a|..];
  }
}
