/** Warnings: public symbols in code that the contract does not list, and the loops that collect them. */
module Extras {
  import opened Common
  import opened Names
  import opened SourceIndex
  import opened Requirements
  import opened WarningOrder
  import FilePaths

  // ---------- the contract's side ----------

  function SectionOf(c: Contract, layer: string): Option<LayerSection> {
    if c == [] then None
    else if c[|c| - 1].layer == layer then Some(c[|c| - 1].section)
    else SectionOf(c[..|c| - 1], layer)
  }

  const NOTHING_LISTED: LayerSection := LayerSection([], [], Omitted)

  function ListedIn(c: Contract, layer: string): LayerSection {
    var s := SectionOf(c, layer);
    if s.Some? then s.value else NOTHING_LISTED
  }

  /** A repeated class name keeps its last entry; an empty name is skipped. */
  function SpecClasses(cs: seq<RequiredClass>): map<string, set<string>> {
    if cs == [] then map[]
    else
      var before, last := SpecClasses(cs[..|cs| - 1]), cs[|cs| - 1];
      if last.name == "" then before else before[last.name := ToSet(last.methods)]
  }

  function PathOf(f: RequiredFile): string { FilePaths.NormalizeRelPath(f.relativePath) }

  function SpecFiles(fs: seq<RequiredFile>): map<string, set<string>> {
    if fs == [] then map[]
    else SpecFiles(fs[..|fs| - 1])[PathOf(fs[|fs| - 1]) := ToSet(fs[|fs| - 1].functions)]
  }

  function SpecKeys(http: EndpointSection): set<RouteKey> {
    if http.Entries? then set e | e in http.entries && e.Given? :: Key(e.endpoint) else {}
  }

  // ---------- what is an extra ----------

  ghost predicate IsExtra(x: Extra, c: Contract, code: Index) {
    && x.layer in code
    && var b, listed := code[x.layer], ListedIn(c, x.layer);
       match x
       case ClassInUnlistedLayer(l, name) =>
         SectionOf(c, l).None? && name in b.classes && name !in SENTINELS
       case UnlistedClass(l, name) =>
         SectionOf(c, l).Some? && name in b.classes && name !in SENTINELS && name !in SpecClasses(listed.classes)
       case UnlistedMethod(_, name, m) =>
         && name in b.classes && name !in SENTINELS && name in SpecClasses(listed.classes)
         && m in b.classes[name] && m !in SpecClasses(listed.classes)[name]
       case UnlistedFile(_, path) => path in b.functions && path !in SpecFiles(listed.files)
       case UnlistedFunction(_, path, f) =>
         && path in b.functions && path in SpecFiles(listed.files)
         && f in b.functions[path] && f !in SpecFiles(listed.files)[path]
       case UnlistedRoute(_, key) =>
         && (exists r :: r in b.routes && Key(r) == key)
         && !Incomplete(key) && key !in SpecKeys(listed.http)
  }

  // ---------- collecting them ----------

  method SpecClassMethodsMap(cs: seq<RequiredClass>) returns (out: map<string, set<string>>)
    ensures out == SpecClasses(cs)
  {
    out := map[];
    for i := 0 to |cs|
      invariant out == SpecClasses(cs[..i])
    {
      assert cs[..i + 1][..i] == cs[..i];
      if cs[i].name != "" { out := out[cs[i].name := ToSet(cs[i].methods)]; }
    }
    assert cs[..|cs|] == cs;
  }

  method SpecModuleFunctionsMap(fs: seq<RequiredFile>) returns (out: map<string, set<string>>)
    ensures out == SpecFiles(fs)
  {
    out := map[];
    for i := 0 to |fs|
      invariant out == SpecFiles(fs[..i])
    {
      assert fs[..i + 1][..i] == fs[..i];
      out := out[PathOf(fs[i]) := ToSet(fs[i].functions)];
    }
    assert fs[..|fs|] == fs;
  }

  method SpecHttpKeys(http: EndpointSection) returns (keys: set<RouteKey>)
    ensures keys == SpecKeys(http)
  {
    keys := {};
    if !http.Entries? { return; }
    for i := 0 to |http.entries|
      invariant keys == set e | e in http.entries[..i] && e.Given? :: Key(e.endpoint)
    {
      assert http.entries[..i + 1] == http.entries[..i] + [http.entries[i]];
      if http.entries[i].Given? { keys := keys + {Key(http.entries[i].endpoint)}; }
    }
    assert http.entries[..|http.entries|] == http.entries;
  }

  method ClassWarnings(layer: string, b: Bucket, listed: bool, spec: map<string, set<string>>)
    returns (ws: seq<Extra>)
    ensures forall x :: x in ws <==>
              x.layer == layer &&
              ((!listed && x.ClassInUnlistedLayer? && x.name in b.classes && x.name !in SENTINELS) ||
               (listed && x.UnlistedClass? && x.name in b.classes && x.name !in SENTINELS && x.name !in spec))
    ensures InOrder(ws)
  {
    ws := [];
    var names := SortedSet(if listed then b.classes.Keys - SENTINELS - spec.Keys else b.classes.Keys - SENTINELS);
    for i := 0 to |names|
      invariant forall x :: x in ws <==>
                  && x.layer == layer && (if listed then x.UnlistedClass? else x.ClassInUnlistedLayer?)
                  && x.name in names[..i]
      invariant InOrder(ws)
    {
      assert names[..i + 1] == names[..i] + [names[i]];
      EarlierIsLess(names, i);
      InOrderAppend(ws, if listed then UnlistedClass(layer, names[i]) else ClassInUnlistedLayer(layer, names[i]));
      ws := ws + [if listed then UnlistedClass(layer, names[i]) else ClassInUnlistedLayer(layer, names[i])];
    }
    assert names[..|names|] == names;
  }

  method MethodWarnings(layer: string, b: Bucket, spec: map<string, set<string>>) returns (ws: seq<Extra>)
    ensures forall x :: x in ws <==>
              && x.layer == layer && x.UnlistedMethod? && x.name in b.classes && x.name !in SENTINELS
              && x.name in spec && x.method_ in b.classes[x.name] && x.method_ !in spec[x.name]
    ensures InOrder(ws)
  {
    ws := [];
    var names := SortedSet((b.classes.Keys - SENTINELS) * spec.Keys);
    for i := 0 to |names|
      invariant forall x :: x in ws <==>
                  && x.layer == layer && x.UnlistedMethod? && x.name in names[..i]
                  && x.name in b.classes && x.name in spec
                  && x.method_ in b.classes[x.name] && x.method_ !in spec[x.name]
      invariant InOrder(ws)
    {
      EarlierIsLess(names, i);
      assert names[i] in names;
      assert names[..i + 1] == names[..i] + [names[i]];
      var extra := SortedSet(ToSet(b.classes[names[i]]) - spec[names[i]]);
      ghost var before := ws;
      for j := 0 to |extra|
        invariant forall x :: x in ws <==>
                    x in before || (x.UnlistedMethod? && x.layer == layer && x.name == names[i] &&
                                    x.method_ in extra[..j])
        invariant InOrder(ws)
      {
        assert extra[..j + 1] == extra[..j] + [extra[j]];
        EarlierIsLess(extra, j);
        InOrderAppend(ws, UnlistedMethod(layer, names[i], extra[j]));
        ws := ws + [UnlistedMethod(layer, names[i], extra[j])];
      }
      assert extra[..|extra|] == extra;
      assert forall m :: m in extra <==> m in b.classes[names[i]] && m !in spec[names[i]];
    }
    assert names[..|names|] == names;
  }

  method FileWarnings(layer: string, b: Bucket, spec: map<string, set<string>>) returns (ws: seq<Extra>)
    ensures forall x :: x in ws <==>
              x.layer == layer &&
              ((x.UnlistedFile? && x.path in b.functions && x.path !in spec) ||
               (x.UnlistedFunction? && x.path in b.functions && x.path in spec &&
                x.function_ in b.functions[x.path] && x.function_ !in spec[x.path]))
    ensures InOrder(ws)
  {
    ws := [];
    var paths := SortedSet(b.functions.Keys - spec.Keys);
    for i := 0 to |paths|
      invariant forall x :: x in ws <==> x.UnlistedFile? && x.layer == layer && x.path in paths[..i]
      invariant InOrder(ws)
    {
      assert paths[..i + 1] == paths[..i] + [paths[i]];
      EarlierIsLess(paths, i);
      InOrderAppend(ws, UnlistedFile(layer, paths[i]));
      ws := ws + [UnlistedFile(layer, paths[i])];
    }
    assert paths[..|paths|] == paths;
    var common := SortedSet(b.functions.Keys * spec.Keys);
    ghost var files := ws;
    for i := 0 to |common|
      invariant forall x :: x in ws <==>
                  x in files || (x.UnlistedFunction? && x.layer == layer && x.path in common[..i] &&
                                 x.path in b.functions && x.path in spec &&
                                 x.function_ in b.functions[x.path] && x.function_ !in spec[x.path])
      invariant InOrder(ws)
    {
      EarlierIsLess(common, i);
      assert common[i] in common;
      assert common[..i + 1] == common[..i] + [common[i]];
      var extra := SortedSet(ToSet(b.functions[common[i]]) - spec[common[i]]);
      ghost var before := ws;
      for j := 0 to |extra|
        invariant forall x :: x in ws <==>
                    x in before || (x.UnlistedFunction? && x.layer == layer && x.path == common[i] &&
                                    x.function_ in extra[..j])
        invariant InOrder(ws)
      {
        assert extra[..j + 1] == extra[..j] + [extra[j]];
        EarlierIsLess(extra, j);
        InOrderAppend(ws, UnlistedFunction(layer, common[i], extra[j]));
        ws := ws + [UnlistedFunction(layer, common[i], extra[j])];
      }
      assert extra[..|extra|] == extra;
      assert forall f :: f in extra <==> f in b.functions[common[i]] && f !in spec[common[i]];
    }
    assert common[..|common|] == common;
  }

  method RouteWarnings(layer: string, b: Bucket, spec: set<RouteKey>) returns (ws: seq<Extra>)
    ensures forall x :: x in ws <==>
              && x.layer == layer && x.UnlistedRoute? && (exists r :: r in b.routes && Key(r) == x.key)
              && !Incomplete(x.key) && x.key !in spec
    ensures InOrder(ws) && RouteKeysIn(ws, layer) == UnlistedKeys(b.routes, spec)
  {
    hide Key, InOrder, RouteKeysIn, Incomplete;
    ws := [];
    for i := 0 to |b.routes|
      invariant ws == RoutesOf(layer, UnlistedKeys(b.routes[..i], spec))
    {
      assert b.routes[..i + 1][..i] == b.routes[..i];
      var k := Key(b.routes[i]);
      if !Incomplete(k) && k !in spec {
        RoutesOfAppend(layer, UnlistedKeys(b.routes[..i], spec), k);
        ws := ws + [UnlistedRoute(layer, k)];
      }
    }
    assert b.routes[..|b.routes|] == b.routes;
    RoutesOfKeys(layer, UnlistedKeys(b.routes, spec));
    forall k { UnlistedKeysHas(b.routes, spec, k); }
    hide UnlistedKeys, RoutesOf;
  }

  method LayerWarnings(c: Contract, layer: string, b: Bucket, ghost code: Index) returns (ws: seq<Extra>)
    requires layer in code && code[layer] == b
    ensures forall x :: x in ws <==> x.layer == layer && IsExtra(x, c, code)
    ensures InOrder(ws) && RouteKeysIn(ws, layer) == UnlistedKeys(b.routes, SpecKeys(ListedIn(c, layer).http))
  {
    hide InOrder, RouteKeysIn, UnlistedKeys, SpecClasses, SpecFiles, SpecKeys, Incomplete;
    var listed := ListedIn(c, layer);
    var specClasses := SpecClassMethodsMap(listed.classes);
    var classes := ClassWarnings(layer, b, SectionOf(c, layer).Some?, specClasses);
    var methods := MethodWarnings(layer, b, specClasses);
    var specFiles := SpecModuleFunctionsMap(listed.files);
    var files := FileWarnings(layer, b, specFiles);
    var specKeys := SpecHttpKeys(listed.http);
    var routes := RouteWarnings(layer, b, specKeys);
    SectionsInOrder(classes, methods, files, routes, layer);
    ws := classes + methods + files + routes;
    forall x ensures x in ws <==> x.layer == layer && IsExtra(x, c, code) {
      assert x in ws <==> x in classes || x in methods || x in files || x in routes;
    }
  }

  /** The routes that a layer's warnings name, as often and in the order the code lists them. */
  ghost predicate ListsRoutes(ws: seq<Extra>, c: Contract, code: Index, layer: string)
    requires layer in code
  {
    RouteKeysIn(ws, layer) == UnlistedKeys(code[layer].routes, SpecKeys(ListedIn(c, layer).http))
  }

  /** `collect_extras_warnings`: exactly the extras, in order, each once except for routes that the code
      repeats. */
  method CollectExtrasWarnings(c: Contract, code: Index) returns (warnings: seq<Extra>)
    ensures forall x :: x in warnings <==> IsExtra(x, c, code)
    ensures InOrder(warnings) && forall layer :: layer in code ==> ListsRoutes(warnings, c, code, layer)
  {
    warnings := [];
    var layers := SortedSet(code.Keys);
    for i := 0 to |layers|
      invariant forall x :: x in warnings <==> x.layer in layers[..i] && IsExtra(x, c, code)
      invariant InOrder(warnings) && forall layer :: layer in layers[..i] ==> ListsRoutes(warnings, c, code, layer)
    {
      hide IsExtra, InOrder, RouteKeysIn, UnlistedKeys;
      assert layers[i] in layers;
      var ws := LayerWarnings(c, layers[i], code[layers[i]], code);
      assert layers[..i + 1] == layers[..i] + [layers[i]];
      EarlierIsLess(layers, i);
      InOrderConcat(warnings, ws);
      forall layer | layer in layers[..i + 1] ensures ListsRoutes(warnings + ws, c, code, layer) {
        LessIsTotal(layer, layers[i]);
        RouteKeysConcat(warnings, ws, layer);
        if layer == layers[i] { NoRouteKeys(warnings, layer); } else { NoRouteKeys(ws, layer); }
      }
      warnings := warnings + ws;
    }
    assert layers[..|layers|] == layers;
  }

  /** That leaves one list of warnings for a contract and an index. */
  lemma WarningsAreUnique(c: Contract, code: Index, v: seq<Extra>, w: seq<Extra>)
    requires forall x :: x in v <==> IsExtra(x, c, code)
    requires forall x :: x in w <==> IsExtra(x, c, code)
    requires InOrder(v) && forall layer :: layer in code ==> ListsRoutes(v, c, code, layer)
    requires InOrder(w) && forall layer :: layer in code ==> ListsRoutes(w, c, code, layer)
    ensures v == w
  {
    hide InOrder, RouteKeysIn, UnlistedKeys, SpecKeys;
    forall layer ensures RouteKeysIn(v, layer) == RouteKeysIn(w, layer) {
      if layer in code {
        assert ListsRoutes(v, c, code, layer) && ListsRoutes(w, c, code, layer);
      } else {
        NoRouteKeys(v, layer);
        NoRouteKeys(w, layer);
      }
    }
    hide IsExtra;
    WarningsAreDetermined(v, w);
  }
}
