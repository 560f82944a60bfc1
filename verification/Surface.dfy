/** The exactness of the linter: a contract without errors and warnings and the code have the same surface. */
module Surface {
  import opened Common
  import opened Names
  import opened SourceTrees
  import opened SourceIndex
  import opened ParameterRows
  import opened ParameterLaws
  import opened Requirements
  import opened Extras
  import opened WarningOrder

  // ---------- the requirements of a layer, spelled out ----------

  ghost predicate ClassMet(c: RequiredClass, b: Bucket) {
    c.name !in SENTINELS && c.name in b.classes && forall m :: m in c.methods ==> m in b.classes[c.name]
  }

  ghost predicate FileMet(f: RequiredFile, b: Bucket) {
    PathOf(f) in b.functions && forall fn :: fn in f.functions ==> fn in b.functions[PathOf(f)]
  }

  ghost predicate EntryMet(e: RequiredEndpoint, b: Bucket) {
    && e.Given? && !Incomplete(Key(e.endpoint)) && Key(e.endpoint) in RoutesByKey(b.routes)
    && Freeze(RoutesByKey(b.routes)[Key(e.endpoint)].parameters) == Freeze(e.endpoint.parameters)
  }

  ghost predicate SectionMet(s: LayerSection, b: Bucket) {
    && (forall c :: c in s.classes ==> ClassMet(c, b))
    && (forall f :: f in s.files ==> FileMet(f, b))
    && !s.http.NotAList?
    && (s.http.Entries? ==> forall e :: e in s.http.entries ==> EntryMet(e, b))
  }

  ghost predicate AllMet(rs: seq<Requirement>, code: Index) { forall r :: r in rs ==> Holds(r, code) }

  lemma AllMetSplit(a: seq<Requirement>, b: seq<Requirement>, code: Index)
    ensures AllMet(a + b, code) <==> AllMet(a, code) && AllMet(b, code)
  {
    assert forall r :: r in a + b <==> r in a || r in b;
  }

  lemma MethodsMetIff(layer: string, name: string, methods: seq<string>, code: Index)
    requires layer in code
    ensures AllMet(MethodRequirements(layer, name, methods), code) <==>
            forall m :: m in methods ==> m in Listed(code[layer].classes, name)
  {
    NamedIn(layer, name, methods);
    assert forall m :: m in methods ==>
             (Holds(MethodExists(layer, name, m), code) <==> m in Listed(code[layer].classes, name));
  }

  lemma ClassMetIff(layer: string, c: RequiredClass, code: Index)
    requires layer in code
    ensures AllMet(ClassRequirements(layer, c), code) <==> ClassMet(c, code[layer])
  {
    var head := [NameAllowed(layer, c.name), ClassExists(layer, c.name)];
    AllMetSplit(head, MethodRequirements(layer, c.name, c.methods), code);
    assert AllMet(head, code) <==> c.name !in SENTINELS && c.name in code[layer].classes by {
      assert head[0] in head && head[1] in head;
    }
    MethodsMetIff(layer, c.name, c.methods, code);
    hide AllMet, Holds;
  }

  lemma {:induction false} ClassesMetIff(layer: string, cs: seq<RequiredClass>, code: Index)
    requires layer in code
    ensures AllMet(ClassesRequirements(layer, cs), code) <==> forall c :: c in cs ==> ClassMet(c, code[layer])
  {
    hide Holds, ClassMet, ClassRequirements;
    if cs == [] {
    } else {
      var init, last := cs[..|cs| - 1], cs[|cs| - 1];
      ClassesMetIff(layer, init, code);
      ClassMetIff(layer, last, code);
      AllMetSplit(ClassesRequirements(layer, init), ClassRequirements(layer, last), code);
      assert cs == init + [last];
    }
  }

  lemma FunctionsMetIff(layer: string, path: string, fns: seq<string>, code: Index)
    requires layer in code
    ensures AllMet(FunctionRequirements(layer, path, fns), code) <==>
            forall fn :: fn in fns ==> fn in Listed(code[layer].functions, path)
  {
    NamedIn(layer, path, fns);
    assert forall fn :: fn in fns ==>
             (Holds(FunctionExists(layer, path, fn), code) <==> fn in Listed(code[layer].functions, path));
  }

  lemma FileMetIff(layer: string, f: RequiredFile, code: Index)
    requires layer in code
    ensures AllMet(FileRequirements(layer, f), code) <==> FileMet(f, code[layer])
  {
    var b, path := code[layer], PathOf(f);
    AllMetSplit([FileScanned(layer, path)], FunctionRequirements(layer, path, f.functions), code);
    assert AllMet([FileScanned(layer, path)], code) <==> path in b.functions by {
      assert FileScanned(layer, path) in [FileScanned(layer, path)];
    }
    FunctionsMetIff(layer, path, f.functions, code);
    hide AllMet, Holds;
  }

  lemma {:induction false} FilesMetIff(layer: string, fs: seq<RequiredFile>, code: Index)
    requires layer in code
    ensures AllMet(FilesRequirements(layer, fs), code) <==> forall f :: f in fs ==> FileMet(f, code[layer])
  {
    hide Holds, FileMet, FileRequirements;
    if fs == [] {
    } else {
      var init, last := fs[..|fs| - 1], fs[|fs| - 1];
      FilesMetIff(layer, init, code);
      FileMetIff(layer, last, code);
      AllMetSplit(FilesRequirements(layer, init), FileRequirements(layer, last), code);
      assert fs == init + [last];
    }
  }

  lemma EntryMetIff(layer: string, e: RequiredEndpoint, code: Index)
    requires layer in code
    ensures AllMet(EntryRequirements(layer, e), code) <==> EntryMet(e, code[layer])
  {
    hide Key, Freeze, RoutesByKey, Incomplete;
    var rs := EntryRequirements(layer, e);
    assert rs[0] in rs;
    if e.Given? {
      RoutesByKeyHas(code[layer].routes, Key(e.endpoint));
      assert rs == [rs[0], rs[1], rs[2], rs[3]];
      assert AllMet(rs, code) <==>
             Holds(rs[0], code) && Holds(rs[1], code) && Holds(rs[2], code) && Holds(rs[3], code);
    }
  }

  lemma {:induction false} EntriesMetIff(layer: string, es: seq<RequiredEndpoint>, code: Index)
    requires layer in code
    ensures AllMet(EntriesRequirements(layer, es), code) <==> forall e :: e in es ==> EntryMet(e, code[layer])
  {
    hide Holds, EntryMet, EntryRequirements;
    if es == [] {
    } else {
      var init, last := es[..|es| - 1], es[|es| - 1];
      EntriesMetIff(layer, init, code);
      EntryMetIff(layer, last, code);
      AllMetSplit(EntriesRequirements(layer, init), EntryRequirements(layer, last), code);
      assert es == init + [last];
    }
  }

  lemma HttpMetIff(layer: string, http: EndpointSection, code: Index)
    requires layer in code
    ensures AllMet(HttpRequirements(layer, http), code) <==>
            !http.NotAList? && (http.Entries? ==> forall e :: e in http.entries ==> EntryMet(e, code[layer]))
  {
    if http.NotAList? {
      assert SectionIsList(layer, false) in HttpRequirements(layer, http);
    } else if http.Entries? {
      AllMetSplit([SectionIsList(layer, true)], EntriesRequirements(layer, http.entries), code);
      EntriesMetIff(layer, http.entries, code);
    }
  }

  ghost predicate EntryOk(e: LayerEntry, code: Index) { e.layer in code && SectionMet(e.section, code[e.layer]) }

  lemma LayerMetIff(e: LayerEntry, code: Index)
    ensures AllMet(LayerRequirements(e), code) <==> EntryOk(e, code)
  {
    if e.layer in code {
      hide Holds, ClassesRequirements, FilesRequirements, HttpRequirements, EntryMet, FileMet, ClassMet;
      var top, cs := [LayerExists(e.layer)], ClassesRequirements(e.layer, e.section.classes);
      var fs, hs := FilesRequirements(e.layer, e.section.files), HttpRequirements(e.layer, e.section.http);
      AllMetSplit(top + cs + fs, hs, code);
      AllMetSplit(top + cs, fs, code);
      AllMetSplit(top, cs, code);
      assert AllMet(top, code) by { LayerHolds(e.layer, code); }
      ClassesMetIff(e.layer, e.section.classes, code);
      FilesMetIff(e.layer, e.section.files, code);
      HttpMetIff(e.layer, e.section.http, code);
    } else {
      assert LayerRequirements(e)[0] == LayerExists(e.layer) && LayerExists(e.layer) in LayerRequirements(e);
    }
  }

  lemma LayerHolds(layer: string, code: Index)
    ensures Holds(LayerExists(layer), code) <==> layer in code
  {
  }

  ghost predicate ContractMet(c: Contract, code: Index) { forall e :: e in c ==> EntryOk(e, code) }

  lemma ContractMetSplit(c: Contract, last: LayerEntry, code: Index)
    ensures ContractMet(c + [last], code) <==> ContractMet(c, code) && EntryOk(last, code)
  {
    hide EntryOk;
    assert forall e :: e in c + [last] <==> e in c || e == last;
  }

  lemma EmptyContractMet(code: Index)
    ensures AllMet(ContractRequirements([]), code) && ContractMet([], code)
  {
  }

  lemma ContractMetStep(init: Contract, last: LayerEntry, code: Index)
    requires AllMet(ContractRequirements(init), code) <==> ContractMet(init, code)
    ensures AllMet(ContractRequirements(init + [last]), code) <==> ContractMet(init + [last], code)
  {
    hide AllMet, EntryOk, ContractMet, LayerRequirements;
    var c := init + [last];
    assert c[..|c| - 1] == init && c[|c| - 1] == last;
    LayerMetIff(last, code);
    AllMetSplit(ContractRequirements(init), LayerRequirements(last), code);
    ContractMetSplit(init, last, code);
  }

  lemma {:induction false} ContractMetIff(c: Contract, code: Index)
    ensures AllMet(ContractRequirements(c), code) <==> ContractMet(c, code)
  {
    hide AllMet, ContractMet, ContractRequirements;
    if c == [] {
      EmptyContractMet(code);
    } else {
      ContractMetIff(c[..|c| - 1], code);
      ContractMetStep(c[..|c| - 1], c[|c| - 1], code);
      assert c == c[..|c| - 1] + [c[|c| - 1]];
    }
  }

  /** The linter reports no error exactly when every listed layer is there and meets its section. */
  lemma {:induction false} NoErrorsIff(c: Contract, code: Index)
    ensures Unmet(ContractRequirements(c), code) == [] <==> forall e :: e in c ==> EntryOk(e, code)
  {
    NothingReportedIff(c, code);
    ContractMetIff(c, code);
  }

  // ---------- exactness ----------

  ghost predicate DistinctSection(s: LayerSection) {
    && (forall i, j :: 0 <= i < j < |s.classes| ==> s.classes[i].name != s.classes[j].name)
    && (forall i, j :: 0 <= i < j < |s.files| ==> PathOf(s.files[i]) != PathOf(s.files[j]))
  }

  /** What an index of code sources satisfies when no route key repeats. */
  ghost predicate PlainBucket(b: Bucket) {
    && (forall name :: name in b.classes ==> name != "" && name !in SENTINELS)
    && (forall r :: r in b.routes ==> !Incomplete(Key(r)))
    && (forall r :: r in b.routes ==> Uniform(Rows(r.parameters)))
    && (forall i, j :: 0 <= i < j < |b.routes| ==> Key(b.routes[i]) != Key(b.routes[j]))
  }

  /** The same route: the same verb up to its case, path and handler, and the same parameters up to their
      order, field by field. */
  ghost predicate SameRoute(e: Endpoint, r: Endpoint) {
    && Upper(e.verb) == Upper(r.verb) && e.path == r.path && e.handler == r.handler
    && SameParameters(e.parameters, r.parameters)
  }

  ghost predicate Covered(r: Endpoint, http: EndpointSection) {
    http.Entries? && exists e :: e in http.entries && e.Given? && SameRoute(e.endpoint, r)
  }

  /** Every entry is a route of the code and every route of the code is an entry. */
  ghost predicate SameRoutes(http: EndpointSection, b: Bucket) {
    && !http.NotAList?
    && (http.Entries? ==>
          forall e :: e in http.entries ==> e.Given? && exists r :: r in b.routes && SameRoute(e.endpoint, r))
    && (forall r :: r in b.routes ==> Covered(r, http))
  }

  /** The section is well formed and lists the bucket's classes, methods, files, functions and routes with
      their parameters, no more and no less. */
  ghost predicate SameSurface(s: LayerSection, b: Bucket) {
    && SpecClasses(s.classes) == (map name | name in b.classes :: ToSet(b.classes[name]))
    && (forall c :: c in s.classes ==> c.name != "")
    && SpecFiles(s.files) == (map path | path in b.functions :: ToSet(b.functions[path]))
    && SameRoutes(s.http, b)
  }

  ghost predicate NothingIn(b: Bucket) { b.classes == map[] && b.functions == map[] && b.routes == [] }

  ghost predicate SameContractAndCode(c: Contract, code: Index) {
    && (forall e :: e in c ==> e.layer in code && SameSurface(e.section, code[e.layer]))
    && (forall l :: l in code && SectionOf(c, l).None? ==> NothingIn(code[l]))
  }

  lemma {:induction false} SectionOfEntry(c: Contract, e: LayerEntry)
    requires DistinctLayers(c) && e in c
    ensures SectionOf(c, e.layer) == Some(e.section)
  {
    var init, last := c[..|c| - 1], c[|c| - 1];
    assert c == init + [last];
    if e in init {
      var i :| 0 <= i < |init| && init[i] == e;
      assert c[i].layer != c[|c| - 1].layer;
      SectionOfEntry(init, e);
    }
  }

  lemma SectionOfFound(c: Contract, layer: string)
    ensures SectionOf(c, layer).Some? ==> LayerEntry(layer, SectionOf(c, layer).value) in c
  {
  }

  lemma {:induction false} SpecClassesHas(cs: seq<RequiredClass>, c: RequiredClass)
    requires forall i, j :: 0 <= i < j < |cs| ==> cs[i].name != cs[j].name
    requires c in cs && c.name != ""
    ensures c.name in SpecClasses(cs) && SpecClasses(cs)[c.name] == ToSet(c.methods)
  {
    var init, last := cs[..|cs| - 1], cs[|cs| - 1];
    assert cs == init + [last];
    if c in init {
      var i :| 0 <= i < |init| && init[i] == c;
      assert cs[i].name != cs[|cs| - 1].name;
      SpecClassesHas(init, c);
    }
  }

  lemma {:induction false} SpecClassesOnly(cs: seq<RequiredClass>, name: string)
    requires name in SpecClasses(cs)
    ensures name != "" && exists c :: c in cs && c.name == name
  {
    var init, last := cs[..|cs| - 1], cs[|cs| - 1];
    assert cs == init + [last];
    if last.name != name || name == "" { SpecClassesOnly(init, name); }
  }

  lemma {:induction false} SpecFilesHas(fs: seq<RequiredFile>, f: RequiredFile)
    requires forall i, j :: 0 <= i < j < |fs| ==> PathOf(fs[i]) != PathOf(fs[j])
    requires f in fs
    ensures PathOf(f) in SpecFiles(fs) && SpecFiles(fs)[PathOf(f)] == ToSet(f.functions)
  {
    hide PathOf;
    var init, last := fs[..|fs| - 1], fs[|fs| - 1];
    assert fs == init + [last];
    if f in init {
      var i :| 0 <= i < |init| && init[i] == f;
      assert PathOf(fs[i]) != PathOf(fs[|fs| - 1]);
      SpecFilesHas(init, f);
    }
  }

  lemma {:induction false} SpecFilesOnly(fs: seq<RequiredFile>, path: string)
    requires path in SpecFiles(fs)
    ensures exists f :: f in fs && PathOf(f) == path
  {
    var init, last := fs[..|fs| - 1], fs[|fs| - 1];
    assert fs == init + [last];
    if PathOf(last) != path { SpecFilesOnly(init, path); }
  }

  lemma {:induction false} RoutesByKeyDistinct(routes: seq<Endpoint>, r: Endpoint)
    requires forall i, j :: 0 <= i < j < |routes| ==> Key(routes[i]) != Key(routes[j])
    requires r in routes
    ensures Key(r) in RoutesByKey(routes) && RoutesByKey(routes)[Key(r)] == r
  {
    hide Key;
    var init, last := routes[..|routes| - 1], routes[|routes| - 1];
    assert routes == init + [last];
    if r in init {
      var i :| 0 <= i < |init| && init[i] == r;
      assert Key(routes[i]) != Key(routes[|routes| - 1]);
      RoutesByKeyDistinct(init, r);
    }
  }

  ghost predicate NoClassExtras(s: LayerSection, b: Bucket) {
    forall name :: name in b.classes ==>
      name in SpecClasses(s.classes) && forall m :: m in b.classes[name] ==> m in SpecClasses(s.classes)[name]
  }

  ghost predicate NoFileExtras(s: LayerSection, b: Bucket) {
    forall path :: path in b.functions ==>
      path in SpecFiles(s.files) && forall f :: f in b.functions[path] ==> f in SpecFiles(s.files)[path]
  }

  ghost predicate NoRouteExtras(s: LayerSection, b: Bucket) {
    forall r :: r in b.routes ==> Key(r) in SpecKeys(s.http)
  }

  ghost predicate NoExtras(layer: string, c: Contract, code: Index) {
    forall x :: IsExtra(x, c, code) ==> x.layer != layer
  }

  lemma NoExtrasIff(layer: string, c: Contract, code: Index)
    requires layer in code && SectionOf(c, layer).Some? && PlainBucket(code[layer])
    ensures var s := SectionOf(c, layer).value;
            NoExtras(layer, c, code) <==>
            NoClassExtras(s, code[layer]) && NoFileExtras(s, code[layer]) && NoRouteExtras(s, code[layer])
  {
    hide SpecClasses, SpecFiles, SpecKeys, Key;
    var s, b := SectionOf(c, layer).value, code[layer];
    if NoExtras(layer, c, code) {
      forall name | name in b.classes
        ensures name in SpecClasses(s.classes) && forall m :: m in b.classes[name] ==> m in SpecClasses(s.classes)[name]
      {
        assert !IsExtra(UnlistedClass(layer, name), c, code);
        forall m | m in b.classes[name] ensures m in SpecClasses(s.classes)[name] {
          assert !IsExtra(UnlistedMethod(layer, name, m), c, code);
        }
      }
      forall path | path in b.functions
        ensures path in SpecFiles(s.files) && forall f :: f in b.functions[path] ==> f in SpecFiles(s.files)[path]
      {
        assert !IsExtra(UnlistedFile(layer, path), c, code);
        forall f | f in b.functions[path] ensures f in SpecFiles(s.files)[path] {
          assert !IsExtra(UnlistedFunction(layer, path, f), c, code);
        }
      }
      forall r | r in b.routes ensures Key(r) in SpecKeys(s.http) {
        assert !IsExtra(UnlistedRoute(layer, Key(r)), c, code);
      }
    }
  }

  lemma Inhabited<T>(s: seq<T>)
    ensures s != [] ==> exists x :: x in s
  {
    if s != [] { assert s[0] in s; }
  }

  lemma NoExtrasUnlisted(layer: string, c: Contract, code: Index)
    requires layer in code && SectionOf(c, layer).None? && PlainBucket(code[layer])
    ensures NoExtras(layer, c, code) <==> NothingIn(code[layer])
  {
    var b := code[layer];
    if NoExtras(layer, c, code) {
      forall name ensures name !in b.classes { assert !IsExtra(ClassInUnlistedLayer(layer, name), c, code); }
      forall path ensures path !in b.functions { assert !IsExtra(UnlistedFile(layer, path), c, code); }
      forall r ensures r !in b.routes { assert !IsExtra(UnlistedRoute(layer, Key(r)), c, code); }
      Inhabited(b.routes);
    }
  }

  lemma ClassesExact(s: LayerSection, b: Bucket)
    requires DistinctSection(s) && PlainBucket(b)
    ensures (forall c :: c in s.classes ==> ClassMet(c, b)) && NoClassExtras(s, b) <==>
            SpecClasses(s.classes) == (map name | name in b.classes :: ToSet(b.classes[name])) &&
            forall c :: c in s.classes ==> c.name != ""
  {
    hide SpecClasses;
    var spec, code := SpecClasses(s.classes), map name | name in b.classes :: ToSet(b.classes[name]);
    if (forall c :: c in s.classes ==> ClassMet(c, b)) && NoClassExtras(s, b) {
      forall name | name in spec ensures name in b.classes && spec[name] == code[name] {
        SpecClassesOnly(s.classes, name);
        var c :| c in s.classes && c.name == name;
        assert ClassMet(c, b);
        SpecClassesHas(s.classes, c);
      }
      assert spec.Keys == code.Keys;
    }
    if spec == code && forall c :: c in s.classes ==> c.name != "" {
      forall c | c in s.classes ensures ClassMet(c, b) {
        SpecClassesHas(s.classes, c);
        assert c.name in code && code[c.name] == ToSet(c.methods);
        assert forall m :: m in c.methods ==> m in code[c.name];
      }
      forall name | name in b.classes
        ensures name in spec && forall m :: m in b.classes[name] ==> m in spec[name]
      {
        assert name in code && spec[name] == ToSet(b.classes[name]);
      }
    }
  }

  lemma FilesExact(s: LayerSection, b: Bucket)
    requires DistinctSection(s)
    ensures (forall f :: f in s.files ==> FileMet(f, b)) && NoFileExtras(s, b) <==>
            SpecFiles(s.files) == (map path | path in b.functions :: ToSet(b.functions[path]))
  {
    hide SpecFiles, PathOf;
    var spec, code := SpecFiles(s.files), map path | path in b.functions :: ToSet(b.functions[path]);
    if (forall f :: f in s.files ==> FileMet(f, b)) && NoFileExtras(s, b) {
      forall path | path in spec ensures path in b.functions && spec[path] == code[path] {
        SpecFilesOnly(s.files, path);
        var f :| f in s.files && PathOf(f) == path;
        assert FileMet(f, b);
        SpecFilesHas(s.files, f);
      }
      assert spec.Keys == code.Keys;
    }
    if spec == code {
      forall f | f in s.files ensures FileMet(f, b) {
        SpecFilesHas(s.files, f);
        assert PathOf(f) in code && code[PathOf(f)] == ToSet(f.functions);
        assert forall fn :: fn in f.functions ==> fn in code[PathOf(f)];
      }
      forall path | path in b.functions
        ensures path in spec && forall fn :: fn in b.functions[path] ==> fn in spec[path]
      {
        assert path in code && spec[path] == ToSet(b.functions[path]);
      }
    }
  }

  ghost predicate EntriesMet(s: LayerSection, b: Bucket) {
    !s.http.NotAList? && (s.http.Entries? ==> forall e :: e in s.http.entries ==> EntryMet(e, b))
  }

  lemma RoutesExact(s: LayerSection, b: Bucket)
    requires PlainBucket(b)
    ensures EntriesMet(s, b) && NoRouteExtras(s, b) <==> SameRoutes(s.http, b)
  {
    hide Key, Freeze, RoutesByKey, PlainBucket;
    if EntriesMet(s, b) && NoRouteExtras(s, b) { MetRoutesAreSame(s, b); }
    if SameRoutes(s.http, b) { SameRoutesAreMet(s, b); }
  }

  /** On the code's side frozen rows are canonical. */
  lemma SameRouteIff(e: Endpoint, r: Endpoint)
    requires Uniform(Rows(r.parameters))
    ensures SameRoute(e, r) <==> Key(e) == Key(r) && Freeze(r.parameters) == Freeze(e.parameters)
  {
    FreezeIsCanonical(r.parameters, e.parameters);
    SameParametersIff(e.parameters, r.parameters);
  }

  lemma MetRoutesAreSame(s: LayerSection, b: Bucket)
    requires PlainBucket(b) && EntriesMet(s, b) && NoRouteExtras(s, b)
    ensures SameRoutes(s.http, b)
  {
    hide Key, Freeze, RoutesByKey, Uniform, Incomplete, SameRoute;
    if s.http.Entries? {
      forall e | e in s.http.entries ensures exists r :: r in b.routes && SameRoute(e.endpoint, r) {
        assert EntryMet(e, b);
        RoutesByKeyHas(b.routes, Key(e.endpoint));
        SameRouteIff(e.endpoint, RoutesByKey(b.routes)[Key(e.endpoint)]);
      }
    }
    forall r | r in b.routes ensures Covered(r, s.http) {
      assert Key(r) in SpecKeys(s.http);
      var e :| e in s.http.entries && e.Given? && Key(e.endpoint) == Key(r);
      assert EntryMet(e, b);
      RoutesByKeyDistinct(b.routes, r);
      SameRouteIff(e.endpoint, r);
    }
  }

  lemma SameRoutesAreMet(s: LayerSection, b: Bucket)
    requires PlainBucket(b) && SameRoutes(s.http, b)
    ensures EntriesMet(s, b) && NoRouteExtras(s, b)
  {
    hide Key, Freeze, RoutesByKey, Uniform, Incomplete, SameRoute;
    if s.http.Entries? {
      forall e | e in s.http.entries ensures EntryMet(e, b) {
        var r :| r in b.routes && SameRoute(e.endpoint, r);
        SameRouteIff(e.endpoint, r);
        RoutesByKeyDistinct(b.routes, r);
      }
    }
    forall r | r in b.routes ensures Key(r) in SpecKeys(s.http) {
      assert Covered(r, s.http);
      var e :| e in s.http.entries && e.Given? && SameRoute(e.endpoint, r);
      SameRouteIff(e.endpoint, r);
    }
  }

  lemma SectionExact(layer: string, c: Contract, code: Index)
    requires layer in code && SectionOf(c, layer).Some? && PlainBucket(code[layer])
    requires DistinctSection(SectionOf(c, layer).value)
    ensures var s := SectionOf(c, layer).value;
            SectionMet(s, code[layer]) && NoExtras(layer, c, code) <==> SameSurface(s, code[layer])
  {
    hide SpecClasses, SpecFiles, SameRoutes, ClassMet, FileMet, EntryMet,
         NoClassExtras, NoFileExtras, NoRouteExtras;
    var s, b := SectionOf(c, layer).value, code[layer];
    NoExtrasIff(layer, c, code);
    ClassesExact(s, b);
    FilesExact(s, b);
    RoutesExact(s, b);
  }

  /** For a contract with distinct layers, classes and paths, and code with distinct, complete route keys:
      no errors and no warnings together exactly when contract and code have the same classes, methods,
      files, functions, routes and route parameters, layer by layer, and unlisted layers are empty. */
  lemma LinterIsExact(c: Contract, code: Index)
    requires DistinctLayers(c) && forall e :: e in c ==> DistinctSection(e.section)
    requires forall l :: l in code ==> PlainBucket(code[l])
    ensures Unmet(ContractRequirements(c), code) == [] && (forall x :: !IsExtra(x, c, code)) <==>
            SameContractAndCode(c, code)
  {
    NoErrorsIff(c, code);
    hide SameSurface, SectionMet, PlainBucket, DistinctSection, NothingIn, ContractRequirements, Unmet;
    forall e | e in c && e.layer in code
      ensures SectionMet(e.section, code[e.layer]) && NoExtras(e.layer, c, code) <==>
              SameSurface(e.section, code[e.layer])
    {
      SectionOfEntry(c, e);
      SectionExact(e.layer, c, code);
    }
    forall l | l in code && SectionOf(c, l).None? ensures NoExtras(l, c, code) <==> NothingIn(code[l]) {
      NoExtrasUnlisted(l, c, code);
    }
    if SameContractAndCode(c, code) {
      forall l | l in code ensures NoExtras(l, c, code) {
        SectionOfFound(c, l);
        if SectionOf(c, l).Some? {
          var e := LayerEntry(l, SectionOf(c, l).value);
          assert e in c;
        }
      }
      forall x ensures !IsExtra(x, c, code) {
        if x.layer in code { assert NoExtras(x.layer, c, code); }
      }
    }
  }
}
