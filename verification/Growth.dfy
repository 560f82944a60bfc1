/** From source files to verdict: the exactness theorem on an index built from sources, and exactly when a
    passing contract keeps passing after one more source file. */
module Growth {
  import opened Common
  import opened HandlerParameters
  import opened SourceTrees
  import opened SourceIndex
  import opened ParameterRows
  import opened Requirements
  import opened Extras
  import opened Surface

  // ---------- indexes built from sources are plain ----------

  /** Names the parser can produce are never empty. */
  ghost predicate WellNamed(f: FileFacts) {
    (forall d :: d in f.classes ==> d.name != "") && forall r :: r in f.routes ==> r.handler != ""
  }

  /** Arguments of a function have distinct names, or the parser rejects it. */
  ghost predicate Parsed(f: SourceFile) {
    forall node :: node in f.tree && node.Function? ==> DistinctArguments(AllArguments(node.arguments))
  }

  lemma {:induction false} EndpointsAreHandlers(nodes: seq<Node>, prefixes: map<string, string>, e: Endpoint)
    requires e in EndpointsWith(nodes, prefixes)
    ensures exists node :: node in nodes && node.Function? && e.parameters == Recorded(AllArguments(node.arguments))
  {
    var init, last := nodes[..|nodes| - 1], nodes[|nodes| - 1];
    assert nodes == init + [last];
    if e in EndpointsWith(init, prefixes) {
      EndpointsAreHandlers(init, prefixes, e);
    } else {
      assert last in nodes;
    }
  }

  lemma ReadRowsAreUniform(f: SourceFile, r: Endpoint)
    requires r in Read(f).routes && Parsed(f)
    ensures Uniform(Rows(r.parameters))
  {
    EndpointsAreHandlers(f.tree, RouterPrefixes(f.tree), r);
    var node :| node in f.tree && node.Function? && r.parameters == Recorded(AllArguments(node.arguments));
    HandlerRowsAreDistinct(node.arguments);
    DistinctIsUniform(Rows(r.parameters));
  }

  lemma LayerRoutesFrom(files: seq<FileFacts>, layer: string, r: Endpoint)
    requires r in LayerRoutes(files, layer)
    ensures exists f :: f in files && r in f.routes
  {
    if files[|files| - 1].layer != Some(layer) || r !in files[|files| - 1].routes {
      LayerRoutesFrom(files[..|files| - 1], layer, r);
    }
  }

  lemma ReadRoutesAreComplete(f: SourceFile, r: Endpoint)
    requires r in Read(f).routes && r.handler != ""
    ensures !Incomplete(Key(r))
  {
    EndpointsAreComplete(f.tree, RouterPrefixes(f.tree));
    assert r.verb != "" && "/" <= r.path;
  }

  /** Everything the exactness theorem asks of the code side, except that route keys do not repeat, is a
      fact about any index that was built without raising. */
  lemma BuiltBucketIsPlain(files: seq<SourceFile>, layer: string)
    requires NoClash(ReadAll(files)) && forall f :: f in ReadAll(files) ==> WellNamed(f)
    requires forall f :: f in files ==> Parsed(f)
    requires var routes := LayerRoutes(ReadAll(files), layer);
             forall i, j :: 0 <= i < j < |routes| ==> Key(routes[i]) != Key(routes[j])
    ensures PlainBucket(BucketOf(BuildIndex(ReadAll(files)), layer))
  {
    hide Read, Key, Incomplete, LayerRoutes, Uniform, Parsed;
    var facts := ReadAll(files);
    var b := BucketOf(BuildIndex(facts), layer);
    forall name | name in b.classes ensures name != "" && name !in SENTINELS {
      ClassesAreUnion(facts, layer, name, "");
      var f :| f in facts && DeclaresClass(f, layer, name);
      assert !Clashes(f) && WellNamed(f);
    }
    RoutesAreListed(facts, layer);
    forall r | r in b.routes ensures !Incomplete(Key(r)) && Uniform(Rows(r.parameters)) {
      LayerRoutesFrom(facts, layer, r);
      var f :| f in facts && r in f.routes;
      var i :| 0 <= i < |facts| && facts[i] == f;
      assert f == Read(files[i]) && WellNamed(f);
      ReadRoutesAreComplete(files[i], r);
      ReadRowsAreUniform(files[i], r);
    }
  }

  /** The exactness of the linter from source files on. */
  lemma LinterIsExactOnSources(c: Contract, files: seq<SourceFile>)
    requires DistinctLayers(c) && forall e :: e in c ==> DistinctSection(e.section)
    requires NoClash(ReadAll(files)) && forall f :: f in ReadAll(files) ==> WellNamed(f)
    requires forall f :: f in files ==> Parsed(f)
    requires forall layer :: DistinctKeys(LayerRoutes(ReadAll(files), layer))
    ensures var code := BuildIndex(ReadAll(files));
            Unmet(ContractRequirements(c), code) == [] && (forall x :: !IsExtra(x, c, code)) <==>
            SameContractAndCode(c, code)
  {
    var code := BuildIndex(ReadAll(files));
    forall l | l in code ensures PlainBucket(code[l]) {
      assert DistinctKeys(LayerRoutes(ReadAll(files), l));
      BuiltBucketIsPlain(files, l);
    }
    LinterIsExact(c, code);
  }

  ghost predicate DistinctKeys(routes: seq<Endpoint>) {
    forall i, j :: 0 <= i < j < |routes| ==> Key(routes[i]) != Key(routes[j])
  }

  // ---------- one more file ----------

  lemma {:induction false} RoutesByKeyConcat(x: seq<Endpoint>, y: seq<Endpoint>, k: RouteKey)
    ensures k in RoutesByKey(x + y) <==> k in RoutesByKey(x) || k in RoutesByKey(y)
    ensures k in RoutesByKey(y) ==> RoutesByKey(x + y)[k] == RoutesByKey(y)[k]
    ensures k in RoutesByKey(x) && k !in RoutesByKey(y) ==> RoutesByKey(x + y)[k] == RoutesByKey(x)[k]
  {
    hide Key;
    if y == [] {
      assert x + y == x;
    } else {
      RoutesByKeyConcat(x, y[..|y| - 1], k);
      assert (x + y)[..|x + y| - 1] == x + y[..|y| - 1];
    }
  }

  lemma BucketsGrow(a: seq<FileFacts>, f: FileFacts, b: seq<FileFacts>, layer: string)
    ensures layer in BuildIndex(a + b) ==> layer in BuildIndex(a + [f] + b)
    ensures var old_, new_ := BucketOf(BuildIndex(a + b), layer), BucketOf(BuildIndex(a + [f] + b), layer);
            && (forall c :: ClassMet(c, old_) ==> ClassMet(c, new_))
            && (forall r :: FileMet(r, old_) ==> FileMet(r, new_))
  {
    hide BuildIndex, PathOf;
    var few, many := a + b, a + [f] + b;
    assert forall g :: g in few ==> g in many;
    ClassesAreUnion(few, layer, "", "");
    ClassesAreUnion(many, layer, "", "");
    var old_, new_ := BucketOf(BuildIndex(few), layer), BucketOf(BuildIndex(many), layer);
    forall c | ClassMet(c, old_) ensures ClassMet(c, new_) {
      ClassesAreUnion(few, layer, c.name, "");
      ClassesAreUnion(many, layer, c.name, "");
      forall m | m in c.methods ensures m in new_.classes[c.name] {
        ClassesAreUnion(few, layer, c.name, m);
        ClassesAreUnion(many, layer, c.name, m);
        assert m in Listed(old_.classes, c.name);
      }
    }
    forall r | FileMet(r, old_) ensures FileMet(r, new_) {
      FunctionsAreUnion(few, layer, PathOf(r), "");
      FunctionsAreUnion(many, layer, PathOf(r), "");
      forall fn | fn in r.functions ensures fn in new_.functions[PathOf(r)] {
        FunctionsAreUnion(few, layer, PathOf(r), fn);
        FunctionsAreUnion(many, layer, PathOf(r), fn);
        assert fn in Listed(old_.functions, PathOf(r));
      }
    }
  }

  /** The route the new file puts in front of what the contract was checked against, if any: the file has a
      route with the key, and no later file has one. */
  ghost predicate Overrides(f: FileFacts, later: seq<FileFacts>, layer: string, k: RouteKey) {
    f.layer == Some(layer) && k in RoutesByKey(f.routes) && k !in RoutesByKey(LayerRoutes(later, layer))
  }

  ghost predicate HarmlessEntry(f: FileFacts, later: seq<FileFacts>, layer: string, e: RequiredEndpoint) {
    e.Given? && Overrides(f, later, layer, Key(e.endpoint)) ==>
      Freeze(RoutesByKey(f.routes)[Key(e.endpoint)].parameters) == Freeze(e.endpoint.parameters)
  }

  /** Every required route that the new file overrides keeps its parameters. */
  ghost predicate Harmless(c: Contract, f: FileFacts, later: seq<FileFacts>) {
    forall e, entry :: e in c && e.section.http.Entries? && entry in e.section.http.entries ==>
      HarmlessEntry(f, later, e.layer, entry)
  }

  lemma LayerRoutesOfOne(f: FileFacts, layer: string)
    ensures LayerRoutes([f], layer) == if f.layer == Some(layer) then f.routes else []
  {
    assert [f][..0] == [];
  }

  lemma RoutesAfter(a: seq<FileFacts>, f: FileFacts, b: seq<FileFacts>, layer: string, k: RouteKey)
    ensures var few, many := RoutesByKey(BucketOf(BuildIndex(a + b), layer).routes),
                             RoutesByKey(BucketOf(BuildIndex(a + [f] + b), layer).routes);
            && (k in few ==> k in many)
            && (Overrides(f, b, layer, k) ==> k in many && many[k] == RoutesByKey(f.routes)[k])
            && (!Overrides(f, b, layer, k) && k in few ==> many[k] == few[k])
  {
    var r1, n, r2 := LayerRoutes(a, layer), LayerRoutes([f], layer), LayerRoutes(b, layer);
    RoutesAreListed(a + b, layer);
    RoutesAreListed(a + [f] + b, layer);
    LayerRoutesSplit(a, b, layer);
    LayerRoutesSplit(a, [f], layer);
    LayerRoutesSplit(a + [f], b, layer);
    LayerRoutesOfOne(f, layer);
    hide RoutesByKey, LayerRoutes, BuildIndex;
    RoutesByKeyConcat(r1, r2, k);
    RoutesByKeyConcat(r1 + n, r2, k);
    RoutesByKeyConcat(r1, n, k);
    if f.layer != Some(layer) { assert r1 + n == r1; }
  }

  lemma EntryAfter(a: seq<FileFacts>, f: FileFacts, b: seq<FileFacts>, layer: string, e: RequiredEndpoint)
    requires EntryMet(e, BucketOf(BuildIndex(a + b), layer))
    ensures EntryMet(e, BucketOf(BuildIndex(a + [f] + b), layer)) <==> HarmlessEntry(f, b, layer, e)
  {
    hide BuildIndex, RoutesByKey, Freeze, Key, Overrides;
    RoutesAfter(a, f, b, layer, Key(e.endpoint));
  }

  lemma SectionAfter(a: seq<FileFacts>, f: FileFacts, b: seq<FileFacts>, e: LayerEntry)
    requires EntryOk(e, BuildIndex(a + b))
    ensures EntryOk(e, BuildIndex(a + [f] + b)) <==>
            (e.section.http.Entries? ==>
               forall entry :: entry in e.section.http.entries ==> HarmlessEntry(f, b, e.layer, entry))
  {
    hide BuildIndex, ClassMet, FileMet, EntryMet, HarmlessEntry;
    BucketsGrow(a, f, b, e.layer);
    var old_, new_ := BuildIndex(a + b), BuildIndex(a + [f] + b);
    assert BucketOf(old_, e.layer) == old_[e.layer] && BucketOf(new_, e.layer) == new_[e.layer];
    assert forall c :: c in e.section.classes ==> ClassMet(c, old_[e.layer]);
    assert forall r :: r in e.section.files ==> FileMet(r, old_[e.layer]);
    if e.section.http.Entries? {
      forall entry | entry in e.section.http.entries
        ensures EntryMet(entry, BucketOf(BuildIndex(a + [f] + b), e.layer)) <==> HarmlessEntry(f, b, e.layer, entry)
      {
        EntryAfter(a, f, b, e.layer, entry);
      }
    }
  }

  /** A contract that passes still passes after a source file is added, wherever it comes in the order,
      exactly when every required route that the file overrides keeps its parameters. */
  lemma AddingFileKeepsPassingIff(c: Contract, a: seq<FileFacts>, f: FileFacts, b: seq<FileFacts>)
    requires Unmet(ContractRequirements(c), BuildIndex(a + b)) == []
    ensures Unmet(ContractRequirements(c), BuildIndex(a + [f] + b)) == [] <==> Harmless(c, f, b)
  {
    NoErrorsIff(c, BuildIndex(a + b));
    NoErrorsIff(c, BuildIndex(a + [f] + b));
    hide BuildIndex, EntryOk, HarmlessEntry, Unmet, ContractRequirements;
    forall e | e in c
      ensures EntryOk(e, BuildIndex(a + [f] + b)) <==>
              (e.section.http.Entries? ==>
                 forall entry :: entry in e.section.http.entries ==> HarmlessEntry(f, b, e.layer, entry))
    {
      SectionAfter(a, f, b, e);
    }
  }

  /** In particular it keeps passing when none of the file's route keys was there before. */
  lemma NewRoutesKeepPassing(c: Contract, a: seq<FileFacts>, f: FileFacts, b: seq<FileFacts>)
    requires Unmet(ContractRequirements(c), BuildIndex(a + b)) == []
    requires forall layer, r :: f.layer == Some(layer) && r in f.routes ==>
               forall old_ :: old_ in LayerRoutes(a + b, layer) ==> Key(old_) != Key(r)
    ensures Unmet(ContractRequirements(c), BuildIndex(a + [f] + b)) == []
  {
    NoErrorsIff(c, BuildIndex(a + b));
    forall e, entry | e in c && e.section.http.Entries? && entry in e.section.http.entries
      ensures HarmlessEntry(f, b, e.layer, entry)
    {
      if entry.Given? && f.layer == Some(e.layer) && Key(entry.endpoint) in RoutesByKey(f.routes) {
        KnownRouteIsNotNew(a, f, b, e, entry);
      }
    }
    AddingFileKeepsPassingIff(c, a, f, b);
  }

  lemma KnownRouteIsNotNew(a: seq<FileFacts>, f: FileFacts, b: seq<FileFacts>, e: LayerEntry, entry: RequiredEndpoint)
    requires EntryOk(e, BuildIndex(a + b)) && e.section.http.Entries? && entry in e.section.http.entries
    requires forall r :: r in f.routes ==> forall old_ :: old_ in LayerRoutes(a + b, e.layer) ==> Key(old_) != Key(r)
    ensures Key(entry.endpoint) !in RoutesByKey(f.routes)
  {
    hide BuildIndex, Key, Freeze;
    var k := Key(entry.endpoint);
    assert EntryMet(entry, BucketOf(BuildIndex(a + b), e.layer));
    RoutesAreListed(a + b, e.layer);
    RoutesByKeyHas(LayerRoutes(a + b, e.layer), k);
    RoutesByKeyHas(f.routes, k);
  }
}
