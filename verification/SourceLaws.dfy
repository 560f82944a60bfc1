/** The index in terms of source files: what the merge of all files contains, node by node of their trees. */
module SourceLaws {
  import opened Common
  import opened Names
  import opened FilePaths
  import opened HandlerParameters
  import opened SourceTrees
  import opened SourceIndex
  import opened TreeLaws

  /** The file belongs to the layer: see `PathLaws.LayerIsFirstSegment`. */
  predicate InLayer(f: SourceFile, layer: string) { InferLayer(f.path) == Some(layer) }

  lemma FactsOfFile(f: SourceFile)
    ensures Read(f).layer == InferLayer(f.path) && Read(f).path == NormalizeRelPath(f.path)
    ensures Read(f).routes == if InLayer(f, "entrypoints") then Endpoints(f.tree) else []
  {
    NormalizeIsIdempotent(f.path);
  }

  lemma DeclaresClassIff(f: SourceFile, layer: string, c: string)
    ensures DeclaresClass(Read(f), layer, c) <==> InLayer(f, layer) && HasClass(f.tree, c)
  {
    FactsOfFile(f);
    ClassesOccur(f.tree, c);
  }

  lemma DeclaresMethodIff(f: SourceFile, layer: string, c: string, m: string)
    ensures DeclaresMethod(Read(f), layer, c, m) <==> InLayer(f, layer) && HasMethod(f.tree, c, m)
  {
    FactsOfFile(f);
    MethodsOccur(f.tree, c, m);
  }

  lemma DefinesFunctionIff(f: SourceFile, layer: string, path: string, fn: string)
    ensures DefinesFunction(Read(f), layer, path, fn) <==>
            InLayer(f, layer) && NormalizeRelPath(f.path) == path && HoldsFunction(f.tree, fn)
    ensures DefinesFunctions(Read(f), layer, path) <==>
            InLayer(f, layer) && NormalizeRelPath(f.path) == path && exists g :: HoldsFunction(f.tree, g)
  {
    FactsOfFile(f);
    PublicFunctionsAreHeld(f.tree, fn);
    var names := PublicFunctions(f.tree);
    if names != [] {
      PublicFunctionsAreHeld(f.tree, names[0]);
    }
    if g :| HoldsFunction(f.tree, g) { PublicFunctionsAreHeld(f.tree, g); }
  }

  /** A fact that some file gives is one that some source gives. */
  lemma SomeSource(files: seq<SourceFile>, fact: FileFacts -> bool, given: SourceFile -> bool)
    requires forall f :: fact(Read(f)) <==> given(f)
    ensures (exists g :: g in ReadAll(files) && fact(g)) <==> (exists f :: f in files && given(f))
  {
    hide Read;
    if g :| g in ReadAll(files) && fact(g) {
      var i :| 0 <= i < |files| && ReadAll(files)[i] == g;
      assert files[i] in files && given(files[i]);
    }
    if f :| f in files && given(f) {
      var i :| 0 <= i < |files| && files[i] == f;
      assert ReadAll(files)[i] in ReadAll(files) && fact(ReadAll(files)[i]);
    }
  }

  /** A layer of the index is there exactly when a file belongs to it; it has exactly the classes that occur in
      the trees of its files, at any depth, with exactly the public functions that the bodies of classes of
      that name directly hold; and every listing is strictly sorted. */
  lemma ClassesOfSources(files: seq<SourceFile>, layer: string, c: string, m: string)
    ensures layer in BuildIndex(ReadAll(files)) <==> exists f :: f in files && InLayer(f, layer)
    ensures var classes := BucketOf(BuildIndex(ReadAll(files)), layer).classes;
            && (c in classes <==> exists f :: f in files && InLayer(f, layer) && HasClass(f.tree, c))
            && (c in classes ==> StrictlySorted(classes[c]))
            && ((c in classes && m in classes[c]) <==>
                exists f :: f in files && InLayer(f, layer) && HasMethod(f.tree, c, m))
  {
    ClassesAreUnion(ReadAll(files), layer, c, m);
    LayerOfSources(files, layer);
    forall f { DeclaresClassIff(f, layer, c); }
    forall f { DeclaresMethodIff(f, layer, c, m); }
    hide ReadAll, Read, BuildIndex, DeclaresClass, DeclaresMethod, InLayer, HasClass, HasMethod;
    SomeSource(files, (g: FileFacts) => DeclaresClass(g, layer, c),
               (f: SourceFile) => InLayer(f, layer) && HasClass(f.tree, c));
    SomeSource(files, (g: FileFacts) => DeclaresMethod(g, layer, c, m),
               (f: SourceFile) => InLayer(f, layer) && HasMethod(f.tree, c, m));
  }

  lemma LayerOfSources(files: seq<SourceFile>, layer: string)
    ensures HasLayer(ReadAll(files), layer) <==> exists f :: f in files && InLayer(f, layer)
  {
    forall f ensures Read(f).layer == Some(layer) <==> InLayer(f, layer) { FactsOfFile(f); }
    hide ReadAll, Read, InLayer;
    SomeSource(files, (g: FileFacts) => g.layer == Some(layer), (f: SourceFile) => InLayer(f, layer));
  }

  /** The same for files and their public functions: a file is listed exactly when its tree directly holds one. */
  lemma FunctionsOfSources(files: seq<SourceFile>, layer: string, path: string, fn: string)
    ensures var functions := BucketOf(BuildIndex(ReadAll(files)), layer).functions;
            && (path in functions <==>
                exists f :: f in files && InLayer(f, layer) && NormalizeRelPath(f.path) == path &&
                            exists g :: HoldsFunction(f.tree, g))
            && (path in functions ==> StrictlySorted(functions[path]))
            && ((path in functions && fn in functions[path]) <==>
                exists f :: f in files && InLayer(f, layer) && NormalizeRelPath(f.path) == path &&
                            HoldsFunction(f.tree, fn))
  {
    FunctionsAreUnion(ReadAll(files), layer, path, fn);
    forall f { DefinesFunctionIff(f, layer, path, fn); }
    hide ReadAll, Read, BuildIndex, DefinesFunction, DefinesFunctions, InLayer, NormalizeRelPath, HoldsFunction;
    SomeSource(files, (g: FileFacts) => DefinesFunctions(g, layer, path),
               (f: SourceFile) => InLayer(f, layer) && NormalizeRelPath(f.path) == path &&
                                  exists g :: HoldsFunction(f.tree, g));
    SomeSource(files, (g: FileFacts) => DefinesFunction(g, layer, path, fn),
               (f: SourceFile) => InLayer(f, layer) && NormalizeRelPath(f.path) == path && HoldsFunction(f.tree, fn));
  }

  /** The routes of the index are exactly what the top-level nodes of the entrypoints files say; other layers
      have none. */
  lemma {:induction false} RoutesOfSources(files: seq<SourceFile>, layer: string, e: Endpoint)
    ensures e in BucketOf(BuildIndex(ReadAll(files)), layer).routes <==>
            layer == "entrypoints" &&
            exists f :: f in files && InLayer(f, layer) && SomeDescribes(f.tree, RouterPrefixes(f.tree), e)
  {
    RoutesAreListed(ReadAll(files), layer);
    LayerRoutesHas(ReadAll(files), layer, e);
    forall f ensures (Read(f).layer == Some(layer) && e in Read(f).routes) <==>
                     layer == "entrypoints" && InLayer(f, layer) && SomeDescribes(f.tree, RouterPrefixes(f.tree), e)
    {
      FactsOfFile(f);
      EndpointsAreDescribed(f.tree, RouterPrefixes(f.tree), e);
    }
    hide ReadAll, Read, BuildIndex, InLayer, SomeDescribes, LayerRoutes;
    SomeSource(files, (g: FileFacts) => g.layer == Some(layer) && e in g.routes,
               (f: SourceFile) => layer == "entrypoints" && InLayer(f, layer) &&
                                  SomeDescribes(f.tree, RouterPrefixes(f.tree), e));
  }

  lemma {:induction false} LayerRoutesHas(facts: seq<FileFacts>, layer: string, e: Endpoint)
    ensures e in LayerRoutes(facts, layer) <==> exists g :: g in facts && g.layer == Some(layer) && e in g.routes
  {
    if facts == [] {
    } else {
      var init, last := facts[..|facts| - 1], facts[|facts| - 1];
      LayerRoutesHas(init, layer, e);
      assert facts == init + [last];
      assert last in facts && forall g :: g in init ==> g in facts;
    }
  }

  /** Indexing raises exactly when a class with one of the two reserved names occurs in a file of a layer. */
  lemma ClashesOccur(files: seq<SourceFile>)
    ensures NoClash(ReadAll(files)) <==>
            forall f :: f in files && InferLayer(f.path).Some? ==>
              !HasClass(f.tree, "$module_functions$") && !HasClass(f.tree, "$http_endpoints$")
  {
    forall f ensures Clashes(Read(f)) <==>
                     InferLayer(f.path).Some? &&
                     (HasClass(f.tree, "$module_functions$") || HasClass(f.tree, "$http_endpoints$"))
    {
      FactsOfFile(f);
      ClassesOccur(f.tree, "$module_functions$");
      ClassesOccur(f.tree, "$http_endpoints$");
    }
    hide ReadAll, Read, HasClass, InferLayer, Clashes;
    SomeSource(files, (g: FileFacts) => Clashes(g),
               (f: SourceFile) => InferLayer(f.path).Some? &&
                                  (HasClass(f.tree, "$module_functions$") || HasClass(f.tree, "$http_endpoints$")));
  }
}
