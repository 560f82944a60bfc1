/** The per-layer index of a module's sources. The index is built by merging one file after another in
    place; it is proved to be the union of what the files declare, whatever their order. */
module SourceIndex {
  import opened Common
  import opened Names
  import opened SourceTrees
  import opened FilePaths

  /** One layer: class -> methods, file -> top-level functions, and the routes in order. */
  datatype Bucket = Bucket(
    classes: map<string, seq<string>>, functions: map<string, seq<string>>, routes: seq<Endpoint>)

  type Index = map<string, Bucket>

  const EMPTY_BUCKET: Bucket := Bucket(map[], map[], [])

  /** Keys the linter keeps for itself in a layer's dictionary; they cannot name classes. */
  const SENTINELS: set<string> := {"$module_functions$", "$http_endpoints$"}

  /** What is read off one source file: its layer (None: not indexed), normalised path, classes, public
      top-level functions and, in the entrypoints layer, routes. */
  datatype FileFacts = FileFacts(
    layer: Option<string>, path: string, classes: seq<ClassDecl>, functions: seq<string>, routes: seq<Endpoint>)

  function Read(f: SourceFile): FileFacts {
    var path := NormalizeRelPath(f.path);
    FileFacts(InferLayer(path), path, Classes(f.tree), PublicFunctions(f.tree),
              if InferLayer(path) == Some("entrypoints") then Endpoints(f.tree) else [])
  }

  function ReadAll(files: seq<SourceFile>): (facts: seq<FileFacts>)
    ensures |facts| == |files| && forall i :: 0 <= i < |files| ==> facts[i] == Read(files[i])
  {
    seq(|files|, i requires 0 <= i < |files| => Read(files[i]))
  }

  // ---------- merging, as a function ----------

  function Listed(m: map<string, seq<string>>, key: string): seq<string> { if key in m then m[key] else [] }

  function MergeMethods(classes: map<string, seq<string>>, d: ClassDecl): map<string, seq<string>> {
    classes[d.name := Sorted(Listed(classes, d.name) + d.methods)]
  }

  function MergeClasses(classes: map<string, seq<string>>, ds: seq<ClassDecl>): map<string, seq<string>> {
    if ds == [] then classes else MergeMethods(MergeClasses(classes, ds[..|ds| - 1]), ds[|ds| - 1])
  }

  function MergeFunctions(functions: map<string, seq<string>>, path: string, found: seq<string>)
    : map<string, seq<string>>
  {
    if found == [] then functions else functions[path := Sorted(Listed(functions, path) + found)]
  }

  function MergeBucket(b: Bucket, f: FileFacts): Bucket {
    Bucket(MergeClasses(b.classes, f.classes), MergeFunctions(b.functions, f.path, f.functions), b.routes + f.routes)
  }

  function BucketOf(idx: Index, layer: string): Bucket { if layer in idx then idx[layer] else EMPTY_BUCKET }

  function MergeFile(idx: Index, f: FileFacts): Index {
    if f.layer.None? then idx else idx[f.layer.value := MergeBucket(BucketOf(idx, f.layer.value), f)]
  }

  function BuildIndex(files: seq<FileFacts>): Index {
    if files == [] then map[] else MergeFile(BuildIndex(files[..|files| - 1]), files[|files| - 1])
  }

  /** A class in a known layer that bears a reserved name: indexing raises. */
  predicate Clashes(f: FileFacts) {
    f.layer.Some? && exists d :: d in f.classes && d.name in SENTINELS
  }

  ghost predicate NoClash(files: seq<FileFacts>) { forall f :: f in files ==> !Clashes(f) }

  lemma BuildOneMore(files: seq<FileFacts>, i: nat)
    requires i < |files|
    ensures BuildIndex(files[..i + 1]) == MergeFile(BuildIndex(files[..i]), files[i])
    ensures NoClash(files[..i + 1]) <==> NoClash(files[..i]) && !Clashes(files[i])
    ensures NoClash(files) ==> !Clashes(files[i])
  {
    assert files[..i + 1] == files[..i] + [files[i]] && files[..i + 1][..i] == files[..i];
  }

  // ---------- merging in place ----------

  class ArtifactIndex {
    var layers: Index

    constructor ()
      ensures layers == map[]
    {
      layers := map[];
    }

    method MergeFunctionsForFile(layer: string, relFile: string, functions: seq<string>)
      requires layer in layers
      modifies this
      ensures layers == old(layers[layer := layers[layer].(
                          functions := layers[layer].functions[
                            relFile := Sorted(Listed(layers[layer].functions, relFile) + functions)])])
    {
      var bucket := layers[layer].functions;
      if relFile !in bucket {
        assert [] + functions == functions;
        bucket := bucket[relFile := Sorted(functions)];
      } else {
        bucket := bucket[relFile := Sorted(bucket[relFile] + functions)];
      }
      layers := layers[layer := layers[layer].(functions := bucket)];
    }

    /** Answers false, and changes nothing, when the class bears a reserved name. */
    method MergeClassMethods(layer: string, d: ClassDecl) returns (ok: bool)
      requires layer in layers
      modifies this
      ensures ok == (d.name !in SENTINELS)
      ensures layers == if !ok then old(layers) else
                          old(layers[layer := layers[layer].(classes := MergeMethods(layers[layer].classes, d))])
    {
      if d.name in SENTINELS { return false; }
      var classes := layers[layer].classes;
      var previous := if d.name in classes then classes[d.name] else [];
      if previous == [] {
        assert [] + d.methods == d.methods;
        classes := classes[d.name := Sorted(d.methods)];
      } else {
        classes := classes[d.name := Sorted(previous + d.methods)];
      }
      layers := layers[layer := layers[layer].(classes := classes)];
      return true;
    }

    method MergePublicClasses(layer: string, ds: seq<ClassDecl>) returns (ok: bool)
      requires layer in layers
      modifies this
      ensures ok == !exists d :: d in ds && d.name in SENTINELS
      ensures ok ==> layers == old(layers[layer := layers[layer].(
                                 classes := MergeClasses(layers[layer].classes, ds))])
    {
      for i := 0 to |ds|
        invariant layer in layers
        invariant forall d :: d in ds[..i] ==> d.name !in SENTINELS
        invariant layers == old(layers[layer := layers[layer].(
                              classes := MergeClasses(layers[layer].classes, ds[..i]))])
      {
        assert ds[..i + 1] == ds[..i] + [ds[i]] && ds[..i + 1][..i] == ds[..i];
        var merged := MergeClassMethods(layer, ds[i]);
        if !merged { return false; }
      }
      assert ds[..|ds|] == ds;
      return true;
    }

    method ProcessFile(f: SourceFile) returns (ok: bool)
      modifies this
      ensures ok == !Clashes(Read(f))
      ensures ok ==> layers == MergeFile(old(layers), Read(f))
    {
      var norm := NormalizeRelPath(f.path);
      var inferred := InferLayer(norm);
      if inferred.None? { return true; }
      var endpoints := [];
      if inferred == Some("entrypoints") { endpoints := ExtractEndpoints(f.tree); }
      ok := MergeFacts(FileFacts(inferred, norm, Classes(f.tree), PublicFunctions(f.tree), endpoints));
    }

    method MergeFacts(f: FileFacts) returns (ok: bool)
      requires f.layer.Some?
      modifies this
      ensures ok == !Clashes(f)
      ensures ok ==> layers == MergeFile(old(layers), f)
    {
      hide MergeClasses, Sorted;
      var layer := f.layer.value;
      ghost var b := BucketOf(layers, layer);
      if layer !in layers { layers := layers[layer := EMPTY_BUCKET]; }
      assert layers == old(layers)[layer := b];
      if f.functions != [] { MergeFunctionsForFile(layer, f.path, f.functions); }
      b := b.(functions := MergeFunctions(b.functions, f.path, f.functions));
      assert layers == old(layers)[layer := b];
      ok := MergePublicClasses(layer, f.classes);
      if !ok { return; }
      b := b.(classes := MergeClasses(b.classes, f.classes));
      assert layers == old(layers)[layer := b];
      ExtendRoutes(layer, f.routes);
      assert layers == old(layers)[layer := b.(routes := b.routes + f.routes)];
    }

    method ExtendRoutes(layer: string, found: seq<Endpoint>)
      requires layer in layers
      modifies this
      ensures layers == old(layers)[layer := old(layers)[layer].(routes := old(layers)[layer].routes + found)]
    {
      if found == [] {
        assert layers[layer].routes + found == layers[layer].routes;
        return;
      }
      layers := layers[layer := layers[layer].(routes := layers[layer].routes + found)];
    }

    /** `build_code_artifacts`; false when a reserved class name makes it raise. */
    method Build(files: seq<SourceFile>) returns (ok: bool)
      modifies this
      ensures ok == NoClash(ReadAll(files))
      ensures ok ==> layers == BuildIndex(ReadAll(files))
    {
      layers := map[];
      ghost var facts := ReadAll(files);
      for i := 0 to |files|
        invariant NoClash(facts[..i])
        invariant layers == BuildIndex(facts[..i])
      {
        BuildOneMore(facts, i);
        ok := ProcessFile(files[i]);
        if !ok { return; }
      }
      assert facts[..|files|] == facts;
      ok := true;
    }
  }

  // ---------- what the files declare ----------

  ghost predicate HasLayer(files: seq<FileFacts>, layer: string) {
    exists f :: f in files && f.layer == Some(layer)
  }

  ghost predicate DeclaresClass(f: FileFacts, layer: string, c: string) {
    f.layer == Some(layer) && exists d :: d in f.classes && d.name == c
  }

  ghost predicate DeclaresMethod(f: FileFacts, layer: string, c: string, m: string) {
    f.layer == Some(layer) && exists d :: d in f.classes && d.name == c && m in d.methods
  }

  ghost predicate DefinesFunctions(f: FileFacts, layer: string, path: string) {
    f.layer == Some(layer) && f.path == path && f.functions != []
  }

  ghost predicate DefinesFunction(f: FileFacts, layer: string, path: string, fn: string) {
    f.layer == Some(layer) && f.path == path && fn in f.functions
  }

  lemma SortedHas(xs: seq<string>)
    ensures StrictlySorted(Sorted(xs)) && forall x :: x in Sorted(xs) <==> x in xs
  {
    SortedIsSorted(xs);
    forall x ensures x in Sorted(xs) <==> x in xs {
      assert x in ToSet(Sorted(xs)) <==> x in ToSet(xs);
    }
  }

  ghost predicate AllSorted(m: map<string, seq<string>>) { forall k :: k in m ==> StrictlySorted(m[k]) }

  lemma MergeMethodsIsUnion(classes: map<string, seq<string>>, d: ClassDecl, c: string, m: string)
    requires AllSorted(classes)
    ensures var merged := MergeMethods(classes, d);
            && AllSorted(merged)
            && (c in merged <==> c in classes || d.name == c)
            && (m in Listed(merged, c) <==> m in Listed(classes, c) || (d.name == c && m in d.methods))
  {
    SortedHas(Listed(classes, d.name) + d.methods);
  }

  lemma {:induction false} MergeClassesIsUnion(classes: map<string, seq<string>>, ds: seq<ClassDecl>,
                                               c: string, m: string)
    requires AllSorted(classes)
    ensures var merged := MergeClasses(classes, ds);
            && AllSorted(merged)
            && (c in merged <==> c in classes || exists d :: d in ds && d.name == c)
            && (m in Listed(merged, c) <==>
                m in Listed(classes, c) || exists d :: d in ds && d.name == c && m in d.methods)
  {
    if ds == [] {
    } else {
      var init, last := ds[..|ds| - 1], ds[|ds| - 1];
      MergeClassesIsUnion(classes, init, c, m);
      MergeMethodsIsUnion(MergeClasses(classes, init), last, c, m);
      assert forall d :: d in ds <==> d in init || d == last;
    }
  }

  lemma MergeFileClasses(idx: Index, f: FileFacts, layer: string, c: string, m: string)
    requires AllSorted(BucketOf(idx, layer).classes)
    ensures var before, after := BucketOf(idx, layer).classes, BucketOf(MergeFile(idx, f), layer).classes;
            && AllSorted(after)
            && (c in after <==> c in before || DeclaresClass(f, layer, c))
            && (m in Listed(after, c) <==> m in Listed(before, c) || DeclaresMethod(f, layer, c, m))
  {
    if f.layer == Some(layer) {
      MergeClassesIsUnion(BucketOf(idx, layer).classes, f.classes, c, m);
    }
  }

  lemma MergeFileFunctions(idx: Index, f: FileFacts, layer: string, path: string, fn: string)
    requires AllSorted(BucketOf(idx, layer).functions)
    ensures var before, after := BucketOf(idx, layer).functions, BucketOf(MergeFile(idx, f), layer).functions;
            && AllSorted(after)
            && (path in after <==> path in before || DefinesFunctions(f, layer, path))
            && (fn in Listed(after, path) <==> fn in Listed(before, path) || DefinesFunction(f, layer, path, fn))
  {
    if f.layer == Some(layer) && f.functions != [] {
      SortedHas(Listed(BucketOf(idx, layer).functions, f.path) + f.functions);
    }
  }

  /** The classes of a layer, and each class's methods, are exactly those that some file of the layer
      declares; every listing is strictly sorted. */
  lemma {:induction false} ClassesAreUnion(files: seq<FileFacts>, layer: string, c: string, m: string)
    ensures layer in BuildIndex(files) <==> HasLayer(files, layer)
    ensures var classes := BucketOf(BuildIndex(files), layer).classes;
            && AllSorted(classes)
            && (c in classes <==> exists f :: f in files && DeclaresClass(f, layer, c))
            && (m in Listed(classes, c) <==> exists f :: f in files && DeclaresMethod(f, layer, c, m))
  {
    if files == [] {
    } else {
      var init, last := files[..|files| - 1], files[|files| - 1];
      ClassesAreUnion(init, layer, c, m);
      MergeFileClasses(BuildIndex(init), last, layer, c, m);
      assert forall f :: f in files <==> f in init || f == last;
    }
  }

  /** The same for the files of a layer that define public functions, and their functions. */
  lemma {:induction false} FunctionsAreUnion(files: seq<FileFacts>, layer: string, path: string, fn: string)
    ensures var functions := BucketOf(BuildIndex(files), layer).functions;
            && AllSorted(functions)
            && (path in functions <==> exists f :: f in files && DefinesFunctions(f, layer, path))
            && (fn in Listed(functions, path) <==> exists f :: f in files && DefinesFunction(f, layer, path, fn))
  {
    if files == [] {
    } else {
      var init, last := files[..|files| - 1], files[|files| - 1];
      FunctionsAreUnion(init, layer, path, fn);
      MergeFileFunctions(BuildIndex(init), last, layer, path, fn);
      assert forall f :: f in files <==> f in init || f == last;
    }
  }

  // ---------- routes ----------

  function LayerRoutes(files: seq<FileFacts>, layer: string): seq<Endpoint> {
    if files == [] then []
    else
      var last := files[|files| - 1];
      LayerRoutes(files[..|files| - 1], layer) + if last.layer == Some(layer) then last.routes else []
  }

  lemma RoutesAreListed(files: seq<FileFacts>, layer: string)
    ensures BucketOf(BuildIndex(files), layer).routes == LayerRoutes(files, layer)
  {
    if files == [] {
    } else {
      RoutesAreListed(files[..|files| - 1], layer);
    }
  }

  lemma LayerRoutesSplit(a: seq<FileFacts>, b: seq<FileFacts>, layer: string)
    ensures LayerRoutes(a + b, layer) == LayerRoutes(a, layer) + LayerRoutes(b, layer)
  {
    if b == [] {
      assert a + b == a;
    } else {
      LayerRoutesSplit(a, b[..|b| - 1], layer);
      assert (a + b)[..|a + b| - 1] == a + b[..|b| - 1];
    }
  }

  function Without(files: seq<FileFacts>, i: nat): seq<FileFacts>
    requires i < |files|
  {
    files[..i] + files[i + 1..]
  }

  lemma LayerRoutesWithout(files: seq<FileFacts>, i: nat, layer: string)
    requires i < |files|
    ensures multiset(Without(files, i)) == multiset(files) - multiset{files[i]}
    ensures multiset(LayerRoutes(files, layer)) ==
            multiset(LayerRoutes(Without(files, i), layer)) + multiset(LayerRoutes([files[i]], layer))
  {
    var a, f, b := files[..i], [files[i]], files[i + 1..];
    assert files == a + f + b;
    LayerRoutesSplit(a, f, layer);
    LayerRoutesSplit(a + f, b, layer);
    LayerRoutesSplit(a, b, layer);
  }

  lemma {:induction false} LayerRoutesPermute(fs: seq<FileFacts>, gs: seq<FileFacts>, layer: string)
    requires multiset(fs) == multiset(gs)
    ensures multiset(LayerRoutes(fs, layer)) == multiset(LayerRoutes(gs, layer))
    decreases |fs|
  {
    assert |fs| == |multiset(fs)| == |multiset(gs)| == |gs|;
    if fs == [] {
    } else {
      assert fs[0] in multiset(gs);
      var i :| 0 <= i < |gs| && gs[i] == fs[0];
      LayerRoutesWithout(fs, 0, layer);
      LayerRoutesWithout(gs, i, layer);
      LayerRoutesPermute(Without(fs, 0), Without(gs, i), layer);
    }
  }

  // ---------- order does not matter ----------

  lemma SameMap(m1: map<string, seq<string>>, m2: map<string, seq<string>>)
    requires AllSorted(m1) && AllSorted(m2)
    requires forall key :: key in m1 <==> key in m2
    requires forall key, x :: x in Listed(m1, key) <==> x in Listed(m2, key)
    ensures m1 == m2
  {
    forall key | key in m1 ensures m1[key] == m2[key] {
      forall x ensures x in m1[key] <==> x in m2[key] {
        assert x in Listed(m1, key) <==> x in Listed(m2, key);
      }
      assert ToSet(m1[key]) == ToSet(m2[key]);
      SortedIsUnique(m1[key], m2[key]);
    }
  }

  /** Processing the same files in another order gives the same layers, the same class and function maps,
      and the same routes up to their order. */
  lemma {:induction false} OrderDoesNotMatter(fs: seq<FileFacts>, gs: seq<FileFacts>, layer: string)
    requires multiset(fs) == multiset(gs)
    ensures layer in BuildIndex(fs) <==> layer in BuildIndex(gs)
    ensures var b1, b2 := BucketOf(BuildIndex(fs), layer), BucketOf(BuildIndex(gs), layer);
            b1.classes == b2.classes && b1.functions == b2.functions && multiset(b1.routes) == multiset(b2.routes)
  {
    var b1, b2 := BucketOf(BuildIndex(fs), layer), BucketOf(BuildIndex(gs), layer);
    forall f ensures f in fs <==> f in gs {
      assert f in fs <==> f in multiset(fs);
      assert f in gs <==> f in multiset(gs);
    }
    ClassesAreUnion(fs, layer, "", "");
    ClassesAreUnion(gs, layer, "", "");
    FunctionsAreUnion(fs, layer, "", "");
    FunctionsAreUnion(gs, layer, "", "");
    forall c ensures c in b1.classes <==> c in b2.classes {
      ClassesAreUnion(fs, layer, c, "");
      ClassesAreUnion(gs, layer, c, "");
    }
    forall c, m ensures m in Listed(b1.classes, c) <==> m in Listed(b2.classes, c) {
      ClassesAreUnion(fs, layer, c, m);
      ClassesAreUnion(gs, layer, c, m);
    }
    forall p ensures p in b1.functions <==> p in b2.functions {
      FunctionsAreUnion(fs, layer, p, "");
      FunctionsAreUnion(gs, layer, p, "");
    }
    forall p, fn ensures fn in Listed(b1.functions, p) <==> fn in Listed(b2.functions, p) {
      FunctionsAreUnion(fs, layer, p, fn);
      FunctionsAreUnion(gs, layer, p, fn);
    }
    SameMap(b1.classes, b2.classes);
    SameMap(b1.functions, b2.functions);
    RoutesAreListed(fs, layer);
    RoutesAreListed(gs, layer);
    LayerRoutesPermute(fs, gs, layer);
  }
}
