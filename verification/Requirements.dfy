/** Contracts, the atomic requirements they state about indexed code, and what it means for one to hold.
    This is the independent account that the comparator's accumulating loops are proved against. */
module Requirements {
  import opened Common
  import opened SourceTrees
  import opened SourceIndex
  import opened ParameterRows
  import FilePaths

  datatype RequiredClass = RequiredClass(name: string, methods: seq<string>)

  datatype RequiredFile = RequiredFile(relativePath: string, functions: seq<string>)

  datatype RequiredEndpoint = NotAMapping | Given(endpoint: Endpoint)

  datatype EndpointSection = Omitted | NotAList | Entries(entries: seq<RequiredEndpoint>)

  datatype LayerSection = LayerSection(
    classes: seq<RequiredClass>, files: seq<RequiredFile>, http: EndpointSection)

  datatype LayerEntry = LayerEntry(layer: string, section: LayerSection)

  /** The `layers` mapping in document order. */
  type Contract = seq<LayerEntry>

  ghost predicate DistinctLayers(c: Contract) {
    forall i, j :: 0 <= i < j < |c| ==> c[i].layer != c[j].layer
  }

  // ---------- routes by key ----------

  type RouteKey = (string, string, string)

  /** (method, path, handler), the method in upper case */
  function Key(e: Endpoint): RouteKey { (Upper(e.verb), e.path, e.handler) }

  predicate Incomplete(k: RouteKey) { k.0 == "" || k.1 == "" || k.2 == "" }

  /** The last route with each key. */
  function RoutesByKey(routes: seq<Endpoint>): map<RouteKey, Endpoint> {
    if routes == [] then map[]
    else RoutesByKey(routes[..|routes| - 1])[Key(routes[|routes| - 1]) := routes[|routes| - 1]]
  }

  // ---------- atomic requirements ----------

  datatype Requirement =
    | LayerExists(layer: string)
    | NameAllowed(layer: string, name: string)
    | ClassExists(layer: string, name: string)
    | MethodExists(layer: string, name: string, method_: string)
    | FileScanned(layer: string, path: string)
    | FunctionExists(layer: string, path: string, function_: string)
    | SectionIsList(layer: string, isList: bool)
    | EntryIsMapping(layer: string, entry: RequiredEndpoint)
    | KeyIsComplete(layer: string, endpoint: Endpoint)
    | RouteExists(layer: string, endpoint: Endpoint)
    | ParametersMatch(layer: string, endpoint: Endpoint)

  ghost predicate Holds(r: Requirement, code: Index) {
    match r
    case LayerExists(l) => l in code
    case NameAllowed(_, c) => c !in SENTINELS
    case ClassExists(l, c) => c in BucketOf(code, l).classes
    case MethodExists(l, c, m) => m in Listed(BucketOf(code, l).classes, c)
    case FileScanned(l, p) => p in BucketOf(code, l).functions
    case FunctionExists(l, p, f) => f in Listed(BucketOf(code, l).functions, p)
    case SectionIsList(_, isList) => isList
    case EntryIsMapping(_, e) => e.Given?
    case KeyIsComplete(_, e) => !Incomplete(Key(e))
    case RouteExists(l, e) => exists route :: route in BucketOf(code, l).routes && Key(route) == Key(e)
    case ParametersMatch(l, e) =>
      var known := RoutesByKey(BucketOf(code, l).routes);
      Key(e) in known && Freeze(known[Key(e)].parameters) == Freeze(e.parameters)
  }

  /** The requirement without which this one is not looked at. */
  function Parent(r: Requirement): Option<Requirement> {
    match r
    case LayerExists(_) => None
    case NameAllowed(l, _) => Some(LayerExists(l))
    case ClassExists(l, c) => Some(NameAllowed(l, c))
    case MethodExists(l, c, _) => Some(ClassExists(l, c))
    case FileScanned(l, _) => Some(LayerExists(l))
    case FunctionExists(l, p, _) => Some(FileScanned(l, p))
    case SectionIsList(l, _) => Some(LayerExists(l))
    case EntryIsMapping(l, _) => Some(SectionIsList(l, true))
    case KeyIsComplete(l, e) => Some(EntryIsMapping(l, Given(e)))
    case RouteExists(l, e) => Some(KeyIsComplete(l, e))
    case ParametersMatch(l, e) => Some(RouteExists(l, e))
  }

  function Depth(r: Requirement): nat {
    match r
    case LayerExists(_) => 0
    case NameAllowed(_, _) => 1
    case ClassExists(_, _) => 2
    case MethodExists(_, _, _) => 3
    case FileScanned(_, _) => 1
    case FunctionExists(_, _, _) => 2
    case SectionIsList(_, _) => 1
    case EntryIsMapping(_, _) => 2
    case KeyIsComplete(_, _) => 3
    case RouteExists(_, _) => 4
    case ParametersMatch(_, _) => 5
  }

  /** Everything this requirement depends on holds. */
  ghost predicate Unmasked(r: Requirement, code: Index)
    decreases Depth(r)
  {
    Parent(r).Some? ==> Holds(Parent(r).value, code) && Unmasked(Parent(r).value, code)
  }

  ghost predicate Reported(r: Requirement, code: Index) { Unmasked(r, code) && !Holds(r, code) }

  /** The reported requirements, in order, one entry for each occurrence. */
  ghost function Unmet(rs: seq<Requirement>, code: Index): seq<Requirement> {
    if rs == [] then []
    else Unmet(rs[..|rs| - 1], code) + if Reported(rs[|rs| - 1], code) then [rs[|rs| - 1]] else []
  }

  // ---------- the requirements of a contract ----------

  function MethodRequirements(layer: string, name: string, methods: seq<string>): seq<Requirement> {
    if methods == [] then []
    else MethodRequirements(layer, name, methods[..|methods| - 1]) + [MethodExists(layer, name, methods[|methods| - 1])]
  }

  function ClassRequirements(layer: string, c: RequiredClass): seq<Requirement> {
    [NameAllowed(layer, c.name), ClassExists(layer, c.name)] + MethodRequirements(layer, c.name, c.methods)
  }

  function ClassesRequirements(layer: string, cs: seq<RequiredClass>): seq<Requirement> {
    if cs == [] then [] else ClassesRequirements(layer, cs[..|cs| - 1]) + ClassRequirements(layer, cs[|cs| - 1])
  }

  function FunctionRequirements(layer: string, path: string, functions: seq<string>): seq<Requirement> {
    if functions == [] then []
    else
      FunctionRequirements(layer, path, functions[..|functions| - 1]) +
      [FunctionExists(layer, path, functions[|functions| - 1])]
  }

  function FileRequirements(layer: string, f: RequiredFile): seq<Requirement> {
    var path := FilePaths.NormalizeRelPath(f.relativePath);
    [FileScanned(layer, path)] + FunctionRequirements(layer, path, f.functions)
  }

  function FilesRequirements(layer: string, fs: seq<RequiredFile>): seq<Requirement> {
    if fs == [] then [] else FilesRequirements(layer, fs[..|fs| - 1]) + FileRequirements(layer, fs[|fs| - 1])
  }

  function EntryRequirements(layer: string, e: RequiredEndpoint): seq<Requirement> {
    match e
    case NotAMapping => [EntryIsMapping(layer, e)]
    case Given(ep) =>
      [EntryIsMapping(layer, e), KeyIsComplete(layer, ep), RouteExists(layer, ep), ParametersMatch(layer, ep)]
  }

  function EntriesRequirements(layer: string, es: seq<RequiredEndpoint>): seq<Requirement> {
    if es == [] then [] else EntriesRequirements(layer, es[..|es| - 1]) + EntryRequirements(layer, es[|es| - 1])
  }

  function HttpRequirements(layer: string, http: EndpointSection): seq<Requirement> {
    match http
    case Omitted => []
    case NotAList => [SectionIsList(layer, false)]
    case Entries(es) => [SectionIsList(layer, true)] + EntriesRequirements(layer, es)
  }

  function LayerRequirements(e: LayerEntry): seq<Requirement> {
    [LayerExists(e.layer)] + ClassesRequirements(e.layer, e.section.classes) +
    FilesRequirements(e.layer, e.section.files) + HttpRequirements(e.layer, e.section.http)
  }

  function ContractRequirements(c: Contract): seq<Requirement> {
    if c == [] then [] else ContractRequirements(c[..|c| - 1]) + LayerRequirements(c[|c| - 1])
  }

  // ---------- laws of Unmet ----------

  lemma UnmetSplit(a: seq<Requirement>, b: seq<Requirement>, code: Index)
    ensures Unmet(a + b, code) == Unmet(a, code) + Unmet(b, code)
  {
    if b == [] {
      assert a + b == a;
    } else {
      UnmetSplit(a, b[..|b| - 1], code);
      assert (a + b)[..|a + b| - 1] == a + b[..|b| - 1];
    }
  }

  lemma UnmetOne(r: Requirement, code: Index)
    ensures Unmet([r], code) == if Reported(r, code) then [r] else []
  {
    assert [r][..0] == [];
  }

  lemma UnmetMasked(rs: seq<Requirement>, code: Index)
    requires forall r :: r in rs ==> !Unmasked(r, code)
    ensures Unmet(rs, code) == []
  {
  }

  lemma UnmetMembers(rs: seq<Requirement>, code: Index)
    ensures forall r :: r in Unmet(rs, code) <==> r in rs && Reported(r, code)
  {
    if rs == [] {
    } else {
      UnmetMembers(rs[..|rs| - 1], code);
      assert rs == rs[..|rs| - 1] + [rs[|rs| - 1]];
    }
  }

  /** Nothing is reported exactly when every requirement holds: a masked requirement is always below one
      that is reported. */
  lemma NothingReportedIff(c: Contract, code: Index)
    ensures Unmet(ContractRequirements(c), code) == [] <==>
            forall r :: r in ContractRequirements(c) ==> Holds(r, code)
  {
    var rs := ContractRequirements(c);
    UnmetMembers(rs, code);
    if Unmet(rs, code) == [] {
      forall r | r in rs ensures Holds(r, code) { AllHold(c, r, code); }
    } else {
      assert Unmet(rs, code)[0] in Unmet(rs, code);
    }
  }

  lemma AllHold(c: Contract, r: Requirement, code: Index)
    requires r in ContractRequirements(c)
    requires forall q :: q in ContractRequirements(c) ==> !Reported(q, code)
    ensures Holds(r, code) && Unmasked(r, code)
    decreases Depth(r)
  {
    if Parent(r).Some? {
      ParentsAreRequired(c, r);
      AllHold(c, Parent(r).value, code);
    }
    assert !Reported(r, code);
  }

  // A contract that states a requirement also states the one it depends on.

  lemma NamedIn(layer: string, name: string, items: seq<string>)
    ensures forall r :: r in MethodRequirements(layer, name, items) ==>
              r.MethodExists? && Parent(r) == Some(ClassExists(layer, name)) && r.method_ in items
    ensures forall r :: r in FunctionRequirements(layer, name, items) ==>
              r.FunctionExists? && Parent(r) == Some(FileScanned(layer, name)) && r.function_ in items
    ensures forall x :: x in items ==>
              MethodExists(layer, name, x) in MethodRequirements(layer, name, items) &&
              FunctionExists(layer, name, x) in FunctionRequirements(layer, name, items)
  {
    if items == [] {
    } else {
      NamedIn(layer, name, items[..|items| - 1]);
      assert items == items[..|items| - 1] + [items[|items| - 1]];
    }
  }

  lemma ClassesHaveParents(layer: string, cs: seq<RequiredClass>)
    ensures forall r :: r in ClassesRequirements(layer, cs) ==>
              Parent(r) == Some(LayerExists(layer)) ||
              (Parent(r).Some? && Parent(r).value in ClassesRequirements(layer, cs))
  {
    if cs == [] {
    } else {
      ClassesHaveParents(layer, cs[..|cs| - 1]);
      NamedIn(layer, cs[|cs| - 1].name, cs[|cs| - 1].methods);
      assert forall r :: r in ClassRequirements(layer, cs[|cs| - 1]) ==> r in ClassesRequirements(layer, cs);
    }
  }

  lemma {:induction false} FilesHaveParents(layer: string, fs: seq<RequiredFile>)
    ensures forall r :: r in FilesRequirements(layer, fs) ==>
              Parent(r) == Some(LayerExists(layer)) ||
              (Parent(r).Some? && Parent(r).value in FilesRequirements(layer, fs))
  {
    if fs == [] {
    } else {
      FilesHaveParents(layer, fs[..|fs| - 1]);
      NamedIn(layer, FilePaths.NormalizeRelPath(fs[|fs| - 1].relativePath), fs[|fs| - 1].functions);
      assert forall r :: r in FileRequirements(layer, fs[|fs| - 1]) ==> r in FilesRequirements(layer, fs);
    }
  }

  lemma EntriesHaveParents(layer: string, es: seq<RequiredEndpoint>)
    ensures forall r :: r in EntriesRequirements(layer, es) ==>
              Parent(r) == Some(SectionIsList(layer, true)) ||
              (Parent(r).Some? && Parent(r).value in EntriesRequirements(layer, es))
  {
    if es == [] {
    } else {
      EntriesHaveParents(layer, es[..|es| - 1]);
      assert forall r :: r in EntryRequirements(layer, es[|es| - 1]) ==> r in EntriesRequirements(layer, es);
    }
  }

  lemma LayerHasParents(e: LayerEntry, r: Requirement)
    requires r in LayerRequirements(e)
    ensures Parent(r).Some? ==> Parent(r).value in LayerRequirements(e)
  {
    ClassesHaveParents(e.layer, e.section.classes);
    FilesHaveParents(e.layer, e.section.files);
    if e.section.http.Entries? { EntriesHaveParents(e.layer, e.section.http.entries); }
  }

  lemma {:induction false} ParentsAreRequired(c: Contract, r: Requirement)
    requires r in ContractRequirements(c)
    ensures Parent(r).Some? ==> Parent(r).value in ContractRequirements(c)
  {
    if r in LayerRequirements(c[|c| - 1]) {
      LayerHasParents(c[|c| - 1], r);
    } else {
      ParentsAreRequired(c[..|c| - 1], r);
    }
  }

  lemma RoutesByKeyHas(routes: seq<Endpoint>, k: RouteKey)
    ensures k in RoutesByKey(routes) <==> exists route :: route in routes && Key(route) == k
    ensures k in RoutesByKey(routes) ==> RoutesByKey(routes)[k] in routes && Key(RoutesByKey(routes)[k]) == k
  {
    if routes == [] {
    } else {
      var init, last := routes[..|routes| - 1], routes[|routes| - 1];
      RoutesByKeyHas(init, k);
      assert routes == init + [last];
      assert last in routes;
    }
  }
}
