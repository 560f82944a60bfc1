/** The comparator: loops that append to `errors` and to a warnings list, proved against the requirements
    and extras of a contract. */
module Comparator {
  import opened Common
  import opened SourceTrees
  import opened SourceIndex
  import opened ParameterRows
  import opened Requirements
  import opened Extras
  import opened WarningOrder
  import FilePaths

  lemma PrefixStep<T>(s: seq<T>, i: nat)
    requires i < |s|
    ensures s[..i + 1] == s[..i] + [s[i]] && s[..i + 1][..i] == s[..i]
  {
  }

  // ---------- the error lists, as functions of the inputs ----------

  function MissingMethods(layer: string, name: string, methods: seq<string>, known: seq<string>): seq<Requirement> {
    if methods == [] then []
    else
      var m := methods[|methods| - 1];
      MissingMethods(layer, name, methods[..|methods| - 1], known) +
      if m in known then [] else [MethodExists(layer, name, m)]
  }

  function ClassErrors(layer: string, c: RequiredClass, b: Bucket): seq<Requirement> {
    if c.name in SENTINELS then [NameAllowed(layer, c.name)]
    else if c.name !in b.classes then [ClassExists(layer, c.name)]
    else MissingMethods(layer, c.name, c.methods, b.classes[c.name])
  }

  function ClassesErrors(layer: string, cs: seq<RequiredClass>, b: Bucket): seq<Requirement> {
    if cs == [] then [] else ClassesErrors(layer, cs[..|cs| - 1], b) + ClassErrors(layer, cs[|cs| - 1], b)
  }

  function MissingFunctions(layer: string, path: string, functions: seq<string>, known: seq<string>): seq<Requirement> {
    if functions == [] then []
    else
      var f := functions[|functions| - 1];
      MissingFunctions(layer, path, functions[..|functions| - 1], known) +
      if f in known then [] else [FunctionExists(layer, path, f)]
  }

  function FileErrors(layer: string, f: RequiredFile, b: Bucket): seq<Requirement> {
    var path := FilePaths.NormalizeRelPath(f.relativePath);
    if path !in b.functions then [FileScanned(layer, path)]
    else MissingFunctions(layer, path, f.functions, b.functions[path])
  }

  function FilesErrors(layer: string, fs: seq<RequiredFile>, b: Bucket): seq<Requirement> {
    if fs == [] then [] else FilesErrors(layer, fs[..|fs| - 1], b) + FileErrors(layer, fs[|fs| - 1], b)
  }

  function EntryErrors(layer: string, e: RequiredEndpoint, byKey: map<RouteKey, Endpoint>): seq<Requirement> {
    if e.NotAMapping? then [EntryIsMapping(layer, e)]
    else if Incomplete(Key(e.endpoint)) then [KeyIsComplete(layer, e.endpoint)]
    else if Key(e.endpoint) !in byKey then [RouteExists(layer, e.endpoint)]
    else if Freeze(e.endpoint.parameters) != Freeze(byKey[Key(e.endpoint)].parameters)
    then [ParametersMatch(layer, e.endpoint)]
    else []
  }

  function EntriesErrors(layer: string, es: seq<RequiredEndpoint>, byKey: map<RouteKey, Endpoint>): seq<Requirement> {
    if es == [] then []
    else EntriesErrors(layer, es[..|es| - 1], byKey) + EntryErrors(layer, es[|es| - 1], byKey)
  }

  function HttpErrors(layer: string, http: EndpointSection, b: Bucket): seq<Requirement> {
    match http
    case Omitted => []
    case NotAList => [SectionIsList(layer, false)]
    case Entries(es) => EntriesErrors(layer, es, RoutesByKey(b.routes))
  }

  function LayerErrors(e: LayerEntry, code: Index): seq<Requirement> {
    if e.layer !in code then [LayerExists(e.layer)]
    else
      var b := code[e.layer];
      ClassesErrors(e.layer, e.section.classes, b) + FilesErrors(e.layer, e.section.files, b) +
      HttpErrors(e.layer, e.section.http, b)
  }

  function ContractErrors(c: Contract, code: Index): seq<Requirement> {
    if c == [] then [] else ContractErrors(c[..|c| - 1], code) + LayerErrors(c[|c| - 1], code)
  }

  lemma ErrorsOneMoreClass(layer: string, cs: seq<RequiredClass>, i: nat, b: Bucket)
    requires i < |cs|
    ensures ClassesErrors(layer, cs[..i + 1], b) == ClassesErrors(layer, cs[..i], b) + ClassErrors(layer, cs[i], b)
  {
    PrefixStep(cs, i);
  }

  lemma {:induction false} ErrorsOneMoreFile(layer: string, fs: seq<RequiredFile>, i: nat, b: Bucket)
    requires i < |fs|
    ensures FilesErrors(layer, fs[..i + 1], b) == FilesErrors(layer, fs[..i], b) + FileErrors(layer, fs[i], b)
  {
    PrefixStep(fs, i);
  }

  lemma ErrorsOneMoreLayer(c: Contract, i: nat, code: Index)
    requires i < |c|
    ensures ContractErrors(c[..i + 1], code) == ContractErrors(c[..i], code) + LayerErrors(c[i], code)
  {
    PrefixStep(c, i);
  }

  // ---------- the loops ----------

  class Comparator {
    const requirements: Contract
    const codeArtifacts: Index
    var errors: seq<Requirement>

    constructor (requirements: Contract, codeArtifacts: Index)
      ensures this.requirements == requirements && this.codeArtifacts == codeArtifacts && errors == []
    {
      this.requirements, this.codeArtifacts, errors := requirements, codeArtifacts, [];
    }

    method CompareOneRequiredClass(layer: string, layerBucket: Bucket, c: RequiredClass)
      modifies this
      ensures errors == old(errors) + ClassErrors(layer, c, layerBucket)
    {
      if c.name in SENTINELS {
        errors := errors + [NameAllowed(layer, c.name)];
        return;
      }
      if c.name !in layerBucket.classes {
        errors := errors + [ClassExists(layer, c.name)];
        return;
      }
      var knownMethods := layerBucket.classes[c.name];
      for i := 0 to |c.methods|
        invariant errors == old(errors) + MissingMethods(layer, c.name, c.methods[..i], knownMethods)
      {
        PrefixStep(c.methods, i);
        if c.methods[i] !in knownMethods {
          errors := errors + [MethodExists(layer, c.name, c.methods[i])];
        }
      }
      assert c.methods[..|c.methods|] == c.methods;
    }

    method CompareRequiredClasses(layer: string, cs: seq<RequiredClass>, layerBucket: Bucket)
      modifies this
      ensures errors == old(errors) + ClassesErrors(layer, cs, layerBucket)
    {
      for i := 0 to |cs|
        invariant errors == old(errors) + ClassesErrors(layer, cs[..i], layerBucket)
      {
        hide ClassErrors;
        ErrorsOneMoreClass(layer, cs, i, layerBucket);
        CompareOneRequiredClass(layer, layerBucket, cs[i]);
      }
      assert cs[..|cs|] == cs;
    }

    method CompareRequiredModuleFunctions(layer: string, fs: seq<RequiredFile>, layerBucket: Bucket)
      modifies this
      ensures errors == old(errors) + FilesErrors(layer, fs, layerBucket)
    {
      hide FileErrors;
      for i := 0 to |fs|
        invariant errors == old(errors) + FilesErrors(layer, fs[..i], layerBucket)
      {
        ErrorsOneMoreFile(layer, fs, i, layerBucket);
        CompareOneFile(layer, fs[i], layerBucket);
      }
      assert fs[..|fs|] == fs;
    }

    method CompareOneFile(layer: string, f: RequiredFile, layerBucket: Bucket)
      modifies this
      ensures errors == old(errors) + FileErrors(layer, f, layerBucket)
    {
      var mfActual := layerBucket.functions;
      var relKey := FilePaths.NormalizeRelPath(f.relativePath);
      if relKey !in mfActual {
        errors := errors + [FileScanned(layer, relKey)];
      } else {
        CompareFunctions(layer, relKey, f.functions, mfActual[relKey]);
      }
    }

    method CompareFunctions(layer: string, relKey: string, functions: seq<string>, actual: seq<string>)
      modifies this
      ensures errors == old(errors) + MissingFunctions(layer, relKey, functions, actual)
    {
      for i := 0 to |functions|
        invariant errors == old(errors) + MissingFunctions(layer, relKey, functions[..i], actual)
      {
        PrefixStep(functions, i);
        if functions[i] !in actual { errors := errors + [FunctionExists(layer, relKey, functions[i])]; }
      }
      assert functions[..|functions|] == functions;
    }

    method IndexCodeEndpoints(eps: seq<Endpoint>) returns (codeByKey: map<RouteKey, Endpoint>)
      ensures codeByKey == RoutesByKey(eps)
    {
      codeByKey := map[];
      for i := 0 to |eps|
        invariant codeByKey == RoutesByKey(eps[..i])
      {
        PrefixStep(eps, i);
        codeByKey := codeByKey[Key(eps[i]) := eps[i]];
      }
      assert eps[..|eps|] == eps;
    }

    method CompareOneEndpoint(layer: string, codeByKey: map<RouteKey, Endpoint>, e: RequiredEndpoint)
      modifies this
      ensures errors == old(errors) + EntryErrors(layer, e, codeByKey)
    {
      if e.NotAMapping? {
        errors := errors + [EntryIsMapping(layer, e)];
        return;
      }
      var k := Key(e.endpoint);
      if k.0 == "" || k.1 == "" || k.2 == "" {
        errors := errors + [KeyIsComplete(layer, e.endpoint)];
        return;
      }
      if k !in codeByKey {
        errors := errors + [RouteExists(layer, e.endpoint)];
        return;
      }
      var specSig := Freeze(e.endpoint.parameters);
      var codeSig := Freeze(codeByKey[k].parameters);
      if specSig != codeSig { errors := errors + [ParametersMatch(layer, e.endpoint)]; }
    }

    method CompareRequiredEndpoints(layer: string, layerBucket: Bucket, http: EndpointSection)
      modifies this
      ensures errors == old(errors) + HttpErrors(layer, http, layerBucket)
    {
      hide EntryErrors, RoutesByKey;
      if http.Omitted? { return; }
      if http.NotAList? {
        errors := errors + [SectionIsList(layer, false)];
        return;
      }
      var codeByKey := IndexCodeEndpoints(layerBucket.routes);
      var es := http.entries;
      for i := 0 to |es|
        invariant errors == old(errors) + EntriesErrors(layer, es[..i], codeByKey)
      {
        PrefixStep(es, i);
        CompareOneEndpoint(layer, codeByKey, es[i]);
      }
      assert es[..|es|] == es;
    }

    method CompareLayer(e: LayerEntry)
      modifies this
      ensures errors == old(errors) + LayerErrors(e, codeArtifacts)
    {
      hide ClassesErrors, FilesErrors, HttpErrors;
      if e.layer !in codeArtifacts {
        errors := errors + [LayerExists(e.layer)];
        return;
      }
      var layerBucket := codeArtifacts[e.layer];
      CompareRequiredClasses(e.layer, e.section.classes, layerBucket);
      CompareRequiredModuleFunctions(e.layer, e.section.files, layerBucket);
      CompareRequiredEndpoints(e.layer, layerBucket, e.section.http);
    }

    /** The errors of one run are the unmet requirements of the contract, each reported once per
        occurrence unless something it depends on is missing. Errors of an earlier run stay. */
    method CompareErrors()
      modifies this
      ensures errors == old(errors) + Unmet(ContractRequirements(requirements), codeArtifacts)
    {
      hide Unmet, ContractRequirements, LayerErrors;
      for i := 0 to |requirements|
        invariant errors == old(errors) + ContractErrors(requirements[..i], codeArtifacts)
      {
        ErrorsOneMoreLayer(requirements, i, codeArtifacts);
        CompareLayer(requirements[i]);
      }
      assert requirements[..|requirements|] == requirements;
      ErrorsAreUnmet(requirements, codeArtifacts);
    }

    /** One lint run: `errors` as above and, unless they are switched off, exactly the extras. */
    method Compare(reportExtras: bool) returns (warnings: seq<Extra>)
      modifies this
      ensures errors == old(errors) + Unmet(ContractRequirements(requirements), codeArtifacts)
      ensures forall x :: x in warnings <==> reportExtras && IsExtra(x, requirements, codeArtifacts)
      ensures InOrder(warnings)
      ensures reportExtras ==>
                forall layer :: layer in codeArtifacts ==> ListsRoutes(warnings, requirements, codeArtifacts, layer)
    {
      hide Unmet, ContractRequirements, IsExtra, ListsRoutes;
      CompareErrors();
      warnings := [];
      if reportExtras { warnings := CollectExtrasWarnings(requirements, codeArtifacts); }
    }
  }

  // ---------- the error lists are the unmet requirements ----------

  lemma ReportedUnderLayer(layer: string, name: string, code: Index)
    requires layer in code
    ensures Reported(NameAllowed(layer, name), code) <==> name in SENTINELS
    ensures Reported(ClassExists(layer, name), code) <==> name !in SENTINELS && name !in code[layer].classes
    ensures Reported(FileScanned(layer, name), code) <==> name !in code[layer].functions
  {
    assert Unmasked(LayerExists(layer), code);
    assert Unmasked(NameAllowed(layer, name), code);
  }

  lemma ReportedSection(layer: string, isList: bool, code: Index)
    requires layer in code
    ensures Reported(SectionIsList(layer, isList), code) <==> !isList
  {
    assert Unmasked(LayerExists(layer), code);
  }

  lemma ReportedMember(layer: string, name: string, member: string, code: Index)
    requires layer in code
    ensures Reported(MethodExists(layer, name, member), code) <==>
            name !in SENTINELS && name in code[layer].classes && member !in code[layer].classes[name]
    ensures Reported(FunctionExists(layer, name, member), code) <==>
            name in code[layer].functions && member !in code[layer].functions[name]
  {
    assert Unmasked(LayerExists(layer), code);
    assert Unmasked(NameAllowed(layer, name), code);
    assert Unmasked(ClassExists(layer, name), code) <==> name !in SENTINELS;
    assert Unmasked(FileScanned(layer, name), code);
  }

  lemma {:induction false} MissingMethodsAreUnmet(layer: string, name: string, methods: seq<string>, code: Index)
    requires layer in code
    ensures Unmet(MethodRequirements(layer, name, methods), code) ==
            if name in SENTINELS || name !in code[layer].classes then []
            else MissingMethods(layer, name, methods, code[layer].classes[name])
  {
    if methods == [] {
    } else {
      hide Unmet, Reported;
      var init, m := methods[..|methods| - 1], methods[|methods| - 1];
      MissingMethodsAreUnmet(layer, name, init, code);
      UnmetSplit(MethodRequirements(layer, name, init), [MethodExists(layer, name, m)], code);
      UnmetOne(MethodExists(layer, name, m), code);
      ReportedMember(layer, name, m, code);
    }
  }

  lemma ClassErrorsAreUnmet(layer: string, c: RequiredClass, code: Index)
    requires layer in code
    ensures Unmet(ClassRequirements(layer, c), code) == ClassErrors(layer, c, code[layer])
  {
    hide Unmet, Reported, MissingMethods, MethodRequirements;
    var a, b := NameAllowed(layer, c.name), ClassExists(layer, c.name);
    var rest := MethodRequirements(layer, c.name, c.methods);
    assert ClassRequirements(layer, c) == [a] + ([b] + rest);
    UnmetSplit([a], [b] + rest, code);
    UnmetSplit([b], rest, code);
    UnmetOne(a, code);
    UnmetOne(b, code);
    ReportedUnderLayer(layer, c.name, code);
    MissingMethodsAreUnmet(layer, c.name, c.methods, code);
  }

  lemma {:induction false} ClassesErrorsAreUnmet(layer: string, cs: seq<RequiredClass>, code: Index)
    requires layer in code
    ensures Unmet(ClassesRequirements(layer, cs), code) == ClassesErrors(layer, cs, code[layer])
  {
    if cs == [] {
    } else {
      hide Unmet, ClassErrors, ClassRequirements;
      var init, last := cs[..|cs| - 1], cs[|cs| - 1];
      ClassesErrorsAreUnmet(layer, init, code);
      ClassErrorsAreUnmet(layer, last, code);
      UnmetSplit(ClassesRequirements(layer, init), ClassRequirements(layer, last), code);
    }
  }

  lemma {:induction false} MissingFunctionsAreUnmet(layer: string, path: string, functions: seq<string>, code: Index)
    requires layer in code
    ensures Unmet(FunctionRequirements(layer, path, functions), code) ==
            if path !in code[layer].functions then []
            else MissingFunctions(layer, path, functions, code[layer].functions[path])
  {
    if functions == [] {
    } else {
      hide Unmet, Reported;
      var init, f := functions[..|functions| - 1], functions[|functions| - 1];
      MissingFunctionsAreUnmet(layer, path, init, code);
      UnmetSplit(FunctionRequirements(layer, path, init), [FunctionExists(layer, path, f)], code);
      UnmetOne(FunctionExists(layer, path, f), code);
      ReportedMember(layer, path, f, code);
    }
  }

  lemma {:induction false} FileErrorsAreUnmet(layer: string, f: RequiredFile, code: Index)
    requires layer in code
    ensures Unmet(FileRequirements(layer, f), code) == FileErrors(layer, f, code[layer])
  {
    hide Unmet, Reported, MissingFunctions, FunctionRequirements;
    var path := FilePaths.NormalizeRelPath(f.relativePath);
    UnmetSplit([FileScanned(layer, path)], FunctionRequirements(layer, path, f.functions), code);
    UnmetOne(FileScanned(layer, path), code);
    ReportedUnderLayer(layer, path, code);
    MissingFunctionsAreUnmet(layer, path, f.functions, code);
  }

  lemma {:induction false} FilesErrorsAreUnmet(layer: string, fs: seq<RequiredFile>, code: Index)
    requires layer in code
    ensures Unmet(FilesRequirements(layer, fs), code) == FilesErrors(layer, fs, code[layer])
  {
    if fs == [] {
    } else {
      hide Unmet, FileErrors, FileRequirements;
      var init, last := fs[..|fs| - 1], fs[|fs| - 1];
      FilesErrorsAreUnmet(layer, init, code);
      FileErrorsAreUnmet(layer, last, code);
      UnmetSplit(FilesRequirements(layer, init), FileRequirements(layer, last), code);
    }
  }

  lemma ReportedEntry(layer: string, e: Endpoint, code: Index)
    requires layer in code
    ensures !Reported(EntryIsMapping(layer, Given(e)), code)
    ensures Reported(KeyIsComplete(layer, e), code) <==> Incomplete(Key(e))
    ensures Reported(RouteExists(layer, e), code) <==>
            !Incomplete(Key(e)) && Key(e) !in RoutesByKey(code[layer].routes)
    ensures Reported(ParametersMatch(layer, e), code) <==>
            && !Incomplete(Key(e)) && Key(e) in RoutesByKey(code[layer].routes)
            && Freeze(e.parameters) != Freeze(RoutesByKey(code[layer].routes)[Key(e)].parameters)
  {
    RoutesByKeyHas(code[layer].routes, Key(e));
    assert Unmasked(SectionIsList(layer, true), code);
    assert Unmasked(EntryIsMapping(layer, Given(e)), code);
    assert Unmasked(KeyIsComplete(layer, e), code);
    assert Unmasked(RouteExists(layer, e), code) <==> !Incomplete(Key(e));
  }

  lemma EntryErrorsAreUnmet(layer: string, e: RequiredEndpoint, code: Index)
    requires layer in code
    ensures Unmet(EntryRequirements(layer, e), code) == EntryErrors(layer, e, RoutesByKey(code[layer].routes))
  {
    var a := EntryIsMapping(layer, e);
    UnmetOne(a, code);
    if e.NotAMapping? {
      assert Unmasked(SectionIsList(layer, true), code);
    } else {
      hide Unmet, Reported, Freeze, RoutesByKey;
      var b, c, d := KeyIsComplete(layer, e.endpoint), RouteExists(layer, e.endpoint),
                     ParametersMatch(layer, e.endpoint);
      assert EntryRequirements(layer, e) == [a] + ([b] + ([c] + [d]));
      UnmetSplit([a], [b] + ([c] + [d]), code);
      UnmetSplit([b], [c] + [d], code);
      UnmetSplit([c], [d], code);
      UnmetOne(b, code);
      UnmetOne(c, code);
      UnmetOne(d, code);
      ReportedEntry(layer, e.endpoint, code);
    }
  }

  lemma {:induction false} EntriesErrorsAreUnmet(layer: string, es: seq<RequiredEndpoint>, code: Index)
    requires layer in code
    ensures Unmet(EntriesRequirements(layer, es), code) == EntriesErrors(layer, es, RoutesByKey(code[layer].routes))
  {
    if es == [] {
    } else {
      hide Unmet, EntryErrors, EntryRequirements;
      var init, last := es[..|es| - 1], es[|es| - 1];
      EntriesErrorsAreUnmet(layer, init, code);
      EntryErrorsAreUnmet(layer, last, code);
      UnmetSplit(EntriesRequirements(layer, init), EntryRequirements(layer, last), code);
    }
  }

  lemma HttpErrorsAreUnmet(layer: string, http: EndpointSection, code: Index)
    requires layer in code
    ensures Unmet(HttpRequirements(layer, http), code) == HttpErrors(layer, http, code[layer])
  {
    hide Unmet, Reported, EntriesErrors, EntriesRequirements;
    ReportedSection(layer, http.Entries?, code);
    UnmetMasked([], code);
    if http.NotAList? {
      UnmetOne(SectionIsList(layer, false), code);
    } else if http.Entries? {
      UnmetOne(SectionIsList(layer, true), code);
      UnmetSplit([SectionIsList(layer, true)], EntriesRequirements(layer, http.entries), code);
      EntriesErrorsAreUnmet(layer, http.entries, code);
    }
  }

  lemma LayerUnmetSplit(e: LayerEntry, code: Index)
    ensures Unmet(LayerRequirements(e), code) ==
            Unmet([LayerExists(e.layer)], code) +
            Unmet(ClassesRequirements(e.layer, e.section.classes), code) +
            Unmet(FilesRequirements(e.layer, e.section.files), code) +
            Unmet(HttpRequirements(e.layer, e.section.http), code)
  {
    var top := [LayerExists(e.layer)];
    var cs, fs := ClassesRequirements(e.layer, e.section.classes), FilesRequirements(e.layer, e.section.files);
    UnmetSplit(top + cs + fs, HttpRequirements(e.layer, e.section.http), code);
    UnmetSplit(top + cs, fs, code);
    UnmetSplit(top, cs, code);
  }

  lemma LayerErrorsAreUnmet(e: LayerEntry, code: Index)
    ensures Unmet(LayerRequirements(e), code) == LayerErrors(e, code)
  {
    hide ClassesErrors, FilesErrors, HttpErrors, Unmet, ClassesRequirements, FilesRequirements, HttpRequirements;
    LayerUnmetSplit(e, code);
    UnmetOne(LayerExists(e.layer), code);
    if e.layer in code {
      ClassesErrorsAreUnmet(e.layer, e.section.classes, code);
      FilesErrorsAreUnmet(e.layer, e.section.files, code);
      HttpErrorsAreUnmet(e.layer, e.section.http, code);
    } else {
      MissingLayerMasks(e, code);
    }
  }

  lemma MissingLayerMasks(e: LayerEntry, code: Index)
    requires e.layer !in code
    ensures Unmet(ClassesRequirements(e.layer, e.section.classes), code) == []
    ensures Unmet(FilesRequirements(e.layer, e.section.files), code) == []
    ensures Unmet(HttpRequirements(e.layer, e.section.http), code) == []
  {
    var cs, fs := ClassesRequirements(e.layer, e.section.classes), FilesRequirements(e.layer, e.section.files);
    var hs := HttpRequirements(e.layer, e.section.http);
    forall r | r in cs + fs + hs ensures !Unmasked(r, code) { BelowLayer(e, r, code); }
    UnmetMasked(cs, code);
    UnmetMasked(fs, code);
    UnmetMasked(hs, code);
  }

  lemma {:induction false} ErrorsAreUnmet(c: Contract, code: Index)
    ensures ContractErrors(c, code) == Unmet(ContractRequirements(c), code)
  {
    if c == [] {
    } else {
      hide Unmet, LayerErrors, LayerRequirements;
      var init, last := c[..|c| - 1], c[|c| - 1];
      ErrorsAreUnmet(init, code);
      LayerErrorsAreUnmet(last, code);
      UnmetSplit(ContractRequirements(init), LayerRequirements(last), code);
    }
  }

  /** Everything a layer's section requires depends on the layer being there. */
  lemma {:induction false} BelowLayer(e: LayerEntry, r: Requirement, code: Index)
    requires e.layer !in code
    requires r in ClassesRequirements(e.layer, e.section.classes) + FilesRequirements(e.layer, e.section.files) +
                  HttpRequirements(e.layer, e.section.http)
    ensures !Unmasked(r, code)
    decreases Depth(r)
  {
    hide ClassesRequirements, FilesRequirements, EntriesRequirements;
    ClassesHaveParents(e.layer, e.section.classes);
    FilesHaveParents(e.layer, e.section.files);
    if e.section.http.Entries? { EntriesHaveParents(e.layer, e.section.http.entries); }
    if Parent(r) != Some(LayerExists(e.layer)) { BelowLayer(e, Parent(r).value, code); }
  }
}
