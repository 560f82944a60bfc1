/** Contracts as they are written, with shorthand keys, and as the comparator reads them. */
module ContractNormalizer {
  import opened Common
  import opened Names
  import opened SourceTrees
  import opened SourceIndex
  import opened ParameterRows
  import opened Requirements
  import opened Extras
  import opened Surface
  import opened SpecDocument
  import FilePaths
  import Growth

  /** A shorthand key of a layer: not there, something else than a mapping, or names with their members. */
  datatype Shorthand = Absent | NotAMapping | Mapping(members: map<string, seq<string>>)

  /** The `http` key; `endpoints` is None when that is no list. */
  datatype HttpBlock =
    | NoBlock
    | BlockNotAMapping
    | Block(prefix: Option<string>, endpoints: Option<seq<RequiredEndpoint>>)

  datatype RawLayer = RawLayer(
    classes: Shorthand, moduleFunctions: Shorthand, http: HttpBlock,
    requiredClasses: Option<seq<RequiredClass>>, requiredFiles: Option<seq<RequiredFile>>,
    requiredEndpoints: EndpointSection)

  datatype LayerValue = NotALayer | Layer(raw: RawLayer)

  /** `layers` in document order; `feature` is None when it is missing or no string. */
  datatype Document =
    | NotADocument
    | NoLayers
    | Document(layers: seq<(string, LayerValue)>, feature: Option<string>)

  datatype Error =
    | RootIsNoMapping
    | LayersMissing
    | UnknownLayer(name: string)
    | LayerIsNoMapping(name: string)
    | FeatureMissing

  // ---------- what a layer becomes ----------

  predicate Listing(s: Shorthand) { s.Mapping? && s.members != map[] }

  ghost predicate ListsClasses(cs: seq<RequiredClass>, members: map<string, seq<string>>) {
    && (forall i, j :: 0 <= i < j < |cs| ==> Less(cs[i].name, cs[j].name))
    && (forall c :: c in cs ==> c.name in members && c.methods == members[c.name])
    && (forall name :: name in members ==> RequiredClass(name, members[name]) in cs)
  }

  ghost predicate ListsFiles(fs: seq<RequiredFile>, members: map<string, seq<string>>) {
    && (forall i, j :: 0 <= i < j < |fs| ==> Less(fs[i].relativePath, fs[j].relativePath))
    && (forall f :: f in fs ==> f.relativePath in members && f.functions == members[f.relativePath])
    && (forall path :: path in members ==> RequiredFile(path, members[path]) in fs)
  }

  function OrNothing<T>(xs: Option<seq<T>>): seq<T> { if xs.Some? then xs.value else [] }

  function HttpSection(raw: RawLayer): EndpointSection {
    if !raw.http.Block? then raw.requiredEndpoints
    else
      var eps := NormalizedEndpoints(raw.http.prefix, OrNothing(raw.http.endpoints));
      if eps == [] then Omitted else Entries(seq(|eps|, i requires 0 <= i < |eps| => Given(eps[i])))
  }

  /** A key in shorthand takes over from its long form when it lists something; an `http` block takes over
      even when it has no usable entry, and the long form is then dropped. */
  ghost predicate Normalized(raw: RawLayer, s: LayerSection) {
    && (if Listing(raw.classes) then ListsClasses(s.classes, raw.classes.members)
        else s.classes == OrNothing(raw.requiredClasses))
    && (if Listing(raw.moduleFunctions) then ListsFiles(s.files, raw.moduleFunctions.members)
        else s.files == OrNothing(raw.requiredFiles))
    && s.http == HttpSection(raw)
  }

  predicate UsesShorthand(raw: RawLayer) {
    !raw.classes.Absent? || !raw.moduleFunctions.Absent? || !raw.http.NoBlock?
  }

  method NormalizeLayer(raw: RawLayer) returns (s: LayerSection)
    ensures Normalized(raw, s)
  {
    if !UsesShorthand(raw) {
      return LayerSection(OrNothing(raw.requiredClasses), OrNothing(raw.requiredFiles), raw.requiredEndpoints);
    }
    var classes, files := OrNothing(raw.requiredClasses), OrNothing(raw.requiredFiles);
    if Listing(raw.classes) { classes := SortedClasses(raw.classes.members); }
    if Listing(raw.moduleFunctions) { files := SortedFiles(raw.moduleFunctions.members); }
    var http := raw.requiredEndpoints;
    if raw.http.Block? {
      var eps := NormalizeHttpEndpoints(raw.http.prefix, OrNothing(raw.http.endpoints));
      http := if eps == [] then Omitted else Entries(seq(|eps|, i requires 0 <= i < |eps| => Given(eps[i])));
    }
    s := LayerSection(classes, files, http);
  }

  method SortedClasses(members: map<string, seq<string>>) returns (cs: seq<RequiredClass>)
    ensures ListsClasses(cs, members)
  {
    var names := SortedSet(members.Keys);
    cs := [];
    for i := 0 to |names|
      invariant |cs| == i
      invariant forall k :: 0 <= k < i ==> names[k] in members && cs[k] == RequiredClass(names[k], members[names[k]])
    {
      assert names[i] in names;
      cs := cs + [RequiredClass(names[i], members[names[i]])];
    }
    forall name | name in members ensures RequiredClass(name, members[name]) in cs {
      assert name in names;
      var k :| 0 <= k < |names| && names[k] == name;
      assert cs[k] in cs;
    }
  }

  method SortedFiles(members: map<string, seq<string>>) returns (fs: seq<RequiredFile>)
    ensures ListsFiles(fs, members)
  {
    var paths := SortedSet(members.Keys);
    fs := [];
    for i := 0 to |paths|
      invariant |fs| == i
      invariant forall k :: 0 <= k < i ==> paths[k] in members && fs[k] == RequiredFile(paths[k], members[paths[k]])
    {
      assert paths[i] in paths;
      fs := fs + [RequiredFile(paths[i], members[paths[i]])];
    }
    forall path | path in members ensures RequiredFile(path, members[path]) in fs {
      assert path in paths;
      var k :| 0 <= k < |paths| && paths[k] == path;
      assert fs[k] in fs;
    }
  }

  // ---------- endpoints that get lost ----------

  predicate Demands(http: EndpointSection, e: RequiredEndpoint) { http.Entries? && e in http.entries }

  /** The entry is one of those that the `http` block comes to. */
  predicate InBlock(raw: RawLayer, e: RequiredEndpoint) {
    raw.http.Block? && e.Given? && e.endpoint in NormalizedEndpoints(raw.http.prefix, OrNothing(raw.http.endpoints))
  }

  /** With an `http` block exactly its entries are demanded, without one exactly the long form's; a long form
      that is no list is complained about only without one. */
  lemma DemandedIff(raw: RawLayer, s: LayerSection, e: RequiredEndpoint)
    requires Normalized(raw, s)
    ensures Demands(s.http, e) <==> if raw.http.Block? then InBlock(raw, e) else Demands(raw.requiredEndpoints, e)
    ensures s.http.NotAList? <==> !raw.http.Block? && raw.requiredEndpoints.NotAList?
  {
    if raw.http.Block? {
      var eps := NormalizedEndpoints(raw.http.prefix, OrNothing(raw.http.endpoints));
      if InBlock(raw, e) {
        var i :| 0 <= i < |eps| && eps[i] == e.endpoint;
        assert s.http.entries[i] == e;
      }
    }
  }

  /** An entry of the long form is no longer demanded exactly when an `http` block stands beside it, usable
      or not, and the block does not come to the same entry. */
  lemma EntryIsLostIff(raw: RawLayer, s: LayerSection, e: RequiredEndpoint)
    requires Normalized(raw, s) && Demands(raw.requiredEndpoints, e)
    ensures !Demands(s.http, e) <==> raw.http.Block? && !InBlock(raw, e)
  {
    DemandedIff(raw, s, e);
  }

  lemma NoUsableEntryIff(prefix: Option<string>, entries: seq<RequiredEndpoint>)
    ensures NormalizedEndpoints(prefix, entries) == [] <==> forall e :: e in entries ==> e.NotAMapping?
  {
    if entries == [] {
    } else {
      var init, last := entries[..|entries| - 1], entries[|entries| - 1];
      NoUsableEntryIff(prefix, init);
      assert entries == init + [last];
      assert last in entries && forall e :: e in init ==> e in entries;
      assert NormalizedEndpoints(prefix, entries) == [] <==>
             NormalizedEndpoints(prefix, init) == [] && last.NotAMapping?;
    }
  }

  /** A layer with a long form demands no endpoint at all exactly when an `http` block without a usable entry
      stands beside it. */
  lemma AllEntriesAreLostIff(raw: RawLayer, s: LayerSection)
    requires Normalized(raw, s)
    ensures s.http == Omitted && raw.requiredEndpoints != Omitted <==>
            raw.requiredEndpoints != Omitted && raw.http.Block? &&
            forall e :: e in OrNothing(raw.http.endpoints) ==> e.NotAMapping?
  {
    if raw.http.Block? { NoUsableEntryIff(raw.http.prefix, OrNothing(raw.http.endpoints)); }
  }

  /** The requirement is one that the entry states. */
  predicate Concerns(r: Requirement, e: RequiredEndpoint) {
    match r
    case EntryIsMapping(_, entry) => entry == e
    case KeyIsComplete(_, ep) => e == Given(ep)
    case RouteExists(_, ep) => e == Given(ep)
    case ParametersMatch(_, ep) => e == Given(ep)
    case _ => false
  }

  lemma {:induction false} EntriesStateRequirements(layer: string, es: seq<RequiredEndpoint>, r: Requirement)
    requires r in EntriesRequirements(layer, es)
    ensures r.layer == layer && exists e :: e in es && Concerns(r, e)
  {
    var init, last := es[..|es| - 1], es[|es| - 1];
    assert es == init + [last];
    if r in EntriesRequirements(layer, init) {
      EntriesStateRequirements(layer, init, r);
    } else {
      assert Concerns(r, last) && last in es;
    }
  }

  lemma {:induction false} ClassesStateRequirements(layer: string, cs: seq<RequiredClass>, r: Requirement)
    requires r in ClassesRequirements(layer, cs)
    ensures r.layer == layer && forall e :: !Concerns(r, e)
  {
    var init, last := cs[..|cs| - 1], cs[|cs| - 1];
    if r in ClassesRequirements(layer, init) {
      ClassesStateRequirements(layer, init, r);
    } else {
      MembersInLayer(layer, last.name, last.methods);
    }
  }

  lemma {:induction false} FilesStateRequirements(layer: string, fs: seq<RequiredFile>, r: Requirement)
    requires r in FilesRequirements(layer, fs)
    ensures r.layer == layer && forall e :: !Concerns(r, e)
  {
    var init, last := fs[..|fs| - 1], fs[|fs| - 1];
    if r in FilesRequirements(layer, init) {
      FilesStateRequirements(layer, init, r);
    } else {
      MembersInLayer(layer, PathOf(last), last.functions);
    }
  }

  lemma MembersInLayer(layer: string, name: string, items: seq<string>)
    ensures forall r :: r in MethodRequirements(layer, name, items) ==> r.MethodExists? && r.layer == layer
    ensures forall r :: r in FunctionRequirements(layer, name, items) ==> r.FunctionExists? && r.layer == layer
  {
    if items == [] {
    } else {
      MembersInLayer(layer, name, items[..|items| - 1]);
    }
  }

  lemma LayerStatesRequirements(entry: LayerEntry, r: Requirement)
    requires r in LayerRequirements(entry)
    ensures r.layer == entry.layer
    ensures forall e :: Concerns(r, e) ==> Demands(entry.section.http, e)
  {
    hide ClassesRequirements, FilesRequirements, EntriesRequirements;
    var s := entry.section;
    if r in ClassesRequirements(entry.layer, s.classes) {
      ClassesStateRequirements(entry.layer, s.classes, r);
    } else if r in FilesRequirements(entry.layer, s.files) {
      FilesStateRequirements(entry.layer, s.files, r);
    } else if s.http.Entries? && r in EntriesRequirements(entry.layer, s.http.entries) {
      EntriesStateRequirements(entry.layer, s.http.entries, r);
    }
  }

  lemma {:induction false} ContractStatesRequirements(c: Contract, r: Requirement)
    requires r in ContractRequirements(c)
    ensures exists entry :: entry in c && r in LayerRequirements(entry)
  {
    var init, last := c[..|c| - 1], c[|c| - 1];
    assert c == init + [last];
    if r in ContractRequirements(init) {
      ContractStatesRequirements(init, r);
    } else {
      assert last in c && r in LayerRequirements(last);
    }
  }

  /** Whatever the code: nothing that the linter reports in the layer is about a lost entry. */
  lemma LostEntryGoesUnreported(raw: RawLayer, layer: string, s: LayerSection, e: RequiredEndpoint,
                                c: Contract, code: Index)
    requires Normalized(raw, s) && Demands(raw.requiredEndpoints, e) && raw.http.Block? && !InBlock(raw, e)
    requires DistinctLayers(c) && LayerEntry(layer, s) in c
    ensures forall r :: r in Unmet(ContractRequirements(c), code) && r.layer == layer ==> !Concerns(r, e)
  {
    hide Normalized, Unmet, ContractRequirements, LayerRequirements, InBlock, Concerns;
    DemandedIff(raw, s, e);
    UnmetMembers(ContractRequirements(c), code);
    forall r | r in Unmet(ContractRequirements(c), code) && r.layer == layer ensures !Concerns(r, e) {
      ContractStatesRequirements(c, r);
      var entry :| entry in c && r in LayerRequirements(entry);
      LayerStatesRequirements(entry, r);
      SectionOfEntry(c, entry);
      SectionOfEntry(c, LayerEntry(layer, s));
    }
  }

  /** So a layer passes without a route that its long form demands and its block does not. */
  lemma LayerPassesWithoutLostRoute(kept: Endpoint, lost: Endpoint)
    requires !Incomplete(Key(NormalizedEndpoint(None, kept)))
    requires Key(lost) != Key(NormalizedEndpoint(None, kept))
    ensures var raw := RawLayer(Absent, Absent, Block(None, Some([Given(kept)])), None, None, Entries([Given(lost)]));
            var route := NormalizedEndpoint(None, kept);
            var s := LayerSection([], [], Entries([Given(route)]));
            var code: Index := map["entrypoints" := Bucket(map[], map[], [route])];
            && Normalized(raw, s)
            && Unmet(ContractRequirements([LayerEntry("entrypoints", s)]), code) == []
            && !Holds(RouteExists("entrypoints", lost), code)
  {
    var route := NormalizedEndpoint(None, kept);
    hide NormalizedEndpoint, Key, Incomplete, Freeze;
    var s := LayerSection([], [], Entries([Given(route)]));
    var b := Bucket(map[], map[], [route]);
    var code: Index := map["entrypoints" := b];
    assert [Given(kept)][..0] == [];
    assert NormalizedEndpoints(None, [Given(kept)]) == [route];
    RoutesByKeyDistinct([route], route);
    assert EntryMet(Given(route), b);
    NoErrorsIff([LayerEntry("entrypoints", s)], code);
  }

  /** And a layer whose block is empty passes without any route. */
  lemma LostEndpointsGoUnreported(route: Endpoint)
    ensures var raw := RawLayer(Absent, Absent, Block(None, Some([])), None, None, Entries([Given(route)]));
            var s := LayerSection([], [], Omitted);
            var kept := LayerSection([], [], Entries([Given(route)]));
            var code: Index := map["entrypoints" := EMPTY_BUCKET];
            && Normalized(raw, s) && Normalized(raw.(http := NoBlock), kept)
            && Unmet(ContractRequirements([LayerEntry("entrypoints", s)]), code) == []
            && Unmet(ContractRequirements([LayerEntry("entrypoints", kept)]), code) != []
  {
    var s, kept := LayerSection([], [], Omitted), LayerSection([], [], Entries([Given(route)]));
    var code: Index := map["entrypoints" := EMPTY_BUCKET];
    NoErrorsIff([LayerEntry("entrypoints", s)], code);
    NoErrorsIff([LayerEntry("entrypoints", kept)], code);
    var e := LayerEntry("entrypoints", kept);
    assert !EntryOk(e, code) by {
      assert Given(route) in kept.http.entries && !EntryMet(Given(route), EMPTY_BUCKET);
    }
    assert e in [e];
    var eps := NormalizedEndpoints(None, []);
    assert eps == [];
  }

  // ---------- what a document becomes ----------

  function Problem(name: string, value: LayerValue): Option<Error> {
    if name !in FilePaths.KNOWN_LAYER_NAMES then Some(UnknownLayer(name))
    else if value.NotALayer? then Some(LayerIsNoMapping(name))
    else None
  }

  ghost predicate FirstProblem(layers: seq<(string, LayerValue)>, e: Error) {
    exists k :: 0 <= k < |layers| && Problem(layers[k].0, layers[k].1) == Some(e) &&
                forall j :: 0 <= j < k ==> Problem(layers[j].0, layers[j].1).None?
  }

  ghost predicate SoundLayers(layers: seq<(string, LayerValue)>) {
    forall k :: 0 <= k < |layers| ==> Problem(layers[k].0, layers[k].1).None?
  }

  ghost predicate NormalizedLayers(layers: seq<(string, LayerValue)>, c: Contract) {
    |c| == |layers| &&
    forall k :: 0 <= k < |c| ==>
      c[k].layer == layers[k].0 && layers[k].1.Layer? && Normalized(layers[k].1.raw, c[k].section)
  }

  predicate HasFeature(doc: Document)
    requires doc.Document?
  {
    doc.feature.Some? && Strip(doc.feature.value) != ""
  }

  /** Accepts exactly the documents whose layers are all known mappings and that name a feature; otherwise
      the error is the first in document order, and layers come before the feature. */
  method NormalizeContractDocument(doc: Document) returns (r: Result<(string, Contract), Error>)
    ensures r.Ok? <==> doc.Document? && SoundLayers(doc.layers) && HasFeature(doc)
    ensures r.Ok? ==> r.value.0 == Strip(doc.feature.value) && NormalizedLayers(doc.layers, r.value.1)
    ensures r.Err? ==>
              match doc
              case NotADocument => r.error == RootIsNoMapping
              case NoLayers => r.error == LayersMissing
              case Document(layers, _) =>
                if SoundLayers(layers) then r.error == FeatureMissing else FirstProblem(layers, r.error)
  {
    hide SoundLayers, NormalizedLayers, FirstProblem, Strip;
    if doc.NotADocument? { return Err(RootIsNoMapping); }
    if doc.NoLayers? { return Err(LayersMissing); }
    var layers := NormalizeLayers(doc.layers);
    if layers.Err? { return Err(layers.error); }
    if doc.feature.None? || Strip(doc.feature.value) == "" { return Err(FeatureMissing); }
    return Ok((Strip(doc.feature.value), layers.value));
  }

  method NormalizeLayers(layers: seq<(string, LayerValue)>) returns (r: Result<Contract, Error>)
    ensures r.Ok? <==> SoundLayers(layers)
    ensures r.Ok? ==> NormalizedLayers(layers, r.value)
    ensures r.Err? ==> FirstProblem(layers, r.error)
  {
    hide Normalized;
    var c: Contract := [];
    for i := 0 to |layers|
      invariant SoundLayers(layers[..i]) && NormalizedLayers(layers[..i], c)
    {
      var (name, value) := layers[i];
      if name !in FilePaths.KNOWN_LAYER_NAMES {
        assert Problem(layers[i].0, layers[i].1) == Some(UnknownLayer(name));
        return Err(UnknownLayer(name));
      }
      if value.NotALayer? {
        assert Problem(layers[i].0, layers[i].1) == Some(LayerIsNoMapping(name));
        return Err(LayerIsNoMapping(name));
      }
      var section := NormalizeLayer(value.raw);
      c := c + [LayerEntry(name, section)];
    }
    assert layers[..|layers|] == layers;
    return Ok(c);
  }

  // ---------- shorthand and exactness ----------

  /** Paths that are different in the document stay different when normalised. */
  ghost predicate PathsStayApart(members: map<string, seq<string>>) {
    forall p, q :: p in members && q in members && p != q ==>
      FilePaths.NormalizeRelPath(p) != FilePaths.NormalizeRelPath(q)
  }

  lemma {:induction false} ListedClassesAreDistinct(cs: seq<RequiredClass>, members: map<string, seq<string>>)
    requires ListsClasses(cs, members)
    ensures forall i, j :: 0 <= i < j < |cs| ==> cs[i].name != cs[j].name
    ensures SpecClasses(cs) == map name | name in members && name != "" :: ToSet(members[name])
  {
    forall i, j | 0 <= i < j < |cs| ensures cs[i].name != cs[j].name { LessIsTotal(cs[i].name, cs[j].name); }
    var spec := SpecClasses(cs);
    forall name | name in spec ensures name in members && name != "" && spec[name] == ToSet(members[name]) {
      SpecClassesOnly(cs, name);
      var c :| c in cs && c.name == name;
      SpecClassesHas(cs, c);
    }
    forall name | name in members && name != "" ensures name in spec {
      SpecClassesHas(cs, RequiredClass(name, members[name]));
    }
  }

  lemma ListedFilesAreDistinctIff(fs: seq<RequiredFile>, members: map<string, seq<string>>)
    requires ListsFiles(fs, members)
    ensures (forall i, j :: 0 <= i < j < |fs| ==> PathOf(fs[i]) != PathOf(fs[j])) <==> PathsStayApart(members)
  {
    forall i, j | 0 <= i < j < |fs| ensures fs[i].relativePath != fs[j].relativePath {
      LessIsTotal(fs[i].relativePath, fs[j].relativePath);
    }
    hide FilePaths.NormalizeRelPath;
    if forall i, j :: 0 <= i < j < |fs| ==> PathOf(fs[i]) != PathOf(fs[j]) {
      forall p, q | p in members && q in members && p != q
        ensures FilePaths.NormalizeRelPath(p) != FilePaths.NormalizeRelPath(q)
      {
        var i :| 0 <= i < |fs| && fs[i] == RequiredFile(p, members[p]);
        var j :| 0 <= j < |fs| && fs[j] == RequiredFile(q, members[q]);
        assert PathOf(fs[if i < j then i else j]) != PathOf(fs[if i < j then j else i]);
      }
    } else {
      var i, j :| 0 <= i < j < |fs| && PathOf(fs[i]) == PathOf(fs[j]);
      assert fs[i] in fs && fs[j] in fs;
    }
  }

  /** A layer whose classes and functions are in shorthand meets what the exactness theorem asks of a
      section exactly when no two of its paths are spellings of one file. */
  lemma ShorthandIsDistinctIff(raw: RawLayer, s: LayerSection)
    requires Normalized(raw, s) && Listing(raw.classes) && Listing(raw.moduleFunctions)
    ensures DistinctSection(s) <==> PathsStayApart(raw.moduleFunctions.members)
  {
    ListedClassesAreDistinct(s.classes, raw.classes.members);
    ListedFilesAreDistinctIff(s.files, raw.moduleFunctions.members);
  }

  ghost predicate TidyLayer(raw: RawLayer) {
    && (Listing(raw.classes) || raw.requiredClasses.None?)
    && (if Listing(raw.moduleFunctions) then PathsStayApart(raw.moduleFunctions.members) else raw.requiredFiles.None?)
  }

  lemma TidyIsDistinct(raw: RawLayer, s: LayerSection)
    requires Normalized(raw, s) && TidyLayer(raw)
    ensures DistinctSection(s)
  {
    if Listing(raw.classes) { ListedClassesAreDistinct(s.classes, raw.classes.members); }
    if Listing(raw.moduleFunctions) { ListedFilesAreDistinctIff(s.files, raw.moduleFunctions.members); }
  }

  /** From the document and the source files to the verdict: for a document in shorthand without two
      spellings of one file, and sources without repeated route keys, no errors and no warnings together
      mean exactly that contract and code have the same surface. */
  lemma ShorthandLinterIsExact(layers: seq<(string, LayerValue)>, c: Contract, files: seq<SourceFile>)
    requires forall i, j :: 0 <= i < j < |layers| ==> layers[i].0 != layers[j].0
    requires NormalizedLayers(layers, c)
    requires forall k :: 0 <= k < |layers| ==> TidyLayer(layers[k].1.raw)
    requires NoClash(ReadAll(files)) && forall f :: f in ReadAll(files) ==> Growth.WellNamed(f)
    requires forall f :: f in files ==> Growth.Parsed(f)
    requires forall layer :: Growth.DistinctKeys(LayerRoutes(ReadAll(files), layer))
    ensures var code := BuildIndex(ReadAll(files));
            Unmet(ContractRequirements(c), code) == [] && (forall x :: !IsExtra(x, c, code)) <==>
            SameContractAndCode(c, code)
  {
    hide BuildIndex, ReadAll, SameContractAndCode, Normalized, TidyLayer, DistinctSection;
    forall e | e in c ensures DistinctSection(e.section) {
      var k :| 0 <= k < |c| && c[k] == e;
      TidyIsDistinct(layers[k].1.raw, c[k].section);
    }
    Growth.LinterIsExactOnSources(c, files);
  }
}
