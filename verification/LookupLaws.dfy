/** The comparator's look-up tables, in terms of the lists they are made from: the last entry counts. */
module LookupLaws {
  import opened Names
  import opened SourceTrees
  import opened Requirements
  import opened Extras
  import opened WarningOrder
  import FilePaths

  /** A route's key has its verb in upper case, its path and its handler; it is incomplete if one is empty. */
  lemma KeyIs(e: Endpoint)
    ensures Key(e).0 == Upper(e.verb) && Key(e).1 == e.path && Key(e).2 == e.handler
    ensures Incomplete(Key(e)) <==> e.verb == "" || e.path == "" || e.handler == ""
  {
  }

  /** Route `i` is the last one with this key. */
  ghost predicate LastRoute(routes: seq<Endpoint>, i: int, k: RouteKey) {
    0 <= i < |routes| && Key(routes[i]) == k && forall j :: i < j < |routes| ==> Key(routes[j]) != k
  }

  lemma {:induction false} RouteTableKeepsLast(routes: seq<Endpoint>, k: RouteKey)
    ensures k in RoutesByKey(routes) <==> exists i :: LastRoute(routes, i, k)
    ensures forall i :: LastRoute(routes, i, k) ==> RoutesByKey(routes)[k] == routes[i]
  {
    hide Key;
    if routes == [] {
    } else {
      var init, last := routes[..|routes| - 1], routes[|routes| - 1];
      RouteTableKeepsLast(init, k);
      assert forall i :: 0 <= i < |init| ==> init[i] == routes[i];
      if Key(last) == k {
        assert LastRoute(routes, |routes| - 1, k);
      } else {
        forall i ensures LastRoute(routes, i, k) <==> LastRoute(init, i, k) {}
      }
    }
  }

  /** Class entry `i` is the last one with this name. */
  ghost predicate LastClass(cs: seq<RequiredClass>, i: int, name: string) {
    0 <= i < |cs| && cs[i].name == name && forall j :: i < j < |cs| ==> cs[j].name != name
  }

  lemma {:induction false} ClassTableKeepsLast(cs: seq<RequiredClass>, name: string)
    ensures name in SpecClasses(cs) <==> name != "" && exists i :: LastClass(cs, i, name)
    ensures forall i :: LastClass(cs, i, name) && name != "" ==>
              forall m :: m in SpecClasses(cs)[name] <==> m in cs[i].methods
  {
    if cs == [] {
    } else {
      var init, last := cs[..|cs| - 1], cs[|cs| - 1];
      ClassTableKeepsLast(init, name);
      assert forall i :: 0 <= i < |init| ==> init[i] == cs[i];
      if last.name == name {
        assert LastClass(cs, |cs| - 1, name);
      } else {
        forall i ensures LastClass(cs, i, name) <==> LastClass(init, i, name) {}
      }
    }
  }

  /** File entry `i` is the last one whose path normalises to this one. */
  ghost predicate LastFile(fs: seq<RequiredFile>, i: int, path: string) {
    && 0 <= i < |fs| && FilePaths.NormalizeRelPath(fs[i].relativePath) == path
    && forall j :: i < j < |fs| ==> FilePaths.NormalizeRelPath(fs[j].relativePath) != path
  }

  lemma {:induction false} FileTableKeepsLast(fs: seq<RequiredFile>, path: string)
    ensures path in SpecFiles(fs) <==> exists i :: LastFile(fs, i, path)
    ensures forall i :: LastFile(fs, i, path) ==> forall f :: f in SpecFiles(fs)[path] <==> f in fs[i].functions
  {
    hide FilePaths.NormalizeRelPath;
    if fs == [] {
    } else {
      var init, last := fs[..|fs| - 1], fs[|fs| - 1];
      FileTableKeepsLast(init, path);
      assert forall i :: 0 <= i < |init| ==> init[i] == fs[i];
      if FilePaths.NormalizeRelPath(last.relativePath) == path {
        assert LastFile(fs, |fs| - 1, path);
      } else {
        forall i ensures LastFile(fs, i, path) <==> LastFile(init, i, path) {}
      }
    }
  }

  /** The keys to warn about come in the order of the routes and as often: a route gives its key unless the key
      is incomplete or declared. */
  lemma UnlistedKeysInOrder(x: seq<Endpoint>, y: seq<Endpoint>, e: Endpoint, spec: set<RouteKey>)
    ensures UnlistedKeys(x + y, spec) == UnlistedKeys(x, spec) + UnlistedKeys(y, spec)
    ensures UnlistedKeys([e], spec) == if Incomplete(Key(e)) || Key(e) in spec then [] else [Key(e)]
  {
    UnlistedKeysConcat(x, y, spec);
    assert [e][..0] == [];
  }

  lemma UnlistedKeysConcat(x: seq<Endpoint>, y: seq<Endpoint>, spec: set<RouteKey>)
    ensures UnlistedKeys(x + y, spec) == UnlistedKeys(x, spec) + UnlistedKeys(y, spec)
  {
    hide Key, Incomplete;
    if y == [] {
      assert x + y == x;
    } else {
      UnlistedKeysConcat(x, y[..|y| - 1], spec);
      assert (x + y)[..|x + y| - 1] == x + y[..|y| - 1];
    }
  }

  /** The warned keys of a layer come in the order of the warnings and as often. */
  lemma WarnedKeysInOrder(v: seq<Extra>, w: seq<Extra>, x: Extra, layer: string)
    ensures RouteKeysIn(v + w, layer) == RouteKeysIn(v, layer) + RouteKeysIn(w, layer)
    ensures RouteKeysIn([x], layer) == if x.UnlistedRoute? && x.layer == layer then [x.key] else []
  {
    RouteKeysConcat(v, w, layer);
    assert [x][..0] == [];
  }

  /** The keys of a section are exactly those of its mapping entries. */
  lemma SectionKeysAre(http: EndpointSection, k: RouteKey)
    ensures k in SpecKeys(http) <==> http.Entries? && exists e :: Given(e) in http.entries && Key(e) == k
  {
    if http.Entries? {
      if e :| Given(e) in http.entries && Key(e) == k { assert Key(Given(e).endpoint) == k; }
      if k in SpecKeys(http) {
        var e :| e in http.entries && e.Given? && Key(e.endpoint) == k;
        assert Given(e.endpoint) in http.entries;
      }
    }
  }
}
