/** What is read off a syntax tree, in terms of the nodes that occur in it. */
module TreeLaws {
  import opened Common
  import opened Names
  import opened HandlerParameters
  import opened SourceTrees
  import RoutePaths

  // ---------- nodes at any depth ----------

  function Children(node: Node): seq<Node> {
    match node
    case Function(_, _, _, body) => body
    case Class(_, body) => body
    case RouterAssign(_, _) => []
    case Other(children) => children
  }

  /** The node reached by going to child `path[0]`, then to that node's child `path[1]`, and so on. */
  function NodeAt(tree: seq<Node>, path: seq<nat>): Option<Node>
    decreases |path|
  {
    if path == [] || path[0] >= |tree| then None
    else if |path| == 1 then Some(tree[path[0]])
    else NodeAt(Children(tree[path[0]]), path[1..])
  }

  // ---------- functions of a body ----------

  /** The body directly holds a function of this name, and the name does not start with an underscore. */
  ghost predicate HoldsFunction(body: seq<Node>, name: string) {
    !("_" <= name) && exists i :: 0 <= i < |body| && body[i].Function? && body[i].name == name
  }

  lemma {:induction false} FunctionNamesHas(body: seq<Node>, name: string)
    ensures name in FunctionNames(body) <==> exists i :: 0 <= i < |body| && body[i].Function? && body[i].name == name
  {
    if body == [] {
    } else {
      var init, last := body[..|body| - 1], body[|body| - 1];
      FunctionNamesHas(init, name);
      assert forall i :: 0 <= i < |init| ==> init[i] == body[i];
      if last.Function? && last.name == name { assert body[|body| - 1].name == name; }
    }
  }

  /** Exactly the functions a body directly holds under a public name, each once and in order. */
  lemma PublicFunctionsAreHeld(body: seq<Node>, name: string)
    ensures name in PublicFunctions(body) <==> HoldsFunction(body, name)
    ensures StrictlySorted(PublicFunctions(body))
  {
    var names := Public(FunctionNames(body));
    SortedIsSorted(names);
    assert name in Sorted(names) <==> name in ToSet(Sorted(names));
    FunctionNamesHas(body, name);
  }

  // ---------- classes ----------

  ghost predicate ClassAt(tree: seq<Node>, path: seq<nat>, d: ClassDecl) {
    match NodeAt(tree, path)
    case Some(Class(name, body)) => d == ClassDecl(name, PublicFunctions(body))
    case _ => false
  }

  lemma {:induction false} ClassesAreFound(tree: seq<Node>, d: ClassDecl) returns (path: seq<nat>)
    requires d in Classes(tree)
    ensures ClassAt(tree, path, d)
    decreases tree, 0
  {
    if d in ClassesIn(tree[0]) {
      var inner := ClassesInAreFound(tree[0], d);
      path := [0] + inner;
      assert path[1..] == inner;
    } else {
      var rest := ClassesAreFound(tree[1..], d);
      path := [rest[0] + 1] + rest[1..];
      assert path[1..] == rest[1..];
    }
  }

  /** An empty path stands for the node itself. */
  lemma {:induction false} ClassesInAreFound(node: Node, d: ClassDecl) returns (path: seq<nat>)
    requires d in ClassesIn(node)
    ensures if path == [] then node.Class? && d == ClassDecl(node.name, PublicFunctions(node.body))
            else ClassAt(Children(node), path, d)
    decreases node, 1
  {
    if node.Class? && d == ClassDecl(node.name, PublicFunctions(node.body)) {
      path := [];
    } else {
      path := ClassesAreFound(Children(node), d);
    }
  }

  lemma ClassesOfPart(tree: seq<Node>, i: nat, d: ClassDecl)
    requires i < |tree| && d in ClassesIn(tree[i])
    ensures d in Classes(tree)
  {
    if i > 0 { ClassesOfPart(tree[1..], i - 1, d); }
  }

  lemma {:induction false} FoundClassesAreListed(tree: seq<Node>, path: seq<nat>, d: ClassDecl)
    requires ClassAt(tree, path, d)
    ensures d in Classes(tree)
    decreases |path|
  {
    var node := tree[path[0]];
    if |path| > 1 { FoundClassesAreListed(Children(node), path[1..], d); }
    ClassesOfPart(tree, path[0], d);
  }

  /** A class of this name occurs in the tree. */
  ghost predicate HasClass(tree: seq<Node>, c: string) {
    exists path :: NodeAt(tree, path).Some? && NodeAt(tree, path).value.Class? && NodeAt(tree, path).value.name == c
  }

  /** A class of this name occurs whose body directly holds a public function of that name. */
  ghost predicate HasMethod(tree: seq<Node>, c: string, m: string) {
    exists path ::
      && NodeAt(tree, path).Some? && NodeAt(tree, path).value.Class? && NodeAt(tree, path).value.name == c
      && HoldsFunction(NodeAt(tree, path).value.body, m)
  }

  /** The declared classes are exactly those that occur in the tree, however deep. */
  lemma ClassesOccur(tree: seq<Node>, c: string)
    ensures (exists d :: d in Classes(tree) && d.name == c) <==> HasClass(tree, c)
  {
    if d :| d in Classes(tree) && d.name == c {
      var path := ClassesAreFound(tree, d);
    }
    if HasClass(tree, c) {
      var path :| NodeAt(tree, path).Some? && NodeAt(tree, path).value.Class? && NodeAt(tree, path).value.name == c;
      FoundClassesAreListed(tree, path, ClassDecl(c, PublicFunctions(NodeAt(tree, path).value.body)));
    }
  }

  /** And their methods are exactly the public functions their bodies directly hold. */
  lemma MethodsOccur(tree: seq<Node>, c: string, m: string)
    ensures (exists d :: d in Classes(tree) && d.name == c && m in d.methods) <==> HasMethod(tree, c, m)
  {
    if d :| d in Classes(tree) && d.name == c && m in d.methods {
      var path := ClassesAreFound(tree, d);
      PublicFunctionsAreHeld(NodeAt(tree, path).value.body, m);
    }
    if HasMethod(tree, c, m) {
      var path :|
        && NodeAt(tree, path).Some? && NodeAt(tree, path).value.Class? && NodeAt(tree, path).value.name == c
        && HoldsFunction(NodeAt(tree, path).value.body, m);
      var body := NodeAt(tree, path).value.body;
      PublicFunctionsAreHeld(body, m);
      FoundClassesAreListed(tree, path, ClassDecl(c, PublicFunctions(body)));
    }
  }

  // ---------- routes ----------

  lemma {:induction false} UpperAt(s: string, i: nat)
    requires i < |s|
    ensures |Upper(s)| == |s|
    ensures 'a' <= s[i] <= 'z' ==> Upper(s)[i] as int == s[i] as int - 32
    ensures !('a' <= s[i] <= 'z') ==> Upper(s)[i] == s[i]
  {
    if i == 0 {
      UpperLength(s);
    } else {
      UpperAt(s[1..], i - 1);
    }
  }

  lemma UpperLength(s: string)
    ensures |Upper(s)| == |s|
  {
    if s == "" {
    } else {
      UpperLength(s[1..]);
    }
  }

  /** The decorator is `@router.verb("path")` for one of the seven verbs. */
  ghost predicate IsRoute(d: Decorator) {
    d.RouteCall? && d.verb in {"get", "post", "put", "patch", "delete", "head", "options"}
  }

  /** The prefix the module gives a router variable; without one, or with an empty one, there is none. */
  function PrefixOf(router: string, prefixes: map<string, string>): Option<string> {
    if router in prefixes && prefixes[router] != "" then Some(prefixes[router]) else None
  }

  /** Decorator `k` is the first route, and this is its verb and path. */
  ghost predicate FirstRouteAt(ds: seq<Decorator>, prefixes: map<string, string>, k: int, verb: string, path: string) {
    && 0 <= k < |ds| && IsRoute(ds[k]) && (forall j :: 0 <= j < k ==> !IsRoute(ds[j]))
    && verb == Upper(ds[k].verb) && path == RoutePaths.Join(PrefixOf(ds[k].router, prefixes), ds[k].path)
  }

  /** Endpoint `e` is what the node says: a function under a public name, whose first route decorator gives
      verb and path. */
  ghost predicate Describes(node: Node, prefixes: map<string, string>, e: Endpoint) {
    && node.Function? && !("_" <= node.name) && e.handler == node.name
    && e.parameters == Recorded(AllArguments(node.arguments))
    && exists k :: FirstRouteAt(node.decorators, prefixes, k, e.verb, e.path)
  }

  lemma {:induction false} FirstRouteIsFound(ds: seq<Decorator>, prefixes: map<string, string>) returns (k: nat)
    requires FirstRoute(ds, prefixes).Some?
    ensures var (verb, path) := FirstRoute(ds, prefixes).value; FirstRouteAt(ds, prefixes, k, verb, path)
  {
    hide Upper, RoutePaths.Join;
    if RouteOf(ds[0], prefixes).Some? {
      k := 0;
    } else {
      var rest := ds[1..];
      var i := FirstRouteIsFound(rest, prefixes);
      k := i + 1;
      assert ds[k] == rest[i];
      forall j | 0 <= j < k ensures !IsRoute(ds[j]) {
        if j > 0 { assert ds[j] == rest[j - 1]; }
      }
    }
  }

  lemma {:induction false} FoundRouteIsFirst(ds: seq<Decorator>, prefixes: map<string, string>, k: int,
                                             verb: string, path: string)
    requires FirstRouteAt(ds, prefixes, k, verb, path)
    ensures FirstRoute(ds, prefixes) == Some((verb, path))
    decreases |ds|
  {
    hide Upper, RoutePaths.Join;
    if k > 0 {
      var rest := ds[1..];
      assert !IsRoute(ds[0]) && rest[k - 1] == ds[k];
      assert forall j :: 0 <= j < k - 1 ==> rest[j] == ds[j + 1];
      FoundRouteIsFirst(rest, prefixes, k - 1, verb, path);
    }
  }

  ghost predicate SomeDescribes(nodes: seq<Node>, prefixes: map<string, string>, e: Endpoint) {
    exists i :: 0 <= i < |nodes| && Describes(nodes[i], prefixes, e)
  }

  lemma OneMoreDescribes(nodes: seq<Node>, last: Node, prefixes: map<string, string>, e: Endpoint)
    ensures SomeDescribes(nodes + [last], prefixes, e) <==>
            SomeDescribes(nodes, prefixes, e) || Describes(last, prefixes, e)
  {
    hide Describes;
    var all := nodes + [last];
    assert forall i :: 0 <= i < |nodes| ==> all[i] == nodes[i];
    assert all[|nodes|] == last;
  }

  /** The endpoints of a module are exactly what its top-level nodes say. */
  lemma {:induction false} EndpointsAreDescribed(nodes: seq<Node>, prefixes: map<string, string>, e: Endpoint)
    ensures e in EndpointsWith(nodes, prefixes) <==> SomeDescribes(nodes, prefixes, e)
  {
    if nodes == [] {
    } else {
      hide EndpointsWith, SomeDescribes, Describes;
      var init, last := nodes[..|nodes| - 1], nodes[|nodes| - 1];
      EndpointsAreDescribed(init, prefixes, e);
      EndpointsOneMore(init, last, prefixes, e);
      LastEndpoint(last, prefixes, e);
      OneMoreDescribes(init, last, prefixes, e);
      assert nodes == init + [last];
    }
  }

  lemma EndpointsOneMore(nodes: seq<Node>, last: Node, prefixes: map<string, string>, e: Endpoint)
    ensures e in EndpointsWith(nodes + [last], prefixes) <==>
            e in EndpointsWith(nodes, prefixes) || e in EndpointsWith([last], prefixes)
  {
    EndpointsInOrder(nodes, [last], prefixes);
    hide EndpointsWith;
  }

  lemma LastEndpoint(node: Node, prefixes: map<string, string>, e: Endpoint)
    ensures e in EndpointsWith([node], prefixes) <==> Describes(node, prefixes, e)
  {
    EndpointOfNode(node, prefixes, e);
    hide EndpointsWith, FirstRoute, Recorded, FirstRouteAt;
    if node.Function? {
      assert "_" <= node.name <==> node.name != "" && node.name[0] == '_';
      if FirstRoute(node.decorators, prefixes) == Some((e.verb, e.path)) {
        var k := FirstRouteIsFound(node.decorators, prefixes);
      }
      if k :| FirstRouteAt(node.decorators, prefixes, k, e.verb, e.path) {
        FoundRouteIsFirst(node.decorators, prefixes, k, e.verb, e.path);
      }
    }
  }

  lemma EndpointOfNode(node: Node, prefixes: map<string, string>, e: Endpoint)
    ensures e in EndpointsWith([node], prefixes) <==>
            && node.Function? && IsPublic(node.name) && FirstRoute(node.decorators, prefixes) == Some((e.verb, e.path))
            && e.handler == node.name && e.parameters == Recorded(AllArguments(node.arguments))
  {
    hide FirstRoute, Recorded, IsPublic;
    assert [node][..0] == [];
    if node.Function? && IsPublic(node.name) && FirstRoute(node.decorators, prefixes).Some? {
      var (verb, path) := FirstRoute(node.decorators, prefixes).value;
      assert EndpointsWith([node], prefixes) ==
             [Endpoint(verb, path, node.name, Recorded(AllArguments(node.arguments)))];
    } else {
      assert EndpointsWith([node], prefixes) == [];
    }
  }

  /** They come in the order of the nodes, at most one a node. */
  lemma EndpointsInOrder(x: seq<Node>, y: seq<Node>, prefixes: map<string, string>)
    ensures EndpointsWith(x + y, prefixes) == EndpointsWith(x, prefixes) + EndpointsWith(y, prefixes)
    ensures |x| <= 1 ==> |EndpointsWith(x, prefixes)| <= 1
  {
    if y == [] {
      assert x + y == x;
    } else {
      EndpointsInOrder(x, y[..|y| - 1], prefixes);
      assert (x + y)[..|x + y| - 1] == x + y[..|y| - 1];
    }
  }
}
