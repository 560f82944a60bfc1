/** The part of a Python syntax tree that the linter looks at, and what it reads off one file: public
    functions, classes at any depth with their public methods, and FastAPI routes. */
module SourceTrees {
  import opened Common
  import opened Names
  import opened HandlerParameters
  import RoutePaths

  datatype Endpoint = Endpoint(verb: string, path: string, handler: string, parameters: seq<Parameter>)

  datatype Decorator =
    | RouteCall(verb: string, router: string, path: string)  // @router.verb("path", ...)
    | OtherDecorator

  datatype Node =
    | Function(name: string, decorators: seq<Decorator>, arguments: Arguments, body: seq<Node>)
    | Class(name: string, body: seq<Node>)
    | RouterAssign(targets: seq<string>, prefix: string)     // x = APIRouter(prefix="...")
    | Other(children: seq<Node>)

  datatype ClassDecl = ClassDecl(name: string, methods: seq<string>)

  datatype SourceFile = SourceFile(path: string, tree: seq<Node>)

  /** Public functions directly in a body, sorted and without repetition. */
  function FunctionNames(body: seq<Node>): seq<string> {
    if body == [] then []
    else FunctionNames(body[..|body| - 1]) + if body[|body| - 1].Function? then [body[|body| - 1].name] else []
  }

  function PublicFunctions(body: seq<Node>): seq<string> { Sorted(Public(FunctionNames(body))) }

  /** Every class in the tree, however deeply nested, private ones included. */
  function Classes(nodes: seq<Node>): seq<ClassDecl>
    decreases nodes, 0
  {
    if nodes == [] then [] else ClassesIn(nodes[0]) + Classes(nodes[1..])
  }

  function ClassesIn(node: Node): seq<ClassDecl>
    decreases node, 1
  {
    match node
    case Function(_, _, _, body) => Classes(body)
    case Class(name, body) => [ClassDecl(name, PublicFunctions(body))] + Classes(body)
    case RouterAssign(_, _) => []
    case Other(children) => Classes(children)
  }

  // ---------- routes ----------

  const HTTP_VERBS: set<string> := {"get", "post", "put", "patch", "delete", "head", "options"}

  function UpperChar(c: char): char {
    if 'a' <= c <= 'z' then (c as int - 'a' as int + 'A' as int) as char else c
  }

  function Upper(s: string): string { if s == "" then "" else [UpperChar(s[0])] + Upper(s[1..]) }

  function SetAll(m: map<string, string>, keys: seq<string>, v: string): map<string, string> {
    if keys == [] then m else SetAll(m, keys[..|keys| - 1], v)[keys[|keys| - 1] := v]
  }

  /** Router variables of the whole module. */
  function RouterPrefixes(module_: seq<Node>): map<string, string> {
    if module_ == [] then map[]
    else
      var before, last := RouterPrefixes(module_[..|module_| - 1]), module_[|module_| - 1];
      if last.RouterAssign? then SetAll(before, last.targets, last.prefix) else before
  }

  function RouteOf(d: Decorator, prefixes: map<string, string>): Option<(string, string)> {
    if d.RouteCall? && d.verb in HTTP_VERBS then
      var prefix := if d.router in prefixes && prefixes[d.router] != "" then Some(prefixes[d.router]) else None;
      Some((Upper(d.verb), RoutePaths.Join(prefix, d.path)))
    else
      None
  }

  function FirstRoute(ds: seq<Decorator>, prefixes: map<string, string>): Option<(string, string)> {
    if ds == [] then None
    else if RouteOf(ds[0], prefixes).Some? then RouteOf(ds[0], prefixes)
    else FirstRoute(ds[1..], prefixes)
  }

  function EndpointsWith(nodes: seq<Node>, prefixes: map<string, string>): seq<Endpoint> {
    if nodes == [] then []
    else
      var node := nodes[|nodes| - 1];
      EndpointsWith(nodes[..|nodes| - 1], prefixes) +
      if node.Function? && IsPublic(node.name) && FirstRoute(node.decorators, prefixes).Some? then
        var (verb, path) := FirstRoute(node.decorators, prefixes).value;
        [Endpoint(verb, path, node.name, Recorded(AllArguments(node.arguments)))]
      else []
  }

  function Endpoints(module_: seq<Node>): seq<Endpoint> { EndpointsWith(module_, RouterPrefixes(module_)) }

  /** `extract_http_endpoints_from_module` */
  method ExtractEndpoints(module_: seq<Node>) returns (out: seq<Endpoint>)
    ensures out == Endpoints(module_)
  {
    var prefixes := CollectRouterVars(module_);
    out := [];
    for i := 0 to |module_|
      invariant out == EndpointsWith(module_[..i], prefixes)
    {
      assert module_[..i + 1][..i] == module_[..i];
      var node := module_[i];
      if node.Function? && IsPublic(node.name) {
        var info := FirstRoute(node.decorators, prefixes);
        if info.Some? {
          var parameters := Collect(node.arguments);
          out := out + [Endpoint(info.value.0, info.value.1, node.name, parameters)];
        }
      }
    }
    assert module_[..|module_|] == module_;
  }

  method CollectRouterVars(module_: seq<Node>) returns (out: map<string, string>)
    ensures out == RouterPrefixes(module_)
  {
    out := map[];
    for i := 0 to |module_|
      invariant out == RouterPrefixes(module_[..i])
    {
      assert module_[..i + 1][..i] == module_[..i];
      var node := module_[i];
      if node.RouterAssign? {
        ghost var before := out;
        for j := 0 to |node.targets|
          invariant out == SetAll(before, node.targets[..j], node.prefix)
        {
          assert node.targets[..j + 1][..j] == node.targets[..j];
          out := out[node.targets[j] := node.prefix];
        }
        assert node.targets[..|node.targets|] == node.targets;
      }
    }
    assert module_[..|module_|] == module_;
  }

  predicate Assigns(node: Node, x: string) { node.RouterAssign? && x in node.targets }

  lemma SetAllSetsOnly(m: map<string, string>, keys: seq<string>, v: string, x: string)
    ensures x in SetAll(m, keys, v) <==> x in m || x in keys
    ensures x in SetAll(m, keys, v) ==> SetAll(m, keys, v)[x] == if x in keys then v else m[x]
  {
    if keys == [] {
    } else {
      SetAllSetsOnly(m, keys[..|keys| - 1], v, x);
      assert keys == keys[..|keys| - 1] + [keys[|keys| - 1]];
    }
  }

  /** Exactly the assigned variables have a prefix, and the last assignment in the module gives it. */
  lemma {:induction false} LastAssignmentWins(module_: seq<Node>, x: string)
    ensures x in RouterPrefixes(module_) <==> exists i :: 0 <= i < |module_| && Assigns(module_[i], x)
    ensures x in RouterPrefixes(module_) ==>
              exists i :: 0 <= i < |module_| && Assigns(module_[i], x) &&
                          RouterPrefixes(module_)[x] == module_[i].prefix &&
                          forall j :: i < j < |module_| ==> !Assigns(module_[j], x)
  {
    if module_ == [] {
    } else {
      var init, last := module_[..|module_| - 1], module_[|module_| - 1];
      LastAssignmentWins(init, x);
      if last.RouterAssign? { SetAllSetsOnly(RouterPrefixes(init), last.targets, last.prefix, x); }
      assert forall i :: 0 <= i < |init| ==> init[i] == module_[i];
      if Assigns(last, x) {
        assert Assigns(module_[|module_| - 1], x);
      } else if x in RouterPrefixes(init) {
        var i :| 0 <= i < |init| && Assigns(init[i], x) && RouterPrefixes(init)[x] == init[i].prefix &&
                 forall j :: i < j < |init| ==> !Assigns(init[j], x);
        assert Assigns(module_[i], x);
      }
    }
  }

  /** Every extracted route has a verb, a path that starts with a slash and a public handler; so its key
      is never incomplete unless the handler's name is empty. */
  lemma {:induction false} EndpointsAreComplete(nodes: seq<Node>, prefixes: map<string, string>)
    ensures forall e :: e in EndpointsWith(nodes, prefixes) ==> e.verb != "" && "/" <= e.path && IsPublic(e.handler)
  {
    if nodes == [] {
    } else {
      EndpointsAreComplete(nodes[..|nodes| - 1], prefixes);
      var node := nodes[|nodes| - 1];
      if node.Function? { FirstRouteIsComplete(node.decorators, prefixes); }
    }
  }

  lemma {:induction false} FirstRouteIsComplete(ds: seq<Decorator>, prefixes: map<string, string>)
    ensures var r := FirstRoute(ds, prefixes); r.Some? ==> r.value.0 != "" && "/" <= r.value.1
  {
    hide RouteOf;
    if ds == [] {
    } else if RouteOf(ds[0], prefixes).None? {
      FirstRouteIsComplete(ds[1..], prefixes);
    } else {
      RouteIsComplete(ds[0], prefixes);
    }
  }

  lemma RouteIsComplete(d: Decorator, prefixes: map<string, string>)
    ensures var r := RouteOf(d, prefixes); r.Some? ==> r.value.0 != "" && "/" <= r.value.1
  {
    if d.RouteCall? && d.router in prefixes && RoutePaths.Strip(prefixes[d.router]) != "" {
      RoutePaths.JoinNonBlank(prefixes[d.router], d.path);
    }
  }
}
