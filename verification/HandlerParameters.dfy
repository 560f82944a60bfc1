/** The parameters of a route handler as the linter records them: which default belongs to which argument,
    what kind of parameter it is, and whether it is required. */
module HandlerParameters {
  import opened Common
  import opened Names

  /** One parameter of a route. A contract may leave `required` and `type_hint` out; the code side
      always fills them in. */
  datatype Parameter = Parameter(name: string, kind: string, required: Option<bool>, typeHint: Option<string>)

  /** The expressions that annotations and defaults are made of, as far as the rules look. */
  datatype Expr =
    | Identifier(id: string)
    | Attribute(value: Expr, attr: string)
    | Subscript(value: Expr, slice: Expr)
    | BitOr(left: Expr, right: Expr)
    | CallOf(callee: Expr, args: seq<Expr>, keywords: seq<(string, Expr)>)
    | NoneLiteral
    | EllipsisLiteral
    | OtherLiteral
    | OtherExpr

  /** `hint` is the text of the annotation, empty without one. */
  datatype Argument = Argument(name: string, annotation: Option<Expr>, hint: string)

  /** Positional-only and ordinary arguments in one list, the defaults of the last of them, and the
      keyword-only arguments each with its own default. */
  datatype Arguments = Arguments(positional: seq<Argument>, defaults: seq<Expr>, kwonly: seq<(Argument, Option<Expr>)>)

  // ---------- kind ----------

  function CalleeName(e: Expr): Option<string> {
    match e
    case CallOf(Identifier(id), _, _) => Some(id)
    case CallOf(Attribute(_, attr), _, _) => Some(attr)
    case _ => None
  }

  const KIND_OF_CALL: map<string, string> :=
    map["Path" := "path", "Query" := "query", "Depends" := "depends",
        "Body" := "body", "File" := "body", "Form" := "body"]

  function ExplicitKind(default_: Option<Expr>): Option<string> {
    if default_.Some? && CalleeName(default_.value).Some? && CalleeName(default_.value).value in KIND_OF_CALL
    then Some(KIND_OF_CALL[CalleeName(default_.value).value])
    else None
  }

  function SuggestsBody(e: Expr): bool {
    match e
    case Subscript(_, slice) => SuggestsBody(slice)
    case Attribute(value, _) => value == Identifier("schemas") || SuggestsBody(value)
    case _ => false
  }

  function KindOf(a: Argument, default_: Option<Expr>): string {
    if ExplicitKind(default_).Some? then ExplicitKind(default_).value
    else if a.annotation.Some? && SuggestsBody(a.annotation.value) then "body"
    else if a.hint in {"Dict", "dict"} && default_.Some? && CalleeName(default_.value) == Some("Depends") then "depends"
    else "query"
  }

  // ---------- required ----------

  function IsOptional(annotation: Option<Expr>): bool {
    match annotation
    case Some(Subscript(Identifier(id), _)) => id == "Optional"
    case Some(Subscript(Attribute(_, attr), _)) => attr == "Optional"
    case Some(BitOr(_, _)) => true
    case _ => false
  }

  function FirstNamed(keywords: seq<(string, Expr)>, name: string): Option<Expr> {
    if keywords == [] then None
    else if keywords[0].0 == name then Some(keywords[0].1)
    else FirstNamed(keywords[1..], name)
  }

  /** What a `Query(...)` call gives as the default, if anything. */
  function OwnDefault(call: Expr): Option<Expr>
    requires call.CallOf?
  {
    if FirstNamed(call.keywords, "default").Some? then FirstNamed(call.keywords, "default")
    else if call.args != [] then Some(call.args[0])
    else None
  }

  function QueryRequired(call: Expr): bool
    requires call.CallOf?
  {
    OwnDefault(call).Some? ==> OwnDefault(call).value.EllipsisLiteral?
  }

  function IsRequired(kind: string, default_: Option<Expr>, annotation: Option<Expr>): bool {
    if kind == "depends" || kind == "path" then true
    else if default_.None? then !IsOptional(annotation)
    else if default_.value.NoneLiteral? then false
    else if CalleeName(default_.value) == Some("Query") then QueryRequired(default_.value)
    else true
  }

  // ---------- the list ----------

  function ParameterOf(a: Argument, default_: Option<Expr>): Parameter {
    var kind := KindOf(a, default_);
    Parameter(a.name, kind, Some(IsRequired(kind, default_, a.annotation)), Some(a.hint))
  }

  function DefaultAt(a: Arguments, i: nat): Option<Expr>
    requires i < |a.positional|
  {
    var fillers := if |a.positional| < |a.defaults| then 0 else |a.positional| - |a.defaults|;
    if i < fillers then None else Some(a.defaults[i - fillers])
  }

  function Positional(a: Arguments): (r: seq<(Argument, Option<Expr>)>)
    ensures |r| == |a.positional| && forall i :: 0 <= i < |r| ==> r[i] == (a.positional[i], DefaultAt(a, i))
  {
    seq(|a.positional|, i requires 0 <= i < |a.positional| => (a.positional[i], DefaultAt(a, i)))
  }

  function Recorded(pairs: seq<(Argument, Option<Expr>)>): seq<Parameter> {
    if pairs == [] then []
    else
      var (a, d) := pairs[|pairs| - 1];
      Recorded(pairs[..|pairs| - 1]) + if IsPublic(a.name) then [ParameterOf(a, d)] else []
  }

  /** Every argument with its default, in order. */
  function AllArguments(a: Arguments): seq<(Argument, Option<Expr>)> { Positional(a) + a.kwonly }

  lemma RecordedConcat(x: seq<(Argument, Option<Expr>)>, y: seq<(Argument, Option<Expr>)>)
    ensures Recorded(x + y) == Recorded(x) + Recorded(y)
  {
    if y == [] {
      assert x + y == x;
    } else {
      RecordedConcat(x, y[..|y| - 1]);
      assert (x + y)[..|x + y| - 1] == x + y[..|y| - 1];
    }
  }

  /** `_handler_parameters` */
  method Collect(a: Arguments) returns (params: seq<Parameter>)
    ensures params == Recorded(AllArguments(a))
  {
    params := AppendPositionalParams(a, []);
    params := AppendKwonlyParams(a, params);
    RecordedConcat(Positional(a), a.kwonly);
  }

  method AppendPositionalParams(a: Arguments, params: seq<Parameter>) returns (out: seq<Parameter>)
    ensures out == params + Recorded(Positional(a))
  {
    out := params;
    ghost var pairs := Positional(a);
    for i := 0 to |a.positional|
      invariant out == params + Recorded(pairs[..i])
    {
      hide ParameterOf;
      assert pairs[..i + 1][..i] == pairs[..i];
      if IsPublic(a.positional[i].name) { out := out + [ParameterOf(a.positional[i], DefaultAt(a, i))]; }
    }
    assert pairs[..|pairs|] == pairs;
  }

  method AppendKwonlyParams(a: Arguments, params: seq<Parameter>) returns (out: seq<Parameter>)
    ensures out == params + Recorded(a.kwonly)
  {
    out := params;
    for i := 0 to |a.kwonly|
      invariant out == params + Recorded(a.kwonly[..i])
    {
      hide ParameterOf;
      assert a.kwonly[..i + 1][..i] == a.kwonly[..i];
      if IsPublic(a.kwonly[i].0.name) { out := out + [ParameterOf(a.kwonly[i].0, a.kwonly[i].1)]; }
    }
    assert a.kwonly[..|a.kwonly|] == a.kwonly;
  }

  // ---------- what is recorded ----------

  /** The part of an annotation reached by `k` times going into a subscript's index or an attribute's
      value. */
  function Descend(e: Expr, k: nat): Expr {
    if k == 0 then e
    else match e
      case Subscript(_, slice) => Descend(slice, k - 1)
      case Attribute(value, _) => Descend(value, k - 1)
      case _ => OtherExpr
  }

  /** There it says `schemas.X`. */
  predicate NamesSchema(e: Expr, k: nat) {
    Descend(e, k).Attribute? && Descend(e, k).value == Identifier("schemas")
  }

  lemma {:induction false} SuggestsBodyIff(e: Expr)
    ensures SuggestsBody(e) <==> exists k: nat :: NamesSchema(e, k)
  {
    if e.Subscript? || e.Attribute? {
      var inner := if e.Subscript? then e.slice else e.value;
      SuggestsBodyIff(inner);
      assert forall k: nat :: NamesSchema(inner, k) ==> NamesSchema(e, k + 1);
      forall k: nat | NamesSchema(e, k) ensures SuggestsBody(e) {
        if k > 0 { assert NamesSchema(inner, k - 1); }
      }
      assert e.Attribute? && e.value == Identifier("schemas") ==> NamesSchema(e, 0);
    }
  }

  /** The default is a call of one of these names, plain or as an attribute. */
  ghost predicate Calls(default_: Option<Expr>, names: set<string>) {
    && default_.Some? && default_.value.CallOf?
    && var callee := default_.value.callee;
       (callee.Identifier? && callee.id in names) || (callee.Attribute? && callee.attr in names)
  }

  /** The kind is decided by the call in the default, and without one of those calls by whether the
      annotation reaches `schemas.X`; the code's separate rule for dictionaries never applies. */
  lemma KindMeaning(a: Argument, default_: Option<Expr>)
    ensures KindOf(a, default_) == "depends" <==> Calls(default_, {"Depends"})
    ensures KindOf(a, default_) == "path" <==> Calls(default_, {"Path"})
    ensures KindOf(a, default_) == "body" <==>
            Calls(default_, {"Body", "File", "Form"}) ||
            (!Calls(default_, {"Path", "Query", "Depends", "Body", "File", "Form"}) &&
             a.annotation.Some? && exists k: nat :: NamesSchema(a.annotation.value, k))
    ensures KindOf(a, default_) in {"depends", "path", "body", "query"}
  {
    if a.annotation.Some? { SuggestsBodyIff(a.annotation.value); }
  }

  /** `Optional[T]`, `x.Optional[T]` or `T | U`. */
  ghost predicate SaysOptional(annotation: Option<Expr>) {
    && annotation.Some?
    && var e := annotation.value;
       || e.BitOr?
       || (e.Subscript? && (e.value == Identifier("Optional") || (e.value.Attribute? && e.value.attr == "Optional")))
  }

  /** `d` is the value of the call's first keyword `default`, or without one its first argument. */
  ghost predicate GivesDefault(call: Expr, d: Expr) {
    && call.CallOf?
    && ((exists i :: 0 <= i < |call.keywords| && call.keywords[i] == ("default", d) &&
                     forall j :: 0 <= j < i ==> call.keywords[j].0 != "default") ||
        ((forall j :: 0 <= j < |call.keywords| ==> call.keywords[j].0 != "default") &&
         call.args != [] && call.args[0] == d))
  }

  lemma {:induction false} FirstNamedIsFirst(keywords: seq<(string, Expr)>, name: string)
    ensures FirstNamed(keywords, name).None? <==> forall j :: 0 <= j < |keywords| ==> keywords[j].0 != name
    ensures FirstNamed(keywords, name).Some? ==>
              exists i :: 0 <= i < |keywords| && keywords[i] == (name, FirstNamed(keywords, name).value) &&
                          forall j :: 0 <= j < i ==> keywords[j].0 != name
  {
    if keywords == [] {
    } else {
      var rest := keywords[1..];
      FirstNamedIsFirst(rest, name);
      assert forall j :: 0 <= j < |rest| ==> rest[j] == keywords[j + 1];
      if keywords[0].0 == name {
        assert keywords[0] == (name, keywords[0].1);
      } else if FirstNamed(rest, name).Some? {
        var i :| 0 <= i < |rest| && rest[i] == (name, FirstNamed(rest, name).value) &&
                 forall j :: 0 <= j < i ==> rest[j].0 != name;
        assert keywords[i + 1] == rest[i];
        forall j | 0 <= j < i + 1 ensures keywords[j].0 != name {
          if j > 0 { assert keywords[j] == rest[j - 1]; }
        }
      }
    }
  }

  lemma OwnDefaultIs(call: Expr, d: Expr)
    requires call.CallOf?
    ensures OwnDefault(call) == Some(d) <==> GivesDefault(call, d)
  {
    var keywords := call.keywords;
    FirstNamedIsFirst(keywords, "default");
    if i :| 0 <= i < |keywords| && keywords[i] == ("default", d) &&
            forall j :: 0 <= j < i ==> keywords[j].0 != "default" {
      var k :| 0 <= k < |keywords| && keywords[k] == ("default", FirstNamed(keywords, "default").value) &&
               forall j :: 0 <= j < k ==> keywords[j].0 != "default";
      assert i == k;
    }
  }

  /** A parameter is recorded as not required in three cases only: no default and an optional annotation, a
      default of None, or `Query` with a default of its own other than `...`. Whatever the kind; and any
      other literal default leaves it required. */
  lemma NotRequiredIff(a: Argument, default_: Option<Expr>)
    ensures ParameterOf(a, default_).required == Some(false) <==>
            || (default_.None? && SaysOptional(a.annotation))
            || default_ == Some(NoneLiteral)
            || (Calls(default_, {"Query"}) && exists d :: GivesDefault(default_.value, d) && d != EllipsisLiteral)
    ensures ParameterOf(a, default_).required.Some?
    ensures default_ == Some(OtherLiteral) ==> ParameterOf(a, default_).required == Some(true)
  {
    KindMeaning(a, default_);
    if Calls(default_, {"Query"}) {
      forall d { OwnDefaultIs(default_.value, d); }
      hide GivesDefault;
      if OwnDefault(default_.value).Some? { assert GivesDefault(default_.value, OwnDefault(default_.value).value); }
    }
  }

  /** A recorded parameter bears its argument's name and annotation text. */
  lemma ParameterNames(a: Argument, default_: Option<Expr>)
    ensures ParameterOf(a, default_).name == a.name && ParameterOf(a, default_).typeHint == Some(a.hint)
    ensures ParameterOf(a, default_).kind == KindOf(a, default_)
  {
  }

  /** Recording goes argument by argument, in order, and skips exactly the names that start with an
      underscore. */
  lemma RecordedInOrder(x: seq<(Argument, Option<Expr>)>, y: seq<(Argument, Option<Expr>)>, a: Argument,
                        default_: Option<Expr>)
    ensures Recorded(x + y) == Recorded(x) + Recorded(y)
    ensures Recorded([(a, default_)]) == if "_" <= a.name then [] else [ParameterOf(a, default_)]
  {
    RecordedConcat(x, y);
    hide ParameterOf;
    assert [(a, default_)][..0] == [];
    assert "_" <= a.name <==> a.name != "" && a.name[0] == '_';
  }

  /** When defaults are not more than positional arguments they belong to the last of them. */
  lemma DefaultsBelongToLast(a: Arguments, k: nat)
    requires k < |a.defaults| <= |a.positional|
    ensures DefaultAt(a, |a.positional| - 1 - k) == Some(a.defaults[|a.defaults| - 1 - k])
    ensures forall i :: 0 <= i < |a.positional| - |a.defaults| ==> DefaultAt(a, i).None?
  {
  }

  ghost predicate DistinctArguments(pairs: seq<(Argument, Option<Expr>)>) {
    forall i, j :: 0 <= i < j < |pairs| ==> pairs[i].0.name != pairs[j].0.name
  }

  ghost predicate DistinctParameters(ps: seq<Parameter>) {
    forall i, j :: 0 <= i < j < |ps| ==> ps[i].name != ps[j].name
  }

  /** The recorded parameters are those of the public arguments, and as distinctly named. */
  lemma {:induction false} RecordedArePublic(pairs: seq<(Argument, Option<Expr>)>)
    ensures forall p :: p in Recorded(pairs) <==>
              exists i :: 0 <= i < |pairs| && IsPublic(pairs[i].0.name) && p == ParameterOf(pairs[i].0, pairs[i].1)
    ensures DistinctArguments(pairs) ==> DistinctParameters(Recorded(pairs))
  {
    hide IsPublic, KindOf, IsRequired;
    if pairs == [] {
    } else {
      var init, last := pairs[..|pairs| - 1], pairs[|pairs| - 1];
      RecordedArePublic(init);
      assert forall i :: 0 <= i < |init| ==> init[i] == pairs[i];
      if DistinctArguments(pairs) {
        forall p | p in Recorded(init) ensures p.name != last.0.name {
          var i :| 0 <= i < |init| && p == ParameterOf(init[i].0, init[i].1);
          assert pairs[i].0.name != pairs[|pairs| - 1].0.name;
        }
      }
    }
  }
}
