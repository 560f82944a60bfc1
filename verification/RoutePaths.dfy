/** URL paths of routes: how a router prefix and a route text are joined on the code side, how the
    contract normaliser joins them, and when the two agree. */
module RoutePaths {
  import opened Common

  function LStrip(s: string): string { if s != "" && s[0] == '/' then LStrip(s[1..]) else s }

  function RStrip(s: string): string {
    if s != "" && s[|s| - 1] == '/' then RStrip(s[..|s| - 1]) else s
  }

  /** `s.strip('/')` */
  function Strip(s: string): string { RStrip(LStrip(s)) }

  function Slashed(route: string): string { if "/" <= route then route else "/" + route }

  predicate Blank(prefix: Option<string>) { prefix.None? || Strip(prefix.value) == "" }

  /** `join_fastapi_route_path` */
  function Join(prefix: Option<string>, route: string): string {
    if Blank(prefix) then Slashed(route) else RStrip("/" + Strip(prefix.value)) + Slashed(route)
  }

  /** The path the contract normaliser writes for a shorthand endpoint. */
  function ContractPath(prefix: Option<string>, route: string): string {
    if prefix.Some? && prefix.value != "" && route != "" && !(prefix.value <= route)
    then Join(prefix, route)
    else Slashed(route)
  }

  lemma RStripAppend(a: string, b: string)
    ensures RStrip(a + b) == if RStrip(b) == "" then RStrip(a) else a + RStrip(b)
  {
    if b == "" {
      assert a + b == a;
    } else {
      assert (a + b)[..|a + b| - 1] == a + b[..|b| - 1];
      if b[|b| - 1] == '/' { RStripAppend(a, b[..|b| - 1]); }
    }
  }

  lemma RStripEnds(s: string)
    ensures RStrip(s) <= s
    ensures RStrip(s) != "" ==> RStrip(s)[|RStrip(s)| - 1] != '/'
    ensures RStrip(s) == "" ==> forall i :: 0 <= i < |s| ==> s[i] == '/'
    ensures RStrip(RStrip(s)) == RStrip(s)
  {
  }

  lemma LStripStarts(s: string)
    ensures LStrip(s) != "" ==> LStrip(s)[0] != '/'
  {
  }

  lemma StripEnds(s: string)
    ensures Strip(s) != "" ==> Strip(s)[0] != '/' && RStrip(Strip(s)) == Strip(s)
    ensures Strip(s) == "" <==> RStrip(s) == ""
  {
    LStripStarts(s);
    RStripEnds(LStrip(s));
    StripBlank(s);
  }

  lemma StripBlank(s: string)
    ensures Strip(s) == "" <==> RStrip(s) == ""
  {
    if s != "" && s[0] == '/' {
      StripBlank(s[1..]);
      RStripAppend("/", s[1..]);
      assert s == "/" + s[1..];
    }
  }

  /** A non-blank prefix contributes one slash and its stripped text. */
  lemma JoinNonBlank(p: string, route: string)
    requires Strip(p) != ""
    ensures Join(Some(p), route) == "/" + Strip(p) + Slashed(route)
  {
    StripEnds(p);
    RStripAppend("/", Strip(p));
  }

  lemma StripOfJoin(p: string, q: string)
    requires Strip(p) != ""
    ensures Strip(Join(Some(p), q)) == if RStrip(Slashed(q)) == "" then Strip(p) else Strip(p) + RStrip(Slashed(q))
  {
    JoinNonBlank(p, q);
    StripEnds(p);
    var tail := Strip(p) + Slashed(q);
    assert "/" + Strip(p) + Slashed(q) == "/" + tail;
    assert tail[0] == Strip(p)[0];
    LStripSlash(tail);
    RStripAppend(Strip(p), Slashed(q));
  }

  lemma LStripSlash(s: string)
    requires s != "" && s[0] != '/'
    ensures LStrip("/" + s) == s
  {
    assert ("/" + s)[1..] == s;
  }

  lemma RStripSlashed(q: string)
    requires Strip(q) != ""
    ensures RStrip(Slashed(q)) != ""
    ensures RStrip(Slashed(q)) == "/" + Strip(q) <==> !("//" <= q)
  {
    StripEnds(q);
    if "/" <= q {
      assert q == "/" + q[1..];
      RStripAppend("/", q[1..]);
      StripEnds(q[1..]);
      assert RStrip(q) == "/" + RStrip(q[1..]);
      if "//" <= q {
        assert q[1..] == "/" + q[2..];
        RStripEnds(q[1..]);
        var left, right := "/" + RStrip(q[1..]), "/" + Strip(q);
        assert left[1] == '/' && right[1] == Strip(q)[0];
      }
    } else {
      RStripAppend("/", q);
    }
  }

  /** Joining nested prefixes one at a time or all at once is the same exactly when the inner prefix does
      not start with two slashes (or one of the prefixes is blank). */
  lemma NestedPrefixes(p: string, q: string, route: string)
    ensures Join(Some(p), Join(Some(q), route)) == Join(Some(Join(Some(p), q)), route) <==>
            Blank(Some(p)) || Blank(Some(q)) || !("//" <= q)
  {
    StripEnds(p);
    StripEnds(q);
    var seg := Slashed(route);
    if Blank(Some(p)) {
      assert Strip(Slashed(q)) == Strip(q) by {
        if !("/" <= q) { assert ("/" + q)[1..] == q; }
      }
      if !Blank(Some(q)) { JoinNonBlank(q, route); JoinNonBlank(Slashed(q), route); }
    } else {
      StripOfJoin(p, q);
      if Blank(Some(q)) {
        RStripAppend("/", q);
        JoinNonBlank(p, route);
        JoinNonBlank(p, seg);
        JoinNonBlank(Join(Some(p), q), route);
      } else {
        NestedNonBlank(p, q, route);
      }
    }
  }

  lemma NestedNonBlank(p: string, q: string, route: string)
    requires Strip(p) != "" && Strip(q) != ""
    ensures Join(Some(p), Join(Some(q), route)) == Join(Some(Join(Some(p), q)), route) <==> !("//" <= q)
  {
    hide LStrip, RStrip, Join;
    var seg := Slashed(route);
    StripOfJoin(p, q);
    RStripSlashed(q);
    JoinNonBlank(q, route);
    JoinNonBlank(p, Join(Some(q), route));
    JoinNonBlank(Join(Some(p), q), route);
    assert Join(Some(p), Join(Some(q), route)) == "/" + Strip(p) + ("/" + Strip(q)) + seg;
    assert Join(Some(Join(Some(p), q)), route) == "/" + Strip(p) + RStrip(Slashed(q)) + seg;
    Cancel("/" + Strip(p), "/" + Strip(q), RStrip(Slashed(q)), seg);
  }

  lemma Cancel(a: string, x: string, y: string, b: string)
    ensures a + x + b == a + y + b <==> x == y
  {
    if a + x + b == a + y + b {
      assert |x| == |y|;
      assert x == (a + x + b)[|a|..|a| + |x|];
      assert y == (a + y + b)[|a|..|a| + |y|];
    }
  }

  /** Contract and code give a route the same path exactly when the prefix is blank, or the route text is
      non-empty and does not already start with the prefix. */
  lemma ContractAgreesWithCode(prefix: Option<string>, route: string)
    ensures ContractPath(prefix, route) == Join(prefix, route) <==>
            Blank(prefix) || (route != "" && !(prefix.value <= route))
  {
    if !Blank(prefix) {
      JoinNonBlank(prefix.value, route);
      assert |Join(prefix, route)| > |Slashed(route)|;
    }
  }

  /** Normalising an already normalised path is the identity exactly when the prefix is blank or the path
      carries it literally; a prefix with one leading and at most one trailing slash always is carried. */
  lemma RenormalisingIsIdentity(prefix: string, route: string)
    ensures var full := ContractPath(Some(prefix), route);
            ContractPath(Some(prefix), full) == full <==> Blank(Some(prefix)) || prefix <= full
    ensures route != "" && Strip(prefix) != "" && prefix in {"/" + Strip(prefix), "/" + Strip(prefix) + "/"} ==>
            prefix <= ContractPath(Some(prefix), route)
  {
    var full := ContractPath(Some(prefix), route);
    assert "/" <= full by {
      if !Blank(Some(prefix)) { JoinNonBlank(prefix, route); }
    }
    if !Blank(Some(prefix)) {
      JoinNonBlank(prefix, full);
      JoinNonBlank(prefix, route);
    }
  }
}
