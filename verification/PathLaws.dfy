/** Names and paths in terms of their characters. */
module PathLaws {
  import opened Common
  import opened Text
  import Names
  import FilePaths
  import RoutePaths

  // ---------- the order of names ----------

  /** The texts agree before position `k`, where `a` ends or has the smaller character. */
  ghost predicate FirstDiffers(a: string, b: string, k: nat) {
    && k <= |a| && k < |b| && a[..k] == b[..k] && (k == |a| || a[k] < b[k])
  }

  lemma SameStart(a: string, b: string, k: nat)
    requires FirstDiffers(a, b, k)
    ensures k > 0 ==> a[0] == b[0]
  {
    if k > 0 { assert a[..k][0] == b[..k][0]; }
  }

  lemma {:induction false} LessIff(a: string, b: string)
    ensures Names.Less(a, b) <==> exists k: nat :: FirstDiffers(a, b, k)
  {
    if a == [] || b == [] || a[0] != b[0] {
      if Names.Less(a, b) { assert FirstDiffers(a, b, 0); }
      forall k: nat | FirstDiffers(a, b, k) ensures Names.Less(a, b) {
        SameStart(a, b, k);
      }
    } else {
      LessIff(a[1..], b[1..]);
      if Names.Less(a, b) {
        var k: nat :| FirstDiffers(a[1..], b[1..], k);
        assert a[..k + 1] == [a[0]] + a[1..][..k] && b[..k + 1] == [b[0]] + b[1..][..k];
        assert FirstDiffers(a, b, k + 1);
      }
      forall k: nat | FirstDiffers(a, b, k) ensures Names.Less(a, b) {
        assert k > 0;
        assert a[1..][..k - 1] == a[..k][1..] && b[1..][..k - 1] == b[..k][1..];
        assert FirstDiffers(a[1..], b[1..], k - 1);
      }
    }
  }

  // ---------- route paths ----------

  ghost predicate Slashes(s: string) { forall i :: 0 <= i < |s| ==> s[i] == '/' }

  /** What stripping leaves is what stands between the outer slashes. */
  ghost predicate Stripped(s: string, core: string) {
    && (core != "" ==> core[0] != '/' && core[|core| - 1] != '/')
    && exists a, b :: s == a + core + b && Slashes(a) && Slashes(b)
  }

  lemma LStripIs(s: string) returns (a: string)
    ensures s == a + RoutePaths.LStrip(s) && Slashes(a)
  {
    assert s != "" && s[0] == '/' ==> RoutePaths.LStrip(s) == RoutePaths.LStrip(s[1..]);
    if s != "" && s[0] == '/' {
      var rest := LStripIs(s[1..]);
      a := "/" + rest;
      hide RoutePaths.LStrip;
      assert s == "/" + (rest + RoutePaths.LStrip(s[1..]));
    } else {
      a := "";
    }
  }

  lemma RStripIs(s: string) returns (b: string)
    ensures s == RoutePaths.RStrip(s) + b && Slashes(b)
  {
    if s != "" && s[|s| - 1] == '/' {
      var rest := RStripIs(s[..|s| - 1]);
      b := rest + "/";
      assert s == s[..|s| - 1] + "/";
    } else {
      b := "";
      assert s + "" == s;
    }
  }

  lemma StripIs(s: string)
    ensures Stripped(s, RoutePaths.Strip(s))
  {
    var core := RoutePaths.Strip(s);
    RoutePaths.StripEnds(s);
    RoutePaths.RStripEnds(core);
    var a := LStripIs(s);
    var b := RStripIs(RoutePaths.LStrip(s));
    assert s == a + core + b;
  }

  /** Joining puts one slash and the stripped prefix in front, if anything but slashes is in it, and then the
      route, with a slash in front unless it has one. */
  lemma JoinIs(prefix: Option<string>, route: string)
    ensures var tail := if "/" <= route then route else "/" + route;
            if prefix.None? || Slashes(prefix.value) then RoutePaths.Join(prefix, route) == tail
            else exists core :: core != "" && Stripped(prefix.value, core) &&
                                RoutePaths.Join(prefix, route) == "/" + core + tail
  {
    if prefix.Some? {
      StripIs(prefix.value);
      BlankIff(prefix.value);
      if RoutePaths.Strip(prefix.value) != "" { RoutePaths.JoinNonBlank(prefix.value, route); }
    }
  }

  lemma BlankIff(s: string)
    ensures RoutePaths.Strip(s) == "" <==> Slashes(s)
  {
    RoutePaths.StripBlank(s);
    RoutePaths.RStripEnds(s);
    if RoutePaths.RStrip(s) != "" {
      assert s[|RoutePaths.RStrip(s)| - 1] == RoutePaths.RStrip(s)[|RoutePaths.RStrip(s)| - 1];
    }
  }

  /** The contract's path: joined, unless the prefix or the route is empty or the route starts with the
      prefix; then the route alone, with a slash in front. */
  lemma ContractPathIs(prefix: Option<string>, route: string)
    ensures prefix.Some? && prefix.value != "" && route != "" && !(prefix.value <= route) ==>
              RoutePaths.ContractPath(prefix, route) == RoutePaths.Join(prefix, route)
    ensures prefix.None? || route == "" || prefix.value <= route ==>
              RoutePaths.ContractPath(prefix, route) == if "/" <= route then route else "/" + route
  {
  }

  // ---------- file paths ----------

  /** The segments of a path are its parts between slashes, in order, without empty ones and dots. */
  lemma {:induction false} SegmentsOfParts(parts: seq<string>)
    requires parts != [] && forall p :: p in parts ==> '/' !in p
    ensures FilePaths.Segments(Join(parts, '/')) == FilePaths.Keep(parts)
  {
    SplitOfJoin(parts, '/');
  }

  lemma KeepInOrder(part: string, rest: seq<string>)
    ensures FilePaths.Keep([part] + rest) ==
            if part == "" || part == "." then FilePaths.Keep(rest) else [part] + FilePaths.Keep(rest)
    ensures FilePaths.Keep([]) == []
  {
    assert ([part] + rest)[1..] == rest;
  }

  /** A normalised path is its segments between single slashes, behind the root of the path. */
  lemma NormalizedIs(path: string)
    ensures FilePaths.NormalizeRelPath(path) ==
            (if !("/" <= path) then "" else if "//" <= path && !("///" <= path) then "//" else "/") +
            Join(FilePaths.Segments(path), '/')
  {
  }

  /** The layer is the first segment of a relative path, if it is one of the four names. */
  lemma LayerIsFirstSegment(path: string, layer: string)
    ensures FilePaths.InferLayer(path) == Some(layer) <==>
            && !("/" <= path) && FilePaths.Segments(path) != [] && FilePaths.Segments(path)[0] == layer
            && (layer == "domain" || layer == "service_layer" || layer == "adapters" || layer == "entrypoints")
  {
  }
}
