/** Relative file paths as the linter writes them: POSIX form without empty and `.` segments. */
module FilePaths {
  import opened Common
  import opened Text

  const KNOWN_LAYER_NAMES: set<string> := {"domain", "service_layer", "adapters", "entrypoints"}

  predicate Kept(part: string) { part != "" && part != "." }

  function Keep(parts: seq<string>): (r: seq<string>)
    ensures forall p :: p in r ==> p in parts && Kept(p)
  {
    if parts == [] then [] else (if Kept(parts[0]) then [parts[0]] else []) + Keep(parts[1..])
  }

  function Segments(path: string): seq<string> { Keep(Split(path, '/')) }

  /** POSIX keeps exactly two leading slashes apart; any other number of them is one root. */
  function Root(path: string): string {
    if !("/" <= path) then "" else if "//" <= path && !("///" <= path) then "//" else "/"
  }

  /** `normalize_rel_path` */
  function NormalizeRelPath(path: string): string { Root(path) + Join(Segments(path), '/') }

  /** `infer_layer`: the first segment, when the path is relative and names a known layer. */
  function InferLayer(path: string): Option<string> {
    if Root(path) == "" && Segments(path) != [] && Segments(path)[0] in KNOWN_LAYER_NAMES
    then Some(Segments(path)[0])
    else None
  }

  lemma KeepKept(parts: seq<string>)
    requires forall p :: p in parts ==> Kept(p)
    ensures Keep(parts) == parts
  {
  }

  lemma SegmentsSkipSlash(s: string)
    ensures Segments("/" + s) == Segments(s)
  {
    assert ("/" + s)[1..] == s;
    var rest := Split(s, '/');
    assert ([""] + rest)[1..] == rest;
  }

  lemma JoinedSegments(parts: seq<string>)
    requires forall p :: p in parts ==> '/' !in p && Kept(p)
    ensures Segments(Join(parts, '/')) == parts
    ensures Join(parts, '/') != "" ==> Join(parts, '/')[0] != '/'
  {
    if parts != [] {
      SplitOfJoin(parts, '/');
      KeepKept(parts);
      assert Join(parts, '/')[0] == parts[0][0] && parts[0][0] in parts[0];
    }
  }

  lemma RootStays(root: string, text: string)
    requires root == "" || root == "/" || root == "//"
    requires text != "" ==> text[0] != '/'
    ensures Root(root + text) == root
  {
    var full := root + text;
    assert forall i :: 0 <= i < |root| ==> full[i] == '/';
    assert text != "" ==> full[|root|] != '/';
    assert "/" <= full <==> |full| >= 1 && full[0] == '/';
    assert "//" <= full <==> |full| >= 2 && full[0] == '/' && full[1] == '/';
    assert "///" <= full <==> |full| >= 3 && full[0] == '/' && full[1] == '/' && full[2] == '/';
  }

  lemma SegmentsSkipRoot(root: string, text: string)
    requires root == "" || root == "/" || root == "//"
    ensures Segments(root + text) == Segments(text)
  {
    assert "" + text == text && "//" + text == "/" + ("/" + text);
    SegmentsSkipSlash(text);
    SegmentsSkipSlash("/" + text);
  }

  lemma NormalizedSegments(path: string)
    ensures Segments(NormalizeRelPath(path)) == Segments(path)
    ensures Root(NormalizeRelPath(path)) == Root(path)
  {
    JoinedSegments(Segments(path));
    RootStays(Root(path), Join(Segments(path), '/'));
    SegmentsSkipRoot(Root(path), Join(Segments(path), '/'));
  }

  /** Normalising again changes neither the path nor its layer. */
  lemma NormalizeIsIdempotent(path: string)
    ensures NormalizeRelPath(NormalizeRelPath(path)) == NormalizeRelPath(path)
    ensures InferLayer(NormalizeRelPath(path)) == InferLayer(path)
  {
    NormalizedSegments(path);
  }

  /** Paths normalise alike exactly when they have the same root and the same kept segments. */
  lemma NormalizeIsCanonical(a: string, b: string)
    ensures NormalizeRelPath(a) == NormalizeRelPath(b) <==> Root(a) == Root(b) && Segments(a) == Segments(b)
  {
    NormalizedSegments(a);
    NormalizedSegments(b);
  }
}
