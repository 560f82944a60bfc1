/** Contract documents: the Markdown writer, the extractor of the `rde` block, and the normaliser of
    shorthand endpoints. */
module SpecDocument {
  import opened Common
  import opened Text
  import opened SourceTrees
  import opened Requirements
  import RoutePaths

  // ---------- the extractor ----------

  /** Python's whitespace, as `str.strip` knows it. */
  predicate IsSpace(c: char) {
    || '\t' <= c <= '\r' || '\U{1C}' <= c <= ' ' || c == '\U{85}' || c == '\U{A0}' || c == '\U{1680}'
    || '\U{2000}' <= c <= '\U{200A}' || c == '\U{2028}' || c == '\U{2029}' || c == '\U{202F}'
    || c == '\U{205F}' || c == '\U{3000}'
  }

  function LTrim(s: string): string { if s != "" && IsSpace(s[0]) then LTrim(s[1..]) else s }

  function RTrim(s: string): string { if s != "" && IsSpace(s[|s| - 1]) then RTrim(s[..|s| - 1]) else s }

  /** `s.strip()` */
  function Strip(s: string): string { RTrim(LTrim(s)) }

  function DropBlanks(s: string): string {
    if s != "" && (s[0] == ' ' || s[0] == '\t') then DropBlanks(s[1..]) else s
  }

  predicate Fence(line: string) { "```" <= line }

  predicate IsRde(s: string) {
    |s| == 3 && (s[0] == 'r' || s[0] == 'R') && (s[1] == 'd' || s[1] == 'D') && (s[2] == 'e' || s[2] == 'E')
  }

  /** A whole line of the form: three backticks, blanks, `rde` in any case, blanks, an optional CR. */
  predicate Opening(line: string) {
    && Fence(line)
    && var tag := DropBlanks(line[3..]);
       |tag| >= 3 && IsRde(tag[..3]) && (DropBlanks(tag[3..]) == "" || DropBlanks(tag[3..]) == "\r")
  }

  /** The last fence line at or after `from`: the block's body is matched greedily. */
  function LastFence(lines: seq<string>, from: nat): Option<nat>
    requires from <= |lines|
    decreases |lines|
  {
    if |lines| == from then None
    else if Fence(lines[|lines| - 1]) then Some(|lines| - 1)
    else LastFence(lines[..|lines| - 1], from)
  }

  /** The first opening line at or after `i` that some fence line follows, with the last such fence. */
  function FindBlock(lines: seq<string>, i: nat): Option<(nat, nat)>
    requires i <= |lines|
    decreases |lines| - i
  {
    if i == |lines| then None
    else if Opening(lines[i]) && LastFence(lines, i + 1).Some? then Some((i, LastFence(lines, i + 1).value))
    else FindBlock(lines, i + 1)
  }

  lemma LastFenceIsLast(lines: seq<string>, from: nat)
    requires from <= |lines|
    ensures var r := LastFence(lines, from);
            && (r.None? ==> forall j :: from <= j < |lines| ==> !Fence(lines[j]))
            && (r.Some? ==> from <= r.value < |lines| && Fence(lines[r.value]) &&
                            forall j :: r.value < j < |lines| ==> !Fence(lines[j]))
    decreases |lines|
  {
    if |lines| > from && !Fence(lines[|lines| - 1]) { LastFenceIsLast(lines[..|lines| - 1], from); }
  }

  lemma {:induction false} FindBlockIsFirst(lines: seq<string>, i: nat, k: nat)
    requires i <= k < |lines| && forall j :: i <= j < k ==> !Opening(lines[j])
    requires Opening(lines[k]) && LastFence(lines, k + 1).Some?
    ensures FindBlock(lines, i) == Some((k, LastFence(lines, k + 1).value))
    decreases k - i
  {
    if i < k { FindBlockIsFirst(lines, i + 1, k); }
  }

  function Body(lines: seq<string>): string { if lines == [] then "" else Join(lines, '\n') + "\n" }

  /** `extract_rde_block`; None stands for the ValueError. */
  function ExtractRdeBlock(text: string): Option<string> {
    var lines := Split(text, '\n');
    match FindBlock(lines, 0)
    case None => None
    case Some((i, j)) =>
      FindBlockBounds(lines, 0);
      LastFenceIsLast(lines, i + 1);
      Some(Strip(Body(lines[i + 1..j])))
  }

  lemma FindBlockBounds(lines: seq<string>, i: nat)
    requires i <= |lines|
    ensures var r := FindBlock(lines, i);
            r.Some? ==> i <= r.value.0 < r.value.1 < |lines| && Opening(lines[r.value.0]) &&
                        Some(r.value.1) == LastFence(lines, r.value.0 + 1)
    ensures FindBlock(lines, i).None? <==>
            forall j :: i <= j < |lines| && Opening(lines[j]) ==> LastFence(lines, j + 1).None?
    decreases |lines| - i
  {
    if i < |lines| {
      LastFenceIsLast(lines, i + 1);
      FindBlockBounds(lines, i + 1);
    }
  }

  // ---------- the writer ----------

  function HeadingLine(title: string, feature: string): string {
    "# " + (if title != "" then title else "Open vAIR contract: " + feature)
  }

  function FeatureLine(feature: string): string {
    "Архитектурный контракт модуля `" + feature + "` для RDE-линтера."
  }

  function SourceLine(source: string): string { "Источник кода: `" + source + "`." }

  const BLOCK_LINE: string := "Машиночитаемый контракт — блок ``rde`` ниже."

  /** The lines before the block. */
  function Preamble(title: string, feature: string, source: string): seq<string> {
    [HeadingLine(title, feature), "", FeatureLine(feature), SourceLine(source), "", BLOCK_LINE, ""]
  }

  /** `contract_to_markdown`; `dumped` is the contract as YAML text. */
  function ContractToMarkdown(title: string, feature: string, source: string, dumped: string): string {
    Join(Preamble(title, feature, source) + ["```rde"] + Split(dumped, '\n') + ["```", ""], '\n')
  }

  predicate SingleLine(s: string) { '\n' !in s }

  /** A line that starts with something else than a backtick is no fence. */
  lemma PlainLine(start: string, value: string, end: string)
    requires start != "" && start[0] != '`' && SingleLine(start) && SingleLine(value) && SingleLine(end)
    ensures SingleLine(start + value + end) && !Fence(start + value + end)
  {
    assert (start + value + end)[0] == start[0];
  }

  ghost predicate Plain(line: string) { SingleLine(line) && !Fence(line) }

  lemma HeadingIsPlain(title: string, feature: string)
    requires SingleLine(title) && SingleLine(feature)
    ensures Plain(HeadingLine(title, feature))
  {
    var heading := if title != "" then title else "Open vAIR contract: " + feature;
    PlainLine("# ", heading, "");
    assert "# " + heading + "" == "# " + heading;
  }

  lemma FeatureIsPlain(feature: string)
    requires SingleLine(feature)
    ensures Plain(FeatureLine(feature))
  {
    PlainLine("Архитектурный контракт модуля `", feature, "` для RDE-линтера.");
  }

  lemma SourceIsPlain(source: string)
    requires SingleLine(source)
    ensures Plain(SourceLine(source))
  {
    PlainLine("Источник кода: `", source, "`.");
  }

  lemma BlockLineIsPlain()
    ensures Plain(BLOCK_LINE)
  {
    PlainLine(BLOCK_LINE, "", "");
    assert BLOCK_LINE + "" + "" == BLOCK_LINE;
  }

  lemma PreambleIsPlain(title: string, feature: string, source: string)
    requires SingleLine(title) && SingleLine(feature) && SingleLine(source)
    ensures |Preamble(title, feature, source)| == 7
    ensures forall i :: 0 <= i < 7 ==> Plain(Preamble(title, feature, source)[i])
  {
    hide HeadingLine, FeatureLine, SourceLine, BLOCK_LINE;
    HeadingIsPlain(title, feature);
    FeatureIsPlain(feature);
    SourceIsPlain(source);
    BlockLineIsPlain();
    assert Plain("");
  }

  lemma TrimEnds(s: string)
    ensures LTrim(s) != "" ==> !IsSpace(LTrim(s)[0])
    ensures |LTrim(s)| <= |s| && |RTrim(s)| <= |s| && RTrim(s) <= s
  {
  }

  /** A line break after stripped text is stripped again. */
  lemma StripLineBreak(s: string)
    requires Strip(s) == s
    ensures Strip(s + "\n") == s
  {
    TrimEnds(s);
    TrimEnds(LTrim(s));
    assert |LTrim(s)| == |s|;
    LTrimWhole(s);
    if s == "" {
      assert "\n"[1..] == "";
      assert s + "\n" == "\n";
    } else {
      assert LTrim(s + "\n") == s + "\n" by { assert (s + "\n")[0] == s[0]; }
      assert (s + "\n")[..|s|] == s;
    }
  }

  lemma LTrimWhole(s: string)
    requires |LTrim(s)| == |s|
    ensures LTrim(s) == s
  {
    if s != "" && IsSpace(s[0]) { TrimEnds(s[1..]); }
  }

  // ---------- the round trip ----------

  function BlockLines(dumped: string): seq<string> { ["```rde"] + Split(dumped, '\n') + ["```", ""] }

  lemma WrittenLines(title: string, feature: string, source: string, dumped: string)
    ensures Split(ContractToMarkdown(title, feature, source, dumped), '\n') ==
            Split(Join(Preamble(title, feature, source), '\n'), '\n') + BlockLines(dumped)
  {
    var head := Preamble(title, feature, source);
    assert |head| == 7;
    hide Preamble, Split;
    assert head + ["```rde"] + Split(dumped, '\n') + ["```", ""] == head + BlockLines(dumped);
    JoinConcat(head, BlockLines(dumped), '\n');
    SplitConcat(Join(head, '\n'), Join(BlockLines(dumped), '\n'), '\n');
    SplitOfJoin(BlockLines(dumped), '\n');
  }

  /** The extractor on any text that ends with the written block. */
  lemma BlockIsFound(head: seq<string>, dumped: string)
    ensures var lines := head + BlockLines(dumped);
            && (forall m :: 0 < m <= |head| + 1 ==> LastFence(lines, m) == Some(|lines| - 2))
            && Opening(lines[|head|]) && lines[|head| + 1..|lines| - 2] == Split(dumped, '\n')
  {
    var lines := head + BlockLines(dumped);
    assert Opening("```rde") by { assert "```rde"[3..] == "rde" && "rde"[..3] == "rde" && "rde"[3..] == ""; }
    var last := |lines| - 2;
    assert lines[last] == "```" && lines[last + 1] == "";
    forall m | 0 < m <= |head| + 1 ensures LastFence(lines, m) == Some(last) {
      LastFenceIsLast(lines, m);
    }
  }

  lemma RTrimAppend(a: string, b: string)
    requires RTrim(b) != ""
    ensures RTrim(a + b) == a + RTrim(b)
  {
    hide IsSpace;
    if IsSpace(b[|b| - 1]) {
      assert (a + b)[..|a + b| - 1] == a + b[..|b| - 1];
      RTrimAppend(a, b[..|b| - 1]);
    }
  }

  lemma {:induction false} LTrimAppend(a: string, b: string) returns (front: string)
    requires b != "" && !IsSpace(b[0])
    ensures LTrim(a + b) == front + b
  {
    hide IsSpace;
    if a == "" {
      assert a + b == b;
      front := "";
    } else if IsSpace(a[0]) {
      assert (a + b)[1..] == a[1..] + b;
      front := LTrimAppend(a[1..], b);
    } else {
      front := a;
    }
  }

  lemma RTrimLineBreak(s: string)
    ensures RTrim(s + "\n") == RTrim(s)
  {
    assert (s + "\n")[..|s|] == s;
  }

  /** Text that ends with an opening line and more never strips down to that more. */
  lemma StripKeepsOpening(before: string, dumped: string)
    requires Strip(dumped) == dumped
    ensures Strip(before + ("```rde\n" + dumped + "\n")) != dumped
  {
    var tail := "```rde\n" + dumped + "\n";
    var front := LTrimAppend(before, tail);
    if dumped == "" {
      RTrimLineBreak("```rde");
      RTrimLineBreak("```rde\n");
      assert tail == "```rde\n" + "\n" && "```rde" + "\n" == "```rde\n";
    } else {
      StripLineBreak(dumped);
      TrimEnds(dumped);
      StrippedEnds(dumped);
      assert (dumped + "\n")[..|dumped|] == dumped;
      RTrimAppend("```rde\n", dumped + "\n");
      assert "```rde\n" + (dumped + "\n") == tail;
      assert RTrim(tail) == "```rde\n" + dumped;
    }
    RTrimAppend(front, tail);
  }

  lemma StrippedEnds(s: string)
    requires Strip(s) == s && s != ""
    ensures !IsSpace(s[|s| - 1])
  {
    TrimEnds(s);
    TrimEnds(LTrim(s));
    LTrimWhole(s);
    if IsSpace(s[|s| - 1]) { TrimEnds(s[..|s| - 1]); }
  }

  lemma JoinBody(xs: seq<string>, dumped: string)
    ensures Body(xs + ["```rde"] + Split(dumped, '\n')) == Body(xs) + ("```rde\n" + dumped + "\n")
  {
    hide Split;
    var tail := ["```rde"] + Split(dumped, '\n');
    JoinOfSplit(dumped, '\n');
    assert tail[1..] == Split(dumped, '\n');
    assert Join(tail, '\n') == "```rde" + "\n" + dumped;
    assert xs + ["```rde"] + Split(dumped, '\n') == xs + tail;
    if xs == [] {
      assert xs + tail == tail;
    } else {
      JoinConcat(xs, tail, '\n');
    }
  }

  /** Reading back what was written gives the YAML text, whatever it is (lines that look like fences, even
      like `rde` openings, belong to the block), exactly when no line before the block opens one. */
  lemma MarkdownRoundTripIff(title: string, feature: string, source: string, dumped: string)
    requires Strip(dumped) == dumped
    ensures ExtractRdeBlock(ContractToMarkdown(title, feature, source, dumped)) == Some(dumped) <==>
            forall line :: line in Split(Join(Preamble(title, feature, source), '\n'), '\n') ==> !Opening(line)
  {
    WrittenLines(title, feature, source, dumped);
    var head := Split(Join(Preamble(title, feature, source), '\n'), '\n');
    hide Preamble, Split, Join, Strip, Opening, ContractToMarkdown, FindBlock, LastFence, Body;
    var lines := head + BlockLines(dumped);
    BlockIsFound(head, dumped);
    assert forall j :: 0 <= j < |head| ==> lines[j] == head[j] && head[j] in head;
    if forall line :: line in head ==> !Opening(line) {
      FindBlockIsFirst(lines, 0, |head|);
      BodyOfSplit(dumped);
      StripLineBreak(dumped);
    } else {
      var k := FirstOpening(head);
      FindBlockIsFirst(lines, 0, k);
      var xs := lines[k + 1..|head|];
      assert lines[k + 1..|lines| - 2] == xs + ["```rde"] + Split(dumped, '\n') by {
        assert lines[|head| + 1..|lines| - 2] == Split(dumped, '\n');
      }
      JoinBody(xs, dumped);
      StripKeepsOpening(Body(xs), dumped);
    }
  }

  lemma {:induction false} BodyOfSplit(dumped: string)
    ensures Body(Split(dumped, '\n')) == dumped + "\n"
  {
    JoinOfSplit(dumped, '\n');
  }

  lemma FirstOpening(head: seq<string>) returns (k: nat)
    requires exists line :: line in head && Opening(line)
    ensures k < |head| && Opening(head[k]) && forall j :: 0 <= j < k ==> !Opening(head[j])
  {
    hide Opening;
    k := 0;
    while !Opening(head[k])
      invariant k < |head| && forall j :: 0 <= j < k ==> !Opening(head[j])
      invariant exists j :: k <= j < |head| && Opening(head[j])
      decreases |head| - k
    {
      k := k + 1;
    }
  }

  /** With a single-line title, feature and source the round trip always succeeds. */
  lemma MarkdownRoundTrip(title: string, feature: string, source: string, dumped: string)
    requires SingleLine(title) && SingleLine(feature) && SingleLine(source)
    requires Strip(dumped) == dumped
    ensures ExtractRdeBlock(ContractToMarkdown(title, feature, source, dumped)) == Some(dumped)
  {
    PreambleIsPlain(title, feature, source);
    var head := Preamble(title, feature, source);
    hide Preamble, Strip, ContractToMarkdown;
    assert forall p :: p in head ==> Plain(p);
    SplitOfJoin(head, '\n');
    MarkdownRoundTripIff(title, feature, source, dumped);
  }

  // ---------- several fences ----------

  function FirstFence(lines: seq<string>, from: nat): Option<nat>
    requires from <= |lines|
    decreases |lines| - from
  {
    if from == |lines| then None else if Fence(lines[from]) then Some(from) else FirstFence(lines, from + 1)
  }

  lemma FirstFenceIsFirst(lines: seq<string>, from: nat)
    requires from <= |lines|
    ensures FirstFence(lines, from).Some? <==> LastFence(lines, from).Some?
    ensures var r := FirstFence(lines, from);
            r.Some? ==> from <= r.value <= LastFence(lines, from).value < |lines| && Fence(lines[r.value]) &&
                        forall j :: from <= j < r.value ==> !Fence(lines[j])
    decreases |lines| - from
  {
    LastFenceIsLast(lines, from);
    if from == |lines| {
    } else {
      LastFenceIsLast(lines, from + 1);
      FirstFenceIsFirst(lines, from + 1);
    }
  }

  /** How many characters stripping can never take away. */
  function Ink(s: string): nat { if s == "" then 0 else (if IsSpace(s[0]) then 0 else 1) + Ink(s[1..]) }

  lemma InkConcat(a: string, b: string)
    ensures Ink(a + b) == Ink(a) + Ink(b)
  {
    hide IsSpace;
    if a == "" {
      assert a + b == b;
    } else {
      InkConcat(a[1..], b);
      assert (a + b)[1..] == a[1..] + b;
    }
  }

  lemma InkOfTrims(s: string)
    ensures Ink(LTrim(s)) == Ink(s) && Ink(RTrim(s)) == Ink(s)
  {
    hide IsSpace;
    if s == "" {
    } else {
      var init, last := s[..|s| - 1], [s[|s| - 1]];
      InkOfTrims(s[1..]);
      InkOfTrims(init);
      InkConcat(init, last);
      assert s == init + last && last[1..] == "";
    }
  }

  lemma InkOfStrip(s: string)
    ensures Ink(Strip(s)) == Ink(s)
  {
    InkOfTrims(s);
    InkOfTrims(LTrim(s));
  }

  lemma BodyConcat(xs: seq<string>, ys: seq<string>)
    ensures Body(xs + ys) == Body(xs) + Body(ys)
  {
    if xs == [] {
      assert xs + ys == ys;
    } else if ys == [] {
      assert xs + ys == xs;
    } else {
      JoinConcat(xs, ys, '\n');
    }
  }

  lemma FenceHasInk(line: string, ys: seq<string>)
    requires Fence(line)
    ensures Ink(Body([line] + ys)) > 0
  {
    BodyConcat([line], ys);
    InkConcat(Body([line]), Body(ys));
    assert Body([line])[0] == line[0] == '`';
  }

  /** A block is read up to the first fence that follows its opening exactly when that fence is the last one
      of the document; otherwise the fences in between belong to the block. */
  lemma FirstBlockIsReadIff(text: string)
    requires FindBlock(Split(text, '\n'), 0).Some?
    ensures var lines := Split(text, '\n');
            var (i, last) := FindBlock(lines, 0).value;
            && i + 1 <= |lines| && FirstFence(lines, i + 1).Some?
            && var first := FirstFence(lines, i + 1).value;
               && i + 1 <= first <= last < |lines|
               && (ExtractRdeBlock(text) == Some(Strip(Body(lines[i + 1..first]))) <==> first == last)
  {
    var lines := Split(text, '\n');
    FindBlockBounds(lines, 0);
    var (i, last) := FindBlock(lines, 0).value;
    FirstFenceIsFirst(lines, i + 1);
    BlockRead(text);
    hide ExtractRdeBlock, Split, FindBlock, FirstFence, LastFence, Body, Strip, Fence, Opening;
    FenceDecidesIff(lines, i + 1, FirstFence(lines, i + 1).value, last);
  }

  lemma BlockRead(text: string)
    requires FindBlock(Split(text, '\n'), 0).Some?
    ensures var lines := Split(text, '\n');
            var (i, last) := FindBlock(lines, 0).value;
            i < last < |lines| && ExtractRdeBlock(text) == Some(Strip(Body(lines[i + 1..last])))
  {
    FindBlockBounds(Split(text, '\n'), 0);
  }

  lemma FenceDecidesIff(lines: seq<string>, from: nat, first: nat, last: nat)
    requires from <= first <= last < |lines| && Fence(lines[first])
    ensures Strip(Body(lines[from..last])) == Strip(Body(lines[from..first])) <==> first == last
  {
    hide Body, Strip, Fence;
    if first < last {
      LongerBlockDiffers(lines[from..first], lines[first], lines[first + 1..last]);
      assert lines[from..last] == lines[from..first] + ([lines[first]] + lines[first + 1..last]);
    }
  }

  lemma LongerBlockDiffers(block: seq<string>, fence: string, rest: seq<string>)
    requires Fence(fence)
    ensures Strip(Body(block + ([fence] + rest))) != Strip(Body(block))
  {
    hide Body, Strip, Fence;
    BodyConcat(block, [fence] + rest);
    InkConcat(Body(block), Body([fence] + rest));
    FenceHasInk(fence, rest);
    InkOfStrip(Body(block));
    InkOfStrip(Body(block + ([fence] + rest)));
  }

  /** A document with two blocks, whose first block is not what is read. */
  lemma SecondFenceIsSwallowed()
    ensures var text := Join(["```rde", "a", "```", "b", "```"], '\n');
            ExtractRdeBlock(text).Some? && ExtractRdeBlock(text) != Some(Strip(Body(["a"])))
  {
    var lines := ["```rde", "a", "```", "b", "```"];
    SplitOfJoin(lines, '\n');
    assert Opening("```rde") by { assert "```rde"[3..] == "rde" && "rde"[..3] == "rde" && "rde"[3..] == ""; }
    assert LastFence(lines, 1) == Some(4) by { LastFenceIsLast(lines, 1); }
    FindBlockIsFirst(lines, 0, 0);
    assert FirstFence(lines, 1) == Some(2) by { FirstFenceIsFirst(lines, 1); }
    FirstBlockIsReadIff(Join(lines, '\n'));
    assert lines[1..2] == ["a"];
  }

  // ---------- shorthand endpoints ----------

  function NormalizedEndpoint(prefix: Option<string>, e: Endpoint): Endpoint {
    Endpoint(Upper(e.verb), RoutePaths.ContractPath(prefix, e.path), e.handler, e.parameters)
  }

  /** Entries that are not mappings are skipped. */
  function NormalizedEndpoints(prefix: Option<string>, entries: seq<RequiredEndpoint>): seq<Endpoint> {
    if entries == [] then []
    else
      var last := entries[|entries| - 1];
      NormalizedEndpoints(prefix, entries[..|entries| - 1]) +
      if last.Given? then [NormalizedEndpoint(prefix, last.endpoint)] else []
  }

  /** `_normalize_http_endpoints` */
  method NormalizeHttpEndpoints(prefix: Option<string>, entries: seq<RequiredEndpoint>) returns (out: seq<Endpoint>)
    ensures out == NormalizedEndpoints(prefix, entries)
  {
    out := [];
    for i := 0 to |entries|
      invariant out == NormalizedEndpoints(prefix, entries[..i])
    {
      hide NormalizedEndpoint;
      assert entries[..i + 1][..i] == entries[..i];
      if entries[i].Given? {
        var row := NormalizeEntry(prefix, entries[i].endpoint);
        out := out + [row];
      }
    }
    assert entries[..|entries|] == entries;
  }

  method NormalizeEntry(prefix: Option<string>, ep: Endpoint) returns (row: Endpoint)
    ensures row == NormalizedEndpoint(prefix, ep)
  {
    var fullPath: string;
    if prefix.Some? && prefix.value != "" && ep.path != "" && !(prefix.value <= ep.path) {
      fullPath := RoutePaths.Join(prefix, ep.path);
    } else {
      fullPath := if "/" <= ep.path then ep.path else "/" + ep.path;
    }
    row := Endpoint(Upper(ep.verb), fullPath, ep.handler, ep.parameters);
  }

  lemma UpperIsIdempotent(s: string)
    ensures Upper(Upper(s)) == Upper(s)
  {
  }

  /** A shorthand entry written with the router's own prefix and route text names the route that the
      extractor finds for `@router.verb("route")` exactly when the prefix is blank, or the route text is
      non-empty and does not already start with the prefix. */
  lemma ShorthandNamesTheRoute(prefix: string, e: Endpoint, router: string)
    requires e.verb in HTTP_VERBS
    ensures var found := RouteOf(RouteCall(e.verb, router, e.path), map[router := prefix]).value;
            Key(NormalizedEndpoint(Some(prefix), e)) == Key(Endpoint(found.0, found.1, e.handler, [])) <==>
            RoutePaths.Blank(Some(prefix)) || (e.path != "" && !(prefix <= e.path))
  {
    RoutePaths.ContractAgreesWithCode(Some(prefix), e.path);
    UpperIsIdempotent(e.verb);
  }
}
