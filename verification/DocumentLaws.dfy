/** Contract documents and normalised layers in terms of their texts and fields. */
module DocumentLaws {
  import opened Common
  import opened Text
  import opened SourceTrees
  import opened Requirements
  import opened SpecDocument
  import opened ContractNormalizer
  import RoutePaths

  // ---------- the written text ----------

  lemma JoinedLine(line: string, rest: seq<string>)
    requires rest != []
    ensures Join([line] + rest, '\n') == line + "\n" + Join(rest, '\n')
  {
    assert ([line] + rest)[1..] == rest;
  }

  lemma JoinedSeven(a: string, b: string, c: string, d: string, rest: seq<string>)
    requires rest != []
    ensures Join([a, "", b, c, "", d, ""] + rest, '\n') ==
            a + "\n\n" + b + "\n" + c + "\n\n" + d + "\n\n" + Join(rest, '\n')
  {
    hide Join;
    var r6 := [""] + rest;
    var r5 := [d] + r6;
    var r4 := [""] + r5;
    var r3 := [c] + r4;
    var r2 := [b] + r3;
    var r1 := [""] + r2;
    JoinedLine("", rest);
    JoinedLine(d, r6);
    JoinedLine("", r5);
    JoinedLine(c, r4);
    JoinedLine(b, r3);
    JoinedLine("", r2);
    JoinedLine(a, r1);
    assert [a, "", b, c, "", d, ""] + rest == [a] + r1;
  }

  lemma JoinedBlock(dumped: string)
    ensures Join(BlockLines(dumped), '\n') == "```rde\n" + dumped + "\n```\n"
  {
    hide Split;
    var lines := Split(dumped, '\n');
    JoinOfSplit(dumped, '\n');
    JoinedLine("```rde", lines + ["```", ""]);
    JoinConcat(lines, ["```", ""], '\n');
    JoinedLine("```", [""]);
    assert ["```"] + [""] == ["```", ""];
    assert BlockLines(dumped) == ["```rde"] + (lines + ["```", ""]);
  }

  /** The document, text by text. */
  lemma WrittenText(title: string, feature: string, source: string, dumped: string)
    ensures ContractToMarkdown(title, feature, source, dumped) ==
            "# " + (if title != "" then title else "Open vAIR contract: " + feature) + "\n\n" +
            ("Архитектурный контракт модуля `" + feature + "` для RDE-линтера.") + "\n" +
            ("Источник кода: `" + source + "`.") + "\n\n" +
            "Машиночитаемый контракт — блок ``rde`` ниже." + "\n\n" +
            ("```rde\n" + dumped + "\n```\n")
  {
    var a, b, c := HeadingLine(title, feature), FeatureLine(feature), SourceLine(source);
    assert Preamble(title, feature, source) == [a, "", b, c, "", BLOCK_LINE, ""];
    WrittenAsBlocks(title, feature, source, dumped);
    JoinedSeven(a, b, c, BLOCK_LINE, BlockLines(dumped));
    JoinedBlock(dumped);
  }

  lemma WrittenAsBlocks(title: string, feature: string, source: string, dumped: string)
    ensures ContractToMarkdown(title, feature, source, dumped) ==
            Join(Preamble(title, feature, source) + BlockLines(dumped), '\n')
  {
    hide Preamble, Split, Join;
    assert Preamble(title, feature, source) + ["```rde"] + Split(dumped, '\n') + ["```", ""] ==
           Preamble(title, feature, source) + BlockLines(dumped);
  }

  // ---------- the read text ----------

  /** Whitespace by code point. */
  lemma SpaceIs(c: char)
    ensures IsSpace(c) <==>
            var n := c as int;
            9 <= n <= 13 || 28 <= n <= 32 || n == 0x85 || n == 0xA0 || n == 0x1680 || 0x2000 <= n <= 0x200A ||
            n in {0x2028, 0x2029, 0x202F, 0x205F, 0x3000}
  {
  }

  ghost predicate Spaces(s: string) { forall i :: 0 <= i < |s| ==> IsSpace(s[i]) }

  lemma LTrimIs(s: string) returns (a: string)
    ensures s == a + LTrim(s) && Spaces(a)
  {
    hide IsSpace;
    if s != "" && IsSpace(s[0]) {
      var rest := LTrimIs(s[1..]);
      a := [s[0]] + rest;
      assert s == [s[0]] + s[1..];
    } else {
      a := "";
    }
  }

  lemma RTrimIs(s: string) returns (b: string)
    ensures s == RTrim(s) + b && Spaces(b)
    ensures RTrim(s) != "" ==> !IsSpace(RTrim(s)[|RTrim(s)| - 1])
  {
    hide IsSpace;
    if s != "" && IsSpace(s[|s| - 1]) {
      var rest := RTrimIs(s[..|s| - 1]);
      b := rest + [s[|s| - 1]];
      assert s == s[..|s| - 1] + [s[|s| - 1]];
    } else {
      b := "";
      assert s + "" == s;
    }
  }

  /** What stripping leaves is what stands between the outer whitespace. */
  lemma StripIs(s: string)
    ensures Strip(s) != "" ==> !IsSpace(Strip(s)[0]) && !IsSpace(Strip(s)[|Strip(s)| - 1])
    ensures exists a, b :: s == a + Strip(s) + b && Spaces(a) && Spaces(b)
  {
    TrimEnds(s);
    TrimEnds(LTrim(s));
    var a := LTrimIs(s);
    var b := RTrimIs(LTrim(s));
    assert s == a + Strip(s) + b;
  }

  ghost predicate Blanks(s: string) { forall i :: 0 <= i < |s| ==> s[i] == ' ' || s[i] == '\t' }

  ghost predicate Tag(s: string) {
    s in {"rde", "Rde", "rDe", "rdE", "RDe", "RdE", "rDE", "RDE"}
  }

  /** The line is three backticks, blanks, the tag, blanks and at most a carriage return. */
  ghost predicate Opens(line: string, a: string, tag: string, b: string) {
    Blanks(a) && Tag(tag) && Blanks(b) && (line == "```" + a + tag + b || line == "```" + a + tag + b + "\r")
  }

  lemma DropBlanksIs(s: string) returns (a: string)
    ensures s == a + DropBlanks(s) && Blanks(a)
  {
    if s != "" && (s[0] == ' ' || s[0] == '\t') {
      var rest := DropBlanksIs(s[1..]);
      a := [s[0]] + rest;
      assert s == [s[0]] + s[1..];
    } else {
      a := "";
    }
  }

  lemma DropBlanksSkips(a: string, s: string)
    requires Blanks(a) && (s == "" || (s[0] != ' ' && s[0] != '\t'))
    ensures DropBlanks(a + s) == s
  {
    if a == "" {
      assert a + s == s;
    } else {
      DropBlanksSkips(a[1..], s);
      assert (a + s)[1..] == a[1..] + s;
    }
  }

  lemma TagIs(s: string)
    ensures IsRde(s) <==> Tag(s)
  {
    if IsRde(s) { assert s == [s[0], s[1], s[2]]; }
  }

  lemma OpeningIff(line: string)
    ensures Opening(line) <==> exists a, tag, b :: Opens(line, a, tag, b)
  {
    hide IsRde, Tag, Blanks;
    if Opening(line) {
      var rest := line[3..];
      var a := DropBlanksIs(rest);
      var tail := DropBlanks(rest);
      TagIs(tail[..3]);
      var b := DropBlanksIs(tail[3..]);
      assert tail == tail[..3] + tail[3..];
      assert line == "```" + rest;
      assert Opens(line, a, tail[..3], b);
    }
    if a, tag, b :| Opens(line, a, tag, b) { OpensIsOpening(line, a, tag, b); }
  }

  lemma OpensIsOpening(line: string, a: string, tag: string, b: string)
    requires Opens(line, a, tag, b)
    ensures Opening(line)
  {
    var end := if line == "```" + a + tag + b then "" else "\r";
    assert |tag| == 3;
    TagIs(tag);
    assert line == "```" + (a + (tag + (b + end)));
    assert line[3..] == a + (tag + (b + end));
    DropBlanksSkips(a, tag + (b + end));
    assert (tag + (b + end))[..3] == tag && (tag + (b + end))[3..] == b + end;
    DropBlanksSkips(b, end);
  }

  /** The body of a block is its lines, each with its line break. */
  lemma BodyInOrder(xs: seq<string>, ys: seq<string>, line: string)
    ensures Body(xs + ys) == Body(xs) + Body(ys) && Body([line]) == line + "\n" && Body([]) == ""
  {
    BodyConcat(xs, ys);
  }

  // ---------- normalised endpoints ----------

  /** A normalised endpoint keeps handler and parameters; its verb is in upper case and its path completed. */
  lemma NormalizedFields(prefix: Option<string>, e: Endpoint)
    ensures var n := NormalizedEndpoint(prefix, e);
            && n.handler == e.handler && n.parameters == e.parameters && n.verb == Upper(e.verb)
            && n.path ==
               if prefix.Some? && prefix.value != "" && e.path != "" && !(prefix.value <= e.path)
               then RoutePaths.Join(prefix, e.path)
               else if "/" <= e.path then e.path else "/" + e.path
  {
  }

  /** Entries are normalised one by one, in order; those that are no mapping are skipped. */
  lemma NormalizedInOrder(prefix: Option<string>, x: seq<RequiredEndpoint>, y: seq<RequiredEndpoint>, e: Endpoint)
    ensures NormalizedEndpoints(prefix, x + y) == NormalizedEndpoints(prefix, x) + NormalizedEndpoints(prefix, y)
    ensures NormalizedEndpoints(prefix, [Given(e)]) == [NormalizedEndpoint(prefix, e)]
    ensures NormalizedEndpoints(prefix, [RequiredEndpoint.NotAMapping]) == []
  {
    NormalizedConcat(prefix, x, y);
    assert [Given(e)][..0] == [] && [RequiredEndpoint.NotAMapping][..0] == [];
  }

  lemma NormalizedConcat(prefix: Option<string>, x: seq<RequiredEndpoint>, y: seq<RequiredEndpoint>)
    ensures NormalizedEndpoints(prefix, x + y) == NormalizedEndpoints(prefix, x) + NormalizedEndpoints(prefix, y)
  {
    hide NormalizedEndpoint;
    if y == [] {
      assert x + y == x;
    } else {
      NormalizedConcat(prefix, x, y[..|y| - 1]);
      assert (x + y)[..|x + y| - 1] == x + y[..|y| - 1];
    }
  }

  /** The endpoint section of a normalised layer, entry by entry. */
  lemma HttpSectionIs(raw: RawLayer, s: LayerSection)
    requires Normalized(raw, s)
    ensures !raw.http.Block? ==> s.http == raw.requiredEndpoints
    ensures raw.http.Block? ==>
              var entries := if raw.http.endpoints.Some? then raw.http.endpoints.value else [];
              var eps := NormalizedEndpoints(raw.http.prefix, entries);
              && (s.http == Omitted <==> eps == [])
              && (eps != [] ==> s.http.Entries? && |s.http.entries| == |eps| &&
                                forall i :: 0 <= i < |eps| ==> s.http.entries[i] == Given(eps[i]))
  {
  }

  /** What is wrong with a layer, if anything: its name first, then its value. */
  lemma ProblemIs(name: string, value: LayerValue)
    ensures var known := name in {"domain", "service_layer", "adapters", "entrypoints"};
            Problem(name, value) ==
            if !known then Some(UnknownLayer(name))
            else if value == NotALayer then Some(LayerIsNoMapping(name))
            else None
  {
  }
}
