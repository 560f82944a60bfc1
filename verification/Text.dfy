/** Splitting and joining strings at a separator. */
module Text {

  /** `s.split(sep)` */
  function Split(s: string, sep: char): (parts: seq<string>)
    ensures parts != [] && forall p :: p in parts ==> sep !in p
  {
    if s == "" then [""] else Attach(s[0], Split(s[1..], sep), sep)
  }

  /** The parts of a text with `c` put in front of it. */
  function Attach(c: char, parts: seq<string>, sep: char): (r: seq<string>)
    requires parts != []
    ensures r != [] && ((forall p :: p in parts ==> sep !in p) ==> forall p :: p in r ==> sep !in p)
  {
    if c == sep then [""] + parts else [[c] + parts[0]] + parts[1..]
  }

  /** `sep.join(parts)` */
  function Join(parts: seq<string>, sep: char): string {
    if parts == [] then "" else if |parts| == 1 then parts[0] else parts[0] + [sep] + Join(parts[1..], sep)
  }

  lemma SplitFirst(a: string, b: string, sep: char)
    requires sep !in a
    ensures Split(a + [sep] + b, sep) == [a] + Split(b, sep)
  {
    if a == "" {
      assert (a + [sep] + b)[1..] == b;
    } else {
      SplitFirst(a[1..], b, sep);
      assert (a + [sep] + b)[1..] == a[1..] + [sep] + b;
      assert a == [a[0]] + a[1..];
    }
  }

  lemma SplitPlain(a: string, sep: char)
    requires sep !in a
    ensures Split(a, sep) == [a]
  {
    if a == "" {
    } else {
      SplitPlain(a[1..], sep);
      assert a == [a[0]] + a[1..];
    }
  }

  lemma SplitOfJoin(parts: seq<string>, sep: char)
    requires parts != [] && forall p :: p in parts ==> sep !in p
    ensures Split(Join(parts, sep), sep) == parts
  {
    if |parts| == 1 {
      SplitPlain(parts[0], sep);
    } else {
      SplitOfJoin(parts[1..], sep);
      SplitFirst(parts[0], Join(parts[1..], sep), sep);
    }
  }

  lemma JoinOfSplit(s: string, sep: char)
    ensures Join(Split(s, sep), sep) == s
  {
    if s == "" {
    } else {
      JoinOfSplit(s[1..], sep);
      var rest := Split(s[1..], sep);
      assert s == [s[0]] + s[1..];
      if s[0] == sep {
        assert ([""] + rest)[1..] == rest;
      } else {
        var parts := [[s[0]] + rest[0]] + rest[1..];
        assert parts[1..] == rest[1..];
        if |rest| > 1 {
          var tail := Join(rest[1..], sep);
          assert [s[0]] + (rest[0] + [sep] + tail) == [s[0]] + rest[0] + [sep] + tail;
        }
      }
    }
  }

  lemma AttachConcat(c: char, x: seq<string>, y: seq<string>, sep: char)
    requires x != []
    ensures Attach(c, x + y, sep) == Attach(c, x, sep) + y
  {
    assert (x + y)[1..] == x[1..] + y;
    assert [""] + (x + y) == [""] + x + y;
  }

  lemma SplitConcat(a: string, b: string, sep: char)
    ensures Split(a + [sep] + b, sep) == Split(a, sep) + Split(b, sep)
  {
    hide Attach;
    if a == "" {
      assert (a + [sep] + b)[1..] == b;
      AttachSeparator(Split(b, sep), sep);
    } else {
      SplitConcat(a[1..], b, sep);
      assert (a + [sep] + b)[1..] == a[1..] + [sep] + b;
      AttachConcat(a[0], Split(a[1..], sep), Split(b, sep), sep);
    }
  }

  lemma AttachSeparator(parts: seq<string>, sep: char)
    requires parts != []
    ensures Attach(sep, parts, sep) == [""] + parts
  {
  }

  lemma JoinConcat(xs: seq<string>, ys: seq<string>, sep: char)
    requires xs != [] && ys != []
    ensures Join(xs + ys, sep) == Join(xs, sep) + [sep] + Join(ys, sep)
  {
    if |xs| > 1 {
      JoinConcat(xs[1..], ys, sep);
      assert (xs + ys)[1..] == xs[1..] + ys;
    } else {
      assert (xs + ys)[1..] == ys;
    }
  }
}
