/** Python's `sorted(set(xs))` on strings: strictly increasing code-point order, one entry a name. */
module Names {

  predicate Less(a: string, b: string) {
    b != [] && (a == [] || a[0] < b[0] || (a[0] == b[0] && Less(a[1..], b[1..])))
  }

  lemma LessIsTotal(a: string, b: string)
    ensures Less(a, b) || a == b || Less(b, a)
    ensures !(Less(a, b) && Less(b, a))
    ensures Less(a, b) ==> a != b
  {
    if a != [] && b != [] && a[0] == b[0] {
      LessIsTotal(a[1..], b[1..]);
      assert a == [a[0]] + a[1..] && b == [b[0]] + b[1..];
    }
  }

  lemma LessIsTransitive(a: string, b: string, c: string)
    requires Less(a, b) && Less(b, c)
    ensures Less(a, c)
  {
    if a != [] && a[0] == b[0] && b[0] == c[0] {
      LessIsTransitive(a[1..], b[1..], c[1..]);
    }
  }

  ghost predicate StrictlySorted(s: seq<string>) {
    forall i, j :: 0 <= i < j < |s| ==> Less(s[i], s[j])
  }

  function ToSet(s: seq<string>): set<string> { set x | x in s }

  function Insert(x: string, s: seq<string>): seq<string> {
    if s == [] then [x]
    else if x == s[0] then s
    else if Less(x, s[0]) then [x] + s
    else [s[0]] + Insert(x, s[1..])
  }

  lemma ConsKeepsSorted(x: string, s: seq<string>)
    requires StrictlySorted(s) && forall y :: y in s ==> Less(x, y)
    ensures StrictlySorted([x] + s) && ToSet([x] + s) == ToSet(s) + {x}
  {
  }

  lemma HeadIsLeast(s: seq<string>)
    requires StrictlySorted(s) && s != []
    ensures StrictlySorted(s[1..]) && ToSet(s) == ToSet(s[1..]) + {s[0]}
    ensures forall y :: y in s[1..] ==> Less(s[0], y)
  {
    assert s == [s[0]] + s[1..];
  }

  lemma {:induction false} InsertKeepsSorted(x: string, s: seq<string>)
    requires StrictlySorted(s)
    ensures StrictlySorted(Insert(x, s)) && ToSet(Insert(x, s)) == ToSet(s) + {x}
  {
    if s == [] {
    } else {
      LessIsTotal(x, s[0]);
      HeadIsLeast(s);
      if Less(x, s[0]) {
        forall y | y in s ensures Less(x, y) {
          if y != s[0] { LessIsTransitive(x, s[0], y); }
        }
        ConsKeepsSorted(x, s);
      } else if x != s[0] {
        InsertKeepsSorted(x, s[1..]);
        var t := Insert(x, s[1..]);
        forall y | y in t ensures Less(s[0], y) { assert y in ToSet(t); }
        ConsKeepsSorted(s[0], t);
      }
    }
  }

  function Sorted(xs: seq<string>): seq<string> {
    if xs == [] then [] else Insert(xs[|xs| - 1], Sorted(xs[..|xs| - 1]))
  }

  lemma SortedIsSorted(xs: seq<string>)
    ensures StrictlySorted(Sorted(xs)) && ToSet(Sorted(xs)) == ToSet(xs)
  {
    if xs == [] {
    } else {
      var init := xs[..|xs| - 1];
      SortedIsSorted(init);
      InsertKeepsSorted(xs[|xs| - 1], Sorted(init));
      assert xs == init + [xs[|xs| - 1]];
    }
  }

  /** A set of names has one sorted listing. */
  lemma SortedIsUnique(s: seq<string>, t: seq<string>)
    requires StrictlySorted(s) && StrictlySorted(t) && ToSet(s) == ToSet(t)
    ensures s == t
  {
    if s != [] && t != [] {
      assert s[0] in ToSet(t) && t[0] in ToSet(s);
      HeadIsLeast(s);
      HeadIsLeast(t);
      LessIsTotal(s[0], t[0]);
      assert s == [s[0]] + s[1..] && t == [t[0]] + t[1..];
      assert s[0] == t[0];
      LessIsTotal(s[0], s[0]);
      assert s[0] !in s[1..] && s[0] !in t[1..];
      assert ToSet(s[1..]) == ToSet(s) - {s[0]} && ToSet(t[1..]) == ToSet(t) - {s[0]};
      SortedIsUnique(s[1..], t[1..]);
    } else {
      EmptySet(s);
      EmptySet(t);
    }
  }

  lemma EmptySet(s: seq<string>)
    ensures ToSet(s) == {} <==> s == []
  {
    if s != [] { assert s[0] in ToSet(s); }
  }

  /** `sorted` applied to a set, in whatever order the set is walked. */
  method SortedSet(names: set<string>) returns (r: seq<string>)
    ensures StrictlySorted(r) && forall x :: x in r <==> x in names
  {
    r := [];
    var todo := names;
    while todo != {}
      invariant todo <= names && StrictlySorted(r) && ToSet(r) == names - todo
    {
      var x :| x in todo;
      InsertKeepsSorted(x, r);
      r := Insert(x, r);
      todo := todo - {x};
    }
    assert forall x :: x in r <==> x in ToSet(r);
  }

  /** Public API: no leading underscore. */
  predicate IsPublic(name: string) { name == "" || name[0] != '_' }

  function Public(names: seq<string>): (r: seq<string>)
    ensures forall x :: x in r <==> x in names && IsPublic(x)
  {
    if names == [] then []
    else
      var rest := Public(names[..|names| - 1]);
      var last := names[|names| - 1];
      assert names == names[..|names| - 1] + [last];
      if IsPublic(last) then rest + [last] else rest
  }
}
