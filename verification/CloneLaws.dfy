/** Clone names and MAC addresses as texts, and the allocation of addresses draw by draw. */
module CloneLaws {
  import opened Common
  import opened CloneNames
  import opened CloneMacs

  // ---------- numbers as digits ----------

  /** Reading digits: the value of the last one and ten times that of the ones before it. */
  lemma NumberIs(s: string, d: char)
    requires AllDigits(s) && '0' <= d <= '9'
    ensures Number("") == 0 && Number(s + [d]) == 10 * Number(s) + (d as int - '0' as int)
  {
    assert (s + [d])[..|s|] == s;
  }

  lemma DecimalHasNoLeadingZero(n: nat)
    ensures |Decimal(n)| > 1 ==> Decimal(n)[0] != '0'
    ensures n > 0 ==> Decimal(n)[0] != '0'
  {
    if n < 10 {
    } else {
      DecimalHasNoLeadingZero(n / 10);
      DecimalReads(n / 10);
    }
  }

  /** The number in decimal digits, at least three of them, and no leading zero beyond that. */
  ghost predicate Prints(digits: string, n: nat) {
    && AllDigits(digits) && Number(digits) == n
    && |digits| >= 3 && (|digits| > 3 ==> digits[0] != '0')
  }

  lemma PaddedPrints(n: nat)
    ensures Prints(Padded(n), n)
  {
    PaddedReads(n);
    DecimalLength(n);
    DecimalHasNoLeadingZero(n);
    if |Decimal(n)| < 3 { LeadingZeros(3 - |Decimal(n)|, Decimal(n)); }
  }

  // ---------- clone names ----------

  ghost predicate Reads(base: string, name: string, digits: string) {
    digits != "" && AllDigits(digits) &&
    (name == base + "_clone_" + digits || name == base + "_clone_" + digits + "\n")
  }

  /** A name has a clone number exactly when it is the base, `_clone_` and digits, and at most a line break
      after them; the number is what the digits say. */
  lemma CloneNumberIff(base: string, name: string, n: nat)
    ensures CloneNumber(base, name) == Some(n) <==> exists digits :: Reads(base, name, digits) && Number(digits) == n
  {
    hide Number;
    var front := base + INFIX;
    if CloneNumber(base, name) == Some(n) {
      var rest := name[|front|..];
      assert name == front + rest;
      if rest[|rest| - 1] == '\n' {
        assert rest == rest[..|rest| - 1] + "\n";
        assert Reads(base, name, rest[..|rest| - 1]);
      } else {
        assert Reads(base, name, rest);
      }
    }
    if digits :| Reads(base, name, digits) && Number(digits) == n {
      ReadsIsNumber(base, name, digits);
    }
  }

  lemma ReadsIsNumber(base: string, name: string, digits: string)
    requires Reads(base, name, digits)
    ensures CloneNumber(base, name) == Some(Number(digits))
  {
    hide Number;
    var front := base + INFIX;
    assert IsDigit(digits[|digits| - 1]);
    if name == front + digits {
      assert name[|front|..] == digits;
    } else {
      assert name == front + (digits + "\n");
      assert name[|front|..] == digits + "\n";
      assert (digits + "\n")[..|digits|] == digits;
    }
  }

  /** The highest number is that of a name and no name has a higher one; it is zero if no name has a number. */
  lemma HighestIs(base: string, names: seq<string>, name: string, k: nat)
    ensures name in names && CloneNumber(base, name) == Some(k) ==> k <= Highest(base, names)
    ensures Highest(base, names) > 0 ==> exists n :: n in names && CloneNumber(base, n) == Some(Highest(base, names))
  {
    HighestIsMaximum(base, names);
    hide CloneNumber, Highest;
    if Highest(base, names) > 0 {
      var n :| n in names && NumberOrZero(base, n) == Highest(base, names);
      assert CloneNumber(base, n) == Some(Highest(base, names));
    }
  }

  /** A name is refused exactly when ten more characters would pass a limit that is there and not zero;
      otherwise it is the base, `_clone_` and the number with at least three digits. */
  lemma CreatedNameIs(name: string, num: nat, maxLen: Option<int>)
    ensures CreateNewCloneName(name, num, maxLen) == Err(CloneNameTooLong) <==>
            maxLen.Some? && maxLen.value != 0 && |name| + 10 > maxLen.value
    ensures CreateNewCloneName(name, num, maxLen).Ok? ==>
              exists digits :: Prints(digits, num) &&
                               CreateNewCloneName(name, num, maxLen).value == name + "_clone_" + digits
    ensures CreateNewCloneName(name, num, maxLen).Err? ==>
              CreateNewCloneName(name, num, maxLen) == Err(CloneNameTooLong)
  {
    PaddedPrints(num);
  }

  /** When the allocator answers m, what is created for two of the next `count` numbers is new, different for
      different numbers, and keeps the limit. */
  lemma {:induction false} CreatedNamesAreNew(base: string, names: seq<string>, m: nat, count: nat, i: nat, j: nat,
                                              maxLen: Option<int>)
    requires m == Highest(base, names) && m + count <= 999 && 1 <= i <= count && 1 <= j <= count
    requires CreateNewCloneName(base, m + i, maxLen).Ok? && CreateNewCloneName(base, m + j, maxLen).Ok?
    ensures var a, b := CreateNewCloneName(base, m + i, maxLen).value, CreateNewCloneName(base, m + j, maxLen).value;
            && a !in names && (a == b ==> i == j) && |a| == |base| + 10
            && (maxLen.Some? && maxLen.value != 0 ==> |a| <= maxLen.value)
  {
    NextNamesAreNew(base, names, m, count, i, j);
  }

  // ---------- MAC addresses ----------

  const HEX_DIGITS: string := "0123456789ABCDEF"

  /** An address is the fixed prefix and three pairs of upper-case hexadecimal digits, colons in between. */
  lemma MacIs(x: Draw)
    ensures MacOf(x) ==
            "6C:4A:74:" + [HEX_DIGITS[x.a], HEX_DIGITS[x.b]] + ":" + [HEX_DIGITS[x.c], HEX_DIGITS[x.d]] + ":" +
            [HEX_DIGITS[x.e], HEX_DIGITS[x.f]]
  {
    HexIs(x.a);
    HexIs(x.b);
    HexIs(x.c);
    HexIs(x.d);
    HexIs(x.e);
    HexIs(x.f);
  }

  lemma HexIs(n: Nibble)
    ensures Hex(n) == HEX_DIGITS[n]
  {
  }

  // ---------- the allocation, draw by draw ----------

  function Drawn(source: Source, ps: seq<nat>): set<string> { set i | 0 <= i < |ps| :: MacOf(source(ps[i])) }

  /** Position `p` is the first of the `attempts` draws from `at` on whose address is not taken. */
  ghost predicate IsFirstFree(taken: set<string>, source: Source, at: nat, attempts: nat, p: nat) {
    && at <= p < at + attempts && MacOf(source(p)) !in taken
    && forall k :: at <= k < p ==> MacOf(source(k)) in taken
  }

  lemma FirstFreeIff(taken: set<string>, source: Source, at: nat, attempts: nat, p: nat)
    ensures FirstFree(taken, source, at, attempts) == Some(p) <==> IsFirstFree(taken, source, at, attempts, p)
    decreases attempts
  {
    hide MacOf;
    if attempts != 0 && MacOf(source(at)) in taken { FirstFreeIff(taken, source, at + 1, attempts - 1, p); }
  }

  /** The positions `ps` of the draws that a run of the two loops keeps: each slot starts after the draw of the
      slot before and takes the first free draw within its attempts. */
  ghost predicate Keeps(taken: set<string>, source: Source, at: nat, attempts: nat, ps: seq<nat>)
    decreases |ps|
  {
    ps != [] ==>
      && IsFirstFree(taken, source, at, attempts, ps[0])
      && Keeps(taken + {MacOf(source(ps[0]))}, source, ps[0] + 1, attempts, ps[1..])
  }

  /** When there are such draws for all slots the loops succeed and give exactly their addresses, */
  lemma {:induction false} KeptDrawsAreAllocated(existing: set<string>, chosen: set<string>, source: Source, at: nat,
                                                 count: nat, attempts: nat, ps: seq<nat>)
    requires |ps| == count && Keeps(existing + chosen, source, at, attempts, ps)
    ensures Allocate(existing, chosen, source, at, count, attempts) == Some(chosen + Drawn(source, ps))
    decreases count
  {
    hide MacOf, FirstFree;
    if count == 0 {
      assert chosen + Drawn(source, ps) == chosen;
    } else {
      var mac := MacOf(source(ps[0]));
      FirstFreeIff(existing + chosen, source, at, attempts, ps[0]);
      assert existing + chosen + {mac} == existing + (chosen + {mac});
      KeptDrawsAreAllocated(existing, chosen + {mac}, source, ps[0] + 1, count - 1, attempts, ps[1..]);
      DrawnSplit(source, ps);
      assert chosen + {mac} + Drawn(source, ps[1..]) == chosen + Drawn(source, ps);
    }
  }

  lemma DrawnSplit(source: Source, ps: seq<nat>)
    requires ps != []
    ensures Drawn(source, ps) == {MacOf(source(ps[0]))} + Drawn(source, ps[1..])
  {
    hide MacOf;
    forall m | m in Drawn(source, ps) ensures m in {MacOf(source(ps[0]))} + Drawn(source, ps[1..]) {
      var i :| 0 <= i < |ps| && m == MacOf(source(ps[i]));
      if i > 0 { assert ps[1..][i - 1] == ps[i]; }
    }
    forall m | m in Drawn(source, ps[1..]) ensures m in Drawn(source, ps) {
      var i :| 0 <= i < |ps| - 1 && m == MacOf(source(ps[1..][i]));
      assert ps[i + 1] == ps[1..][i];
    }
  }

  /** and only then. */
  lemma {:induction false} AllocationKeepsDraws(existing: set<string>, chosen: set<string>, source: Source, at: nat,
                                                count: nat, attempts: nat) returns (ps: seq<nat>)
    requires Allocate(existing, chosen, source, at, count, attempts).Some?
    ensures |ps| == count && Keeps(existing + chosen, source, at, attempts, ps)
    decreases count
  {
    hide MacOf, FirstFree;
    if count == 0 {
      ps := [];
    } else {
      var p := FirstFree(existing + chosen, source, at, attempts).value;
      var mac := MacOf(source(p));
      FirstFreeIff(existing + chosen, source, at, attempts, p);
      var rest := AllocationKeepsDraws(existing, chosen + {mac}, source, p + 1, count - 1, attempts);
      assert existing + chosen + {mac} == existing + (chosen + {mac});
      ps := [p] + rest;
      assert ps[1..] == rest;
    }
  }
}
