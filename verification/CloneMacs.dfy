/** Allocation of MAC addresses by retrying random draws, for any random source. */
module CloneMacs {
  import opened Common

  type Nibble = n: nat | n < 16

  /** The six random choices behind one address. */
  datatype Draw = Draw(a: Nibble, b: Nibble, c: Nibble, d: Nibble, e: Nibble, f: Nibble)

  const ALL_DRAWS: nat := 16777216  // 16 to the sixth

  function Hex(n: Nibble): char { if n < 10 then ('0' as int + n) as char else ('A' as int + n - 10) as char }

  /** `generate_mac_address` */
  function MacOf(x: Draw): string {
    "6C:4A:74:" + [Hex(x.a), Hex(x.b), ':', Hex(x.c), Hex(x.d), ':', Hex(x.e), Hex(x.f)]
  }

  ghost predicate Generated(mac: string) { exists x :: MacOf(x) == mac }

  /** A random source: the draw at each call. */
  type Source = nat -> Draw

  // ---------- what the nested loops compute ----------

  /** The first of the next `attempts` draws that gives a free address. */
  function FirstFree(taken: set<string>, source: Source, at: nat, attempts: nat): Option<nat>
    decreases attempts
  {
    if attempts == 0 then None
    else if MacOf(source(at)) !in taken then Some(at)
    else FirstFree(taken, source, at + 1, attempts - 1)
  }

  /** The addresses for `count` more slots, or None when a slot uses up its attempts. */
  function Allocate(existing: set<string>, chosen: set<string>, source: Source, at: nat, count: nat, attempts: nat)
    : Option<set<string>>
    decreases count
  {
    if count == 0 then Some(chosen)
    else
      var found := FirstFree(existing + chosen, source, at, attempts);
      if found.None? then None
      else Allocate(existing, chosen + {MacOf(source(found.value))}, source, found.value + 1, count - 1, attempts)
  }

  lemma AllocateOneSlot(existing: set<string>, chosen: set<string>, source: Source, at: nat, count: nat, attempts: nat)
    requires count > 0
    ensures var found := FirstFree(existing + chosen, source, at, attempts);
            Allocate(existing, chosen, source, at, count, attempts) ==
            if found.None? then None
            else Allocate(existing, chosen + {MacOf(source(found.value))}, source, found.value + 1, count - 1, attempts)
  {
  }

  lemma AllocateNoSlot(existing: set<string>, chosen: set<string>, source: Source, at: nat, attempts: nat)
    ensures Allocate(existing, chosen, source, at, 0, attempts) == Some(chosen)
  {
  }

  function Times(n: int): nat { if n < 0 then 0 else n }

  /** `generate_unique_macs`: `for _ in range(count)` around `for __ in range(max_attempts)` with an else
      branch that raises (here None). The list comes from a set, so its order is arbitrary. */
  method GenerateUniqueMacs(existing: set<string>, count: int, maxAttempts: int, source: Source)
    returns (r: Option<seq<string>>)
    ensures var expected := Allocate(existing, {}, source, 0, Times(count), Times(maxAttempts));
            && (r.None? <==> expected.None?)
            && (r.Some? ==> |r.value| == |expected.value| && forall m :: m in r.value <==> m in expected.value)
  {
    hide MacOf, FirstFree, Allocate;
    var generated: set<string> := {};
    var at := 0;
    ghost var n := Times(maxAttempts);
    for slot := 0 to Times(count)
      invariant Allocate(existing, {}, source, 0, Times(count), n) ==
                Allocate(existing, generated, source, at, Times(count) - slot, n)
    {
      AllocateOneSlot(existing, generated, source, at, Times(count) - slot, n);
      var found := TryDraws(existing, generated, source, at, maxAttempts);
      if found.None? { return None; }
      at := found.value + 1;
      generated := generated + {MacOf(source(found.value))};
    }
    AllocateNoSlot(existing, generated, source, at, n);
    var macs := Listing(generated);
    return Some(macs);
  }

  /** The inner loop: draws until an address is free or the attempts are used up. */
  method TryDraws(existing: set<string>, generated: set<string>, source: Source, at: nat, maxAttempts: int)
    returns (found: Option<nat>)
    ensures found == FirstFree(existing + generated, source, at, Times(maxAttempts))
  {
    hide MacOf;
    var attempt := 0;
    while attempt < Times(maxAttempts)
      invariant 0 <= attempt <= Times(maxAttempts)
      invariant FirstFree(existing + generated, source, at, Times(maxAttempts)) ==
                FirstFree(existing + generated, source, at + attempt, Times(maxAttempts) - attempt)
    {
      var mac := MacOf(source(at + attempt));
      if mac !in existing && mac !in generated { return Some(at + attempt); }
      attempt := attempt + 1;
    }
    return None;
  }

  method Listing(s: set<string>) returns (r: seq<string>)
    ensures |r| == |s| && forall m :: m in r <==> m in s
  {
    r := [];
    var todo := s;
    while todo != {}
      invariant todo <= s && |r| + |todo| == |s| && forall m :: m in r <==> m in s - todo
    {
      var m :| m in todo;
      r, todo := r + [m], todo - {m};
    }
  }

  // ---------- what a success means ----------

  lemma FirstFreeIsFree(taken: set<string>, source: Source, at: nat, attempts: nat)
    ensures var r := FirstFree(taken, source, at, attempts);
            && (r.Some? ==> at <= r.value < at + attempts && MacOf(source(r.value)) !in taken)
            && (r.None? <==> forall k :: at <= k < at + attempts ==> MacOf(source(k)) in taken)
    decreases attempts
  {
    if attempts != 0 && MacOf(source(at)) in taken { FirstFreeIsFree(taken, source, at + 1, attempts - 1); }
  }

  /** Exactly `count` new addresses, none of them existing, all of the generated format. */
  lemma {:induction false} AllocateIsNew(existing: set<string>, chosen: set<string>, source: Source, at: nat,
                                         count: nat, attempts: nat)
    requires chosen !! existing && forall m :: m in chosen ==> Generated(m)
    ensures var r := Allocate(existing, chosen, source, at, count, attempts);
            r.Some? ==> && |r.value| == |chosen| + count && chosen <= r.value && r.value !! existing
                        && forall m :: m in r.value ==> Generated(m)
    decreases count
  {
    hide FirstFree, MacOf;
    if count == 0 {
    } else {
      FirstFreeIsFree(existing + chosen, source, at, attempts);
      var found := FirstFree(existing + chosen, source, at, attempts);
      if found.Some? {
        AllocateIsNew(existing, chosen + {MacOf(source(found.value))}, source, found.value + 1, count - 1, attempts);
      }
    }
  }

  // ---------- the pigeonhole bound ----------

  function Code(x: Draw): nat { ((((x.a * 16 + x.b) * 16 + x.c) * 16 + x.d) * 16 + x.e) * 16 + x.f }

  lemma CodeIsInjective(x: Draw, y: Draw)
    ensures Code(x) < ALL_DRAWS && (Code(x) == Code(y) ==> x == y)
  {
    var x2, y2 := x.a * 16 + x.b, y.a * 16 + y.b;
    var x3, y3 := x2 * 16 + x.c, y2 * 16 + y.c;
    var x4, y4 := x3 * 16 + x.d, y3 * 16 + y.d;
    var x5, y5 := x4 * 16 + x.e, y4 * 16 + y.e;
    assert x2 < 256 && x3 < 4096 && x4 < 65536 && x5 < 1048576;
    OneMoreDigit(x5, x.f, y5, y.f);
    OneMoreDigit(x4, x.e, y4, y.e);
    OneMoreDigit(x3, x.d, y3, y.d);
    OneMoreDigit(x2, x.c, y2, y.c);
    OneMoreDigit(x.a, x.b, y.a, y.b);
  }

  lemma OneMoreDigit(p: nat, m: Nibble, q: nat, n: Nibble)
    ensures p * 16 + m == q * 16 + n ==> p == q && m == n
  {
  }

  lemma HexIsInjective(m: Nibble, n: Nibble)
    ensures Hex(m) == Hex(n) ==> m == n
  {
  }

  /** Different draws print different addresses. */
  lemma MacIsInjective(x: Draw, y: Draw)
    requires MacOf(x) == MacOf(y)
    ensures x == y
  {
    var s, t := MacOf(x), MacOf(y);
    assert s[9] == Hex(x.a) && s[10] == Hex(x.b) && s[12] == Hex(x.c);
    assert s[13] == Hex(x.d) && s[15] == Hex(x.e) && s[16] == Hex(x.f);
    assert t[9] == Hex(y.a) && t[10] == Hex(y.b) && t[12] == Hex(y.c);
    assert t[13] == Hex(y.d) && t[15] == Hex(y.e) && t[16] == Hex(y.f);
    HexIsInjective(x.a, y.a);
    HexIsInjective(x.b, y.b);
    HexIsInjective(x.c, y.c);
    HexIsInjective(x.d, y.d);
    HexIsInjective(x.e, y.e);
    HexIsInjective(x.f, y.f);
  }

  ghost function MacCode(mac: string): nat
    requires Generated(mac)
  {
    var x :| MacOf(x) == mac;
    Code(x)
  }

  lemma MacCodeIsInjective(m: string, n: string)
    requires Generated(m) && Generated(n)
    ensures MacCode(m) < ALL_DRAWS
    ensures MacCode(m) == MacCode(n) ==> m == n
  {
    var x :| MacOf(x) == m && MacCode(m) == Code(x);
    var y :| MacOf(y) == n && MacCode(n) == Code(y);
    CodeIsInjective(x, y);
  }

  lemma BelowBound(s: set<nat>, n: nat)
    requires forall x :: x in s ==> x < n
    ensures |s| <= n
  {
    if n != 0 {
      BelowBound(s - {n - 1}, n - 1);
    } else {
      assert s == {};
    }
  }

  lemma CodesAreAsMany(macs: set<string>) returns (codes: set<nat>)
    requires forall m :: m in macs ==> Generated(m)
    ensures |codes| == |macs|
    ensures forall k :: k in codes <==> exists m :: m in macs && MacCode(m) == k
  {
    hide MacCode, Generated;
    if macs == {} {
      codes := {};
    } else {
      var m :| m in macs;
      var rest := CodesAreAsMany(macs - {m});
      if MacCode(m) in rest {
        var n :| n in macs - {m} && MacCode(n) == MacCode(m);
        MacCodeIsInjective(m, n);
        assert false;
      }
      codes := rest + {MacCode(m)};
    }
  }

  lemma AtMostAllDraws(macs: set<string>)
    requires forall m :: m in macs ==> Generated(m)
    ensures |macs| <= ALL_DRAWS
  {
    var codes := CodesAreAsMany(macs);
    forall k | k in codes ensures k < ALL_DRAWS {
      var m :| m in macs && MacCode(m) == k;
      MacCodeIsInjective(m, m);
    }
    BelowBound(codes, ALL_DRAWS);
  }

  /** Whatever the random source returns: a success is `count` distinct addresses outside `existing`, and
      there is one only if `count` and the existing addresses of the generated format fit in 16^6. */
  lemma SuccessFits(existing: set<string>, source: Source, count: nat, attempts: nat, inUse: set<string>)
    requires Allocate(existing, {}, source, 0, count, attempts).Some?
    requires inUse <= existing && forall m :: m in inUse ==> Generated(m)
    ensures var r := Allocate(existing, {}, source, 0, count, attempts).value;
            |r| == count && r !! existing && count + |inUse| <= ALL_DRAWS
  {
    AllocateIsNew(existing, {}, source, 0, count, attempts);
    var r := Allocate(existing, {}, source, 0, count, attempts).value;
    AtMostAllDraws(r + inUse);
    assert |r + inUse| == |r| + |inUse|;
  }

  /** A single slot fails exactly when all its attempts draw taken addresses. */
  lemma OneSlotFailsIff(existing: set<string>, source: Source, attempts: nat)
    ensures Allocate(existing, {}, source, 0, 1, attempts).None? <==>
            forall k :: 0 <= k < attempts ==> MacOf(source(k)) in existing
  {
    FirstFreeIsFree(existing + {}, source, 0, attempts);
    assert existing + {} == existing;
  }
}
