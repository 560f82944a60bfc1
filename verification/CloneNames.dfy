/** Names of clones: the printer of `<base>_clone_<NNN>`, the parser that finds the highest number in use,
    and why the names handed out are new. */
module CloneNames {
  import opened Common

  const MAX_SUFFIX: nat := 999

  const SUFFIX_LENGTH: nat := 10

  const INFIX: string := "_clone_"

  predicate IsDigit(c: char) { '0' <= c <= '9' }

  predicate AllDigits(s: string) { forall i :: 0 <= i < |s| ==> IsDigit(s[i]) }

  /** `int(s)` on decimal digits */
  function Number(s: string): nat
    requires AllDigits(s)
  {
    if s == "" then 0 else 10 * Number(s[..|s| - 1]) + (s[|s| - 1] as int - '0' as int)
  }

  function Digit(n: nat): char
    requires n < 10
  {
    ('0' as int + n) as char
  }

  function Decimal(n: nat): string {
    if n < 10 then [Digit(n)] else Decimal(n / 10) + [Digit(n % 10)]
  }

  function Zeros(n: nat): string { if n == 0 then "" else Zeros(n - 1) + "0" }

  /** `f'{n:03d}'` */
  function Padded(n: nat): string {
    var d := Decimal(n);
    if |d| < 3 then Zeros(3 - |d|) + d else d
  }

  function CloneName(base: string, num: nat): string { base + INFIX + Padded(num) }

  /** What the pattern `^<base>_clone_(\d+)$` reads; `$` also matches before one final line break. */
  function CloneNumber(base: string, name: string): Option<nat> {
    if !(base + INFIX <= name) then None
    else
      var rest := name[|base + INFIX|..];
      var digits := if rest != "" && rest[|rest| - 1] == '\n' then rest[..|rest| - 1] else rest;
      if digits != "" && AllDigits(digits) then Some(Number(digits)) else None
  }

  function NumberOrZero(base: string, name: string): nat {
    var n := CloneNumber(base, name);
    if n.Some? then n.value else 0
  }

  datatype Error = NoAvailableNameForClone | CloneNameTooLong

  // ---------- the code ----------

  function Highest(base: string, names: seq<string>): nat {
    if names == [] then 0
    else
      var before, num := Highest(base, names[..|names| - 1]), NumberOrZero(base, names[|names| - 1]);
      if num > before then num else before
  }

  /** The highest number in use, unless `count` more would pass MAX_SUFFIX. */
  method GetMaxCloneNumber(base: string, existingNames: seq<string>, count: int) returns (r: Result<nat, Error>)
    ensures var m := Highest(base, existingNames);
            r == if m >= MAX_SUFFIX || m + count > MAX_SUFFIX then Err(NoAvailableNameForClone) else Ok(m)
  {
    var maxNum := 0;
    for i := 0 to |existingNames|
      invariant maxNum == Highest(base, existingNames[..i])
    {
      hide NumberOrZero;
      assert existingNames[..i + 1][..i] == existingNames[..i];
      var num := NumberOrZero(base, existingNames[i]);
      maxNum := if num > maxNum then num else maxNum;
    }
    assert existingNames[..|existingNames|] == existingNames;
    if maxNum >= MAX_SUFFIX || maxNum + count > MAX_SUFFIX { return Err(NoAvailableNameForClone); }
    return Ok(maxNum);
  }

  lemma {:induction false} HighestIsMaximum(base: string, names: seq<string>)
    ensures forall name :: name in names ==> NumberOrZero(base, name) <= Highest(base, names)
    ensures Highest(base, names) == 0 ||
            exists name :: name in names && NumberOrZero(base, name) == Highest(base, names)
  {
    hide NumberOrZero;
    if names == [] {
    } else {
      HighestIsMaximum(base, names[..|names| - 1]);
      assert names == names[..|names| - 1] + [names[|names| - 1]];
    }
  }

  /** A limit of None or zero is no limit. */
  function CreateNewCloneName(name: string, num: nat, maxLen: Option<int>): Result<string, Error> {
    if maxLen.Some? && maxLen.value != 0 && |name| + SUFFIX_LENGTH > maxLen.value
    then Err(CloneNameTooLong)
    else Ok(CloneName(name, num))
  }

  // ---------- printing and reading ----------

  lemma DecimalReads(n: nat)
    ensures AllDigits(Decimal(n)) && Number(Decimal(n)) == n && Decimal(n) != ""
  {
    if n < 10 {
      assert [Digit(n)][..0] == "";
    } else {
      DecimalReads(n / 10);
      var d := Decimal(n / 10);
      assert (d + [Digit(n % 10)])[..|d|] == d;
    }
  }

  lemma DecimalLength(n: nat)
    ensures |Decimal(n)| <= 3 <==> n <= 999
    ensures |Decimal(n)| >= 1
  {
    if n >= 1000 {
      assert n / 10 >= 100 && n / 10 / 10 >= 10;
      assert |Decimal(n)| == |Decimal(n / 10)| + 1 && |Decimal(n / 10)| == |Decimal(n / 10 / 10)| + 1;
      assert |Decimal(n / 10 / 10)| == |Decimal(n / 10 / 10 / 10)| + 1;
      DecimalReads(n / 10 / 10 / 10);
    } else if n >= 100 {
      assert 10 <= n / 10 < 100 && n / 10 / 10 < 10;
    } else if n >= 10 {
      assert n / 10 < 10;
    }
  }

  lemma LeadingZeros(k: nat, d: string)
    requires AllDigits(d) && d != ""
    ensures |Zeros(k)| == k && AllDigits(Zeros(k) + d) && Number(Zeros(k) + d) == Number(d)
  {
    ZerosAreZero(k);
    if |d| == 1 {
      assert (Zeros(k) + d)[..k] == Zeros(k) && d[..0] == "";
    } else {
      LeadingZeros(k, d[..|d| - 1]);
      assert (Zeros(k) + d)[..k + |d| - 1] == Zeros(k) + d[..|d| - 1];
    }
  }

  lemma ZerosAreZero(k: nat)
    ensures |Zeros(k)| == k && AllDigits(Zeros(k)) && Number(Zeros(k)) == 0
  {
    if k == 0 {
    } else {
      ZerosAreZero(k - 1);
      assert (Zeros(k - 1) + "0")[..k - 1] == Zeros(k - 1);
    }
  }

  lemma PaddedReads(n: nat)
    ensures AllDigits(Padded(n)) && Padded(n) != "" && Number(Padded(n)) == n
    ensures |Padded(n)| == 3 <==> n <= 999
  {
    DecimalReads(n);
    DecimalLength(n);
    if |Decimal(n)| < 3 { LeadingZeros(3 - |Decimal(n)|, Decimal(n)); }
  }

  /** Reading a printed clone name gives its number back, for every number. */
  lemma CloneNameRoundTrip(base: string, num: nat)
    ensures CloneNumber(base, CloneName(base, num)) == Some(num)
  {
    PaddedReads(num);
    var name := CloneName(base, num);
    assert name[|base + INFIX|..] == Padded(num);
    assert IsDigit(Padded(num)[|Padded(num)| - 1]);
  }

  lemma {:induction false} HigherNumberIsNew(base: string, names: seq<string>, num: nat)
    requires num > Highest(base, names)
    ensures CloneName(base, num) !in names
  {
    HighestIsMaximum(base, names);
    CloneNameRoundTrip(base, num);
    hide CloneNumber, CloneName, Highest;
    assert NumberOrZero(base, CloneName(base, num)) == num;
  }

  /** When the allocator answers m, the names for the next `count` numbers are new, pairwise distinct, and
      ten characters longer than the base. */
  lemma {:induction false} NextNamesAreNew(base: string, names: seq<string>, m: nat, count: nat, i: nat, j: nat)
    requires m == Highest(base, names) && m + count <= MAX_SUFFIX
    requires 1 <= i <= count && 1 <= j <= count
    ensures CloneName(base, m + i) !in names
    ensures CloneName(base, m + i) == CloneName(base, m + j) ==> i == j
    ensures |CloneName(base, m + i)| == |base| + SUFFIX_LENGTH
  {
    hide CloneNumber, CloneName, Highest;
    HigherNumberIsNew(base, names, m + i);
    CloneNameLength(base, m + i);
    CloneNameRoundTrip(base, m + i);
    CloneNameRoundTrip(base, m + j);
  }

  lemma CloneNameLength(base: string, num: nat)
    ensures |CloneName(base, num)| == |base| + SUFFIX_LENGTH <==> num <= MAX_SUFFIX
  {
    PaddedReads(num);
    hide Padded;
    assert |INFIX| == 7;
  }

  /** An accepted length limit is kept by every number exactly up to MAX_SUFFIX: beyond it, the tightest
      limit that is accepted is exceeded. */
  lemma LengthLimitIsKeptIff(name: string, num: nat)
    ensures (forall maxLen: int :: maxLen != 0 && CreateNewCloneName(name, num, Some(maxLen)).Ok? ==>
               |CreateNewCloneName(name, num, Some(maxLen)).value| <= maxLen) <==> num <= MAX_SUFFIX
  {
    CloneNameLength(name, num);
    if num > MAX_SUFFIX {
      LongSuffix(num);
      var tight := |name| + SUFFIX_LENGTH;
      assert CreateNewCloneName(name, num, Some(tight)).Ok?;
    }
  }

  lemma LongSuffix(num: nat)
    requires num > MAX_SUFFIX
    ensures |Padded(num)| > 3
  {
    DecimalLength(num);
  }
}
