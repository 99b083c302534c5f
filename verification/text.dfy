/** The string operations of Python that the scripts rely on: `lower`,
    `endswith`, `in`, `split`, `str(int)`, `os.path.basename` and
    `os.path.join`. Strings are sequences of characters. */
module Text {
  import opened Wrappers

  /** `str.lower` on one character. Only ASCII letters are folded; every
      suffix the scripts test for is ASCII, and no non-ASCII capital folds
      onto one of those letters. */
  function LowerChar(c: char): char {
    if 'A' <= c <= 'Z' then (c as int + 32) as char else c
  }

  function Lower(s: string): string {
    seq(|s|, i requires 0 <= i < |s| => LowerChar(s[i]))
  }

  /** `s.endswith(suffix)`. */
  predicate EndsWith(s: string, suffix: string) {
    |suffix| <= |s| && s[|s| - |suffix|..] == suffix
  }

  // ---------------------------------------------------------------------------
  // Substring search and split

  predicate OccursAt(s: string, p: string, i: int) {
    0 <= i && i + |p| <= |s| && s[i..i + |p|] == p
  }

  /** The first occurrence of `p` in `s` at or after index `i`. */
  function FindFrom(s: string, p: string, i: nat): (r: Option<nat>)
    ensures r.Some? ==> i <= r.value && OccursAt(s, p, r.value)
    ensures r.Some? ==> forall j :: i <= j < r.value ==> !OccursAt(s, p, j)
    ensures r.None? ==> forall j :: i <= j ==> !OccursAt(s, p, j)
    decreases |s| - i
  {
    if i + |p| > |s| then None
    else if s[i..i + |p|] == p then Some(i)
    else FindFrom(s, p, i + 1)
  }

  function Find(s: string, p: string): Option<nat> {
    FindFrom(s, p, 0)
  }

  /** Python's `p in s` for strings. */
  predicate Contains(s: string, p: string) {
    Find(s, p).Some?
  }

  /** Python's `s.split(sep)` for a non-empty separator: the pieces between
      the non-overlapping occurrences of `sep`, scanned from the left. */
  function Split(s: string, sep: string): (parts: seq<string>)
    requires sep != []
    ensures |parts| >= 1
    decreases |s|
  {
    match Find(s, sep)
    case None => [s]
    case Some(i) => [s[..i]] + Split(s[i + |sep|..], sep)
  }

  /** `Split(s, sep)[0]` is the text before the first separator. */
  lemma SplitHead(s: string, sep: string)
    requires sep != []
    ensures Find(s, sep).None? ==> Split(s, sep)[0] == s
    ensures Find(s, sep).Some? ==> Split(s, sep)[0] == s[..Find(s, sep).value]
  {
  }

  /** `Split(s, sep)[1]` exists iff `sep` occurs, and is the text between
      the first occurrence and the next one (or the end). */
  lemma SplitSecond(s: string, sep: string)
    requires sep != []
    ensures |Split(s, sep)| >= 2 <==> Find(s, sep).Some?
    ensures Find(s, sep).Some? ==>
              Split(s, sep)[1] == Split(s[Find(s, sep).value + |sep|..], sep)[0]
  {
  }

  /** `a <= b` for Python strings: lexicographic by code point. */
  predicate LexLeq(a: string, b: string)
    decreases |a|
  {
    a == [] || (b != [] && (a[0] < b[0] || (a[0] == b[0] && LexLeq(a[1..], b[1..]))))
  }

  // ---------------------------------------------------------------------------
  // Decimal rendering of integers, `str(n)`

  predicate IsDigit(c: char) {
    '0' <= c <= '9'
  }

  function DigitChar(d: nat): (c: char)
    requires d < 10
    ensures IsDigit(c)
  {
    ('0' as int + d) as char
  }

  function DigitValue(c: char): (d: nat)
    requires IsDigit(c)
    ensures d < 10
  {
    c as int - '0' as int
  }

  /** `str(n)` for a non-negative integer: decimal digits, most significant
      first, with no leading zero. */
  function NatToString(n: nat): (r: string)
    ensures 1 <= |r|
    ensures forall i :: 0 <= i < |r| ==> IsDigit(r[i])
    decreases n
  {
    if n < 10 then [DigitChar(n)] else NatToString(n / 10) + [DigitChar(n % 10)]
  }

  /** `str(i)` for any integer: a minus sign in front of negative values. */
  function IntToString(i: int): (r: string)
    ensures 1 <= |r|
  {
    if i < 0 then "-" + NatToString(-i) else NatToString(i)
  }

  predicate IsDecimal(s: string) {
    forall i :: 0 <= i < |s| ==> IsDigit(s[i])
  }

  /** The value of a string of decimal digits (Python's `int(s)`). */
  function ParseDigits(s: string): nat
    requires IsDecimal(s)
  {
    if s == [] then 0 else ParseDigits(s[..|s| - 1]) * 10 + DigitValue(s[|s| - 1])
  }

  /** Python's `int(s)` on a decimal with an optional leading minus sign. */
  function ParseInt(s: string): int
    requires |s| >= 1
    requires IsDecimal(s) || (s[0] == '-' && IsDecimal(s[1..]))
  {
    if s[0] == '-' then -(ParseDigits(s[1..]) as int) else ParseDigits(s)
  }

  lemma {:induction false} ParseNatToString(n: nat)
    ensures ParseDigits(NatToString(n)) == n
    decreases n
  {
    if n >= 10 {
      ParseNatToString(n / 10);
      var s := NatToString(n / 10);
      assert (s + [DigitChar(n % 10)])[..|s|] == s;
    }
  }

  /** `int(str(i)) == i`: decimal rendering loses nothing. */
  lemma ParseIntToString(i: int)
    ensures ParseInt(IntToString(i)) == i
  {
    if i < 0 {
      ParseNatToString(-i);
      assert IntToString(i)[1..] == NatToString(-i);
    } else {
      ParseNatToString(i);
    }
  }

  /** Distinct integers get distinct document keys `str(id)`. */
  lemma IntToStringInjective(a: int, b: int)
    ensures IntToString(a) == IntToString(b) ==> a == b
  {
    ParseIntToString(a);
    ParseIntToString(b);
  }

  // ---------------------------------------------------------------------------
  // POSIX paths

  /** `os.path.basename(p)`: what follows the last '/'. */
  function Basename(p: string): string
    decreases |p|
  {
    if p == [] || p[|p| - 1] == '/' then [] else Basename(p[..|p| - 1]) + [p[|p| - 1]]
  }

  /** The base name is the longest suffix of the path without a '/'. */
  lemma {:induction false} BasenameIsLastComponent(p: string)
    ensures var r := Basename(p);
            && |r| <= |p| && r == p[|p| - |r|..]
            && (forall i :: 0 <= i < |r| ==> r[i] != '/')
            && (|r| == |p| || p[|p| - |r| - 1] == '/')
    decreases |p|
  {
    if p != [] && p[|p| - 1] != '/' {
      var q := p[..|p| - 1];
      BasenameIsLastComponent(q);
      var r := Basename(p);
      assert r == Basename(q) + [p[|p| - 1]];
      assert q[|q| - |Basename(q)|..] + [p[|p| - 1]] == p[|p| - |r|..];
      if |Basename(q)| < |q| {
        assert p[|p| - |r| - 1] == q[|q| - |Basename(q)| - 1];
      }
    }
  }

  /** `os.path.join(a, b)` for POSIX paths. */
  function Join(a: string, b: string): string {
    if |b| > 0 && b[0] == '/' then b
    else if a == [] || a[|a| - 1] == '/' then a + b
    else a + "/" + b
  }

  /** The joined path ends with its last component, and it starts with the
      first one unless the last is absolute. */
  lemma JoinEnds(a: string, b: string)
    ensures EndsWith(Join(a, b), b)
    ensures (|b| == 0 || b[0] != '/') ==> Join(a, b)[..|a|] == a
  {
  }
}
