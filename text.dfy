/** The Python string operations the scraper relies on: `in`, `split`, `strip`,
    `replace`, `lower`, slicing, and pandas' numeric coercion of a text cell. */
module Text {
  import opened Wrappers

  /** t occurs in s starting at index i. */
  predicate OccursAt(s: string, t: string, i: nat) {
    i + |t| <= |s| && s[i..i + |t|] == t
  }

  /** The first occurrence of t in s at or after index k. */
  function IndexFrom(s: string, t: string, k: nat): (r: Option<nat>)
    ensures r.Some? ==> k <= r.value && OccursAt(s, t, r.value)
    ensures forall j: nat :: k <= j && (r.None? || j < r.value) ==> !OccursAt(s, t, j)
    decreases |s| - k
  {
    if k + |t| > |s| then None
    else if s[k..k + |t|] == t then Some(k)
    else IndexFrom(s, t, k + 1)
  }

  /** The first occurrence of t in s (Python's s.find(t), with None for -1). */
  function IndexOf(s: string, t: string): (r: Option<nat>)
    ensures r.Some? ==> OccursAt(s, t, r.value)
    ensures forall j: nat :: (r.None? || j < r.value) ==> !OccursAt(s, t, j)
  {
    IndexFrom(s, t, 0)
  }

  /** Python's `t in s`: t occurs somewhere in s. */
  predicate Contains(s: string, t: string)
    ensures Contains(s, t) <==> exists j: nat :: OccursAt(s, t, j)
  {
    IndexOf(s, t).Some?
  }

  /** Python's s.split(sep)[0]: everything before the first sep, or all of s. */
  function Before(s: string, sep: string): string {
    match IndexOf(s, sep)
    case Some(i) => s[..i]
    case None => s
  }

  /** Everything after the first sep; None where s.split(sep)[1] raises IndexError. */
  function After(s: string, sep: string): Option<string> {
    match IndexOf(s, sep)
    case Some(i) => Some(s[i + |sep|..])
    case None => None
  }

  /** What the first two parts of s.split(sep) are: Before is the part before
      the first occurrence of sep, a prefix of s free of sep that sep follows
      unless it is all of s; After exists exactly when sep occurs, and s is
      Before, sep and After joined. For a separator that cannot overlap itself,
      as every separator of the scraper, these clauses determine both parts. */
  lemma SplitParts(s: string, sep: string)
    ensures var r := Before(s, sep); |r| <= |s| && r == s[..|r|]
    ensures sep != [] ==> forall i: nat :: !OccursAt(Before(s, sep), sep, i)
    ensures Before(s, sep) != s ==> OccursAt(s, sep, |Before(s, sep)|)
    ensures After(s, sep).Some? <==> Contains(s, sep)
    ensures After(s, sep).Some? ==> s == Before(s, sep) + sep + After(s, sep).value
  {
    match IndexOf(s, sep)
    case Some(i) =>
      PrefixFree(s, sep, i);
      assert s == s[..i] + s[i..i + |sep|] + s[i + |sep|..];
    case None =>
  }

  /** A prefix of s ending before the first occurrence of sep holds no sep. */
  lemma PrefixFree(s: string, sep: string, n: nat)
    requires n <= |s|
    requires forall j: nat :: j < n ==> !OccursAt(s, sep, j)
    ensures sep != [] ==> forall i: nat :: !OccursAt(s[..n], sep, i)
  {
    forall i: nat | sep != []
      ensures !OccursAt(s[..n], sep, i)
    {
      OccursInPrefix(s, n, sep, i);
    }
  }

  /** Python's s.split(sep)[1]: the text between the first and the second sep
      (or the end); None where the split has a single part. */
  function SplitSecond(s: string, sep: string): (r: Option<string>)
    ensures r.Some? <==> Contains(s, sep)
  {
    match After(s, sep)
    case Some(rest) => Some(Before(rest, sep))
    case None => None
  }

  /** An occurrence inside a prefix is an occurrence in the whole string, and back. */
  lemma OccursInPrefix(s: string, n: nat, t: string, i: nat)
    requires n <= |s|
    ensures OccursAt(s[..n], t, i) <==> OccursAt(s, t, i) && i + |t| <= n
  {
    if i + |t| <= n {
      assert s[..n][i..i + |t|] == s[i..i + |t|];
    }
  }

  /** An occurrence in s is an occurrence in p + s, shifted by |p|. */
  lemma ContainsAfterPrefix(p: string, s: string, t: string)
    requires Contains(s, t)
    ensures Contains(p + s, t)
  {
    var i := IndexOf(s, t).value;
    assert (p + s)[|p| + i..|p| + i + |t|] == s[i..i + |t|];
    assert OccursAt(p + s, t, |p| + i);
  }

  /** Cutting at sep and then at a one-character stop is the same as cutting at
      stop alone, when stop occurs no later than sep does. */
  lemma {:induction false} BeforeBefore(x: string, sep: string, stop: string)
    requires |stop| == 1
    requires IndexOf(x, sep).None? ||
             (IndexOf(x, stop).Some? && IndexOf(x, stop).value <= IndexOf(x, sep).value)
    ensures Before(Before(x, sep), stop) == Before(x, stop)
  {
    match IndexOf(x, sep)
    case None =>
    case Some(j) =>
      var m := IndexOf(x, stop).value;
      var y := x[..j];
      forall i: nat | i < m
        ensures !OccursAt(y, stop, i)
      {
        OccursInPrefix(x, j, stop, i);
      }
      if m < j {
        OccursInPrefix(x, j, stop, m);
        assert IndexOf(y, stop) == Some(m);
        assert y[..m] == x[..m];
      } else {
        forall i: nat
          ensures !OccursAt(y, stop, i)
        {
          OccursInPrefix(x, j, stop, i);
        }
        assert IndexOf(y, stop).None?;
      }
  }

  /** A stop that begins sep occurs no later than sep does. */
  lemma StopBeginsSep(x: string, sep: string, stop: string)
    requires |stop| <= |sep| && sep[..|stop|] == stop
    requires IndexOf(x, sep).Some?
    ensures IndexOf(x, stop).Some? && IndexOf(x, stop).value <= IndexOf(x, sep).value
  {
    var j := IndexOf(x, sep).value;
    assert x[j..j + |stop|] == x[j..j + |sep|][..|stop|];
    assert OccursAt(x, stop, j);
  }

  /** s.split(sep)[0].split(stop)[0] is s.split(stop)[0] when the one-character
      stop begins sep, as "<" begins "</span>". */
  lemma BeforeSepBeginningWithStop(x: string, sep: string, stop: string)
    requires |stop| == 1 && |sep| >= 1 && sep[..1] == stop
    ensures Before(Before(x, sep), stop) == Before(x, stop)
  {
    if IndexOf(x, sep).Some? {
      StopBeginsSep(x, sep, stop);
    }
    BeforeBefore(x, sep, stop);
  }

  /** Python's s.split(c)[0] for a one-character c never contains c. */
  lemma BeforeCharFree(s: string, c: char)
    ensures c !in Before(s, [c])
  {
    var b := Before(s, [c]);
    if c in b {
      var k :| 0 <= k < |b| && b[k] == c;
      assert b[k..k + 1] == [c];
      assert OccursAt(s, [c], k);
    }
  }

  // ---------------------------------------------------------------- strip

  /** The characters for which Python's str.isspace() holds: what str.strip()
      with no argument removes. */
  const Whitespace: set<char> :=
    {'\t', '\n', '\U{0B}', '\U{0C}', '\r', '\U{1C}', '\U{1D}', '\U{1E}', '\U{1F}', ' ',
     '\U{85}', '\U{A0}', '\U{1680}', '\U{2000}', '\U{2001}', '\U{2002}', '\U{2003}',
     '\U{2004}', '\U{2005}', '\U{2006}', '\U{2007}', '\U{2008}', '\U{2009}', '\U{200A}',
     '\U{2028}', '\U{2029}', '\U{202F}', '\U{205F}', '\U{3000}'}

  /** The first index at or after i whose character is not in cs. */
  function SkipLeft(s: string, cs: set<char>, i: nat): (r: nat)
    requires i <= |s|
    ensures i <= r <= |s|
    ensures forall k :: i <= k < r ==> s[k] in cs
    ensures r < |s| ==> s[r] !in cs
    decreases |s| - i
  {
    if i < |s| && s[i] in cs then SkipLeft(s, cs, i + 1) else i
  }

  /** The end of s[lo..j] once trailing characters in cs are dropped. */
  function SkipRight(s: string, cs: set<char>, lo: nat, j: nat): (r: nat)
    requires lo <= j <= |s|
    ensures lo <= r <= j
    ensures forall k :: r <= k < j ==> s[k] in cs
    ensures r > lo ==> s[r - 1] !in cs
    decreases j
  {
    if j > lo && s[j - 1] in cs then SkipRight(s, cs, lo, j - 1) else j
  }

  /** r is s[i..i + |r|], and everything around it in s is in cs. */
  predicate CutFrom(s: string, cs: set<char>, r: string, i: nat) {
    i + |r| <= |s| && r == s[i..i + |r|]
    && (forall k :: 0 <= k < i ==> s[k] in cs)
    && (forall k :: i + |r| <= k < |s| ==> s[k] in cs)
  }

  /** Python's s.strip(chars): drop leading, then trailing, characters in cs.
      The result is a slice of s, everything cut away is in cs, and its ends are not. */
  function StripSet(s: string, cs: set<char>): (r: string)
    ensures r != [] ==> r[0] !in cs && r[|r| - 1] !in cs
    ensures exists i: nat :: CutFrom(s, cs, r, i)
  {
    var i := SkipLeft(s, cs, 0);
    var j := SkipRight(s, cs, i, |s|);
    assert CutFrom(s, cs, s[i..j], i);
    s[i..j]
  }

  /** Python's s.strip(): a slice of s whose ends are not whitespace, with
      only whitespace cut away around it. */
  function Strip(s: string): (r: string)
    ensures r != [] ==> r[0] !in Whitespace && r[|r| - 1] !in Whitespace
    ensures exists i: nat :: CutFrom(s, Whitespace, r, i)
  {
    StripSet(s, Whitespace)
  }

  /** A character of a slice of s is a character of s. */
  lemma StripKeepsOut(s: string, cs: set<char>, c: char)
    requires c !in s
    ensures c !in StripSet(s, cs)
  {
    var r := StripSet(s, cs);
    var i: nat :| CutFrom(s, cs, r, i);
  }

  // ------------------------------------------------------ replace, lower

  /** Python's s.replace(c, ""): every c removed, everything else kept in order. */
  function RemoveAll(s: string, c: char): (r: string)
    ensures c !in r
    ensures forall x :: x != c ==> multiset(r)[x] == multiset(s)[x]
    ensures c !in s ==> r == s
  {
    if s == [] then []
    else
      assert s == [s[0]] + s[1..];
      (if s[0] == c then [] else [s[0]]) + RemoveAll(s[1..], c)
  }

  /** Removing c from a concatenation removes it from each part, keeping the
      parts, and so every kept character, in order. */
  lemma {:induction false} RemoveAllAppend(a: string, b: string, c: char)
    ensures RemoveAll(a + b, c) == RemoveAll(a, c) + RemoveAll(b, c)
  {
    if a == [] {
      assert a + b == b;
    } else {
      assert (a + b)[0] == a[0] && (a + b)[1..] == a[1..] + b;
      RemoveAllAppend(a[1..], b, c);
    }
  }

  /** Python's str.lower() on one character (ASCII letters only). */
  function LowerChar(ch: char): (r: char)
    ensures !('A' <= r <= 'Z')
    ensures 'A' <= ch <= 'Z' ==> r as int == ch as int + 32
    ensures !('A' <= ch <= 'Z') ==> r == ch
  {
    if 'A' <= ch <= 'Z' then (ch as int + 32) as char else ch
  }

  /** A player name as it appears in a link: name.lower().replace(" ", "-"). */
  function NormaliseName(name: string): (r: string)
    ensures |r| == |name|
    ensures ' ' !in r
    ensures forall i :: 0 <= i < |r| ==> !('A' <= r[i] <= 'Z')
    ensures forall i :: 0 <= i < |r| ==> r[i] == if name[i] == ' ' then '-' else LowerChar(name[i])
  {
    if name == [] then []
    else [if name[0] == ' ' then '-' else LowerChar(name[0])] + NormaliseName(name[1..])
  }

  // ------------------------------------------------------ slices, numbers

  /** Python's s[lo:hi] for non-negative bounds: bounds past the end are clamped. */
  function Slice(s: string, lo: nat, hi: nat): (r: string)
    ensures |r| <= hi - lo || hi < lo
    ensures lo + |r| <= |s| || r == []
    ensures lo <= |s| && lo <= hi ==> r == s[lo..if hi <= |s| then hi else |s|]
  {
    var a := if lo <= |s| then lo else |s|;
    var b := if hi <= |s| then hi else |s|;
    if a <= b then s[a..b] else []
  }

  predicate IsDigit(c: char) { '0' <= c <= '9' }

  function Pow10(n: nat): (p: nat)
    ensures p >= 1
  {
    if n == 0 then 1 else 10 * Pow10(n - 1)
  }

  /** Powers of ten grow with the exponent. */
  lemma {:induction false} Pow10Grows(m: nat, n: nat)
    requires m <= n
    ensures Pow10(m) <= Pow10(n)
  {
    if m < n {
      Pow10Grows(m, n - 1);
    }
  }

  /** The value of a string of decimal digits. */
  function DigitsValue(s: string): (v: nat)
    requires forall k :: 0 <= k < |s| ==> IsDigit(s[k])
    ensures v < Pow10(|s|)
  {
    if s == [] then 0
    else
      var init, d := s[..|s| - 1], s[|s| - 1] as int - '0' as int;
      assert IsDigit(s[|s| - 1]);
      var v := DigitsValue(init);
      assert v * 10 <= (Pow10(|init|) - 1) * 10;
      v * 10 + d
  }

  function DigitOf(c: char): int { c as int - '0' as int }

  /** A four-digit cell such as a year parses to its decimal value. */
  lemma FourDigits(s: string)
    requires |s| == 4 && forall k :: 0 <= k < 4 ==> IsDigit(s[k])
    ensures ParseNumber(s) == Some(DigitOf(s[0]) * 1000 + DigitOf(s[1]) * 100 + DigitOf(s[2]) * 10 + DigitOf(s[3]))
  {
    var s3 := s[..3];
    var s2 := s3[..2];
    var s1 := s2[..1];
    assert s1[..0] == [];
    assert s1[0] == s[0] && s2[1] == s[1] && s3[2] == s[2];
    assert DigitsValue(s1) == DigitOf(s[0]);
    assert DigitsValue(s2) == DigitOf(s[0]) * 10 + DigitOf(s[1]);
    assert DigitsValue(s3) == DigitOf(s[0]) * 100 + DigitOf(s[1]) * 10 + DigitOf(s[2]);
  }

  /** pd.to_numeric(s, errors='coerce') on a cell of plain decimal digits;
      anything else becomes a missing value. */
  function ParseNumber(s: string): (r: Option<int>)
    ensures r.Some? <==> |s| > 0 && forall k :: 0 <= k < |s| ==> IsDigit(s[k])
    ensures r.Some? ==> 0 <= r.value < Pow10(|s|)
  {
    if |s| > 0 && forall k :: 0 <= k < |s| ==> IsDigit(s[k]) then Some(DigitsValue(s)) else None
  }
}
