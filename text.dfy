/**
 * The pieces of Python's string, `re` and `int` behaviour that the speed
 * detector relies on, restricted to ASCII decimal digits: `str(n)`,
 * `f"{n:02d}"`, `int(digits)`, `str.strip()`, `needle in text`,
 * `text.replace(old, new)` and `re.findall(r"\d+", text)`.
 */
module Text {

  predicate IsDigit(c: char) {
    '0' <= c <= '9'
  }

  predicate AllDigits(s: string) {
    forall i :: 0 <= i < |s| ==> IsDigit(s[i])
  }

  function DigitValue(c: char): (d: nat)
    requires IsDigit(c)
    ensures d < 10
  {
    c as int - '0' as int
  }

  function DigitChar(d: nat): (c: char)
    requires d < 10
    ensures IsDigit(c) && DigitValue(c) == d
  {
    ('0' as int + d) as char
  }

  /** `int(s)` for a string of decimal digits (leading zeros allowed, as in Python). */
  function DecimalValue(s: string): nat
    requires AllDigits(s)
    decreases |s|
  {
    if s == [] then 0 else DecimalValue(s[..|s| - 1]) * 10 + DigitValue(s[|s| - 1])
  }

  /** `str(n)` for a non-negative integer: the shortest decimal numeral of `n`. */
  function NatToString(n: nat): (r: string)
    ensures 1 <= |r| && AllDigits(r)
    decreases n
  {
    if n < 10 then [DigitChar(n)] else NatToString(n / 10) + [DigitChar(n % 10)]
  }

  /** `f"{n:02d}"` for a non-negative integer: zero-padded to at least two digits. */
  function Pad2(n: nat): (r: string)
    ensures 2 <= |r| && AllDigits(r)
  {
    if n < 10 then "0" + NatToString(n) else NatToString(n)
  }

  /** `int(str(n)) == n`. */
  lemma {:induction false} DecimalOfNatToString(n: nat)
    ensures DecimalValue(NatToString(n)) == n
    decreases n
  {
    if n >= 10 {
      var s := NatToString(n);
      DecimalOfNatToString(n / 10);
      assert s[..|s| - 1] == NatToString(n / 10);
    }
  }

  /** Hours and minutes print as one or two digits. */
  lemma NatToStringLength(n: nat)
    requires n < 100
    ensures |NatToString(n)| == if n < 10 then 1 else 2
  {
    if n >= 10 {
      assert NatToString(n / 10) == [DigitChar(n / 10)];
    }
  }

  /** `int(f"{n:02d}") == n`, and the numeral is exactly two digits wide, for `n < 100`. */
  lemma DecimalOfPad2(n: nat)
    requires n < 100
    ensures |Pad2(n)| == 2 && DecimalValue(Pad2(n)) == n
  {
    NatToStringLength(n);
    DecimalOfNatToString(n);
    if n < 10 {
      var s := Pad2(n);
      assert s[..1] == "0";
    }
  }

  /** The characters Python's `str.isspace()` accepts, which `str.strip()` removes. */
  predicate IsSpace(c: char) {
    c == ' ' || '\t' <= c <= '\r' || '\U{1C}' <= c <= '\U{1F}' || c == '\U{85}' || c == '\U{A0}'
    || c == '\U{1680}' || '\U{2000}' <= c <= '\U{200A}' || c == '\U{2028}' || c == '\U{2029}'
    || c == '\U{202F}' || c == '\U{205F}' || c == '\U{3000}'
  }

  /** Where the leading whitespace from `i` on ends: the first index at or after `i` holding no whitespace. */
  function SkipSpace(s: string, i: nat): (j: nat)
    requires i <= |s|
    ensures i <= j <= |s|
    decreases |s| - i
  {
    if i < |s| && IsSpace(s[i]) then SkipSpace(s, i + 1) else i
  }

  /** Where the trailing whitespace before `j` begins, looking no further back than `lo`. */
  function SkipSpaceBack(s: string, lo: nat, j: nat): (k: nat)
    requires lo <= j <= |s|
    ensures lo <= k <= j
    decreases j
  {
    if lo < j && IsSpace(s[j - 1]) then SkipSpaceBack(s, lo, j - 1) else j
  }

  /** `s.strip()`: the slice between the leading and the trailing whitespace. */
  function Strip(s: string): (r: string)
    ensures |r| <= |s|
  {
    var a := SkipSpace(s, 0);
    s[a..SkipSpaceBack(s, a, |s|)]
  }

  /** `SkipSpace` passes over whitespace only, and stops at a character that is not whitespace or at the end. */
  lemma {:induction false} SkipSpaceSkipsSpace(s: string, i: nat)
    requires i <= |s|
    ensures var j := SkipSpace(s, i);
      && (forall k :: i <= k < j ==> IsSpace(s[k]))
      && (j < |s| ==> !IsSpace(s[j]))
    decreases |s| - i
  {
    if i < |s| && IsSpace(s[i]) {
      SkipSpaceSkipsSpace(s, i + 1);
    }
  }

  /** `SkipSpaceBack` passes over whitespace only, and stops after a character that is not whitespace or at `lo`. */
  lemma {:induction false} SkipSpaceBackSkipsSpace(s: string, lo: nat, j: nat)
    requires lo <= j <= |s|
    ensures var k := SkipSpaceBack(s, lo, j);
      && (forall x :: k <= x < j ==> IsSpace(s[x]))
      && (lo < k ==> !IsSpace(s[k - 1]))
    decreases j
  {
    if lo < j && IsSpace(s[j - 1]) {
      SkipSpaceBackSkipsSpace(s, lo, j - 1);
    }
  }

  /**
   * `strip()` keeps the slice of `s` between its leading and its trailing
   * whitespace: what it drops is whitespace, and what it keeps neither
   * starts nor ends with whitespace.
   */
  lemma StripDropsOuterSpace(s: string)
    ensures var a := SkipSpace(s, 0);
      var b := a + |Strip(s)|;
      && b <= |s| && Strip(s) == s[a..b]
      && (forall k :: 0 <= k < a ==> IsSpace(s[k]))
      && (forall k :: b <= k < |s| ==> IsSpace(s[k]))
      && (a < b ==> !IsSpace(s[a]) && !IsSpace(s[b - 1]))
  {
    var a := SkipSpace(s, 0);
    SkipSpaceSkipsSpace(s, 0);
    SkipSpaceBackSkipsSpace(s, a, |s|);
  }

  /** `strip()` only removes characters, so a string without digits keeps none. */
  lemma StripKeepsNoDigit(s: string)
    requires forall k :: 0 <= k < |s| ==> !IsDigit(s[k])
    ensures forall k :: 0 <= k < |Strip(s)| ==> !IsDigit(Strip(s)[k])
  {
    var a := SkipSpace(s, 0);
    assert forall k :: 0 <= k < |Strip(s)| ==> Strip(s)[k] == s[a + k];
  }

  /** A digit is not whitespace. */
  lemma DigitIsNotSpace(c: char)
    requires IsDigit(c)
    ensures !IsSpace(c)
  {
  }

  /** A string with no whitespace at either end is its own `strip()`. */
  lemma StripNoop(s: string)
    requires s == [] || (!IsSpace(s[0]) && !IsSpace(s[|s| - 1]))
    ensures Strip(s) == s
  {
    assert SkipSpace(s, 0) == 0;
    assert SkipSpaceBack(s, 0, |s|) == |s|;
    assert s[0..|s|] == s;
  }

  predicate StartsWith(s: string, prefix: string) {
    |prefix| <= |s| && s[..|prefix|] == prefix
  }

  /** `needle in s`: some position of `s` starts an occurrence of `needle`. */
  predicate Contains(s: string, needle: string)
    decreases |s|
  {
    StartsWith(s, needle) || (s != [] && Contains(s[1..], needle))
  }

  lemma {:induction false} ContainsIsLonger(s: string, needle: string)
    requires Contains(s, needle)
    ensures |needle| <= |s|
    decreases |s|
  {
    if !StartsWith(s, needle) {
      ContainsIsLonger(s[1..], needle);
    }
  }

  /**
   * `s.replace(pat, rep)`: every occurrence of `pat`, found left to right and
   * without overlap, replaced by `rep`.
   */
  function ReplaceAll(s: string, pat: string, rep: string): string
    requires pat != []
    decreases |s|
  {
    if |s| < |pat| then s
    else if s[..|pat|] == pat then rep + ReplaceAll(s[|pat|..], pat, rep)
    else [s[0]] + ReplaceAll(s[1..], pat, rep)
  }

  /**
   * Replacing by one space: a prefix of the result that holds no space was
   * copied unchanged from the input (no replacement happened inside it).
   */
  lemma {:induction false} ReplacePrefixKept(s: string, pat: string, m: nat)
    requires pat != []
    requires m <= |ReplaceAll(s, pat, " ")|
    requires forall i :: 0 <= i < m ==> ReplaceAll(s, pat, " ")[i] != ' '
    ensures m <= |s| && ReplaceAll(s, pat, " ")[..m] == s[..m]
    decreases |s|
  {
    var r := ReplaceAll(s, pat, " ");
    if m > 0 {
      assert r[0] != ' ';
    }
    if |s| < |pat| {
    } else if s[..|pat|] == pat {
      if m > 0 {
        assert false;
      }
    } else if m > 0 {
      var r' := ReplaceAll(s[1..], pat, " ");
      assert r == [s[0]] + r';
      forall i | 0 <= i < m - 1
        ensures r'[i] != ' '
      {
        assert r'[i] == r[i + 1];
      }
      ReplacePrefixKept(s[1..], pat, m - 1);
      assert r[..m] == [s[0]] + r'[..m - 1];
    }
  }

  /**
   * Replacing every occurrence of a space-free pattern by a space leaves no
   * occurrence of it behind.
   */
  lemma {:induction false} ReplaceAllRemoves(s: string, pat: string)
    requires pat != [] && ' ' !in pat
    ensures !Contains(ReplaceAll(s, pat, " "), pat)
    decreases |s|
  {
    var r := ReplaceAll(s, pat, " ");
    if |s| < |pat| {
      if Contains(r, pat) {
        ContainsIsLonger(r, pat);
      }
    } else if s[..|pat|] == pat {
      ReplaceAllRemoves(s[|pat|..], pat);
      assert r[1..] == ReplaceAll(s[|pat|..], pat, " ");
      assert r[0] == ' ' != pat[0];
    } else {
      ReplaceAllRemoves(s[1..], pat);
      assert r[1..] == ReplaceAll(s[1..], pat, " ");
      if StartsWith(r, pat) {
        forall i | 0 <= i < |pat|
          ensures r[i] != ' '
        {
          assert r[i] == pat[i];
        }
        ReplacePrefixKept(s, pat, |pat|);
        assert false;
      }
    }
  }

  /** The length of the run of digits at the start of `s`. */
  function LeadingDigits(s: string): (n: nat)
    ensures n <= |s| && AllDigits(s[..n])
    ensures n < |s| ==> !IsDigit(s[n])
    decreases |s|
  {
    if s != [] && IsDigit(s[0]) then 1 + LeadingDigits(s[1..]) else 0
  }

  /** `re.findall(r"\d+", s)`: the maximal runs of digits, left to right. */
  function DigitRuns(s: string): (r: seq<string>)
    ensures forall k :: 0 <= k < |r| ==> r[k] != [] && AllDigits(r[k])
    ensures r == [] <==> forall i :: 0 <= i < |s| ==> !IsDigit(s[i])
    decreases |s|
  {
    if s == [] then []
    else if !IsDigit(s[0]) then
      var rest := DigitRuns(s[1..]);
      assert forall i :: 1 <= i < |s| ==> s[i] == s[1..][i - 1];
      rest
    else
      var n := LeadingDigits(s);
      [s[..n]] + DigitRuns(s[n..])
  }

  /** A run of `n` digits followed by a non-digit or the end is the leading run. */
  lemma {:induction false} LeadingDigitsUnique(s: string, n: nat)
    requires n <= |s| && (forall i :: 0 <= i < n ==> IsDigit(s[i]))
    requires n < |s| ==> !IsDigit(s[n])
    ensures LeadingDigits(s) == n
    decreases n
  {
    if n > 0 {
      LeadingDigitsUnique(s[1..], n - 1);
    }
  }

  /** A non-empty string of digits is one run. */
  lemma DigitRunsOfDigits(d: string)
    requires d != [] && AllDigits(d)
    ensures DigitRuns(d) == [d]
  {
    LeadingDigitsUnique(d, |d|);
    assert d[..|d|] == d && d[|d|..] == [];
  }

  /**
   * A non-digit separates runs: the runs of `s + [c] + t` are those of `s`
   * followed by those of `t`. With `DigitRunsOfDigits` and the empty string
   * this fixes `DigitRuns` on every string: the maximal runs, left to right.
   */
  lemma DigitRunsSplit(s: string, c: char, t: string)
    requires !IsDigit(c)
    ensures DigitRuns(s + [c] + t) == DigitRuns(s) + DigitRuns(t)
  {
    var r := [c] + t;
    assert s + [c] + t == s + r && r[1..] == t;
    DigitRunsJoin(s, r);
  }

  /** `DigitRunsSplit` with the separator and what follows it as one string `r`. */
  lemma {:induction false} DigitRunsJoin(s: string, r: string)
    requires r != [] && !IsDigit(r[0])
    ensures DigitRuns(s + r) == DigitRuns(s) + DigitRuns(r[1..])
    decreases |s|
  {
    if s == [] {
      assert s + r == r;
    } else if !IsDigit(s[0]) {
      JoinSlices(s, r, 1);
      DigitRunsJoin(s[1..], r);
    } else {
      var n := LeadingDigits(s);
      LeadingDigitsOfJoin(s, r);
      JoinSlices(s, r, n);
      DigitRunsJoin(s[n..], r);
    }
  }

  /** Slicing `s + r` inside `s`. */
  lemma JoinSlices(s: string, r: string, n: nat)
    requires n <= |s|
    ensures (s + r)[..n] == s[..n] && (s + r)[n..] == s[n..] + r
    ensures n < |s| ==> (s + r)[n] == s[n]
  {
  }

  /** Appending text that does not start with a digit leaves the leading run alone. */
  lemma {:induction false} LeadingDigitsOfJoin(s: string, r: string)
    requires r == [] || !IsDigit(r[0])
    ensures LeadingDigits(s + r) == LeadingDigits(s)
    decreases |s|
  {
    if s == [] {
      assert s + r == r;
    } else {
      assert (s + r)[0] == s[0];
      if IsDigit(s[0]) {
        assert (s + r)[1..] == s[1..] + r;
        LeadingDigitsOfJoin(s[1..], r);
      }
    }
  }
}
