/** The string operations of Python that the system relies on, over
    `seq<char>`: `isspace`, `strip`, `lower`, `in`, `split`, `replace`,
    `join`, `str(n)` and `int(s)`. */
module Text {
  import opened Wrappers

  /** Python's `str.isspace` for one code point. */
  predicate IsSpace(c: char) {
    c == ' ' || '\t' <= c <= '\r' || '\U{1c}' <= c <= '\U{1f}'
    || c == '\U{85}' || c == '\U{a0}' || c == '\U{1680}'
    || '\U{2000}' <= c <= '\U{200a}' || c == '\U{2028}' || c == '\U{2029}'
    || c == '\U{202f}' || c == '\U{205f}' || c == '\U{3000}'
  }

  predicate IsDigit(c: char) { '0' <= c <= '9' }
  predicate IsUpper(c: char) { 'A' <= c <= 'Z' }
  predicate IsLower(c: char) { 'a' <= c <= 'z' }
  predicate IsLetter(c: char) { IsUpper(c) || IsLower(c) }
  predicate IsAlnum(c: char) { IsLetter(c) || IsDigit(c) }

  predicate AllDigits(s: string) {
    forall i | 0 <= i < |s| :: IsDigit(s[i])
  }

  predicate AllSpace(s: string) {
    forall i | 0 <= i < |s| :: IsSpace(s[i])
  }

  // ---------------------------------------------------------------------
  // lower()
  // ---------------------------------------------------------------------

  /** `lower()` on one code point, for ASCII and the Latin-1 capitals. */
  function LowerChar(c: char): (r: char)
    ensures IsLower(r) ==> IsLower(c) || IsUpper(c)
    ensures !IsUpper(c) && !('\U{c0}' <= c <= '\U{de}') ==> r == c
  {
    if IsUpper(c) then (c as int + 32) as char
    else if '\U{c0}' <= c <= '\U{de}' && c != '\U{d7}' then (c as int + 32) as char
    else c
  }

  function Lower(s: string): (r: string)
    ensures |r| == |s|
    ensures forall i | 0 <= i < |s| :: r[i] == LowerChar(s[i])
  {
    seq(|s|, i requires 0 <= i < |s| => LowerChar(s[i]))
  }

  /** Lower-casing a lower-cased code point changes nothing. */
  lemma LowerCharTwice(c: char)
    ensures LowerChar(LowerChar(c)) == LowerChar(c)
  {
  }

  /** `lower()` neither creates nor removes white space, nor an `@`. */
  lemma LowerCharKeepsClass(c: char)
    ensures !IsUpper(LowerChar(c))
    ensures IsSpace(LowerChar(c)) <==> IsSpace(c)
    ensures LowerChar(c) == '@' <==> c == '@'
  {
  }

  lemma LowerKeepsAt(s: string)
    ensures '@' in Lower(s) <==> '@' in s
  {
    forall i | 0 <= i < |s| ensures Lower(s)[i] == '@' <==> s[i] == '@' {
      LowerCharKeepsClass(s[i]);
    }
  }

  lemma LowerConcat(a: string, b: string)
    ensures Lower(a + b) == Lower(a) + Lower(b)
  {
  }

  // ---------------------------------------------------------------------
  // strip()
  // ---------------------------------------------------------------------

  /** The index of the first non-space character at or after `i`, or `|s|`. */
  function SkipSpaces(s: string, i: nat): (r: nat)
    requires i <= |s|
    ensures i <= r <= |s|
    ensures forall k | i <= k < r :: IsSpace(s[k])
    ensures r < |s| ==> !IsSpace(s[r])
    decreases |s| - i
  {
    if i < |s| && IsSpace(s[i]) then SkipSpaces(s, i + 1) else i
  }

  /** The end of `s[lo..j]` once trailing spaces are dropped. */
  function SkipSpacesBack(s: string, lo: nat, j: nat): (r: nat)
    requires lo <= j <= |s|
    ensures lo <= r <= j
    ensures forall k | r <= k < j :: IsSpace(s[k])
    ensures r > lo ==> !IsSpace(s[r - 1])
    decreases j
  {
    if j > lo && IsSpace(s[j - 1]) then SkipSpacesBack(s, lo, j - 1) else j
  }

  /** Python's `str.strip()` with no argument: the longest infix that neither
      starts nor ends with white space. */
  function Strip(s: string): (r: string)
    ensures |r| <= |s|
    ensures r != [] ==> !IsSpace(r[0]) && !IsSpace(r[|r| - 1])
    ensures r == [] <==> AllSpace(s)
    ensures Contains(s, r)
  {
    var a := SkipSpaces(s, 0);
    var b := SkipSpacesBack(s, a, |s|);
    assert OccursAt(s, s[a..b], a);
    assert a < b ==> s[a..b][0] == s[a] && !AllSpace(s);
    s[a..b]
  }

  /** A character that is no white space survives stripping. */
  lemma StripKeepsInner(s: string, c: char)
    requires c in s && !IsSpace(c)
    ensures c in Strip(s)
  {
    var a := SkipSpaces(s, 0);
    var b := SkipSpacesBack(s, a, |s|);
    var i :| 0 <= i < |s| && s[i] == c;
    assert a <= i < b;
    assert s[a..b][i - a] == c;
  }

  /** Stripping is idempotent. */
  lemma StripIdempotent(s: string)
    ensures Strip(Strip(s)) == Strip(s)
  {
    var r := Strip(s);
    assert SkipSpaces(r, 0) == 0;
    assert SkipSpacesBack(r, 0, |r|) == |r|;
  }

  /** A string with no white space at either end is its own strip. */
  lemma StripUnpadded(s: string)
    requires |s| > 0 && !IsSpace(s[0]) && !IsSpace(s[|s| - 1])
    ensures Strip(s) == s
  {
    assert SkipSpaces(s, 0) == 0;
    assert SkipSpacesBack(s, 0, |s|) == |s|;
  }

  // ---------------------------------------------------------------------
  // `sub in s`, startswith, endswith
  // ---------------------------------------------------------------------

  predicate OccursAt(s: string, sub: string, i: nat) {
    i + |sub| <= |s| && s[i..i + |sub|] == sub
  }

  /** Python's `sub in s` for strings. */
  predicate Contains(s: string, sub: string) {
    exists i | 0 <= i <= |s| :: OccursAt(s, sub, i)
  }

  predicate EndsWith(s: string, suffix: string) {
    |suffix| <= |s| && s[|s| - |suffix|..] == suffix
  }

  lemma ContainsPrefix(s: string, sub: string)
    requires sub <= s
    ensures Contains(s, sub)
  {
    assert OccursAt(s, sub, 0);
  }

  lemma ContainsInfix(a: string, sub: string, b: string)
    ensures Contains(a + sub + b, sub)
  {
    assert (a + sub + b)[|a|..|a| + |sub|] == sub;
    assert OccursAt(a + sub + b, sub, |a|);
  }

  lemma ContainsMonotone(s: string, t: string, sub: string)
    requires Contains(s, t) && Contains(t, sub)
    ensures Contains(s, sub)
  {
    var i :| 0 <= i <= |s| && OccursAt(s, t, i);
    var j :| 0 <= j <= |t| && OccursAt(t, sub, j);
    forall k | 0 <= k < |sub|
      ensures s[i + j..i + j + |sub|][k] == sub[k]
    {
      assert sub[k] == t[j + k] == s[i + j + k];
    }
    assert OccursAt(s, sub, i + j);
  }

  /** Each of the three pieces interleaved with separators occurs in the whole. */
  lemma ContainsEachOfThree(a: string, x: string, b: string, y: string, c: string, z: string)
    ensures Contains(a + x + b + y + c + z, x)
    ensures Contains(a + x + b + y + c + z, y)
    ensures Contains(a + x + b + y + c + z, z)
  {
    var s := a + x + b + y + c + z;
    assert s == a + x + (b + y + c + z);
    ContainsInfix(a, x, b + y + c + z);
    assert s == (a + x + b) + y + (c + z);
    ContainsInfix(a + x + b, y, c + z);
    assert s == (a + x + b + y + c) + z + "";
    ContainsInfix(a + x + b + y + c, z, "");
  }

  /** `any(x in s for x in subs)`. */
  predicate ContainsAny(s: string, subs: seq<string>) {
    exists k | 0 <= k < |subs| :: Contains(s, subs[k])
  }

  // ---------------------------------------------------------------------
  // rstrip(c), split, join, replace
  // ---------------------------------------------------------------------

  /** Where `s[..j]` ends once trailing copies of `c` are dropped, as
      `s[..j].rstrip(c)` does. */
  function TrimEnd(s: string, c: char, j: nat): (e: nat)
    requires j <= |s|
    ensures e <= j
    ensures e > 0 ==> s[e - 1] != c
    decreases j
  {
    if j > 0 && s[j - 1] == c then TrimEnd(s, c, j - 1) else j
  }

  /** Where the segment ending at `j` starts: just after the last `c`
      before `j`, or at 0. */
  function SegmentStart(s: string, c: char, j: nat): (k: nat)
    requires j <= |s|
    ensures k <= j
    ensures forall i | k <= i < j :: s[i] != c
    ensures k > 0 ==> s[k - 1] == c
    decreases j
  {
    if j == 0 then 0 else if s[j - 1] == c then j else SegmentStart(s, c, j - 1)
  }

  /** A start found by other means is the one `SegmentStart` computes. */
  lemma {:induction false} SegmentStartAt(s: string, c: char, j: nat, k: nat)
    requires k <= j <= |s|
    requires forall i | k <= i < j :: s[i] != c
    requires k > 0 && s[k - 1] == c
    ensures SegmentStart(s, c, j) == k
    decreases j
  {
    if j > k {
      SegmentStartAt(s, c, j - 1, k);
    }
  }

  /** Index of the first occurrence of `c` at or after `k`, when there is one. */
  function IndexFrom(s: string, c: char, k: nat): (r: Option<nat>)
    requires k <= |s|
    ensures r.None? <==> c !in s[k..]
    ensures r.Some? ==> k <= r.value < |s| && s[r.value] == c && c !in s[k..r.value]
    decreases |s| - k
  {
    if k == |s| then None
    else if s[k] == c then
      assert s[k..k] == [];
      assert s[k..][0] == c;
      Some(k)
    else
      var r := IndexFrom(s, c, k + 1);
      assert s[k..] == [s[k]] + s[k + 1..];
      assert r.Some? ==> s[k..r.value] == [s[k]] + s[k + 1..r.value];
      r
  }

  /** Index of the last occurrence of `c`, when there is one. */
  function LastIndexOf(s: string, c: char): (r: Option<nat>)
    ensures r.None? <==> c !in s
    ensures r.Some? ==> r.value < |s| && s[r.value] == c && c !in s[r.value + 1..]
    decreases |s|
  {
    if |s| == 0 then None
    else if s[|s| - 1] == c then
      assert s[|s|..] == [];
      Some(|s| - 1)
    else
      var r := LastIndexOf(s[..|s| - 1], c);
      assert s == s[..|s| - 1] + [s[|s| - 1]];
      assert r.Some? ==> s[r.value + 1..] == s[..|s| - 1][r.value + 1..] + [s[|s| - 1]];
      r
  }

  /** The last occurrence is the one with no other occurrence after it. */
  lemma LastIndexOfAt(s: string, c: char, k: nat)
    requires k < |s| && s[k] == c && c !in s[k + 1..]
    ensures LastIndexOf(s, c) == Some(k)
  {
  }

  /** Whether every character of `s` belongs to the class `cls`. */
  predicate AllIn(s: string, cls: char -> bool) {
    forall k | 0 <= k < |s| :: cls(s[k])
  }

  /** The end of the longest run of characters of class `cls` starting at `i`. */
  function RunEnd(s: string, i: nat, cls: char -> bool): (e: nat)
    requires i <= |s|
    ensures i <= e <= |s|
    ensures forall k | i <= k < e :: cls(s[k])
    ensures e < |s| ==> !cls(s[e])
    decreases |s| - i
  {
    if i < |s| && cls(s[i]) then RunEnd(s, i + 1, cls) else i
  }

  /** Index of the first occurrence of `c`, when there is one. */
  function IndexOf(s: string, c: char): (r: Option<nat>)
    ensures r.None? <==> c !in s
    ensures r.Some? ==> r.value < |s| && s[r.value] == c && c !in s[..r.value]
  {
    assert s[0..] == s;
    assert forall j | 0 <= j <= |s| :: s[0..j] == s[..j];
    IndexFrom(s, c, 0)
  }

  /** Python's `s.split(c)` for a single separator character. */
  function Split(s: string, c: char): (r: seq<string>)
    ensures |r| >= 1
    ensures forall k | 0 <= k < |r| :: c !in r[k]
    decreases |s|
  {
    match IndexOf(s, c)
    case None => [s]
    case Some(i) => [s[..i]] + Split(s[i + 1..], c)
  }

  /** Splitting at the first separator peels off the piece before it. */
  lemma SplitAtFirst(a: string, c: char, b: string)
    requires c !in a
    ensures Split(a + [c] + b, c) == [a] + Split(b, c)
  {
    var s := a + [c] + b;
    assert s[|a|] == c && s[..|a|] == a && s[|a| + 1..] == b;
    assert IndexOf(s, c) == Some(|a|);
  }

  /** Splitting three pieces joined by two separators gives them back. */
  lemma SplitThree(a: string, b: string, d: string, c: char)
    requires c !in a && c !in b && c !in d
    ensures Split(a + [c] + b + [c] + d, c) == [a, b, d]
  {
    var u := b + [c] + d;
    assert Split(u, c) == [b, d] by {
      SplitAtFirst(b, c, d);
    }
    assert a + [c] + b + [c] + d == a + [c] + u;
    SplitAtFirst(a, c, u);
  }

  /** Python's `sep.join(parts)`. */
  function Join(parts: seq<string>, sep: string): string
  {
    if |parts| == 0 then ""
    else if |parts| == 1 then parts[0]
    else parts[0] + sep + Join(parts[1..], sep)
  }

  /** Joining what `split` produced with the same separator gives the
      original string back. */
  lemma {:induction false} SplitJoin(s: string, c: char)
    ensures Join(Split(s, c), [c]) == s
    decreases |s|
  {
    match IndexOf(s, c)
    case None =>
    case Some(i) =>
      var rest := Split(s[i + 1..], c);
      SplitJoin(s[i + 1..], c);
      var parts := [s[..i]] + rest;
      assert Split(s, c) == parts;
      assert parts[0] == s[..i] && parts[1..] == rest && |parts| >= 2;
      assert Join(parts, [c]) == s[..i] + [c] + Join(rest, [c]);
      assert s == s[..i] + [c] + s[i + 1..];
  }

  /** Python's `s.replace(c, rep)` for a single character `c`. */
  function ReplaceChar(s: string, c: char, rep: string): (r: string)
    ensures c !in s ==> r == s
    ensures |rep| == 1 ==> |r| == |s|
    decreases |s|
  {
    if |s| == 0 then ""
    else (if s[0] == c then rep else [s[0]]) + ReplaceChar(s[1..], c, rep)
  }

  lemma ReplaceCharConcat(a: string, b: string, c: char, rep: string)
    ensures ReplaceChar(a + b, c, rep) == ReplaceChar(a, c, rep) + ReplaceChar(b, c, rep)
    decreases |a|
  {
    if |a| > 0 {
      assert (a + b)[1..] == a[1..] + b;
      ReplaceCharConcat(a[1..], b, c, rep);
    } else {
      assert a + b == b;
    }
  }

  /** Python's `s.replace(pat, rep)` for a non-empty pattern: occurrences are
      replaced left to right without overlap. */
  function ReplaceAll(s: string, pat: string, rep: string): string
    requires |pat| > 0
    decreases |s|
  {
    if |s| < |pat| then s
    else if s[..|pat|] == pat then rep + ReplaceAll(s[|pat|..], pat, rep)
    else [s[0]] + ReplaceAll(s[1..], pat, rep)
  }

  /** A string without the pattern is left as it is. */
  lemma {:induction false} ReplaceAllNoMatch(s: string, pat: string, rep: string)
    requires |pat| > 0 && !Contains(s, pat)
    ensures ReplaceAll(s, pat, rep) == s
    decreases |s|
  {
    if |s| >= |pat| {
      assert !OccursAt(s, pat, 0);
      forall i | 0 <= i <= |s[1..]| ensures !OccursAt(s[1..], pat, i) {
        assert !OccursAt(s, pat, i + 1);
        if i + |pat| <= |s[1..]| {
          assert s[i + 1..i + 1 + |pat|] == s[1..][i..i + |pat|];
        }
      }
      ReplaceAllNoMatch(s[1..], pat, rep);
      assert s == [s[0]] + s[1..];
    }
  }

  /** A single occurrence of the pattern, with no earlier place it could
      start, is the only one replaced. */
  lemma ReplaceAllOneHit(a: string, pat: string, b: string, rep: string)
    requires |pat| > 0 && pat[0] !in a && !Contains(b, pat)
    ensures ReplaceAll(a + pat + b, pat, rep) == a + rep + b
  {
    assert a + pat + b == a + (pat + b);
    ReplaceAllSkipsPrefix(a, pat + b, pat, rep);
    ReplaceAllHit(pat + b, pat, rep);
    assert (pat + b)[|pat|..] == b;
    ReplaceAllNoMatch(b, pat, rep);
  }

  /** Characters that are in neither the input nor the replacement do not
      appear in the result. */
  lemma {:induction false} ReplaceAllKeepsOut(s: string, pat: string, rep: string, c: char)
    requires |pat| > 0 && c !in s && c !in rep
    ensures c !in ReplaceAll(s, pat, rep)
    decreases |s|
  {
    if |s| >= |pat| {
      if s[..|pat|] == pat {
        ReplaceAllKeepsOut(s[|pat|..], pat, rep, c);
      } else {
        ReplaceAllKeepsOut(s[1..], pat, rep, c);
      }
    }
  }

  lemma ReplaceAllStep(s: string, pat: string, rep: string)
    requires |pat| > 0 && |pat| <= |s| && !OccursAt(s, pat, 0)
    ensures ReplaceAll(s, pat, rep) == [s[0]] + ReplaceAll(s[1..], pat, rep)
  {
    assert s[..|pat|] != pat;
  }

  lemma OccursShift(s: string, pat: string, i: nat)
    requires |s| > 0
    ensures OccursAt(s[1..], pat, i) <==> OccursAt(s, pat, i + 1)
  {
    if i + |pat| <= |s[1..]| {
      assert s[1..][i..i + |pat|] == s[i + 1..i + 1 + |pat|];
    }
  }

  /** One step of `ReplaceAll` at a position where the pattern cannot start. */
  lemma ReplaceAllMiss(s: string, pat: string, rep: string)
    requires |pat| > 0 && |s| > 0 && s[0] != pat[0]
    ensures ReplaceAll(s, pat, rep) == [s[0]] + ReplaceAll(s[1..], pat, rep)
  {
    if |s| >= |pat| {
      assert s[..|pat|][0] != pat[0];
    } else {
      assert ReplaceAll(s[1..], pat, rep) == s[1..];
    }
  }

  /** One step of `ReplaceAll` at a position where the pattern starts. */
  lemma ReplaceAllHit(s: string, pat: string, rep: string)
    requires |pat| > 0 && pat <= s
    ensures ReplaceAll(s, pat, rep) == rep + ReplaceAll(s[|pat|..], pat, rep)
  {
  }

  /** A prefix in which the pattern cannot start passes through unchanged. */
  lemma {:induction false} ReplaceAllSkipsPrefix(p: string, t: string, pat: string, rep: string)
    requires |pat| > 0 && pat[0] !in p
    ensures ReplaceAll(p + t, pat, rep) == p + ReplaceAll(t, pat, rep)
    decreases |p|
  {
    var rest := ReplaceAll(t, pat, rep);
    if |p| > 0 {
      ReplaceAllSkipsPrefix(p[1..], t, pat, rep);
      assert (p + t)[1..] == p[1..] + t && (p + t)[0] == p[0];
      ReplaceAllMiss(p + t, pat, rep);
      assert [p[0]] + (p[1..] + rest) == p + rest;
    } else {
      assert p + t == t && p + rest == rest;
    }
  }

  // ---------------------------------------------------------------------
  // str(n) and int(s)
  // ---------------------------------------------------------------------

  function DigitChar(d: nat): (c: char)
    requires d < 10
    ensures IsDigit(c)
  {
    ('0' as int + d) as char
  }

  /** Decimal rendering of a natural number, as `str(n)`. */
  function NatToString(n: nat): (r: string)
    ensures |r| > 0 && AllDigits(r)
    decreases n
  {
    if n < 10 then [DigitChar(n)] else NatToString(n / 10) + [DigitChar(n % 10)]
  }

  /** `str(i)` for any integer. */
  function IntToString(i: int): (r: string)
  {
    if i < 0 then "-" + NatToString(-i) else NatToString(i)
  }

  /** The value of a string of decimal digits. */
  function DigitsValue(s: string): nat
    requires AllDigits(s)
    decreases |s|
  {
    if |s| == 0 then 0
    else DigitsValue(s[..|s| - 1]) * 10 + (s[|s| - 1] as int - '0' as int)
  }

  /** `int(s)` restricted to a plain run of ASCII digits. */
  function ParseNat(s: string): (r: Option<nat>)
    ensures r.Some? <==> |s| > 0 && AllDigits(s)
  {
    if |s| > 0 && AllDigits(s) then Some(DigitsValue(s)) else None
  }

  lemma {:induction false} DigitsValueOfNatToString(n: nat)
    ensures DigitsValue(NatToString(n)) == n
    decreases n
  {
    if n >= 10 {
      var s := NatToString(n);
      assert s[..|s| - 1] == NatToString(n / 10);
      DigitsValueOfNatToString(n / 10);
    }
  }

  /** Reading back what `str(n)` wrote gives `n`. */
  lemma ParseNatRoundTrip(n: nat)
    ensures ParseNat(NatToString(n)) == Some(n)
  {
    DigitsValueOfNatToString(n);
  }

  /** Python's `int(s)` for a decimal literal: surrounding white space is
      ignored and one leading sign is accepted. */
  function PyInt(s: string): (r: Option<int>)
    ensures r.Some? ==> |Strip(s)| > 0
    ensures AllDigits(s) && |s| > 0 ==> r == Some(DigitsValue(s) as int)
  {
    var t := Strip(s);
    assert AllDigits(s) && |s| > 0 ==> t == s by {
      if AllDigits(s) && |s| > 0 {
        assert SkipSpaces(s, 0) == 0;
        assert SkipSpacesBack(s, 0, |s|) == |s|;
      }
    }
    if |t| > 0 && t[0] == '-' then
      match ParseNat(t[1..])
      case Some(n) => Some(-(n as int))
      case None => None
    else if |t| > 0 && t[0] == '+' then
      match ParseNat(t[1..])
      case Some(n) => Some(n as int)
      case None => None
    else
      match ParseNat(t)
      case Some(n) => Some(n as int)
      case None => None
  }

  lemma PyIntOfNatToString(n: nat)
    ensures PyInt(NatToString(n)) == Some(n as int)
  {
    ParseNatRoundTrip(n);
  }

  /** A minus sign before a decimal literal reads back as its negation. */
  lemma PyIntOfNegative(n: nat)
    ensures PyInt("-" + NatToString(n)) == Some(-(n as int))
  {
    var d := NatToString(n);
    var s := "-" + d;
    assert !IsSpace(s[0]) && !IsSpace(s[|s| - 1]) by {
      assert s[|s| - 1] == d[|d| - 1] && IsDigit(d[|d| - 1]);
    }
    assert SkipSpaces(s, 0) == 0;
    assert SkipSpacesBack(s, 0, |s|) == |s|;
    assert Strip(s) == s;
    assert s[1..] == d;
    ParseNatRoundTrip(n);
  }
}
