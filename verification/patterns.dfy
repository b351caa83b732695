/** The regular expressions the entities and validators match against,
    written as recognisers over `seq<char>`. Each one follows Python's
    `re.match`: the match is anchored at the start only, `.` does not match a
    newline, and `$` matches at the end of the string or just before a final
    newline. Character classes are the ASCII ones. */
module Patterns {
  import opened Wrappers
  import opened Text

  // ---------------------------------------------------------------------
  // Character classes
  // ---------------------------------------------------------------------

  /** `[a-zA-Z0-9\s\-_\.]`, the characters of a solution name. */
  predicate IsSolutionNameChar(c: char) {
    IsAlnum(c) || IsSpace(c) || c == '-' || c == '_' || c == '.'
  }

  /** `[a-zA-Z0-9._-]`, the characters of a user name. */
  predicate IsUsernameChar(c: char) {
    IsAlnum(c) || c == '.' || c == '_' || c == '-'
  }

  /** `[a-zA-Z0-9._%+-]`, the characters before the `@` of an address. */
  predicate IsEmailLocalChar(c: char) {
    IsAlnum(c) || c == '.' || c == '_' || c == '%' || c == '+' || c == '-'
  }

  /** `[a-zA-Z0-9.-]`, the characters of a mail domain. */
  predicate IsEmailDomainChar(c: char) {
    IsAlnum(c) || c == '.' || c == '-'
  }

  /** `[a-zA-Z0-9\-\.]`, the characters of a basic pre-release tag. */
  predicate IsTagChar(c: char) {
    IsAlnum(c) || c == '-' || c == '.'
  }

  /** `[\w\.-]`, the characters of a pre-release or build tag. */
  predicate IsWordTagChar(c: char) {
    IsAlnum(c) || c == '_' || c == '.' || c == '-'
  }

  predicate EndsWithNewline(s: string) {
    |s| > 0 && s[|s| - 1] == '\n'
  }

  // ---------------------------------------------------------------------
  // Names and URLs
  // ---------------------------------------------------------------------

  /** `^[a-zA-Z0-9\s\-_\.]+$`. A final newline is itself in the class, so
      the looseness of `$` adds nothing here. */
  predicate SolutionNameMatches(s: string) {
    |s| > 0 && AllIn(s, IsSolutionNameChar)
  }

  /** The text before the first newline. */
  function FirstLine(r: string): (l: string)
    ensures l <= r && '\n' !in l
    ensures |l| < |r| ==> r[|l|] == '\n'
  {
    match IndexOf(r, '\n')
    case None => r
    case Some(i) => r[..i]
  }

  /** `.+X.+` at the start of `r`: `X` occurs on the first line with at
      least one character on each side of it. */
  predicate SeparatedOnFirstLine(r: string, x: char) {
    var line := FirstLine(r);
    exists i | 1 <= i < |line| - 1 :: line[i] == x
  }

  /** `^https?://.+\..+` */
  predicate HttpUrlMatches(s: string) {
    ("http://" <= s && SeparatedOnFirstLine(s[7..], '.'))
    || ("https://" <= s && SeparatedOnFirstLine(s[8..], '.'))
  }

  /** `https?://.+` */
  predicate AccessUrlMatches(s: string) {
    ("http://" <= s && |s| > 7 && s[7] != '\n')
    || ("https://" <= s && |s| > 8 && s[8] != '\n')
  }

  /** `https://.+\.git`: `.git` on the first line after the scheme, with at
      least one character before it. */
  predicate GitSuffixUrlMatches(s: string) {
    "https://" <= s
    && var line := FirstLine(s[8..]);
       exists i | 1 <= i <= |line| - 4 :: OccursAt(line, ".git", i)
  }

  /** The four repository patterns, any of which is enough. */
  predicate RepositoryUrlMatches(s: string) {
    ("https://github.com/" <= s && SeparatedOnFirstLine(s[19..], '/'))
    || ("https://gitlab.com/" <= s && SeparatedOnFirstLine(s[19..], '/'))
    || ("https://bitbucket.org/" <= s && SeparatedOnFirstLine(s[22..], '/'))
    || GitSuffixUrlMatches(s)
  }

  // ---------------------------------------------------------------------
  // User names and mail addresses
  // ---------------------------------------------------------------------

  predicate UsernameExact(t: string) {
    3 <= |t| <= 30 && AllIn(t, IsUsernameChar)
  }

  /** `^[a-zA-Z0-9._-]{3,30}$` */
  predicate UsernameMatches(s: string) {
    UsernameExact(s) || (EndsWithNewline(s) && UsernameExact(s[..|s| - 1]))
  }

  /** The part after the last `.` of a domain, when there is a `.`. */
  function TopLevel(d: string): (r: Option<string>)
    ensures r.Some? ==> '.' !in r.value
  {
    match LastIndexOf(d, '.')
    case None => None
    case Some(j) => Some(d[j + 1..])
  }

  /** The whole of `t` is `[a-zA-Z0-9._%+-]+@[a-zA-Z0-9.-]+\.[a-zA-Z]{2,}`.
      The local part cannot hold `@`, so the `@` is the first one; the top
      level cannot hold `.`, so it follows the last dot of the domain. */
  predicate EmailExact(t: string) {
    match IndexOf(t, '@')
    case None => false
    case Some(i) =>
      var d := t[i + 1..];
      i >= 1 && AllIn(t[..i], IsEmailLocalChar) && AllIn(d, IsEmailDomainChar)
      && match LastIndexOf(d, '.')
         case None => false
         case Some(j) => j >= 1 && |d| - (j + 1) >= 2 && AllIn(d[j + 1..], IsLetter)
  }

  /** `^[a-zA-Z0-9._%+-]+@[a-zA-Z0-9.-]+\.[a-zA-Z]{2,}$` */
  predicate EmailMatches(s: string) {
    EmailExact(s) || (EndsWithNewline(s) && EmailExact(s[..|s| - 1]))
  }

  /** An address assembled from a local part, a domain and a top level of
      the right classes matches the address pattern. */
  lemma EmailFromParts(local: string, dom: string, tld: string)
    requires |local| > 0 && AllIn(local, IsEmailLocalChar)
    requires |dom| > 0 && AllIn(dom, IsEmailDomainChar)
    requires |tld| >= 2 && AllIn(tld, IsLetter)
    ensures EmailMatches(local + "@" + dom + "." + tld)
  {
    var d := dom + "." + tld;
    var t := local + "@" + d;
    RegroupTail(local, "@", dom, ".", tld);
    assert t[..|local|] == local && t[|local|] == '@' && t[|local| + 1..] == d;
    assert '@' !in local by {
      forall k | 0 <= k < |local| ensures local[k] != '@' {
        assert IsEmailLocalChar(local[k]);
      }
    }
    assert t[|local|] == '@' && t[..|local|] == local && t[|local| + 1..] == d;
    assert IndexOf(t, '@') == Some(|local|);
    DomainWithTopLevel(dom, tld);
  }

  /** Concatenation regrouped: the last three pieces taken together. */
  lemma RegroupTail(a: string, b: string, c: string, d: string, e: string)
    ensures a + b + c + d + e == a + b + (c + d + e)
  {
    assert forall k | 0 <= k < |c + d + e| :: (c + d + e)[k] == (a + b + c + d + e)[|a + b| + k];
  }

  lemma DomainWithTopLevel(dom: string, tld: string)
    requires |dom| > 0 && AllIn(dom, IsEmailDomainChar)
    requires |tld| >= 2 && AllIn(tld, IsLetter)
    ensures LastIndexOf(dom + "." + tld, '.') == Some(|dom|)
    ensures AllIn(dom + "." + tld, IsEmailDomainChar)
  {
    var d := dom + "." + tld;
    assert '.' !in tld by {
      forall k | 0 <= k < |tld| ensures tld[k] != '.' {
        assert IsLetter(tld[k]);
      }
    }
    assert d[|dom|] == '.' && d[|dom| + 1..] == tld;
    forall k | 0 <= k < |d| ensures IsEmailDomainChar(d[k]) {
      if k < |dom| {
        assert d[k] == dom[k];
      } else if k > |dom| {
        assert d[k] == tld[k - |dom| - 1] && IsLetter(d[k]);
      }
    }
  }

  // ---------------------------------------------------------------------
  // Semantic versions
  // ---------------------------------------------------------------------

  /** The three numbers of `\d+\.\d+\.\d+` at the start of a version, and
      what follows them. */
  datatype VersionCore = VersionCore(major: string, minor: string, patch: string, rest: string)

  predicate NumberText(s: string) {
    |s| > 0 && AllDigits(s)
  }

  /** Where the three numbers of `\d+\.\d+\.\d+` end, reading from the
      start of `t` and taking every digit of each number. */
  function CoreBounds(t: string): (r: Option<(nat, nat, nat)>)
    ensures r.Some? ==> 0 < r.value.0 && r.value.0 + 1 < r.value.1 && r.value.1 + 1 < r.value.2 <= |t|
    ensures r.Some? ==> var (a, b, c) := r.value;
              && t[a] == '.' && t[b] == '.'
              && AllDigits(t[..a]) && AllDigits(t[a + 1..b]) && AllDigits(t[b + 1..c])
              && (c == |t| || !IsDigit(t[c]))
  {
    var a := RunEnd(t, 0, IsDigit);
    if a == 0 || a == |t| || t[a] != '.' then None
    else
      var b := RunEnd(t, a + 1, IsDigit);
      if b == a + 1 || b == |t| || t[b] != '.' then None
      else
        var c := RunEnd(t, b + 1, IsDigit);
        if c == b + 1 then None
        else
          DigitSlice(t, 0, a);
          DigitSlice(t, a + 1, b);
          DigitSlice(t, b + 1, c);
          Some((a, b, c))
  }

  /** A stretch of digits, cut out, is a digit text. */
  lemma DigitSlice(t: string, i: nat, e: nat)
    requires i <= e <= |t| && forall k | i <= k < e :: IsDigit(t[k])
    ensures AllDigits(t[i..e])
  {
    assert forall k | 0 <= k < e - i :: t[i..e][k] == t[i + k];
  }

  /** Reads `\d+\.\d+\.\d+` from the start of `t`, taking every digit of the
      last number (so `rest` never starts with a digit). */
  function ParseCore(t: string): (r: Option<VersionCore>)
    ensures r.Some? ==>
              && t == r.value.major + "." + r.value.minor + "." + r.value.patch + r.value.rest
              && NumberText(r.value.major) && NumberText(r.value.minor) && NumberText(r.value.patch)
              && (r.value.rest == [] || !IsDigit(r.value.rest[0]))
  {
    match CoreBounds(t)
    case None => None
    case Some((a, b, c)) =>
      SplitAtDots(t, a, b, c);
      assert t[c..] != [] ==> t[c..][0] == t[c];
      Some(VersionCore(t[..a], t[a + 1..b], t[b + 1..c], t[c..]))
  }

  /** A text with dots at `a` and `b` is the concatenation of its pieces. */
  lemma SplitAtDots(t: string, a: nat, b: nat, c: nat)
    requires a < b < c <= |t| && t[a] == '.' && t[b] == '.'
    ensures t == t[..a] + "." + t[a + 1..b] + "." + t[b + 1..c] + t[c..]
  {
    var u := t[..a] + "." + t[a + 1..b] + "." + t[b + 1..c] + t[c..];
    assert |u| == |t|;
    forall k | 0 <= k < |t| ensures u[k] == t[k] {
      if k < a {
        assert u[k] == t[..a][k];
      } else if k == a {
      } else if k < b {
        assert u[k] == t[a + 1..b][k - a - 1];
      } else if k == b {
      } else if k < c {
        assert u[k] == t[b + 1..c][k - b - 1];
      } else {
        assert u[k] == t[c..][k - c];
      }
    }
  }

  /** On a text laid out as three numbers, two dots and a rest that does
      not start with a digit, `CoreBounds` marks the two dots and the end
      of the third number. */
  lemma CoreBoundsOfPieces(t: string, x: string, y: string, z: string, rest: string)
    requires NumberText(x) && NumberText(y) && NumberText(z)
    requires rest == [] || !IsDigit(rest[0])
    requires var a, b, c := |x|, |x| + 1 + |y|, |x| + 2 + |y| + |z|;
             |t| == c + |rest| && t[..a] == x && t[a] == '.' && t[a + 1..b] == y && t[b] == '.'
             && t[b + 1..c] == z && t[c..] == rest
    ensures CoreBounds(t) == Some((|x|, |x| + 1 + |y|, |x| + 2 + |y| + |z|))
  {
    var a, b, c := |x|, |x| + 1 + |y|, |x| + 2 + |y| + |z|;
    assert rest != [] ==> t[c] == rest[0];
    assert t[0..a] == t[..a];
    RunOfDigits(t, 0, x);
    RunOfDigits(t, a + 1, y);
    RunOfDigits(t, b + 1, z);
    CoreBoundsAt(t, a, b, c);
  }

  /** `ParseCore` finds the only such decomposition there is. */
  lemma ParseCoreUnique(x: string, y: string, z: string, rest: string)
    requires NumberText(x) && NumberText(y) && NumberText(z)
    requires rest == [] || !IsDigit(rest[0])
    ensures ParseCore(x + "." + y + "." + z + rest) == Some(VersionCore(x, y, z, rest))
  {
    PartsOfCore(x, y, z, rest);
    ParseCoreOfPieces(x + "." + y + "." + z + rest, x, y, z, rest);
  }

  lemma ParseCoreOfPieces(t: string, x: string, y: string, z: string, rest: string)
    requires NumberText(x) && NumberText(y) && NumberText(z)
    requires rest == [] || !IsDigit(rest[0])
    requires var a, b, c := |x|, |x| + 1 + |y|, |x| + 2 + |y| + |z|;
             |t| == c + |rest| && t[..a] == x && t[a] == '.' && t[a + 1..b] == y && t[b] == '.'
             && t[b + 1..c] == z && t[c..] == rest
    ensures ParseCore(t) == Some(VersionCore(x, y, z, rest))
  {
    var a, b, c := |x|, |x| + 1 + |y|, |x| + 2 + |y| + |z|;
    CoreBoundsOfPieces(t, x, y, z, rest);
    ParseCoreCuts(t, a, b, c);
    assert VersionCore(t[..a], t[a + 1..b], t[b + 1..c], t[c..]) == VersionCore(x, y, z, rest);
  }

  /** Where the runs of digits end and dots follow, `CoreBounds` marks. */
  lemma CoreBoundsAt(t: string, a: nat, b: nat, c: nat)
    requires 0 < a && a + 1 < b && b + 1 < c <= |t| && t[a] == '.' && t[b] == '.'
    requires RunEnd(t, 0, IsDigit) == a && RunEnd(t, a + 1, IsDigit) == b && RunEnd(t, b + 1, IsDigit) == c
    ensures CoreBounds(t) == Some((a, b, c))
  {
  }

  /** `ParseCore` cuts the text where `CoreBounds` marks. */
  lemma ParseCoreCuts(t: string, a: nat, b: nat, c: nat)
    requires CoreBounds(t) == Some((a, b, c))
    ensures ParseCore(t) == Some(VersionCore(t[..a], t[a + 1..b], t[b + 1..c], t[c..]))
  {
  }

  /** Where each piece of `x.y.z` followed by `rest` sits. */
  lemma PartsOfCore(x: string, y: string, z: string, rest: string)
    ensures var t := x + "." + y + "." + z + rest;
            var a, b, c := |x|, |x| + 1 + |y|, |x| + 2 + |y| + |z|;
            |t| == c + |rest| && t[..a] == x && t[a] == '.' && t[a + 1..b] == y && t[b] == '.'
            && t[b + 1..c] == z && t[c..] == rest
  {
    var p1 := x + ".";
    var p2 := p1 + y;
    var p3 := p2 + ".";
    var p4 := p3 + z;
    var t := p4 + rest;
    var a, b, c := |x|, |x| + 1 + |y|, |x| + 2 + |y| + |z|;
    assert forall k | 0 <= k < c :: t[k] == p4[k];
    assert forall k | 0 <= k < b + 1 :: p4[k] == p3[k];
    assert forall k | 0 <= k < b :: p3[k] == p2[k];
    assert forall k | 0 <= k < a + 1 :: p2[k] == p1[k];
    assert t[..a] == x by {
      forall k | 0 <= k < a ensures t[..a][k] == x[k] {
        assert p1[k] == x[k];
      }
    }
    assert t[a + 1..b] == y by {
      forall k | 0 <= k < |y| ensures t[a + 1..b][k] == y[k] {
        assert p2[a + 1 + k] == y[k];
      }
    }
    assert t[b + 1..c] == z by {
      forall k | 0 <= k < |z| ensures t[b + 1..c][k] == z[k] {
        assert p4[b + 1 + k] == z[k];
      }
    }
    assert t[c..] == rest;
  }

  /** A run of digits at position `i` that is followed by a non-digit (or
      the end) is exactly where `RunEnd` stops. */
  lemma {:induction false} RunOfDigits(t: string, i: nat, x: string)
    requires i + |x| <= |t| && t[i..i + |x|] == x && AllDigits(x)
    requires i + |x| == |t| || !IsDigit(t[i + |x|])
    ensures RunEnd(t, i, IsDigit) == i + |x|
    decreases |x|
  {
    if |x| > 0 {
      assert t[i] == x[0];
      assert t[i + 1..i + 1 + |x[1..]|] == x[1..];
      RunOfDigits(t, i + 1, x[1..]);
    }
  }

  /** The text of version `major.minor.patch`. */
  function Render(major: int, minor: int, patch: int): string {
    IntToString(major) + "." + IntToString(minor) + "." + IntToString(patch)
  }

  /** `(-[a-zA-Z0-9\-\.]+)?` followed by the end. */
  predicate BasicSuffix(r: string) {
    r == [] || (|r| >= 2 && r[0] == '-' && AllIn(r[1..], IsTagChar))
  }

  predicate BasicVersionExact(t: string) {
    match ParseCore(t)
    case None => false
    case Some(v) => BasicSuffix(v.rest)
  }

  /** `^\d+\.\d+\.\d+(-[a-zA-Z0-9\-\.]+)?$` */
  predicate BasicVersionMatches(s: string) {
    BasicVersionExact(s) || (EndsWithNewline(s) && BasicVersionExact(s[..|s| - 1]))
  }

  /** `(\+[\w\.-]+)` followed by the end. */
  predicate BuildSuffix(r: string) {
    |r| >= 2 && r[0] == '+' && AllIn(r[1..], IsWordTagChar)
  }

  /** `(-[\w\.-]+)?(\+[\w\.-]+)?` followed by the end. A tag cannot hold
      `+`, so the pre-release part is the longest run of tag characters. */
  predicate TaggedSuffix(r: string) {
    r == [] || BuildSuffix(r)
    || (|r| >= 2 && r[0] == '-'
        && var k := RunEnd(r, 1, IsWordTagChar);
           k > 1 && (k == |r| || BuildSuffix(r[k..])))
  }

  predicate SemverExact(t: string) {
    match ParseCore(t)
    case None => false
    case Some(v) => TaggedSuffix(v.rest)
  }

  /** `^\d+\.\d+\.\d+(-[\w\.-]+)?(\+[\w\.-]+)?$` */
  predicate SemverMatches(s: string) {
    SemverExact(s) || (EndsWithNewline(s) && SemverExact(s[..|s| - 1]))
  }

  /** A plain `x.y.z` of digit strings matches both version patterns. */
  lemma PlainVersionMatches(x: string, y: string, z: string)
    requires NumberText(x) && NumberText(y) && NumberText(z)
    ensures BasicVersionMatches(x + "." + y + "." + z)
    ensures SemverMatches(x + "." + y + "." + z)
  {
    ParseCoreUnique(x, y, z, "");
    assert x + "." + y + "." + z + "" == x + "." + y + "." + z;
  }

  /** So does a version with a pre-release tag of letters. */
  lemma PreReleaseVersionMatches(x: string, y: string, z: string, tag: string)
    requires NumberText(x) && NumberText(y) && NumberText(z)
    requires |tag| > 0 && AllIn(tag, IsLetter)
    ensures SemverMatches(x + "." + y + "." + z + "-" + tag)
    ensures BasicVersionMatches(x + "." + y + "." + z + "-" + tag)
  {
    var rest := "-" + tag;
    ParseCoreUnique(x, y, z, rest);
    assert x + "." + y + "." + z + "-" + tag == x + "." + y + "." + z + rest;
    assert rest[1..] == tag;
    assert RunEnd(rest, 1, IsWordTagChar) == |rest| by {
      TagRun(rest, 1);
    }
  }

  lemma {:induction false} TagRun(r: string, i: nat)
    requires i <= |r| && forall k | i <= k < |r| :: IsWordTagChar(r[k])
    ensures RunEnd(r, i, IsWordTagChar) == |r|
    decreases |r| - i
  {
    if i < |r| {
      TagRun(r, i + 1);
    }
  }
}
