/** `InputSanitizer`: control-character removal with strip and truncation,
    and the escaping of HTML metacharacters. */
module InputSanitizer {
  import opened Wrappers
  import opened Text

  // ---------------------------------------------------------------------
  // sanitize_string
  // ---------------------------------------------------------------------

  /** Kept by `sanitize_string`: code 32 and above, and the three layout
      controls newline, carriage return and tab. */
  predicate Kept(c: char) {
    c as int >= 32 || c == '\n' || c == '\r' || c == '\t'
  }

  predicate AllKept(s: string) {
    forall k | 0 <= k < |s| :: Kept(s[k])
  }

  /** The characters of `s` that are kept, in order. */
  function DropControls(s: string): (r: string)
    ensures |r| <= |s|
    ensures AllKept(r)
    ensures AllKept(s) ==> r == s
  {
    if s == [] then []
    else (if Kept(s[0]) then [s[0]] else []) + DropControls(s[1..])
  }

  /** Python's `s[:n]`: a negative bound counts from the end. */
  function SliceTo(s: string, n: int): (r: string)
    ensures r <= s
    ensures n >= 0 ==> |r| == if n < |s| then n else |s|
  {
    if n >= 0 then (if n < |s| then s[..n] else s)
    else if |s| + n > 0 then s[..|s| + n] else ""
  }

  /** `sanitize_string`: drop controls, strip, then cut to `maxLength` when
      it is given and non-zero. */
  function SanitizeString(value: string, maxLength: Option<int>): (r: string)
    ensures AllKept(r)
    ensures r <= Strip(DropControls(value))
    ensures maxLength.Some? && maxLength.value > 0 ==> |r| <= maxLength.value
    ensures maxLength.None? || maxLength.value == 0 ==> r == Strip(DropControls(value))
  {
    var t := Strip(DropControls(value));
    KeptInfix(DropControls(value), t);
    if maxLength.Some? && maxLength.value != 0 then SliceTo(t, maxLength.value) else t
  }

  /** An infix of a string of kept characters holds only kept characters. */
  lemma KeptInfix(s: string, t: string)
    requires AllKept(s) && Contains(s, t)
    ensures AllKept(t)
  {
    var i :| 0 <= i <= |s| && OccursAt(s, t, i);
    assert forall k | 0 <= k < |t| :: t[k] == s[i + k];
  }

  /** Without a length limit, sanitising twice is sanitising once. */
  lemma SanitizeStringIdempotent(value: string)
    ensures SanitizeString(SanitizeString(value, None), None) == SanitizeString(value, None)
  {
    var r := SanitizeString(value, None);
    assert DropControls(r) == r;
    StripIdempotent(DropControls(value));
  }

  // ---------------------------------------------------------------------
  // sanitize_html_input
  // ---------------------------------------------------------------------

  predicate IsMarkup(c: char) {
    c == '<' || c == '>' || c == '"' || c == '\''
  }

  predicate NoMarkup(s: string) {
    forall k | 0 <= k < |s| :: !IsMarkup(s[k])
  }

  /** `sanitize_html_input` as written: five `replace` calls in the order of
      the table, with `&` last, so the `&` of every entity produced before
      is escaped again. */
  function SanitizeHtmlAsWritten(value: string): string {
    var a := ReplaceChar(value, '<', "&lt;");
    var b := ReplaceChar(a, '>', "&gt;");
    var c := ReplaceChar(b, '"', "&quot;");
    var d := ReplaceChar(c, '\'', "&#x27;");
    ReplaceChar(d, '&', "&amp;")
  }

  /** Replacing `c` by a text without `c` removes it, and a character in
      neither the input nor the replacement stays absent. */
  lemma {:induction false} ReplaceCharAbsent(s: string, c: char, rep: string, d: char)
    requires d !in rep
    requires d == c || d !in s
    ensures d !in ReplaceChar(s, c, rep)
    decreases |s|
  {
    if |s| > 0 {
      assert d == c || d !in s[1..];
      ReplaceCharAbsent(s[1..], c, rep, d);
    }
  }

  /** The chain of five replacements leaves no markup character behind
      when none of the replacement texts holds one. */
  lemma ChainNoMarkup(value: string, lt: string, gt: string, quot: string, apos: string, amp: string)
    requires NoMarkup(lt) && NoMarkup(gt) && NoMarkup(quot) && NoMarkup(apos) && NoMarkup(amp)
    ensures NoMarkup(ReplaceChar(ReplaceChar(ReplaceChar(ReplaceChar(ReplaceChar(
              value, '<', lt), '>', gt), '"', quot), '\'', apos), '&', amp))
  {
    assert forall t: string | NoMarkup(t) :: '<' !in t && '>' !in t && '"' !in t && '\'' !in t by {
      forall t: string | NoMarkup(t) ensures '<' !in t && '>' !in t && '"' !in t && '\'' !in t {
        forall k | 0 <= k < |t| ensures !IsMarkup(t[k]) { }
      }
    }
    var a := ReplaceChar(value, '<', lt);
    var b := ReplaceChar(a, '>', gt);
    var c := ReplaceChar(b, '"', quot);
    var d := ReplaceChar(c, '\'', apos);
    var e := ReplaceChar(d, '&', amp);
    ReplaceCharAbsent(value, '<', lt, '<');
    ReplaceCharAbsent(a, '>', gt, '<');
    ReplaceCharAbsent(a, '>', gt, '>');
    ReplaceCharAbsent(b, '"', quot, '<');
    ReplaceCharAbsent(b, '"', quot, '>');
    ReplaceCharAbsent(b, '"', quot, '"');
    ReplaceCharAbsent(c, '\'', apos, '<');
    ReplaceCharAbsent(c, '\'', apos, '>');
    ReplaceCharAbsent(c, '\'', apos, '"');
    ReplaceCharAbsent(c, '\'', apos, '\'');
    ReplaceCharAbsent(d, '&', amp, '<');
    ReplaceCharAbsent(d, '&', amp, '>');
    ReplaceCharAbsent(d, '&', amp, '"');
    ReplaceCharAbsent(d, '&', amp, '\'');
    assert forall k | 0 <= k < |e| :: e[k] in e;
  }

  /** The written chain still leaves no markup character behind. */
  lemma SanitizeHtmlAsWrittenNoMarkup(value: string)
    ensures NoMarkup(SanitizeHtmlAsWritten(value))
  {
    ChainNoMarkup(value, "&lt;", "&gt;", "&quot;", "&#x27;", "&amp;");
  }

  /** Replacing in a one-character text that is the target. */
  lemma ReplaceSingle(c: char, rep: string)
    ensures ReplaceChar([c], c, rep) == rep
  {
    assert [c][1..] == [];
  }

  /** The chain on a lone `<`, with the entity texts left open: the `&`
      that the first step writes is replaced by the last. */
  lemma ChainOnLessThan(value: string, lt: string, gt: string, quot: string, apos: string, amp: string, tail: string)
    requires value == ['<']
    requires lt == "&" + tail
    requires '>' !in lt && '"' !in lt && '\'' !in lt && '&' !in tail
    ensures ReplaceChar(ReplaceChar(ReplaceChar(ReplaceChar(ReplaceChar(
              value, '<', lt), '>', gt), '"', quot), '\'', apos), '&', amp) == amp + tail
  {
    ReplaceSingle('<', lt);
    ReplaceCharConcat("&", tail, '&', amp);
    ReplaceSingle('&', amp);
  }

  /** A lone `<` comes out as `&amp;lt;`, which a browser shows as the
      four characters `&lt;` rather than as `<`. */
  lemma SanitizeHtmlAsWrittenDoubleEscapes(value: string)
    requires value == "<"
    ensures SanitizeHtmlAsWritten(value) == "&amp;lt;"
    ensures SanitizeHtmlAsWritten(value) != EscapeHtml(value)
  {
    ChainOnLessThan(value, "&lt;", "&gt;", "&quot;", "&#x27;", "&amp;", "lt;");
    assert "&amp;" + "lt;" == "&amp;lt;";
    assert EscapeHtml(value) == EscapeChar('<') + EscapeHtml([]) by {
      assert value[0] == '<' && value[1..] == [];
    }
  }

  /** The entity for one character, `&` included. */
  function EscapeChar(c: char): (r: string)
    ensures |r| > 0
    ensures NoMarkup(r)
    ensures c != '&' && !IsMarkup(c) ==> r == [c]
    ensures c == '&' || IsMarkup(c) ==> r[0] == '&'
  {
    if c == '&' then "&amp;"
    else if c == '<' then "&lt;"
    else if c == '>' then "&gt;"
    else if c == '"' then "&quot;"
    else if c == '\'' then "&#x27;"
    else [c]
  }

  /** `sanitize_html_input` as intended: each character escaped once, the
      way `html.escape` does it. */
  function EscapeHtml(value: string): (r: string)
    ensures NoMarkup(r)
    ensures |r| >= |value|
  {
    if value == [] then [] else EscapeChar(value[0]) + EscapeHtml(value[1..])
  }

  /** Reading entities back: the inverse of `EscapeHtml`. */
  function UnescapeHtml(s: string): string
    decreases |s|
  {
    if s == [] then []
    else if "&amp;" <= s then "&" + UnescapeHtml(s[5..])
    else if "&lt;" <= s then "<" + UnescapeHtml(s[4..])
    else if "&gt;" <= s then ">" + UnescapeHtml(s[4..])
    else if "&quot;" <= s then "\"" + UnescapeHtml(s[6..])
    else if "&#x27;" <= s then "'" + UnescapeHtml(s[6..])
    else [s[0]] + UnescapeHtml(s[1..])
  }

  /** One escaped character is read back in front of whatever follows. */
  lemma UnescapeChar(c: char, rest: string)
    ensures UnescapeHtml(EscapeChar(c) + rest) == [c] + UnescapeHtml(rest)
  {
    var s := EscapeChar(c) + rest;
    var e := EscapeChar(c);
    assert s[..|e|] == e && s[|e|..] == rest;
    if c != '&' && !IsMarkup(c) {
      assert s[0] == c && s[0] != '&';
      assert !("&amp;" <= s) && !("&lt;" <= s) && !("&gt;" <= s) && !("&quot;" <= s) && !("&#x27;" <= s);
    } else if c == '&' {
      assert "&amp;" <= s;
    } else if c == '<' {
      assert !("&amp;" <= s) by { assert s[1] == 'l'; }
      assert "&lt;" <= s;
    } else if c == '>' {
      assert !("&amp;" <= s) && !("&lt;" <= s) by { assert s[1] == 'g'; }
      assert "&gt;" <= s;
    } else if c == '"' {
      assert !("&amp;" <= s) && !("&lt;" <= s) && !("&gt;" <= s) by { assert s[1] == 'q'; }
      assert "&quot;" <= s;
    } else {
      assert !("&amp;" <= s) && !("&lt;" <= s) && !("&gt;" <= s) && !("&quot;" <= s) by { assert s[1] == '#'; }
      assert "&#x27;" <= s;
    }
  }

  /** Escaping loses nothing: every input is read back exactly. */
  lemma {:induction false} EscapeHtmlRoundTrip(value: string)
    ensures UnescapeHtml(EscapeHtml(value)) == value
    decreases |value|
  {
    if value != [] {
      UnescapeChar(value[0], EscapeHtml(value[1..]));
      EscapeHtmlRoundTrip(value[1..]);
      assert value == [value[0]] + value[1..];
    }
  }

  /** On text without markup characters the written chain only escapes
      `&`, once, and so agrees with the intended escape. */
  lemma {:induction false} SanitizeHtmlAgreesWithoutMarkup(value: string)
    requires NoMarkup(value)
    ensures SanitizeHtmlAsWritten(value) == EscapeHtml(value)
  {
    assert '<' !in value && '>' !in value && '"' !in value && '\'' !in value by {
      forall k | 0 <= k < |value| ensures !IsMarkup(value[k]) { }
    }
    AmpersandOnly(value);
  }

  /** Escaping `&` alone is the full escape of text without markup. */
  lemma {:induction false} AmpersandOnly(value: string)
    requires NoMarkup(value)
    ensures ReplaceChar(value, '&', "&amp;") == EscapeHtml(value)
    decreases |value|
  {
    if value != [] {
      assert NoMarkup(value[1..]) by {
        forall k | 0 <= k < |value[1..]| ensures !IsMarkup(value[1..][k]) {
          assert value[1..][k] == value[k + 1];
        }
      }
      assert !IsMarkup(value[0]);
      AmpersandOnly(value[1..]);
    }
  }
}
