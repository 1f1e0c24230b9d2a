/** The dashboard's `escapeHtml` helper: every one of the five
    HTML-significant characters is replaced by its character reference
    before text is placed in markup. */
module HtmlEscape {
  import opened Records

  predicate Special(c: char) {
    c == '&' || c == '<' || c == '>' || c == '"' || c == '\''
  }

  /** The replacement of one character. */
  function EscapeChar(c: char): string {
    match c
    case '&' => "&amp;"
    case '<' => "&lt;"
    case '>' => "&gt;"
    case '"' => "&quot;"
    case '\'' => "&#39;"
    case _ => [c]
  }

  /** `String(s).replace(/[&<>"']/g, ...)`: each character replaced in turn. */
  function Escape(s: string): string {
    if s == [] then [] else EscapeChar(s[0]) + Escape(s[1..])
  }

  /** `escapeHtml(s)`: `''` for an absent or empty argument, the escaped
      string otherwise. */
  function EscapeHtml(s: Option<string>): (r: string)
    ensures s.None? || s.value == [] ==> r == []
    ensures s.Some? ==> r == Escape(s.value)
  {
    if s.None? || s.value == "" then "" else Escape(s.value)
  }

  // ---------------------------------------------------------------- safety

  /** `t` begins with one of the five character references. */
  predicate StartsEntity(t: string) {
    HasPrefix(t, "&amp;") || HasPrefix(t, "&lt;") || HasPrefix(t, "&gt;")
    || HasPrefix(t, "&quot;") || HasPrefix(t, "&#39;")
  }

  predicate HasPrefix(t: string, p: string) {
    |p| <= |t| && t[..|p|] == p
  }

  /** The output carries no raw `<`, `>`, `"` or `'`, and every `&` in it
      opens one of the five character references. */
  ghost predicate Safe(r: string) {
    && (forall i :: 0 <= i < |r| ==> r[i] != '<' && r[i] != '>' && r[i] != '"' && r[i] != '\'')
    && (forall i :: 0 <= i < |r| && r[i] == '&' ==> StartsEntity(r[i..]))
  }

  lemma HasPrefixAppend(t: string, u: string, p: string)
    requires HasPrefix(t, p)
    ensures HasPrefix(t + u, p)
  {
    assert (t + u)[..|p|] == t[..|p|];
  }

  lemma SafeAppend(a: string, b: string)
    requires Safe(a) && Safe(b)
    requires forall i :: 0 <= i < |a| && a[i] == '&' ==> StartsEntity(a[i..] + b)
    ensures Safe(a + b)
  {
    var r := a + b;
    forall i | 0 <= i < |r| && r[i] == '&' ensures StartsEntity(r[i..]) {
      if i < |a| {
        assert r[i..] == a[i..] + b;
      } else {
        assert r[i..] == b[i - |a|..];
      }
    }
  }

  lemma EscapeCharSafe(c: char, rest: string)
    ensures Safe(EscapeChar(c))
    ensures forall i :: 0 <= i < |EscapeChar(c)| && EscapeChar(c)[i] == '&' ==> StartsEntity(EscapeChar(c)[i..] + rest)
  {
    var e := EscapeChar(c);
    forall i | 0 <= i < |e| && e[i] == '&' ensures StartsEntity(e[i..] + rest) && StartsEntity(e[i..]) {
      assert i == 0;
      assert e[i..] == e;
      HasPrefixAppend(e, rest, e);
    }
  }

  lemma {:induction false} EscapeSafe(s: string)
    ensures Safe(Escape(s))
  {
    if s != [] {
      EscapeSafe(s[1..]);
      EscapeCharSafe(s[0], Escape(s[1..]));
      SafeAppend(EscapeChar(s[0]), Escape(s[1..]));
    }
  }

  /** Whatever `escapeHtml` is given, its result is safe to insert in markup. */
  lemma EscapeHtmlSafe(s: Option<string>)
    ensures Safe(EscapeHtml(s))
  {
    if s.Some? { EscapeSafe(s.value); }
  }

  /** A string with none of the five characters comes back unchanged. */
  lemma {:induction false} EscapeIdentity(s: string)
    requires forall i :: 0 <= i < |s| ==> !Special(s[i])
    ensures Escape(s) == s
  {
    if s != [] {
      assert !Special(s[0]);
      EscapeIdentity(s[1..]);
      assert s == [s[0]] + s[1..];
    }
  }

  // ---------------------------------------------------------------- round trip

  /** Decoding of the five character references, the left inverse of Escape. */
  function Unescape(t: string): string
    decreases |t|
  {
    if t == [] then []
    else if HasPrefix(t, "&amp;") then "&" + Unescape(t[5..])
    else if HasPrefix(t, "&lt;") then "<" + Unescape(t[4..])
    else if HasPrefix(t, "&gt;") then ">" + Unescape(t[4..])
    else if HasPrefix(t, "&quot;") then "\"" + Unescape(t[6..])
    else if HasPrefix(t, "&#39;") then "'" + Unescape(t[5..])
    else [t[0]] + Unescape(t[1..])
  }

  lemma PrefixAt(t: string, p: string, k: nat)
    requires HasPrefix(t, p) && k < |p|
    ensures t[k] == p[k]
  {
    assert t[..|p|][k] == t[k];
  }

  lemma HasPrefixConcat(p: string, rest: string)
    ensures HasPrefix(p + rest, p) && (p + rest)[|p|..] == rest
  {
    assert (p + rest)[..|p|] == p;
  }

  /** No reference other than `p` matches at the start of `p + rest`, for
      `p` the reference of a character; a plain character starts no reference. */
  lemma UnescapeStep(c: char, rest: string)
    ensures Unescape(EscapeChar(c) + rest) == [c] + Unescape(rest)
  {
    var e := EscapeChar(c);
    var t := e + rest;
    HasPrefixConcat(e, rest);
    if !Special(c) {
      assert t[0] == c;
      if HasPrefix(t, "&amp;") { PrefixAt(t, "&amp;", 0); }
      if HasPrefix(t, "&lt;") { PrefixAt(t, "&lt;", 0); }
      if HasPrefix(t, "&gt;") { PrefixAt(t, "&gt;", 0); }
      if HasPrefix(t, "&quot;") { PrefixAt(t, "&quot;", 0); }
      if HasPrefix(t, "&#39;") { PrefixAt(t, "&#39;", 0); }
      assert t[1..] == rest;
    } else {
      assert t[1] == e[1];
      if c != '&' && HasPrefix(t, "&amp;") { PrefixAt(t, "&amp;", 1); }
      if c != '<' && HasPrefix(t, "&lt;") { PrefixAt(t, "&lt;", 1); }
      if c != '>' && HasPrefix(t, "&gt;") { PrefixAt(t, "&gt;", 1); }
      if c != '"' && HasPrefix(t, "&quot;") { PrefixAt(t, "&quot;", 1); }
      if c != '\'' && HasPrefix(t, "&#39;") { PrefixAt(t, "&#39;", 1); }
    }
  }

  /** Decoding the references in `escapeHtml`'s output recovers its input. */
  lemma {:induction false} EscapeRoundTrip(s: string)
    ensures Unescape(Escape(s)) == s
  {
    if s != [] {
      EscapeRoundTrip(s[1..]);
      UnescapeStep(s[0], Escape(s[1..]));
      assert s == [s[0]] + s[1..];
    }
  }

  /** Hence escaping never maps two different strings to the same markup. */
  lemma EscapeInjective(a: string, b: string)
    requires Escape(a) == Escape(b)
    ensures a == b
  {
    EscapeRoundTrip(a);
    EscapeRoundTrip(b);
  }
}
