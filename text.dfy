/**
 * Character classes, case mapping and the string operations of Python's `str`,
 * `os.path` and `re` that the log filter relies on.  Regular-expression classes
 * and case-insensitivity are modelled over ASCII (see README, "Left out").
 */
module Text {
  import opened Wrappers

  /** `\d`, restricted to ASCII digits. */
  predicate IsDigit(c: char) { '0' <= c <= '9' }

  /** `[A-Za-z0-9]`. */
  predicate IsAlnum(c: char) { '0' <= c <= '9' || 'A' <= c <= 'Z' || 'a' <= c <= 'z' }

  /** `\w` restricted to ASCII: the characters that make up a word for `\b`. */
  predicate IsWordChar(c: char) { IsAlnum(c) || c == '_' }

  /** Python's `str.isspace`, which is also what `str.strip()` removes and `\s` matches. */
  predicate IsSpace(c: char) {
    var n := c as int;
    (9 <= n <= 13) || (28 <= n <= 32) || n == 0x85 || n == 0xA0 || n == 0x1680
    || (0x2000 <= n <= 0x200A) || n == 0x2028 || n == 0x2029 || n == 0x202F
    || n == 0x205F || n == 0x3000
  }

  predicate AllDigits(s: string) { forall i :: 0 <= i < |s| ==> IsDigit(s[i]) }

  function LowerChar(c: char): char {
    if 'A' <= c <= 'Z' then (c as int + 32) as char else c
  }

  function UpperChar(c: char): char {
    if 'a' <= c <= 'z' then (c as int - 32) as char else c
  }

  /** `str.lower()` on ASCII letters. */
  function Lower(s: string): string {
    seq(|s|, i requires 0 <= i < |s| => LowerChar(s[i]))
  }

  /** `str.upper()` on ASCII letters. */
  function Upper(s: string): string {
    seq(|s|, i requires 0 <= i < |s| => UpperChar(s[i]))
  }

  predicate StartsWith(s: string, p: string) { |p| <= |s| && s[..|p|] == p }

  predicate EndsWith(s: string, p: string) { |p| <= |s| && s[|s| - |p|..] == p }

  /** `w` occurs in `s` starting at index `i`. */
  predicate OccursAt(s: string, w: string, i: int) {
    0 <= i && i + |w| <= |s| && s[i..i + |w|] == w
  }

  /** Python's `w in s`. */
  predicate Contains(s: string, w: string) {
    exists i | 0 <= i <= |s| - |w| :: OccursAt(s, w, i)
  }

  /** The first index at or after `i` where `w` occurs, if any (`str.find`). */
  function FindFrom(s: string, w: string, i: nat): (r: Option<nat>)
    decreases |s| - i
    ensures r.Some? ==> i <= r.value && OccursAt(s, w, r.value)
    ensures r.Some? ==> forall k :: i <= k < r.value ==> !OccursAt(s, w, k)
    ensures r.None? ==> forall k :: i <= k ==> !OccursAt(s, w, k)
  {
    if i + |w| > |s| then None
    else if s[i..i + |w|] == w then Some(i)
    else FindFrom(s, w, i + 1)
  }

  lemma FindFromContains(s: string, w: string)
    ensures FindFrom(s, w, 0).Some? <==> Contains(s, w)
  {
    if Contains(s, w) {
      var i :| 0 <= i <= |s| - |w| && OccursAt(s, w, i);
    }
  }

  /** `s.split(w, 1)[1]`: the text after the first occurrence of `w`. */
  function After(s: string, w: string): string
    requires Contains(s, w)
  {
    FindFromContains(s, w);
    var i := FindFrom(s, w, 0).value;
    s[i + |w|..]
  }

  /** `str.lstrip()`. */
  function TrimStart(s: string): (r: string)
    ensures |r| <= |s|
    ensures r == [] || !IsSpace(r[0])
    ensures forall k :: 0 <= k < |s| - |r| ==> IsSpace(s[k])
  {
    if |s| > 0 && IsSpace(s[0]) then TrimStart(s[1..]) else s
  }

  /** `str.rstrip()`. */
  function TrimEnd(s: string): (r: string)
    ensures |r| <= |s|
    ensures r == [] || !IsSpace(r[|r| - 1])
    ensures forall k :: |r| <= k < |s| ==> IsSpace(s[k])
  {
    if |s| > 0 && IsSpace(s[|s| - 1]) then TrimEnd(s[..|s| - 1]) else s
  }

  /** `str.strip()`. */
  function Strip(s: string): string {
    TrimEnd(TrimStart(s))
  }

  /** What `lstrip` keeps is a suffix of its argument. */
  lemma {:induction false} TrimStartSuffix(s: string)
    ensures TrimStart(s) == s[|s| - |TrimStart(s)|..]
    decreases |s|
  {
    if |s| > 0 && IsSpace(s[0]) {
      TrimStartSuffix(s[1..]);
      assert s[1..][|s| - 1 - |TrimStart(s)|..] == s[|s| - |TrimStart(s)|..];
    }
  }

  /** What `rstrip` keeps is a prefix of its argument. */
  lemma {:induction false} TrimEndPrefix(s: string)
    ensures TrimEnd(s) == s[..|TrimEnd(s)|]
    decreases |s|
  {
    if |s| > 0 && IsSpace(s[|s| - 1]) {
      TrimEndPrefix(s[..|s| - 1]);
      assert s[..|s| - 1][..|TrimEnd(s)|] == s[..|TrimEnd(s)|];
    }
  }

  /** A stripped string starts and ends with a character that is not white space. */
  lemma StripEnds(s: string)
    ensures var r := Strip(s); r == [] || (!IsSpace(r[0]) && !IsSpace(r[|r| - 1]))
  {
    var t := TrimStart(s);
    TrimEndPrefix(t);
    var r := TrimEnd(t);
    if r != [] {
      assert r[0] == t[0];
    }
  }

  /** A string with no white space at either end is its own strip. */
  lemma StripUnchanged(s: string)
    requires s == [] || (!IsSpace(s[0]) && !IsSpace(s[|s| - 1]))
    ensures Strip(s) == s
  {
  }

  /** The index of the last `c` in `s`, or -1 (`str.rfind`). */
  function LastIndexOf(s: string, c: char): (r: int)
    ensures -1 <= r < |s|
    ensures r >= 0 ==> s[r] == c
    ensures forall k :: r < k < |s| ==> s[k] != c
  {
    if s == [] then -1
    else if s[|s| - 1] == c then |s| - 1
    else LastIndexOf(s[..|s| - 1], c)
  }

  /** `os.path.basename` (POSIX): the text after the last '/'. */
  function Basename(p: string): string {
    p[LastIndexOf(p, '/') + 1..]
  }

  /** A name without '/' is its own base name. */
  lemma BasenameOfName(s: string)
    requires !Contains(s, "/")
    ensures Basename(s) == s
  {
    var r := LastIndexOf(s, '/');
    if r >= 0 {
      assert s[r..r + 1] == "/";
      assert OccursAt(s, "/", r);
    }
  }

  /** A string none of whose characters is `c` does not contain `[c]`. */
  lemma NotContainsChar(s: string, c: char)
    requires forall i :: 0 <= i < |s| ==> s[i] != c
    ensures !Contains(s, [c])
  {
    forall i | 0 <= i <= |s| - 1 ensures !OccursAt(s, [c], i) {
      assert s[i..i + 1][0] == s[i];
    }
  }

  /**
   * `pathlib.Path(p).parts`, without the root "/" and "." components, which no
   * pattern of the model can match: the non-empty '/'-separated segments.
   */
  function Parts(p: string): seq<string>
    decreases |p|
  {
    var k := LastIndexOf(p, '/');
    if k < 0 then (if p == "" then [] else [p])
    else Parts(p[..k]) + (if p[k + 1..] == "" then [] else [p[k + 1..]])
  }

  /** `os.path.join(a, b)` (POSIX). */
  function Join(a: string, b: string): string {
    if StartsWith(b, "/") then b
    else if a == "" || EndsWith(a, "/") then a + b
    else a + "/" + b
  }

  /** A relative name joined to a directory that does not end in '/'. */
  lemma JoinRelative(a: string, b: string)
    requires a != [] && a[|a| - 1] != '/' && b != [] && b[0] != '/'
    ensures Join(a, b) == a + "/" + b
  {
    assert b[..1] != "/";
    assert a[|a| - 1..] != "/";
  }

  /**
   * `os.path.splitext` on a name without '/': split at the last '.', unless every
   * character before it is a '.' (so ".LOG" has no extension).
   */
  function SplitExt(name: string): (string, string) {
    var d := LastIndexOf(name, '.');
    if d > 0 && exists j | 0 <= j < d :: name[j] != '.' then (name[..d], name[d..])
    else (name, "")
  }

  /** The stem and the extension together are the name. */
  lemma SplitExtJoins(name: string)
    ensures SplitExt(name).0 + SplitExt(name).1 == name
  {
    var d := LastIndexOf(name, '.');
    if d > 0 && exists j | 0 <= j < d :: name[j] != '.' {
      assert name[..d] + name[d..] == name;
    }
  }

  /** `s.replace(pat, rep)`: every non-overlapping occurrence, left to right. */
  function ReplaceAll(s: string, pat: string, rep: string): string
    requires pat != ""
    decreases |s|
  {
    if |s| < |pat| then s
    else if s[..|pat|] == pat then rep + ReplaceAll(s[|pat|..], pat, rep)
    else [s[0]] + ReplaceAll(s[1..], pat, rep)
  }

  /** The end of the run of characters satisfying `p` that starts at `i`. */
  function RunEnd(s: string, i: nat, p: char -> bool): (e: nat)
    requires i <= |s|
    decreases |s| - i
    ensures i <= e <= |s|
    ensures forall k :: i <= k < e ==> p(s[k])
    ensures e == |s| || !p(s[e])
  {
    if i < |s| && p(s[i]) then RunEnd(s, i + 1, p) else i
  }

  function DigitChar(d: nat): char
    requires d < 10
  {
    ('0' as int + d) as char
  }

  /** `str(n)` for a natural number. */
  function NatToString(n: nat): (s: string)
    ensures |s| > 0 && AllDigits(s)
  {
    if n < 10 then [DigitChar(n)] else NatToString(n / 10) + [DigitChar(n % 10)]
  }

  /** The decimal value of a string of digits. */
  function DigitsValue(s: string): nat
    requires AllDigits(s)
  {
    if s == [] then 0 else 10 * DigitsValue(s[..|s| - 1]) + (s[|s| - 1] as int - '0' as int)
  }

  /** Reading back what `str(n)` wrote gives `n`. */
  lemma {:induction false} NatToStringRoundTrip(n: nat)
    ensures DigitsValue(NatToString(n)) == n
  {
    if n >= 10 {
      NatToStringRoundTrip(n / 10);
      var s := NatToString(n);
      assert s[..|s| - 1] == NatToString(n / 10);
    }
  }

  /** Each character of `s` replaced by its image under `f`, in order. */
  function CharMap(s: string, f: char -> string): string {
    if s == [] then [] else CharMap(s[..|s| - 1], f) + f(s[|s| - 1])
  }

  /** A character-wise map distributes over concatenation. */
  lemma {:induction false} CharMapConcat(a: string, b: string, f: char -> string)
    ensures CharMap(a + b, f) == CharMap(a, f) + CharMap(b, f)
    decreases |b|
  {
    if b == [] {
      assert a + b == a;
    } else {
      var init, c := b[..|b| - 1], b[|b| - 1];
      var ab := a + b;
      assert ab[..|ab| - 1] == a + init;
      assert ab[|ab| - 1] == c;
      var x, y := CharMap(a, f), CharMap(init, f);
      assert CharMap(b, f) == y + f(c);
      calc {
        CharMap(ab, f);
        CharMap(a + init, f) + f(c);
        { CharMapConcat(a, init, f); }
        (x + y) + f(c);
        x + (y + f(c));
      }
    }
  }

  lemma CharMapOne(x: char, f: char -> string)
    ensures CharMap([x], f) == f(x)
  {
    assert [x][..0] == [];
  }

  /** `html.escape(s)` with its default `quote=True`. */
  function HtmlEscape(s: string): string {
    CharMap(s, EscapeHtmlChar)
  }

  function EscapeHtmlChar(c: char): string {
    if c == '&' then "&amp;"
    else if c == '<' then "&lt;"
    else if c == '>' then "&gt;"
    else if c == '"' then "&quot;"
    else if c == '\'' then "&#x27;"
    else [c]
  }

  /** Escaping works character by character, so it distributes over concatenation. */
  lemma HtmlEscapeConcat(a: string, b: string)
    ensures HtmlEscape(a + b) == HtmlEscape(a) + HtmlEscape(b)
  {
    CharMapConcat(a, b, EscapeHtmlChar);
  }

  /** The five entities `html.escape` writes, decoded from the front; every other character stays. */
  function HtmlUnescape(t: string): string
    decreases |t|
  {
    if t == [] then []
    else if t[0] != '&' then [t[0]] + HtmlUnescape(t[1..])
    else
      var e := EntityAt(t);
      if e.Some? then [e.value.0] + HtmlUnescape(t[e.value.1..]) else [t[0]] + HtmlUnescape(t[1..])
  }

  /** The entity `t` starts with: the character it stands for and its length. */
  function EntityAt(t: string): (r: Option<(char, nat)>)
    ensures r.Some? ==> 0 < r.value.1 <= |t|
  {
    if StartsWith(t, "&amp;") then Some(('&', 5))
    else if StartsWith(t, "&lt;") then Some(('<', 4))
    else if StartsWith(t, "&gt;") then Some(('>', 4))
    else if StartsWith(t, "&quot;") then Some(('"', 6))
    else if StartsWith(t, "&#x27;") then Some(('\'', 6))
    else None
  }

  /** An entity at the front is decoded to its character and the rest is decoded after it. */
  lemma UnescapeEntity(e: string, c: char, rest: string)
    requires |e| > 0 && e[0] == '&' && EntityAt(e + rest) == Some((c, |e|))
    ensures HtmlUnescape(e + rest) == [c] + HtmlUnescape(rest)
  {
    assert (e + rest)[0] == '&';
    assert (e + rest)[|e|..] == rest;
  }

  lemma UnescapeAmp(rest: string)
    ensures HtmlUnescape("&amp;" + rest) == "&" + HtmlUnescape(rest)
  {
    assert ("&amp;" + rest)[..5] == "&amp;";
    UnescapeEntity("&amp;", '&', rest);
  }

  lemma UnescapeLt(rest: string)
    ensures HtmlUnescape("&lt;" + rest) == "<" + HtmlUnescape(rest)
  {
    var t := "&lt;" + rest;
    assert t[..4] == "&lt;" && t[1] == 'l';
    UnescapeEntity("&lt;", '<', rest);
  }

  lemma UnescapeGt(rest: string)
    ensures HtmlUnescape("&gt;" + rest) == ">" + HtmlUnescape(rest)
  {
    var t := "&gt;" + rest;
    assert t[..4] == "&gt;" && t[1] == 'g';
    UnescapeEntity("&gt;", '>', rest);
  }

  lemma UnescapeQuot(rest: string)
    ensures HtmlUnescape("&quot;" + rest) == "\"" + HtmlUnescape(rest)
  {
    var t := "&quot;" + rest;
    assert t[..6] == "&quot;" && t[1] == 'q';
    UnescapeEntity("&quot;", '"', rest);
  }

  lemma UnescapeApos(rest: string)
    ensures HtmlUnescape("&#x27;" + rest) == "'" + HtmlUnescape(rest)
  {
    var t := "&#x27;" + rest;
    assert t[..6] == "&#x27;" && t[1] == '#';
    UnescapeEntity("&#x27;", '\'', rest);
  }

  lemma UnescapeChar(c: char, rest: string)
    ensures HtmlUnescape(EscapeHtmlChar(c) + rest) == [c] + HtmlUnescape(rest)
  {
    if c == '&' {
      UnescapeAmp(rest);
    } else if c == '<' {
      UnescapeLt(rest);
    } else if c == '>' {
      UnescapeGt(rest);
    } else if c == '"' {
      UnescapeQuot(rest);
    } else if c == '\'' {
      UnescapeApos(rest);
    } else {
      var t := [c] + rest;
      assert t[0] == c && t[1..] == rest;
    }
  }

  /** Escaping loses nothing: decoding the five entities gives the text back. */
  lemma {:induction false} HtmlEscapeRoundTrip(s: string)
    ensures HtmlUnescape(HtmlEscape(s)) == s
    decreases |s|
  {
    if s != [] {
      assert s == [s[0]] + s[1..];
      HtmlEscapeConcat([s[0]], s[1..]);
      CharMapOne(s[0], EscapeHtmlChar);
      UnescapeChar(s[0], HtmlEscape(s[1..]));
      HtmlEscapeRoundTrip(s[1..]);
    }
  }

  /** No character that could open or close a tag or end an attribute value. */
  predicate NoMarkup(t: string) {
    forall i :: 0 <= i < |t| ==> t[i] != '<' && t[i] != '>' && t[i] != '"' && t[i] != '\''
  }

  /** Escaped text cannot open a tag or end an attribute value. */
  lemma {:induction false} HtmlEscapeNoMarkup(s: string)
    ensures NoMarkup(HtmlEscape(s))
    decreases |s|
  {
    if s != [] {
      HtmlEscapeNoMarkup(s[..|s| - 1]);
    }
  }

  /** Text without the five special characters is its own escape. */
  lemma {:induction false} HtmlEscapeIdle(s: string)
    requires NoMarkup(s) && forall i :: 0 <= i < |s| ==> s[i] != '&'
    ensures HtmlEscape(s) == s
    decreases |s|
  {
    if s != [] {
      HtmlEscapeIdle(s[..|s| - 1]);
    }
  }
}
