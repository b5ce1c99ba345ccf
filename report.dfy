/**
 * Highlighting (`highlight_text`) and the two reports built from the matched
 * lines (`save_results_as_text`, `save_results_as_html`), as string builders.
 */
module Report {
  import opened Wrappers
  import opened Text
  import opened Sorting
  import opened Keywords

  /** The highlight map `{term: colour}` as its items in insertion order. */
  type Highlights = seq<Term>

  /** One item `(term, colour)` of the map. */
  type Term = (string, string)

  /** `Colors.RESET`, the ANSI code that ends a coloured term on the console. */
  const Reset: string := "\U{1B}[0m"

  // ----- escaping -----

  /** The three `str.replace` calls of the HTML preparation: '&', then '<', then '>'. */
  function EscapeOnce(s: string): string {
    ReplaceAll(ReplaceAll(ReplaceAll(s, "&", "&amp;"), "<", "&lt;"), ">", "&gt;")
  }

  /** Replacing a one-character pattern treats each character on its own. */
  lemma {:induction false} ReplaceCharConcat(a: string, b: string, c: char, r: string)
    ensures ReplaceAll(a + b, [c], r) == ReplaceAll(a, [c], r) + ReplaceAll(b, [c], r)
    decreases |a|
  {
    if a != [] {
      assert (a + b)[1..] == a[1..] + b;
      assert (a + b)[..1] == a[..1];
      ReplaceCharConcat(a[1..], b, c, r);
      if a[..1] == [c] {
        assert ReplaceAll(a + b, [c], r) == r + ReplaceAll(a[1..] + b, [c], r);
        assert ReplaceAll(a, [c], r) == r + ReplaceAll(a[1..], [c], r);
      } else {
        assert ReplaceAll(a + b, [c], r) == [a[0]] + ReplaceAll(a[1..] + b, [c], r);
        assert ReplaceAll(a, [c], r) == [a[0]] + ReplaceAll(a[1..], [c], r);
      }
    } else {
      assert a + b == b;
    }
  }

  /** Replacing a character that does not occur changes nothing. */
  lemma {:induction false} ReplaceAbsent(s: string, c: char, r: string)
    requires forall i :: 0 <= i < |s| ==> s[i] != c
    ensures ReplaceAll(s, [c], r) == s
    decreases |s|
  {
    if s != [] {
      assert s[..1] == [s[0]];
      ReplaceAbsent(s[1..], c, r);
    }
  }

  /** The replacement of one character. */
  function ReplaceChar(x: char, c: char, r: string): string {
    if x == c then r else [x]
  }

  lemma ReplaceOne(x: char, c: char, r: string)
    ensures ReplaceAll([x], [c], r) == ReplaceChar(x, c, r)
  {
    assert [x][..1] == [x];
  }

  /** What one preparation pass makes of a single character. */
  function EscapeChar(x: char): string {
    if x == '&' then "&amp;" else if x == '<' then "&lt;" else if x == '>' then "&gt;" else [x]
  }

  /** One preparation pass acts character by character: '&' is replaced first, so the '&' it writes survive the later passes. */
  lemma EscapeOnceChar(x: char)
    ensures EscapeOnce([x]) == EscapeChar(x)
  {
    ReplaceOne(x, '&', "&amp;");
    var a := ReplaceChar(x, '&', "&amp;");
    if x == '&' {
      ReplaceAbsent("&amp;", '<', "&lt;");
      ReplaceAbsent("&amp;", '>', "&gt;");
    } else {
      ReplaceOne(x, '<', "&lt;");
      if x == '<' {
        ReplaceAbsent("&lt;", '>', "&gt;");
      } else {
        ReplaceOne(x, '>', "&gt;");
      }
    }
  }

  lemma EscapeOnceConcat(a: string, b: string)
    ensures EscapeOnce(a + b) == EscapeOnce(a) + EscapeOnce(b)
  {
    ReplaceCharConcat(a, b, '&', "&amp;");
    var a1, b1 := ReplaceAll(a, "&", "&amp;"), ReplaceAll(b, "&", "&amp;");
    ReplaceCharConcat(a1, b1, '<', "&lt;");
    var a2, b2 := ReplaceAll(a1, "<", "&lt;"), ReplaceAll(b1, "<", "&lt;");
    ReplaceCharConcat(a2, b2, '>', "&gt;");
  }

  /** The preparation pass, character by character. */
  function EscapeChars(s: string): string {
    if s == [] then [] else EscapeChars(s[..|s| - 1]) + EscapeChar(s[|s| - 1])
  }

  /** The three chained replacements are the character-wise map. */
  lemma {:induction false} EscapeOnceIsCharwise(s: string)
    ensures EscapeOnce(s) == EscapeChars(s)
  {
    if s != [] {
      var n := |s|;
      assert s == s[..n - 1] + [s[n - 1]];
      EscapeOnceConcat(s[..n - 1], [s[n - 1]]);
      EscapeOnceChar(s[n - 1]);
      EscapeOnceIsCharwise(s[..n - 1]);
    }
  }

  /** Text without '&', '<' and '>' is left as it is. */
  lemma {:induction false} EscapeOnceIdle(s: string)
    requires forall i :: 0 <= i < |s| ==> s[i] != '&' && s[i] != '<' && s[i] != '>'
    ensures EscapeOnce(s) == s
  {
    ReplaceAbsent(s, '&', "&amp;");
    ReplaceAbsent(s, '<', "&lt;");
    ReplaceAbsent(s, '>', "&gt;");
  }

  /** The preparation runs twice, so an '&' of the line ends up as "&amp;amp;" and a '<' as "&amp;lt;". */
  lemma DoubleEscape()
    ensures EscapeOnce(EscapeOnce("&")) == "&amp;amp;"
    ensures EscapeOnce(EscapeOnce("<")) == "&amp;lt;"
  {
    DoubleEscapeAmp();
    DoubleEscapeLt();
  }

  /** An '&' followed by text that needs no escaping. */
  lemma EscapeAfterAmp(t: string)
    requires forall i :: 0 <= i < |t| ==> t[i] != '&' && t[i] != '<' && t[i] != '>'
    ensures EscapeOnce(['&'] + t) == "&amp;" + t
  {
    EscapeOnceConcat(['&'], t);
    EscapeOnceChar('&');
    EscapeOnceIdle(t);
  }

  lemma EscapeAmpOnce()
    ensures EscapeOnce("&") == "&amp;"
  {
    EscapeAfterAmp("");
    assert ['&'] + "" == "&";
  }

  lemma EscapeAmpTwice()
    ensures EscapeOnce("&amp;") == "&amp;amp;"
  {
    EscapeAfterAmp("amp;");
    assert ['&'] + "amp;" == "&amp;";
  }

  lemma DoubleEscapeAmp()
    ensures EscapeOnce(EscapeOnce("&")) == "&amp;amp;"
  {
    EscapeAmpOnce();
    EscapeAmpTwice();
  }

  lemma EscapeLtOnce()
    ensures EscapeOnce("<") == "&lt;"
  {
    EscapeOnceChar('<');
  }

  lemma EscapeLtTwice()
    ensures EscapeOnce("&lt;") == "&amp;lt;"
  {
    EscapeAfterAmp("lt;");
    assert ['&'] + "lt;" == "&lt;";
  }

  lemma DoubleEscapeLt()
    ensures EscapeOnce(EscapeOnce("<")) == "&amp;lt;"
  {
    EscapeLtOnce();
    EscapeLtTwice();
  }

  // ----- one term: its pattern and `re.sub` -----

  /**
   * `re.compile(...)` for one term: the term's text, matched without regard to
   * case, and whether it is wrapped in `\b` (only the words "match" and
   * "mismatch" without a space).
   */
  datatype TermPattern = TermPattern(word: string, bounded: bool)

  function Compile(word: string): (p: TermPattern)
    ensures p.word == word
  {
    TermPattern(word, (Lower(word) == "match" || Lower(word) == "mismatch") && !Contains(word, " "))
  }

  /** Lower-casing keeps every space where it was. */
  lemma LowerKeepsSpace(word: string)
    requires Contains(word, " ")
    ensures Contains(Lower(word), " ")
  {
    var i :| 0 <= i <= |word| - 1 && OccursAt(word, " ", i);
    assert word[i..i + 1][0] == word[i];
    assert OccursAt(Lower(word), " ", i);
  }

  /** A term gets word boundaries exactly when it is "match" or "mismatch" up to case. */
  lemma BoundedTerms(word: string)
    ensures Compile(word).bounded <==> Lower(word) == "match" || Lower(word) == "mismatch"
  {
    if Contains(word, " ") {
      LowerKeepsSpace(word);
      var l := Lower(word);
      var i :| 0 <= i <= |l| - 1 && OccursAt(l, " ", i);
      assert l[i..i + 1][0] == l[i];
    }
  }

  /** `\b` at index `i`: a word character on exactly one side. */
  predicate Boundary(s: string, i: nat) {
    (0 < i <= |s| && IsWordChar(s[i - 1])) != (i < |s| && IsWordChar(s[i]))
  }

  /** The compiled pattern matches the text at `i`. */
  predicate MatchAt(p: TermPattern, s: string, i: nat) {
    && Keywords.MatchesAt(Literal(p.word), s, i)
    && (p.bounded ==> Boundary(s, i) && Boundary(s, i + |p.word|))
  }

  /** What `re.sub` sees: the characters it copies and the matches it replaces. */
  datatype Piece = Plain(c: char) | Hit(text: string)

  /** The positions of `s` where `p` matches. */
  function Matcher(p: TermPattern, s: string): nat -> bool {
    (j: nat) => MatchAt(p, s, j)
  }

  /**
   * The scan of `re.sub` from index `i` for a pattern of length `n` that
   * matches at the positions `m` picks: leftmost matches, not overlapping; an
   * empty pattern matches before every character and at the end.
   */
  function Segment(s: string, n: nat, m: nat -> bool, i: nat): seq<Piece>
    requires i <= |s|
    decreases |s| - i
  {
    if n == 0 then
      if i == |s| then [Hit([])] else [Hit([]), Plain(s[i])] + Segment(s, n, m, i + 1)
    else if i == |s| then []
    else if i + n <= |s| && m(i) then [Hit(s[i..i + n])] + Segment(s, n, m, i + n)
    else [Plain(s[i])] + Segment(s, n, m, i + 1)
  }

  function PieceText(x: Piece): string {
    match x
    case Plain(c) => [c]
    case Hit(t) => t
  }

  /** The text the pieces came from. */
  function Flatten(ps: seq<Piece>): string {
    if ps == [] then [] else PieceText(ps[0]) + Flatten(ps[1..])
  }

  /** The replacement `before\g<0>after` of each match. */
  function Render(ps: seq<Piece>, before: string, after: string): string {
    if ps == [] then []
    else
      (match ps[0]
       case Plain(c) => [c]
       case Hit(t) => before + t + after)
      + Render(ps[1..], before, after)
  }

  /** `pattern.sub(before + r"\g<0>" + after, s)`. */
  function Sub(s: string, p: TermPattern, before: string, after: string): string {
    Render(Segment(s, |p.word|, Matcher(p, s), 0), before, after)
  }

  lemma FlattenCons(x: Piece, ps: seq<Piece>)
    ensures Flatten([x] + ps) == PieceText(x) + Flatten(ps)
  {
    assert ([x] + ps)[0] == x && ([x] + ps)[1..] == ps;
  }

  lemma {:induction false} FlattenAppend(a: seq<Piece>, b: seq<Piece>)
    ensures Flatten(a + b) == Flatten(a) + Flatten(b)
  {
    if a != [] {
      assert (a + b)[0] == a[0];
      assert (a + b)[1..] == a[1..] + b;
      FlattenAppend(a[1..], b);
    } else {
      assert a + b == b;
    }
  }

  /** Taking the wrapping away gives the scanned text back. */
  lemma {:induction false} SegmentFlatten(s: string, n: nat, m: nat -> bool, i: nat)
    requires i <= |s|
    ensures Flatten(Segment(s, n, m, i)) == s[i..]
    decreases |s| - i
  {
    if i == |s| {
      FlattenEnd(s, n, m);
    } else {
      SegmentFlatten(s, n, m, Next(s, n, m, i));
      FlattenStep(s, n, m, i);
    }
  }

  /** Where the scan goes on after position `i`. */
  function Next(s: string, n: nat, m: nat -> bool, i: nat): (j: nat)
    requires i < |s|
    ensures i < j <= |s|
  {
    if n > 0 && i + n <= |s| && m(i) then i + n else i + 1
  }

  lemma FlattenStep(s: string, n: nat, m: nat -> bool, i: nat)
    requires i < |s| && Flatten(Segment(s, n, m, Next(s, n, m, i))) == s[Next(s, n, m, i)..]
    ensures Flatten(Segment(s, n, m, i)) == s[i..]
  {
    if n == 0 {
      FlattenEmptyStep(s, m, i);
    } else if i + n <= |s| && m(i) {
      FlattenHitStep(s, n, m, i);
    } else {
      FlattenPlainStep(s, n, m, i);
    }
  }

  lemma FlattenEnd(s: string, n: nat, m: nat -> bool)
    ensures Flatten(Segment(s, n, m, |s|)) == []
  {
    if n == 0 {
      FlattenCons(Hit([]), []);
    }
  }

  /** An empty pattern: an empty match, then the character copied. */
  lemma FlattenEmptyStep(s: string, m: nat -> bool, i: nat)
    requires i < |s| && Flatten(Segment(s, 0, m, i + 1)) == s[i + 1..]
    ensures Flatten(Segment(s, 0, m, i)) == s[i..]
  {
    var rest := Segment(s, 0, m, i + 1);
    assert Segment(s, 0, m, i) == [Hit([])] + ([Plain(s[i])] + rest);
    FlattenCons(Hit([]), [Plain(s[i])] + rest);
    FlattenCons(Plain(s[i]), rest);
    assert s[i..] == [s[i]] + s[i + 1..];
  }

  lemma FlattenHitStep(s: string, n: nat, m: nat -> bool, i: nat)
    requires n > 0 && i + n <= |s| && m(i) && Flatten(Segment(s, n, m, i + n)) == s[i + n..]
    ensures Flatten(Segment(s, n, m, i)) == s[i..]
  {
    FlattenCons(Hit(s[i..i + n]), Segment(s, n, m, i + n));
    assert s[i..] == s[i..i + n] + s[i + n..];
  }

  lemma FlattenPlainStep(s: string, n: nat, m: nat -> bool, i: nat)
    requires n > 0 && i < |s| && !(i + n <= |s| && m(i)) && Flatten(Segment(s, n, m, i + 1)) == s[i + 1..]
    ensures Flatten(Segment(s, n, m, i)) == s[i..]
  {
    FlattenCons(Plain(s[i]), Segment(s, n, m, i + 1));
    assert s[i..] == [s[i]] + s[i + 1..];
  }

  /**
   * Piece `k` of the scan from `i` starts at offset `i + |Flatten(seg[..k])|`
   * of the text; a pattern of length `n > 0` replaces it exactly when it
   * matches there, and otherwise the character there is copied.
   */
  predicate ScanStep(s: string, n: nat, m: nat -> bool, i: nat, seg: seq<Piece>, k: nat)
    requires k < |seg|
  {
    && Offset(i, seg, k) < |s|
    && (seg[k].Hit? <==> Offset(i, seg, k) + n <= |s| && m(Offset(i, seg, k)))
    && (seg[k].Hit? ==> seg[k].text == s[Offset(i, seg, k)..Offset(i, seg, k) + n])
    && (seg[k].Plain? ==> seg[k].c == s[Offset(i, seg, k)])
  }

  /** Where piece `k` of a scan from `i` starts in the text. */
  function Offset(i: nat, seg: seq<Piece>, k: nat): nat
    requires k <= |seg|
  {
    i + |Flatten(seg[..k])|
  }

  /** Piece `k` of the scan, by induction on `k`. */
  lemma {:induction false} SegmentScanAt(s: string, n: nat, m: nat -> bool, i: nat, k: nat)
    requires i <= |s| && n > 0 && k < |Segment(s, n, m, i)|
    ensures ScanStep(s, n, m, i, Segment(s, n, m, i), k)
    decreases k
  {
    SegmentFront(s, n, m, i);
    if k == 0 {
      ScanZero(s, n, m, i);
    } else {
      SegmentScanAt(s, n, m, Next(s, n, m, i), k - 1);
      ScanNext(s, n, m, i, k);
    }
  }

  /** Piece `k` from `i` is piece `k - 1` from where the first piece ends. */
  lemma ScanNext(s: string, n: nat, m: nat -> bool, i: nat, k: nat)
    requires n > 0 && i < |s| && 0 < k < |Segment(s, n, m, i)|
    requires Segment(s, n, m, i) == [Front(s, n, m, i)] + Segment(s, n, m, Next(s, n, m, i))
    requires |PieceText(Front(s, n, m, i))| == Next(s, n, m, i) - i
    requires ScanStep(s, n, m, Next(s, n, m, i), Segment(s, n, m, Next(s, n, m, i)), k - 1)
    ensures ScanStep(s, n, m, i, Segment(s, n, m, i), k)
  {
    ScanShift(s, n, m, i, Front(s, n, m, i), Segment(s, n, m, Next(s, n, m, i)), k);
  }

  /** The first piece of the scan from `i`. */
  function Front(s: string, n: nat, m: nat -> bool, i: nat): Piece
    requires i < |s|
  {
    if n > 0 && i + n <= |s| && m(i) then Hit(s[i..i + n]) else Plain(s[i])
  }

  lemma SegmentFront(s: string, n: nat, m: nat -> bool, i: nat)
    requires n > 0 && i <= |s| && Segment(s, n, m, i) != []
    ensures i < |s|
    ensures Segment(s, n, m, i) == [Front(s, n, m, i)] + Segment(s, n, m, Next(s, n, m, i))
    ensures |PieceText(Front(s, n, m, i))| == Next(s, n, m, i) - i
  {
  }

  lemma ScanZero(s: string, n: nat, m: nat -> bool, i: nat)
    requires n > 0 && i < |s|
    requires Segment(s, n, m, i) == [Front(s, n, m, i)] + Segment(s, n, m, Next(s, n, m, i))
    ensures ScanStep(s, n, m, i, Segment(s, n, m, i), 0)
  {
    assert Segment(s, n, m, i)[..0] == [];
  }

  /** The offsets after the first piece `x` move on by the length of its text. */
  lemma OffsetShift(i: nat, x: Piece, rest: seq<Piece>, k: nat)
    requires 0 < k <= |rest| + 1
    ensures Offset(i, [x] + rest, k) == Offset(i + |PieceText(x)|, rest, k - 1)
  {
    assert ([x] + rest)[..k] == [x] + rest[..k - 1];
    FlattenCons(x, rest[..k - 1]);
  }

  lemma ScanShift(s: string, n: nat, m: nat -> bool, i: nat, x: Piece, rest: seq<Piece>, k: nat)
    requires 0 < k <= |rest|
    requires ScanStep(s, n, m, i + |PieceText(x)|, rest, k - 1)
    ensures ScanStep(s, n, m, i, [x] + rest, k)
  {
    OffsetShift(i, x, rest, k);
    assert ([x] + rest)[k] == rest[k - 1];
  }

  /** For a non-empty term, `re.sub` replaces exactly the leftmost non-overlapping matches. */
  lemma SegmentScan(s: string, p: TermPattern)
    requires p.word != []
    ensures forall k :: 0 <= k < |Segment(s, |p.word|, Matcher(p, s), 0)| ==>
      ScanStep(s, |p.word|, Matcher(p, s), 0, Segment(s, |p.word|, Matcher(p, s), 0), k)
  {
    var seg := Segment(s, |p.word|, Matcher(p, s), 0);
    forall k | 0 <= k < |seg| ensures ScanStep(s, |p.word|, Matcher(p, s), 0, seg, k) {
      SegmentScanAt(s, |p.word|, Matcher(p, s), 0, k);
    }
  }

  /** Without a match the scan copies every character. */
  lemma {:induction false} RenderIdle(s: string, n: nat, m: nat -> bool, i: nat, before: string, after: string)
    requires i <= |s| && n > 0
    requires forall j :: i <= j < |s| ==> !m(j)
    ensures Render(Segment(s, n, m, i), before, after) == s[i..]
    decreases |s| - i
  {
    if i < |s| {
      RenderIdle(s, n, m, i + 1, before, after);
      assert s[i..] == [s[i]] + s[i + 1..];
    }
  }

  /** Every character of `t` copied. */
  function Plains(t: string): (ps: seq<Piece>)
    ensures |ps| == |t| && forall k :: 0 <= k < |t| ==> ps[k] == Plain(t[k])
  {
    if t == [] then [] else Plains(t[..|t| - 1]) + [Plain(t[|t| - 1])]
  }

  /** No match starts where the first letter of the term is missing. */
  lemma NoMatchWithoutFirst(p: TermPattern, s: string, i: nat, j: nat)
    requires p.word != []
    requires forall k :: i <= k < j && k < |s| ==> LowerChar(s[k]) != LowerChar(p.word[0])
    ensures forall k :: i <= k < j ==> !MatchAt(p, s, k)
  {
    forall k | i <= k < j ensures !MatchAt(p, s, k) {
      if k < |s| {
        assert LowerChar(s[k]) != LowerChar(p.word[0]);
      }
    }
  }

  /** Taking the first character off the front. */
  lemma PlainsCons(t: string)
    requires t != []
    ensures Plains(t) == [Plain(t[0])] + Plains(t[1..])
  {
    var a := Plains(t);
    var b := [Plain(t[0])] + Plains(t[1..]);
    assert |a| == |b|;
    forall k | 0 <= k < |a| ensures a[k] == b[k] {
      if k > 0 {
        assert b[k] == Plains(t[1..])[k - 1] == Plain(t[1..][k - 1]);
      }
    }
  }

  /** The scan copies a stretch in which no match starts. */
  lemma {:induction false} SegmentSkip(s: string, n: nat, m: nat -> bool, i: nat, j: nat)
    requires n > 0 && i <= j <= |s|
    requires forall k :: i <= k < j ==> !(k + n <= |s| && m(k))
    ensures Segment(s, n, m, i) == Plains(s[i..j]) + Segment(s, n, m, j)
    decreases j - i
  {
    if i < j {
      SegmentSkip(s, n, m, i + 1, j);
      SkipStep(s, n, m, i, j);
    } else {
      assert Plains(s[i..j]) == [];
    }
  }

  lemma SkipStep(s: string, n: nat, m: nat -> bool, i: nat, j: nat)
    requires n > 0 && i < j <= |s| && !(i + n <= |s| && m(i))
    requires Segment(s, n, m, i + 1) == Plains(s[i + 1..j]) + Segment(s, n, m, j)
    ensures Segment(s, n, m, i) == Plains(s[i..j]) + Segment(s, n, m, j)
  {
    PlainsCons(s[i..j]);
    assert s[i..j][0] == s[i] && s[i..j][1..] == s[i + 1..j];
    assert Segment(s, n, m, i) == [Plain(s[i])] + Segment(s, n, m, i + 1);
    ConsAssoc(Plain(s[i]), Plains(s[i + 1..j]), Segment(s, n, m, j));
  }

  lemma ConsAssoc<T>(x: T, p: seq<T>, q: seq<T>)
    ensures [x] + (p + q) == ([x] + p) + q
  {
  }

  /** The scan replaces a match where it stands. */
  lemma SegmentHit(s: string, n: nat, m: nat -> bool, i: nat)
    requires n > 0 && i + n <= |s| && m(i)
    ensures Segment(s, n, m, i) == [Hit(s[i..i + n])] + Segment(s, n, m, i + n)
  {
  }

  /** The scan copies a character where no match starts. */
  lemma SegmentPlain(s: string, n: nat, m: nat -> bool, i: nat)
    requires n > 0 && i < |s| && !(i + n <= |s| && m(i))
    ensures Segment(s, n, m, i) == [Plain(s[i])] + Segment(s, n, m, i + 1)
  {
  }

  lemma {:induction false} RenderAppend(a: seq<Piece>, b: seq<Piece>, before: string, after: string)
    ensures Render(a + b, before, after) == Render(a, before, after) + Render(b, before, after)
  {
    if a != [] {
      assert (a + b)[0] == a[0];
      assert (a + b)[1..] == a[1..] + b;
      RenderAppend(a[1..], b, before, after);
    } else {
      assert a + b == b;
    }
  }

  lemma {:induction false} RenderPlains(t: string, before: string, after: string)
    ensures Render(Plains(t), before, after) == t
  {
    if t != [] {
      var n := |t|;
      RenderPlains(t[..n - 1], before, after);
      RenderAppend(Plains(t[..n - 1]), [Plain(t[n - 1])], before, after);
      assert t == t[..n - 1] + [t[n - 1]];
    }
  }

  /** Plain text followed by one match. */
  lemma RenderPlainsHit(t: string, u: string, before: string, after: string)
    ensures Render(Plains(t) + [Hit(u)], before, after) == t + before + u + after
  {
    RenderAppend(Plains(t), [Hit(u)], before, after);
    RenderPlains(t, before, after);
    assert Render([Hit(u)], before, after) == before + u + after + Render([], before, after);
  }

  /** One match followed by plain text. */
  lemma RenderHitPlains(u: string, t: string, before: string, after: string)
    ensures Render([Hit(u)] + Plains(t), before, after) == before + u + after + t
  {
    RenderAppend([Hit(u)], Plains(t), before, after);
    RenderPlains(t, before, after);
    assert Render([Hit(u)], before, after) == before + u + after + Render([], before, after);
  }

  /** A term that matches nowhere leaves the text as it is. */
  lemma SubIdle(s: string, p: TermPattern, before: string, after: string)
    requires p.word != []
    requires forall j :: 0 <= j < |s| ==> !MatchAt(p, s, j)
    ensures Sub(s, p, before, after) == s
  {
    RenderIdle(s, |p.word|, Matcher(p, s), 0, before, after);
  }

  // ----- the highlight loop -----

  /** The CSS class of a term in the HTML report. */
  function CssClass(word: string): (c: string)
    ensures c == "match" <==> Lower(word) == "match"
    ensures c == "mismatch" <==> Lower(word) == "mismatch"
    ensures c == "configuration" <==> Lower(word) != "match" && Lower(word) != "mismatch" && Contains(Lower(word), "configuration")
    ensures c == "highlight" <==> Lower(word) != "match" && Lower(word) != "mismatch" && !Contains(Lower(word), "configuration")
  {
    BoundedTerms(word);
    if Lower(word) == "match" && !Contains(word, " ") then "match"
    else if Lower(word) == "mismatch" then "mismatch"
    else if Contains(Lower(word), "configuration") then "configuration"
    else "highlight"
  }

  /** What goes before and after each match of a term: a `<span>` with its class, or its ANSI colour and `Colors.RESET`. */
  function Wrapping(word: string, colour: string, html: bool): (w: (string, string))
    ensures html ==> w == ("<span class=\"" + CssClass(word) + "\">", "</span>")
    ensures !html ==> w == (colour, Reset)
  {
    if html then ("<span class=\"" + CssClass(word) + "\">", "</span>") else (colour, Reset)
  }

  /** One pass of the loop: every match of the term wrapped. */
  function ApplyTerm(s: string, item: Term, html: bool): string {
    Sub(s, Compile(item.0), Wrapping(item.0, item.1, html).0, Wrapping(item.0, item.1, html).1)
  }

  /** The passes for `items`, in order. */
  function ApplyTerms(s: string, items: Highlights, html: bool): string {
    if items == [] then s
    else ApplyTerm(ApplyTerms(s, items[..|items| - 1], html), items[|items| - 1], html)
  }

  /** The sort key `len(term)`, descending. */
  function ByLength(a: Term, b: Term): bool {
    |a.0| >= |b.0|
  }

  /** The terms of length `n`. */
  function LengthIs(n: nat): Term -> bool {
    (t: Term) => |t.0| == n
  }

  /** `sorted(highlight_words.items(), key=len, reverse=True)`. */
  function LongestFirst(words: Highlights): Highlights {
    Sort(words, ByLength)
  }

  /** The terms are applied longest first; terms of equal length keep their order in the map. */
  lemma LongestFirstOrder(words: Highlights)
    ensures forall i, j :: 0 <= i < j < |LongestFirst(words)| ==> |LongestFirst(words)[i].0| >= |LongestFirst(words)[j].0|
    ensures multiset(LongestFirst(words)) == multiset(words)
    ensures forall n: nat :: Filter(LongestFirst(words), LengthIs(n)) == Filter(words, LengthIs(n))
  {
    assert TotalPreorder(ByLength);
    SortSorted(words, ByLength);
    SortPermutes(words, ByLength);
    forall n: nat ensures Filter(LongestFirst(words), LengthIs(n)) == Filter(words, LengthIs(n)) {
      SortStable(words, ByLength, LengthIs(n));
    }
  }

  /** `highlight_text(text, highlight_words, html_mode)`; None is the missing map. */
  function HighlightSpec(text: string, words: Option<Highlights>, html: bool): string {
    if words.None? || words.value == [] then text
    else ApplyTerms(if html then EscapeOnce(EscapeOnce(text)) else text, LongestFirst(words.value), html)
  }

  /** A non-empty map: the passes over the prepared text, longest term first. */
  lemma HighlightPasses(text: string, words: Highlights, html: bool)
    requires words != []
    ensures HighlightSpec(text, Some(words), html)
         == ApplyTerms(if html then EscapeOnce(EscapeOnce(text)) else text, LongestFirst(words), html)
  {
  }

  /** Two terms: the first pass, then the second on its result. */
  lemma ApplyTwo(s: string, a: Term, b: Term, html: bool)
    ensures ApplyTerms(s, [a, b], html) == ApplyTerm(ApplyTerm(s, a, html), b, html)
  {
    assert [a, b][..1] == [a] && [a][..0] == [];
    assert ApplyTerms(s, [a], html) == ApplyTerm(s, a, html);
  }

  /** `highlight_text`: the preparation, then one `re.sub` per term, longest first. */
  method HighlightText(text: string, words: Option<Highlights>, html: bool) returns (result: string)
    ensures result == HighlightSpec(text, words, html)
  {
    result := text;
    if words.None? || words.value == [] {
      return;
    }
    if html {
      result := EscapeOnce(result);
    }
    if html {
      result := EscapeOnce(result);
    }
    var sorted := LongestFirst(words.value);
    var prepared := result;
    for k := 0 to |sorted|
      invariant result == ApplyTerms(prepared, sorted[..k], html)
    {
      assert sorted[..k + 1][..k] == sorted[..k];
      var (word, colour) := sorted[k];
      var (before, after) := Wrapping(word, colour, html);
      result := Sub(result, Compile(word), before, after);
    }
    assert sorted[..|sorted|] == sorted;
  }

  /** Without a map, or with an empty one, the text comes back unchanged, not even escaped. */
  lemma NoHighlights(text: string, html: bool)
    ensures HighlightSpec(text, None, html) == text
    ensures HighlightSpec(text, Some([]), html) == text
  {
  }
}

/** `save_results_as_text` and `save_results_as_html` as the text they write. */
module Reports {
  import opened Wrappers
  import opened Text
  import opened Keywords
  import opened Report

  /** `"=" * n`. */
  function Repeat(c: char, n: nat): (r: string)
    ensures |r| == n && forall i :: 0 <= i < n ==> r[i] == c
  {
    if n == 0 then [] else Repeat(c, n - 1) + [c]
  }

  const CountLabel: string := "Total matches found: "

  /** The two header lines and the blank line of the text report. */
  function TextHeader(n: nat): string {
    CountLabel + NatToString(n) + "\n" + Repeat('=', 50) + "\n\n"
  }

  /** `f"{filename} - Line {line_number}: {content}\n"`. */
  function TextLine(m: MatchedLine): string {
    m.file + " - Line " + NatToString(m.lineNo) + ": " + m.content + "\n"
  }

  function TextLines(ms: seq<MatchedLine>): string {
    if ms == [] then [] else TextLines(ms[..|ms| - 1]) + TextLine(ms[|ms| - 1])
  }

  /** What `save_results_as_text(filtered_lines, output_file)` writes. */
  function TextReport(ms: seq<MatchedLine>): string {
    TextHeader(|ms|) + TextLines(ms)
  }

  /** `save_results_as_text`: the header, then one line per record. */
  method SaveResultsAsText(ms: seq<MatchedLine>) returns (out: string)
    ensures out == TextReport(ms)
  {
    out := TextHeader(|ms|);
    var body := "";
    for k := 0 to |ms|
      invariant body == TextLines(ms[..k])
    {
      assert ms[..k + 1][..k] == ms[..k];
      var m := ms[k];
      body := body + m.file + " - Line " + NatToString(m.lineNo) + ": " + m.content + "\n";
    }
    assert ms[..|ms|] == ms;
    out := out + body;
  }

  /** The value of the digits at the front of `s`. */
  function LeadingNumber(s: string): nat {
    var e := RunEnd(s, 0, IsDigit);
    DigitsValue(s[..e])
  }

  /** The count a report states after `CountLabel`, if it starts with it. */
  function ReadCount(report: string): Option<nat> {
    if StartsWith(report, CountLabel) then Some(LeadingNumber(report[|CountLabel|..])) else None
  }

  /** A run of digits ends where the first non-digit is. */
  lemma {:induction false} RunEndDigits(d: string, t: string, i: nat)
    requires AllDigits(d) && i <= |d| && t != [] && !IsDigit(t[0])
    ensures RunEnd(d + t, i, IsDigit) == |d|
    decreases |d| - i
  {
    if i < |d| {
      assert (d + t)[i] == d[i];
      RunEndDigits(d, t, i + 1);
    } else {
      assert (d + t)[i] == t[0];
    }
  }

  /** The number written by `str(n)` reads back as `n` when a non-digit follows it. */
  lemma NumberReadsBack(n: nat, t: string)
    requires t != [] && !IsDigit(t[0])
    ensures LeadingNumber(NatToString(n) + t) == n
  {
    var d := NatToString(n);
    RunEndDigits(d, t, 0);
    assert (d + t)[..|d|] == d;
    NatToStringRoundTrip(n);
  }

  /** The text report states how many records follow. */
  lemma TextReportCount(ms: seq<MatchedLine>)
    ensures ReadCount(TextReport(ms)) == Some(|ms|)
  {
    var tail := "\n" + Repeat('=', 50) + "\n\n" + TextLines(ms);
    assert TextReport(ms) == CountLabel + (NatToString(|ms|) + tail);
    assert TextReport(ms)[|CountLabel|..] == NatToString(|ms|) + tail;
    NumberReadsBack(|ms|, tail);
  }

  /** The number of times `c` occurs in `s`. */
  function Count(s: string, c: char): nat {
    if s == [] then 0 else Count(s[..|s| - 1], c) + (if s[|s| - 1] == c then 1 else 0)
  }

  lemma {:induction false} CountAppend(a: string, b: string, c: char)
    ensures Count(a + b, c) == Count(a, c) + Count(b, c)
    decreases |b|
  {
    if b != [] {
      assert (a + b)[..|a + b| - 1] == a + b[..|b| - 1];
      CountAppend(a, b[..|b| - 1], c);
    } else {
      assert a + b == a;
    }
  }

  lemma {:induction false} CountAbsent(s: string, c: char)
    requires forall i :: 0 <= i < |s| ==> s[i] != c
    ensures Count(s, c) == 0
  {
    if s != [] {
      CountAbsent(s[..|s| - 1], c);
    }
  }

  /** Neither the file name nor the text of a record holds a line break. */
  predicate OneLine(m: MatchedLine) {
    (forall i :: 0 <= i < |m.file| ==> m.file[i] != '\n')
    && (forall i :: 0 <= i < |m.content| ==> m.content[i] != '\n')
  }

  lemma TextLineBreaks(m: MatchedLine)
    requires OneLine(m)
    ensures Count(TextLine(m), '\n') == 1
  {
    var num := NatToString(m.lineNo);
    CountAbsent(m.file, '\n');
    CountAbsent(m.content, '\n');
    CountAbsent(num, '\n');
    CountAbsent(" - Line ", '\n');
    CountAbsent(": ", '\n');
    CountAppend(m.file, " - Line ", '\n');
    CountAppend(m.file + " - Line ", num, '\n');
    CountAppend(m.file + " - Line " + num, ": ", '\n');
    CountAppend(m.file + " - Line " + num + ": ", m.content, '\n');
    CountAppend(m.file + " - Line " + num + ": " + m.content, "\n", '\n');
  }

  lemma {:induction false} TextLinesBreaks(ms: seq<MatchedLine>)
    requires forall k :: 0 <= k < |ms| ==> OneLine(ms[k])
    ensures Count(TextLines(ms), '\n') == |ms|
  {
    if ms != [] {
      TextLinesBreaks(ms[..|ms| - 1]);
      TextLineBreaks(ms[|ms| - 1]);
      CountAppend(TextLines(ms[..|ms| - 1]), TextLine(ms[|ms| - 1]), '\n');
    }
  }

  lemma HeaderBreaks(n: nat)
    ensures Count(TextHeader(n), '\n') == 3
  {
    var num := NatToString(n);
    var rule := Repeat('=', 50);
    CountAbsent(CountLabel, '\n');
    CountAbsent(num, '\n');
    CountAbsent(rule, '\n');
    CountAppend(CountLabel, num, '\n');
    CountAppend(CountLabel + num, "\n", '\n');
    CountAppend(CountLabel + num + "\n", rule, '\n');
    CountAppend(CountLabel + num + "\n" + rule, "\n\n", '\n');
  }

  /** Three header lines, then exactly one line per record. */
  lemma TextReportLines(ms: seq<MatchedLine>)
    requires forall k :: 0 <= k < |ms| ==> OneLine(ms[k])
    ensures Count(TextReport(ms), '\n') == 3 + |ms|
  {
    HeaderBreaks(|ms|);
    TextLinesBreaks(ms);
    CountAppend(TextHeader(|ms|), TextLines(ms), '\n');
  }

  /** The head of the HTML page up to the opening of the summary box; its CSS is not modelled. */
  const PageHead: string := "<!DOCTYPE html>\n<html>\n<head>\n    <title>LOG File Filtering Results</title>\n</head>\n<body>\n    <h1>LOG File Filtering Results</h1>\n    <div class=\"summary\">\n        <p>"

  function HtmlHeader(n: nat): string {
    PageHead + CountLabel + NatToString(n) + "</p>\n    </div>\n"
  }

  /** One result line: the file and line number as they are, the text highlighted in HTML mode. */
  function HtmlRow(m: MatchedLine, words: Option<Highlights>): string {
    RowBlock(m, HighlightSpec(m.content, words, true))
  }

  /** The block of one result line around its highlighted text `html`. */
  function RowBlock(m: MatchedLine, html: string): string {
    "    <div class=\"result-line\">\n"
    + "        <span class=\"file-info\">" + m.file + " - Line " + NatToString(m.lineNo) + ":</span> "
    + html + "\n"
    + "    </div>\n"
  }

  function HtmlRows(ms: seq<MatchedLine>, words: Option<Highlights>): string {
    if ms == [] then [] else HtmlRows(ms[..|ms| - 1], words) + HtmlRow(ms[|ms| - 1], words)
  }

  const PageFoot: string := "</body>\n</html>"

  /** What `save_results_as_html(filtered_lines, output_file, highlight_words)` writes. */
  function HtmlReport(ms: seq<MatchedLine>, words: Option<Highlights>): string {
    HtmlHeader(|ms|) + HtmlRows(ms, words) + PageFoot
  }

  /** `save_results_as_html`: the header, one highlighted block per record, the closing tags. */
  method SaveResultsAsHtml(ms: seq<MatchedLine>, words: Option<Highlights>) returns (out: string)
    ensures out == HtmlReport(ms, words)
  {
    out := HtmlHeader(|ms|);
    var rows := "";
    for k := 0 to |ms|
      invariant rows == HtmlRows(ms[..k], words)
    {
      assert ms[..k + 1][..k] == ms[..k];
      var m := ms[k];
      var content := HighlightText(m.content, words, true);
      rows := rows + RowBlock(m, content);
    }
    assert ms[..|ms|] == ms;
    out := out + rows + PageFoot;
  }

  /** A count written after a head `h` reads back after it. */
  lemma CountAfter(h: string, n: nat, tail: string)
    requires tail != [] && !IsDigit(tail[0])
    ensures ReadCount((h + CountLabel + NatToString(n) + tail)[|h|..]) == Some(n)
  {
    var r := h + CountLabel + NatToString(n) + tail;
    assert r == h + (CountLabel + (NatToString(n) + tail));
    assert r[|h|..] == CountLabel + (NatToString(n) + tail);
    assert r[|h|..][|CountLabel|..] == NatToString(n) + tail;
    NumberReadsBack(n, tail);
  }

  /** The HTML page states the same count as the text report, after its head. */
  lemma HtmlReportCount(ms: seq<MatchedLine>, words: Option<Highlights>)
    ensures ReadCount(HtmlReport(ms, words)[|PageHead|..]) == Some(|ms|)
  {
    var mid, rows := "</p>\n    </div>\n", HtmlRows(ms, words);
    var lead := PageHead + CountLabel + NatToString(|ms|);
    RegroupTail(lead, mid, rows, PageFoot);
    var tail := mid + rows + PageFoot;
    assert tail[0] == mid[0];
    CountAfter(PageHead, |ms|, tail);
  }

  lemma RegroupTail(a: string, b: string, c: string, d: string)
    ensures (a + b) + c + d == a + (b + c + d)
  {
  }
}
