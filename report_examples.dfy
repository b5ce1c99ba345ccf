/** `highlight_text` on concrete lines. */
module ReportExamples {
  import opened Wrappers
  import opened Text
  import opened Sorting
  import opened Keywords
  import opened Report

  const Red: string := "\U{1B}[91m"
  const Green: string := "\U{1B}[92m"

  /** The two word-bounded terms of the default map, in its order. */
  const Words: Highlights := [("mismatch", Red), ("match", Green)]

  const Line: string := "match and mismatch"
  const Close: string := "</span>"
  const MismatchOpen: string := "<span class=\"mismatch\">"
  const MatchOpen: string := "<span class=\"match\">"

  /** After the "mismatch" pass. */
  const Once: string := "match and " + MismatchOpen + "mismatch" + Close

  lemma WordsOrder()
    ensures LongestFirst(Words) == Words
  {
    assert Words[1..] == [("match", Green)];
    assert Sort([("match", Green)], ByLength) == [("match", Green)];
  }

  lemma MismatchPattern()
    ensures Compile("mismatch") == TermPattern("mismatch", true)
    ensures Wrapping("mismatch", Red, true) == (MismatchOpen, Close)
  {
    assert Lower("mismatch") == "mismatch";
    BoundedTerms("mismatch");
    assert CssClass("mismatch") == "mismatch";
    assert "<span class=\"" + "mismatch" + "\">" == MismatchOpen;
  }

  lemma MatchPattern()
    ensures Compile("match") == TermPattern("match", true)
    ensures Wrapping("match", Green, true) == (MatchOpen, Close)
  {
    assert Lower("match") == "match";
    BoundedTerms("match");
    assert CssClass("match") == "match";
    assert "<span class=\"" + "match" + "\">" == MatchOpen;
  }

  lemma LinePrepared()
    ensures EscapeOnce(EscapeOnce(Line)) == Line
  {
    EscapeOnceIdle(Line);
  }

  /** "mismatch" does not start in "match and ". */
  lemma MismatchNotEarly()
    ensures forall k :: 0 <= k < 10 ==> !MatchAt(TermPattern("mismatch", true), Line, k)
  {
    var p := TermPattern("mismatch", true);
    NoMatchWithoutFirst(p, Line, 1, 10);
    assert LowerChar(Line[1]) != LowerChar(p.word[1]);
  }

  lemma MismatchAtTen()
    ensures MatchAt(TermPattern("mismatch", true), Line, 10)
  {
    assert Line[10..] == "mismatch";
    assert Boundary(Line, 10) && Boundary(Line, 18);
  }

  lemma FirstSegment()
    ensures Segment(Line, 8, Matcher(TermPattern("mismatch", true), Line), 0) == Plains(Line[0..10]) + [Hit(Line[10..18])]
  {
    var m := Matcher(TermPattern("mismatch", true), Line);
    MismatchNotEarly();
    MismatchAtTen();
    assert m(10);
    assert forall k :: 0 <= k < 10 ==> !(k + 8 <= |Line| && m(k));
    SegmentSkip(Line, 8, m, 0, 10);
    SegmentHit(Line, 8, m, 10);
    var tail := Segment(Line, 8, m, 18);
    assert tail == [];
    assert Segment(Line, 8, m, 0) == Plains(Line[0..10]) + ([Hit(Line[10..18])] + tail);
  }

  lemma LineParts()
    ensures Line[0..10] == "match and " && Line[10..18] == "mismatch"
  {
  }

  lemma FirstSub()
    ensures Sub(Line, TermPattern("mismatch", true), MismatchOpen, Close) == Once
  {
    FirstSegment();
    RenderPlainsHit(Line[0..10], Line[10..18], MismatchOpen, Close);
    LineParts();
  }

  /** The first pass wraps the one "mismatch". */
  lemma FirstPass()
    ensures ApplyTerm(Line, ("mismatch", Red), true) == Once
  {
    MismatchPattern();
    FirstSub();
  }

  lemma MatchAtStart()
    ensures MatchAt(TermPattern("match", true), Once, 0)
  {
    assert Once[..5] == "match";
    assert Boundary(Once, 0) && Boundary(Once, 5);
  }

  lemma NoMatchBeforeSpanWord()
    ensures forall k :: 5 <= k < 23 ==> !MatchAt(TermPattern("match", true), Once, k)
  {
    NoMatchWithoutFirst(TermPattern("match", true), Once, 5, 23);
  }

  /** At 23 and 33 an 'm' is followed by 'i', not 'a'. */
  lemma NoMatchAtMi(k: nat)
    requires k == 23 || k == 33
    ensures !MatchAt(TermPattern("match", true), Once, k)
  {
    assert LowerChar(Once[k + 1]) != LowerChar("match"[1]);
  }

  /** At 26 and 36 "match" follows an 's', so no word boundary opens it. */
  lemma NoMatchAfterS(k: nat)
    requires k == 26 || k == 36
    ensures !MatchAt(TermPattern("match", true), Once, k)
  {
    assert IsWordChar(Once[k - 1]) && IsWordChar(Once[k]);
    assert !Boundary(Once, k);
  }

  lemma NoMatchElsewhere()
    ensures forall k :: 24 <= k < 26 || 27 <= k < 33 || 34 <= k < 36 || 37 <= k < 48 ==>
      !MatchAt(TermPattern("match", true), Once, k)
  {
    var p := TermPattern("match", true);
    NoMatchWithoutFirst(p, Once, 24, 26);
    NoMatchWithoutFirst(p, Once, 27, 33);
    NoMatchWithoutFirst(p, Once, 34, 36);
    NoMatchWithoutFirst(p, Once, 37, 48);
  }

  /** Neither "match" inside the wrapped "mismatch" is a word of its own. */
  lemma MatchNotLater()
    ensures forall k :: 5 <= k < |Once| ==> !MatchAt(TermPattern("match", true), Once, k)
  {
    assert |Once| == 48;
    NoMatchBeforeSpanWord();
    NoMatchElsewhere();
    forall k | 5 <= k < 48 ensures !MatchAt(TermPattern("match", true), Once, k) {
      if k == 23 || k == 33 {
        NoMatchAtMi(k);
      } else if k == 26 || k == 36 {
        NoMatchAfterS(k);
      }
    }
  }

  lemma HitThenPlains(s: string, n: nat, m: nat -> bool)
    requires 0 < n <= |s| && m(0)
    requires forall k :: n <= k < |s| ==> !(k + n <= |s| && m(k))
    ensures Segment(s, n, m, 0) == [Hit(s[0..n])] + Plains(s[n..|s|])
  {
    SegmentHit(s, n, m, 0);
    SegmentSkip(s, n, m, n, |s|);
    var end := Segment(s, n, m, |s|);
    assert end == [];
    assert Plains(s[n..|s|]) + end == Plains(s[n..|s|]);
  }

  lemma SecondSegment()
    ensures Segment(Once, 5, Matcher(TermPattern("match", true), Once), 0) == [Hit("match")] + Plains(Once[5..])
  {
    var m := Matcher(TermPattern("match", true), Once);
    MatchAtStart();
    MatchNotLater();
    assert m(0);
    HitThenPlains(Once, 5, m);
    assert Once[0..5] == "match" && Once[5..|Once|] == Once[5..];
  }

  lemma SecondSub()
    ensures Sub(Once, TermPattern("match", true), MatchOpen, Close) == MatchOpen + "match" + Close + Once[5..]
  {
    SecondSegment();
    RenderHitPlains("match", Once[5..], MatchOpen, Close);
  }

  /** The second pass wraps only the leading "match". */
  lemma SecondPass()
    ensures ApplyTerm(Once, ("match", Green), true) == MatchOpen + "match" + Close + Once[5..]
  {
    MatchPattern();
    SecondSub();
  }

  /**
   * In "match and mismatch" the longer "mismatch" is wrapped first, with class
   * `mismatch`; the "match" inside it is then not a word of its own and stays
   * as it is, while the leading "match" gets class `match`.
   */
  lemma MatchAndMismatch()
    ensures HighlightSpec(Line, Some(Words), true)
         == MatchOpen + "match" + Close + " and " + MismatchOpen + "mismatch" + Close
  {
    LinePasses();
    PassesInOrder();
    SecondPass();
    OnceTail();
  }

  lemma Regroup(a: string, b: string, c: string, d: string, e: string)
    ensures a + b + c + d + e == a + (b + c + d + e)
  {
  }

  lemma DropFront(a: string, b: string)
    ensures (a + b)[|a|..] == b
  {
  }

  lemma OnceTail()
    ensures MatchOpen + "match" + Close + Once[5..]
         == MatchOpen + "match" + Close + " and " + MismatchOpen + "mismatch" + Close
  {
    var rest := " and " + MismatchOpen + "mismatch" + Close;
    assert "match and " == "match" + " and ";
    Regroup("match", " and ", MismatchOpen, "mismatch", Close);
    DropFront("match", rest);
    Regroup(MatchOpen + "match" + Close, " and ", MismatchOpen, "mismatch", Close);
  }

  lemma LinePasses()
    ensures HighlightSpec(Line, Some(Words), true) == ApplyTerms(Line, Words, true)
  {
    HighlightPasses(Line, Words, true);
    LinePrepared();
    WordsOrder();
  }

  lemma PassesInOrder()
    ensures ApplyTerms(Line, Words, true) == ApplyTerm(Once, ("match", Green), true)
  {
    ApplyTwo(Line, ("mismatch", Red), ("match", Green), true);
    FirstPass();
  }

  /** "x" occurs nowhere in the escaped text. */
  lemma NoX()
    ensures Sub("&amp;amp;", Compile("x"), "<span class=\"highlight\">", Close) == "&amp;amp;"
  {
    var p := Compile("x");
    assert p.word == "x";
    NoMatchWithoutFirst(p, "&amp;amp;", 0, 9);
    SubIdle("&amp;amp;", p, "<span class=\"highlight\">", Close);
  }

  lemma XWrapping()
    ensures Wrapping("x", Green, true) == ("<span class=\"highlight\">", Close)
  {
    assert Lower("x") == "x";
    assert !Contains("x", "configuration");
    assert CssClass("x") == "highlight";
    assert "<span class=\"" + "highlight" + "\">" == "<span class=\"highlight\">";
  }

  /** With a term that does not occur, an '&' of the line still comes out escaped twice. */
  lemma AmpersandExample()
    ensures HighlightSpec("&", Some([("x", Green)]), true) == "&amp;amp;"
  {
    AmpersandPasses();
    XWrapping();
    NoX();
  }

  lemma AmpersandPasses()
    ensures HighlightSpec("&", Some([("x", Green)]), true) == ApplyTerm("&amp;amp;", ("x", Green), true)
  {
    AmpersandPrepared();
    XOrder();
    OneTerm("&amp;amp;", ("x", Green), true);
  }

  lemma AmpersandPrepared()
    ensures HighlightSpec("&", Some([("x", Green)]), true) == ApplyTerms("&amp;amp;", LongestFirst([("x", Green)]), true)
  {
    HighlightPasses("&", [("x", Green)], true);
    DoubleEscapeAmp();
  }

  lemma XOrder()
    ensures LongestFirst([("x", Green)]) == [("x", Green)]
  {
    var t := ("x", Green);
    assert [t][1..] == [];
    assert Sort([t][1..], ByLength) == [];
    assert Insert(t, [], ByLength) == [t];
  }

  lemma OneTerm(s: string, a: Term, html: bool)
    ensures ApplyTerms(s, [a], html) == ApplyTerm(s, a, html)
  {
    assert [a][..0] == [];
  }
}
