/**
 * The keyword filter (`compile_keyword_patterns`, `filter_log_file`): every
 * line of a log file that contains one of the keywords, ignoring case, as a
 * (file name, line number, stripped line) record.
 */
module Keywords {
  import opened Wrappers
  import opened Text

  /** `re.compile(re.escape(k), re.IGNORECASE)`: a literal text matched without regard to case. */
  datatype KeywordPattern = Literal(text: string)

  /** The pattern matches at index `i`: each character agrees with the line's up to ASCII case. */
  predicate MatchesAt(p: KeywordPattern, line: string, i: nat) {
    i + |p.text| <= |line| && forall j :: 0 <= j < |p.text| ==> LowerChar(line[i + j]) == LowerChar(p.text[j])
  }

  /** `p.search(line)` found a match. */
  predicate Search(p: KeywordPattern, line: string) {
    exists i :: 0 <= i <= |line| && MatchesAt(p, line, i)
  }

  /** `any(p.search(line) for p in keyword_patterns)`. */
  predicate AnySearch(ps: seq<KeywordPattern>, line: string) {
    exists k :: 0 <= k < |ps| && Search(ps[k], line)
  }

  /** `compile_keyword_patterns`: one escaped, case-insensitive pattern per keyword, in order. */
  function CompileKeywordPatterns(keywords: seq<string>): (ps: seq<KeywordPattern>)
    ensures |ps| == |keywords|
    ensures forall k :: 0 <= k < |ps| ==> ps[k].text == keywords[k]
  {
    seq(|keywords|, k requires 0 <= k < |keywords| => Literal(keywords[k]))
  }

  /** The keyword agrees with the line at `i` up to case exactly when the lower-cased texts agree there. */
  lemma MatchesAtLower(k: string, line: string, i: nat)
    requires i + |k| <= |line|
    ensures MatchesAt(Literal(k), line, i) <==> OccursAt(Lower(line), Lower(k), i)
  {
    var a, b := Lower(line)[i..i + |k|], Lower(k);
    assert forall j :: 0 <= j < |k| ==> a[j] == LowerChar(line[i + j]) && b[j] == LowerChar(k[j]);
    if MatchesAt(Literal(k), line, i) {
      assert a == b;
    }
    if OccursAt(Lower(line), Lower(k), i) {
      forall j | 0 <= j < |k| ensures LowerChar(line[i + j]) == LowerChar(k[j]) {
        assert a[j] == b[j];
      }
    }
  }

  /** A compiled keyword matches a line exactly when the lower-cased keyword occurs in the lower-cased line. */
  lemma SearchIsLowerContains(k: string, line: string)
    ensures Search(Literal(k), line) <==> Contains(Lower(line), Lower(k))
  {
    if Search(Literal(k), line) {
      var i :| 0 <= i <= |line| && MatchesAt(Literal(k), line, i);
      MatchesAtLower(k, line, i);
    }
    if Contains(Lower(line), Lower(k)) {
      var i :| 0 <= i <= |Lower(line)| - |Lower(k)| && OccursAt(Lower(line), Lower(k), i);
      MatchesAtLower(k, line, i);
    }
  }

  /** One result of `filter_log_file`: `(basename, line_no, line.strip())`. */
  datatype MatchedLine = MatchedLine(file: string, lineNo: nat, content: string)

  /** The records for the lines `lines`, which start at line `1`, that some pattern matches. */
  function MatchingLines(name: string, ps: seq<KeywordPattern>, lines: seq<string>): seq<MatchedLine>
  {
    if lines == [] then []
    else
      var n := |lines|;
      MatchingLines(name, ps, lines[..n - 1])
      + if AnySearch(ps, lines[n - 1]) then [MatchedLine(name, n, Strip(lines[n - 1]))] else []
  }

  /**
   * What `filter_log_file(path, patterns)` returns, where `content` is the
   * file's lines as read (None when the file does not exist).
   */
  function FilterSpec(path: string, ps: seq<KeywordPattern>, content: Option<seq<string>>): seq<MatchedLine>
  {
    match content
    case None => []
    case Some(lines) => MatchingLines(Basename(path), ps, lines)
  }

  /** `filter_log_file`: the loop over the numbered lines of the file. */
  method FilterLogFile(path: string, ps: seq<KeywordPattern>, content: Option<seq<string>>)
    returns (result: seq<MatchedLine>)
    ensures result == FilterSpec(path, ps, content)
  {
    result := [];
    if content.None? {
      return;
    }
    var lines := content.value;
    var name := Basename(path);
    for lineNo := 1 to |lines| + 1
      invariant result == MatchingLines(name, ps, lines[..lineNo - 1])
    {
      assert lines[..lineNo][..lineNo - 1] == lines[..lineNo - 1];
      var line := lines[lineNo - 1];
      if exists k :: 0 <= k < |ps| && Search(ps[k], line) {
        result := result + [MatchedLine(name, lineNo, Strip(line))];
      }
    }
    assert lines[..|lines|] == lines;
  }

  /** A record is in the result exactly when its line matches, with its 1-based number and stripped text. */
  lemma {:induction false} MatchingLinesMembers(name: string, ps: seq<KeywordPattern>, lines: seq<string>, m: MatchedLine)
    ensures m in MatchingLines(name, ps, lines)
        <==> 1 <= m.lineNo <= |lines| && AnySearch(ps, lines[m.lineNo - 1])
             && m == MatchedLine(name, m.lineNo, Strip(lines[m.lineNo - 1]))
  {
    if lines != [] {
      var n := |lines|;
      var init := lines[..n - 1];
      MatchingLinesMembers(name, ps, init, m);
      var prev := MatchingLines(name, ps, init);
      var last := if AnySearch(ps, lines[n - 1]) then [MatchedLine(name, n, Strip(lines[n - 1]))] else [];
      assert MatchingLines(name, ps, lines) == prev + last;
      assert m in prev + last <==> m in prev || m in last;
      if 1 <= m.lineNo < n {
        assert init[m.lineNo - 1] == lines[m.lineNo - 1];
      }
    }
  }

  /** Every record's line number lies in `1..n`, and the numbers strictly increase. */
  predicate NumberedWithin(r: seq<MatchedLine>, n: nat) {
    && (forall i :: 0 <= i < |r| ==> 1 <= r[i].lineNo <= n)
    && (forall i, j :: 0 <= i < j < |r| ==> r[i].lineNo < r[j].lineNo)
  }

  /** Line numbers in the result lie in `1..|lines|` and strictly increase. */
  lemma {:induction false} MatchingLinesOrdered(name: string, ps: seq<KeywordPattern>, lines: seq<string>)
    ensures NumberedWithin(MatchingLines(name, ps, lines), |lines|)
  {
    if lines != [] {
      var n := |lines|;
      MatchingLinesOrdered(name, ps, lines[..n - 1]);
      var prev := MatchingLines(name, ps, lines[..n - 1]);
      assert NumberedWithin(prev, n - 1);
      var last := if AnySearch(ps, lines[n - 1]) then [MatchedLine(name, n, Strip(lines[n - 1]))] else [];
      var r := prev + last;
      assert r == MatchingLines(name, ps, lines);
      assert forall i :: 0 <= i < |prev| ==> r[i] == prev[i];
      assert forall i :: |prev| <= i < |r| ==> r[i].lineNo == n;
    }
  }

  lemma FirstLineMatches()
    ensures AnySearch([Literal("error")], "Error: disk full\n")
  {
    var line := "Error: disk full\n";
    assert MatchesAt(Literal("error"), line, 0);
    assert Search([Literal("error")][0], line);
  }

  lemma SecondLineMisses()
    ensures !AnySearch([Literal("error")], "all fine\n")
  {
    var line := "all fine\n";
    SearchIsLowerContains("error", line);
    assert Lower(line) == line;
    assert Lower("error") == "error";
    forall i | 0 <= i <= |line| - 5 ensures !OccursAt(line, "error", i) {
      assert line[i..i + 5][0] == line[i];
    }
  }

  lemma FirstLineStripped()
    ensures Strip("Error: disk full\n") == "Error: disk full"
  {
    var line := "Error: disk full\n";
    var body := "Error: disk full";
    assert !IsSpace(line[0]);
    assert TrimStart(line) == line;
    assert line[..|line| - 1] == body;
    assert IsSpace(line[|line| - 1]);
    assert TrimEnd(line) == TrimEnd(body);
    assert !IsSpace(body[|body| - 1]);
    assert TrimEnd(body) == body;
  }

  /** Of two lines, only the first matches: one record, for line 1. */
  lemma FirstOfTwo(name: string, ps: seq<KeywordPattern>, a: string, b: string)
    requires AnySearch(ps, a) && !AnySearch(ps, b)
    ensures MatchingLines(name, ps, [a, b]) == [MatchedLine(name, 1, Strip(a))]
  {
    var lines := [a, b];
    assert lines[..1] == [a] && [a][..0] == [];
    assert MatchingLines(name, ps, [a]) == [MatchedLine(name, 1, Strip(a))];
  }

  /** The two lines "Error: disk full" and "all fine" under any file name: one record, for line 1. */
  lemma ErrorLines(name: string)
    ensures MatchingLines(name, [Literal("error")], ["Error: disk full\n", "all fine\n"])
         == [MatchedLine(name, 1, "Error: disk full")]
  {
    FirstLineMatches();
    SecondLineMisses();
    FirstLineStripped();
    FirstOfTwo(name, [Literal("error")], "Error: disk full\n", "all fine\n");
  }

  /** `["error"]` on the lines "Error: disk full" and "all fine": one record, for line 1. */
  lemma ErrorExample(path: string)
    ensures FilterSpec(path, CompileKeywordPatterns(["error"]), Some(["Error: disk full\n", "all fine\n"]))
         == [MatchedLine(Basename(path), 1, "Error: disk full")]
  {
    assert CompileKeywordPatterns(["error"]) == [Literal("error")];
    ErrorLines(Basename(path));
  }
}
