/**
 * The page `write_vehicle_summary_html` writes: the head with the title, one
 * section per vehicle record in the order of the sort, then the list of
 * requested ids that have no logs.
 */
module SummaryPage {
  import opened Wrappers
  import opened Text
  import opened Sorting
  import opened Keywords
  import opened Report
  import opened Vehicles
  import opened Summary

  const DefaultTitle: string := "Daily Vehicle Summary"
  const DefaultHeading: string := "Vehicles has no LOG files from today"

  const MismatchSpan: string := "<span class=\"mismatch\">mismatch</span>"
  const MatchSpan: string := "<span class=\"match\">match</span>"
  const ConfigSpan: string := "<span class=\"configuration\">Configuration file:</span>"

  const Style: string :=
    "<style>\n"
    + "  body { font-family: Arial, sans-serif; margin: 20px; }\n"
    + "  h1 { color: #333; }\n"
    + "  h2 { margin-top: 1.5em; }\n"
    + "  pre { background: #f5f5f5; padding: 0.5em; border-radius: 4px; }\n"
    + "  .match { color: green; font-weight: bold; }\n"
    + "  .mismatch { color: red; font-weight: bold; }\n"
    + "  .configuration { color: #0066CC; font-weight: bold; }\n"
    + "  .no-logs { color: #888; font-style: italic; }\n"
    + "</style>\n"

  const PageTail: string := "</body>\n</html>"

  // ----- `re.sub` with a fixed replacement -----

  /** Each match replaced by `rep`, every other character copied. */
  function RenderFixed(ps: seq<Piece>, rep: string): string {
    if ps == [] then []
    else
      (match ps[0]
       case Plain(c) => [c]
       case Hit(_) => rep)
      + RenderFixed(ps[1..], rep)
  }

  /** `re.sub(r"\b" + word + r"\b", rep, s, flags=re.IGNORECASE)`. */
  function SubFixed(s: string, word: string, rep: string): string {
    RenderFixed(Segment(s, |word|, Matcher(TermPattern(word, true), s), 0), rep)
  }

  lemma {:induction false} RenderFixedAppend(a: seq<Piece>, b: seq<Piece>, rep: string)
    ensures RenderFixed(a + b, rep) == RenderFixed(a, rep) + RenderFixed(b, rep)
  {
    if a == [] {
      assert a + b == b;
    } else {
      assert (a + b)[0] == a[0];
      assert (a + b)[1..] == a[1..] + b;
      RenderFixedAppend(a[1..], b, rep);
    }
  }

  lemma {:induction false} RenderFixedPlains(t: string, rep: string)
    ensures RenderFixed(Plains(t), rep) == t
  {
    if t != [] {
      assert Plains(t)[1..] == Plains(t[1..]);
      RenderFixedPlains(t[1..], rep);
      assert t == [t[0]] + t[1..];
    }
  }

  /** Where the word never matches, the text comes back unchanged. */
  lemma SubFixedIdle(s: string, word: string, rep: string)
    requires word != []
    requires forall j :: 0 <= j < |s| ==> !MatchAt(TermPattern(word, true), s, j)
    ensures SubFixed(s, word, rep) == s
  {
    var m := Matcher(TermPattern(word, true), s);
    SegmentSkip(s, |word|, m, 0, |s|);
    assert Segment(s, |word|, m, |s|) == [];
    assert s[0..|s|] == s;
    assert Plains(s) + [] == Plains(s);
    RenderFixedPlains(s, rep);
  }

  /** A scan that meets a match at `j` or later emits a hit. */
  lemma {:induction false} SegmentHasHit(s: string, n: nat, m: nat -> bool, i: nat, j: nat)
    returns (ps: seq<Piece>, h: string, rest: seq<Piece>)
    requires n > 0 && i <= j && j + n <= |s| && m(j)
    ensures Segment(s, n, m, i) == ps + [Hit(h)] + rest
    decreases |s| - i
  {
    if i + n <= |s| && m(i) {
      ps, h, rest := [], s[i..i + n], Segment(s, n, m, i + n);
    } else {
      var ps1;
      ps1, h, rest := SegmentHasHit(s, n, m, i + 1, j);
      ps := [Plain(s[i])] + ps1;
    }
  }

  /** A match of the word anywhere means the replacement appears in the result. */
  lemma SubFixedHit(s: string, word: string, rep: string, j: nat) returns (at: nat)
    requires word != [] && MatchAt(TermPattern(word, true), s, j)
    ensures OccursAt(SubFixed(s, word, rep), rep, at)
  {
    var m := Matcher(TermPattern(word, true), s);
    assert m(j);
    var ps, h, rest := SegmentHasHit(s, |word|, m, 0, j);
    RenderFixedAppend(ps + [Hit(h)], rest, rep);
    RenderFixedAppend(ps, [Hit(h)], rep);
    assert RenderFixed([Hit(h)], rep) == rep;
    at := |RenderFixed(ps, rep)|;
  }

  /** The scan from `i` passes through some position of `(k - n, k]`. */
  lemma {:induction false} SegmentReaches(s: string, n: nat, m: nat -> bool, i: nat, k: nat)
    returns (q: nat, ps: seq<Piece>)
    requires n > 0 && i <= k <= |s|
    ensures i <= q <= k < q + n
    ensures Segment(s, n, m, i) == ps + Segment(s, n, m, q)
    decreases k - i
  {
    if k < i + n {
      q, ps := i, [];
      assert Segment(s, n, m, i) == [] + Segment(s, n, m, i);
    } else {
      var ps1;
      q, ps1 := SegmentReaches(s, n, m, Next(s, n, m, i), k);
      ReachStep(s, n, m, i, q, ps1);
      ps := [Front(s, n, m, i)] + ps1;
    }
  }

  lemma ReachStep(s: string, n: nat, m: nat -> bool, i: nat, q: nat, ps: seq<Piece>)
    requires n > 0 && i + n <= |s| && q <= |s|
    requires Segment(s, n, m, Next(s, n, m, i)) == ps + Segment(s, n, m, q)
    ensures Segment(s, n, m, i) == [Front(s, n, m, i)] + ps + Segment(s, n, m, q)
  {
    if m(i) {
      SegmentHit(s, n, m, i);
    } else {
      SegmentPlain(s, n, m, i);
    }
    ConsAssoc(Front(s, n, m, i), ps, Segment(s, n, m, q));
  }

  /** Text that no match of the word touches survives the replacement. */
  lemma SubFixedKeeps(s: string, word: string, rep: string, k: nat, w: string) returns (at: nat)
    requires word != [] && OccursAt(s, w, k)
    requires forall j :: 0 <= j && k - |word| < j < k + |w| ==> !MatchAt(TermPattern(word, true), s, j)
    ensures OccursAt(SubFixed(s, word, rep), w, at)
  {
    var n := |word|;
    var m := Matcher(TermPattern(word, true), s);
    var q, ps := SegmentReaches(s, n, m, 0, k);
    SegmentSkip(s, n, m, q, k + |w|);
    RenderKept(ps, s[q..k + |w|], Segment(s, n, m, k + |w|), rep);
    assert s[q..k + |w|][k - q..k - q + |w|] == s[k..k + |w|];
    OccursInside(RenderFixed(ps, rep), s[q..k + |w|], RenderFixed(Segment(s, n, m, k + |w|), rep), w, k - q);
    at := |RenderFixed(ps, rep)| + (k - q);
  }

  /** A stretch copied as it is in the middle of the pieces. */
  lemma RenderKept(ps: seq<Piece>, mid: string, rest: seq<Piece>, rep: string)
    ensures RenderFixed(ps + (Plains(mid) + rest), rep) == RenderFixed(ps, rep) + mid + RenderFixed(rest, rep)
  {
    RenderFixedAppend(ps, Plains(mid) + rest, rep);
    RenderFixedAppend(Plains(mid), rest, rep);
    RenderFixedPlains(mid, rep);
  }

  /**
   * The bounded word "match" matches nowhere on an inserted mismatch span:
   * each "match" inside it follows an 's', so `\b` fails in front of it.
   */
  lemma SpanHasNoMatch(t: string, k: nat)
    requires OccursAt(t, MismatchSpan, k)
    ensures forall j :: 0 <= j && k - 5 < j < k + |MismatchSpan| ==> !MatchAt(TermPattern("match", true), t, j)
  {
    NoMatchBeforeSpan(t, k);
    NoMatchInSpan(t, k);
  }

  /** A match starting just before the span would need a letter where the span has '<'. */
  lemma NoMatchBeforeSpan(t: string, k: nat)
    requires OccursAt(t, MismatchSpan, k)
    ensures forall j :: 0 <= j && k - 5 < j < k ==> !MatchAt(TermPattern("match", true), t, j)
  {
    var p := TermPattern("match", true);
    assert t[k] == t[k..k + |MismatchSpan|][0] == '<';
    forall j | 0 <= j && k - 5 < j < k ensures !MatchAt(p, t, j) {
      var d := k - j;
      assert LowerChar(t[j + d]) != LowerChar(p.word[d]);
    }
  }

  lemma NoMatchInSpan(t: string, k: nat)
    requires OccursAt(t, MismatchSpan, k)
    ensures forall j :: k <= j < k + |MismatchSpan| ==> !MatchAt(TermPattern("match", true), t, j)
  {
    var p := TermPattern("match", true);
    SpanFirstLetters(t, k, 0, 13);
    SpanFirstLetters(t, k, 14, 16);
    SpanFirstLetters(t, k, 17, 23);
    SpanFirstLetters(t, k, 24, 26);
    SpanFirstLetters(t, k, 27, |MismatchSpan|);
    NoMatchWithoutFirst(p, t, k, k + 13);
    NoMatchWithoutFirst(p, t, k + 14, k + 16);
    NoMatchWithoutFirst(p, t, k + 17, k + 23);
    NoMatchWithoutFirst(p, t, k + 24, k + 26);
    NoMatchWithoutFirst(p, t, k + 27, k + |MismatchSpan|);
    SpanWordStarts(t, k);
  }

  /** The four 'm's of the span start no bounded "match". */
  lemma SpanWordStarts(t: string, k: nat)
    requires OccursAt(t, MismatchSpan, k)
    ensures forall j :: j in {k + 13, k + 16, k + 23, k + 26} ==> !MatchAt(TermPattern("match", true), t, j)
  {
    var p := TermPattern("match", true);
    var sp := t[k..k + |MismatchSpan|];
    assert t[k + 14] == sp[14] == 'i' && t[k + 24] == sp[24] == 'i';
    assert t[k + 15] == sp[15] == 's' && t[k + 16] == sp[16] == 'm';
    assert t[k + 25] == sp[25] == 's' && t[k + 26] == sp[26] == 'm';
    assert LowerChar(t[k + 14]) != LowerChar(p.word[1]);
    assert LowerChar(t[k + 24]) != LowerChar(p.word[1]);
    assert !Boundary(t, k + 16) && !Boundary(t, k + 26);
  }

  /** Between offsets `a` and `b` the span holds no 'm'. */
  lemma SpanFirstLetters(t: string, k: nat, a: nat, b: nat)
    requires OccursAt(t, MismatchSpan, k) && a <= b <= |MismatchSpan|
    requires forall o :: a <= o < b ==> LowerChar(MismatchSpan[o]) != 'm'
    ensures forall j :: k + a <= j < k + b ==> LowerChar(t[j]) != LowerChar("match"[0])
  {
    forall j | k + a <= j < k + b ensures LowerChar(t[j]) != 'm' {
      assert t[k..k + |MismatchSpan|][j - k] == t[j];
    }
  }

  // ----- the lines of a record's section -----

  /** One protocol line: escaped, then the two `re.sub` calls, then the line break. */
  function ProtocolLine(prot: string): string {
    var esc := HtmlEscape(ProtocolsLabel + " " + prot);
    SubFixed(SubFixed(esc, "mismatch", MismatchSpan), "match", MatchSpan) + "\n"
  }

  /**
   * A protocol line in which the word "mismatch" (in any case) occurs shows
   * the red mismatch span: the second substitution leaves it alone.
   */
  lemma MismatchShown(prot: string, j: nat)
    requires MatchAt(TermPattern("mismatch", true), HtmlEscape(ProtocolsLabel + " " + prot), j)
    ensures Contains(ProtocolLine(prot), MismatchSpan)
  {
    var t1 := SubFixed(HtmlEscape(ProtocolsLabel + " " + prot), "mismatch", MismatchSpan);
    var k := SubFixedHit(HtmlEscape(ProtocolsLabel + " " + prot), "mismatch", MismatchSpan, j);
    SpanHasNoMatch(t1, k);
    var at := SubFixedKeeps(t1, "match", MatchSpan, k, MismatchSpan);
    var t2 := SubFixed(t1, "match", MatchSpan);
    assert (t2 + "\n")[at..at + |MismatchSpan|] == t2[at..at + |MismatchSpan|];
    assert OccursAt(ProtocolLine(prot), MismatchSpan, at);
  }

  /** One configuration line: escaped, the label wrapped in its span, the line break. */
  function ConfigLine(cfg: string): string {
    ReplaceAll(HtmlEscape(ConfigLabel + " " + cfg), ConfigLabel, ConfigSpan) + "\n"
  }

  /** `s.replace(pat, rep)` with no occurrence of `pat` changes nothing. */
  lemma {:induction false} ReplaceAllAbsent(s: string, pat: string, rep: string)
    requires pat != [] && !Contains(s, pat)
    ensures ReplaceAll(s, pat, rep) == s
    decreases |s|
  {
    if |s| >= |pat| {
      assert !OccursAt(s, pat, 0);
      if Contains(s[1..], pat) {
        var i :| 0 <= i <= |s[1..]| - |pat| && OccursAt(s[1..], pat, i);
        assert s[i + 1..i + 1 + |pat|] == s[1..][i..i + |pat|];
        assert OccursAt(s, pat, i + 1);
      }
      ReplaceAllAbsent(s[1..], pat, rep);
      assert s == [s[0]] + s[1..];
    }
  }

  /** Every configuration line opens with the blue label span. */
  lemma ConfigLineHead(cfg: string)
    ensures ConfigLine(cfg) == ConfigSpan + ReplaceAll(HtmlEscape(" " + cfg), ConfigLabel, ConfigSpan) + "\n"
  {
    assert ConfigLabel + " " + cfg == ConfigLabel + (" " + cfg);
    HtmlEscapeConcat(ConfigLabel, " " + cfg);
    HtmlEscapeIdle(ConfigLabel);
    var s := ConfigLabel + HtmlEscape(" " + cfg);
    assert s[..|ConfigLabel|] == ConfigLabel;
    assert s[|ConfigLabel|..] == HtmlEscape(" " + cfg);
  }

  /**
   * When the configuration name does not repeat the label, the rest of the
   * line is the escaped name, from which the name reads back.
   */
  lemma ConfigLineReadsBack(cfg: string)
    requires !Contains(HtmlEscape(" " + cfg), ConfigLabel)
    ensures ConfigLine(cfg) == ConfigSpan + HtmlEscape(" " + cfg) + "\n"
    ensures HtmlUnescape(HtmlEscape(" " + cfg)) == " " + cfg
  {
    ConfigLineHead(cfg);
    ReplaceAllAbsent(HtmlEscape(" " + cfg), ConfigLabel, ConfigSpan);
    HtmlEscapeRoundTrip(" " + cfg);
  }

  /** The texts `f` writes for the elements of `xs`, one after the other. */
  function Concat<T>(xs: seq<T>, f: T -> string): string {
    if xs == [] then "" else Concat(xs[..|xs| - 1], f) + f(xs[|xs| - 1])
  }

  /** Each element of the list is somewhere in the sorted list. */
  lemma SortHas<T>(xs: seq<T>, le: (T, T) -> bool, i: nat) returns (j: nat)
    requires i < |xs|
    ensures j < |Sort(xs, le)| && Sort(xs, le)[j] == xs[i]
  {
    SortPermutes(xs, le);
    assert xs[i] in multiset(xs);
    assert xs[i] in multiset(Sort(xs, le));
    j :| 0 <= j < |Sort(xs, le)| && Sort(xs, le)[j] == xs[i];
  }

  /** Writing one more element appends its text. */
  lemma ConcatStep<T>(xs: seq<T>, f: T -> string, k: nat)
    requires k < |xs|
    ensures Concat(xs[..k + 1], f) == Concat(xs[..k], f) + f(xs[k])
  {
    assert xs[..k + 1][..k] == xs[..k];
  }

  /** The text written for each element is part of the whole. */
  lemma {:induction false} ConcatHas<T>(xs: seq<T>, f: T -> string, i: nat) returns (at: nat)
    requires i < |xs|
    ensures OccursAt(Concat(xs, f), f(xs[i]), at)
    decreases |xs|
  {
    var init := xs[..|xs| - 1];
    var w := f(xs[i]);
    if i == |xs| - 1 {
      at := |Concat(init, f)|;
      assert Concat(xs, f)[at..at + |w|] == w;
    } else {
      assert xs[i] == init[i];
      at := ConcatHas(init, f, i);
      assert Concat(xs, f)[at..at + |w|] == Concat(init, f)[at..at + |w|];
    }
  }

  /** A piece of the middle part is a piece of the whole. */
  lemma OccursInside(pre: string, mid: string, post: string, w: string, at: nat)
    requires OccursAt(mid, w, at)
    ensures OccursAt(pre + mid + post, w, |pre| + at)
  {
    assert (pre + mid + post)[|pre| + at..|pre| + at + |w|] == mid[at..at + |w|];
  }

  lemma OccursBefore(a: string, b: string, w: string, at: nat)
    requires OccursAt(a, w, at)
    ensures OccursAt(a + b, w, at)
  {
    assert (a + b)[at..at + |w|] == a[at..at + |w|];
  }

  /** The configuration block: each distinct configuration once, in ascending order. */
  function ConfigBlock(configs: seq<string>): string {
    if configs == [] then "" else "<pre>\n" + Concat(SortedSet(configs), ConfigLine) + "</pre>\n"
  }

  /** The protocol block: each distinct protocol once, in ascending order. */
  function ProtocolBlock(protocols: seq<string>): string {
    if protocols == [] then "" else "<pre>\n" + Concat(SortedSet(protocols), ProtocolLine) + "</pre>\n\n"
  }

  /** `{os.path.basename(s) for s in sources}`, as a list. */
  function Basenames(sources: seq<string>): (bs: seq<string>)
    ensures |bs| == |sources| && forall i :: 0 <= i < |sources| ==> bs[i] == Basename(sources[i])
  {
    seq(|sources|, i requires 0 <= i < |sources| => Basename(sources[i]))
  }

  /** The line under the heading: the greatest base name of the record's files. */
  function SourcesLine(sources: seq<string>): string {
    if sources == [] then "" else HtmlEscape(MaxStr(Basenames(sources))) + "<br>\n"
  }

  /** The base name shown is the one no other base name of the record exceeds. */
  lemma SourcesLatest(sources: seq<string>, b: string)
    requires b in Basenames(sources) && forall x :: x in Basenames(sources) ==> StrLe(x, b)
    ensures SourcesLine(sources) == HtmlEscape(b) + "<br>\n"
  {
    var m := MaxStr(Basenames(sources));
    StrLeAntisymmetric(m, b);
  }

  /** One record's section. */
  function VehicleBlock(v: Vehicle): string {
    "<h2>" + HtmlEscape(v.name) + "</h2>\n" + SourcesLine(v.sources) + ConfigBlock(v.configs) + ProtocolBlock(v.protocols)
  }


  function NoDataItem(id: string): string {
    "<li><span class=\"no-logs\">" + HtmlEscape(id) + ": No LOG files found</span></li>\n"
  }


  function NoDataOpen(heading: string): string {
    "<h2>" + HtmlEscape(heading) + "</h2>\n<ul>\n"
  }

  /** The list of requested ids without logs, written only when there is one. */
  function NoDataBlock(heading: string, ids: seq<string>): string {
    if ids == [] then "" else NoDataOpen(heading) + Concat(ids, NoDataItem) + "</ul>\n"
  }

  function PageHead(title: string): string {
    "<!DOCTYPE html>\n<html>\n<head>\n<meta charset=\"UTF-8\">\n<title>" + HtmlEscape(title) + "</title>\n"
    + Style + "</head>\n<body>\n<h1>" + HtmlEscape(title) + "</h1>\n"
  }

  // ----- the whole page -----

  /** `vehicles.values()` after both passes over the matched lines. */
  function Records(ms: seq<MatchedLine>): seq<Vehicle> {
    var g := GroupAll(ms, Labeler(ConfigVehicles(ms, Reader()), Reader()), Reader());
    Values(g)
  }

  /** The text `write_vehicle_summary_html` writes to its output file. */
  function SummaryHtml(ms: seq<MatchedLine>, all: seq<string>, with: seq<string>, title: string, heading: string): string {
    PageHead(title) + Concat(SortVehicles(Records(ms)), VehicleBlock) + NoDataBlock(heading, NoData(all, with)) + PageTail
  }

  /** The lines of the configuration block, one per configuration. */
  method WriteConfigLines(cs: seq<string>) returns (text: string)
    ensures text == Concat(cs, ConfigLine)
  {
    text := "";
    for k := 0 to |cs|
      invariant text == Concat(cs[..k], ConfigLine)
    {
      var esc := HtmlEscape(ConfigLabel + " " + cs[k]);
      esc := ReplaceAll(esc, ConfigLabel, ConfigSpan);
      assert esc + "\n" == ConfigLine(cs[k]);
      ConcatStep(cs, ConfigLine, k);
      text := text + (esc + "\n");
    }
    assert cs[..|cs|] == cs;
  }

  /** The configuration block: `<pre>`, the sorted distinct configurations, `</pre>`. */
  method WriteConfigs(configs: seq<string>) returns (text: string)
    ensures text == ConfigBlock(configs)
  {
    text := "";
    if configs != [] {
      var lines := WriteConfigLines(SortedSet(configs));
      text := "<pre>\n" + lines + "</pre>\n";
    }
  }

  /** The lines of the protocol block, one per protocol. */
  method WriteProtocolLines(ps: seq<string>) returns (text: string)
    ensures text == Concat(ps, ProtocolLine)
  {
    text := "";
    for k := 0 to |ps|
      invariant text == Concat(ps[..k], ProtocolLine)
    {
      var esc := HtmlEscape(ProtocolsLabel + " " + ps[k]);
      esc := SubFixed(esc, "mismatch", MismatchSpan);
      esc := SubFixed(esc, "match", MatchSpan);
      assert esc + "\n" == ProtocolLine(ps[k]);
      ConcatStep(ps, ProtocolLine, k);
      text := text + (esc + "\n");
    }
    assert ps[..|ps|] == ps;
  }

  /** The protocol block: `<pre>`, the sorted distinct protocols, `</pre>` and a blank line. */
  method WriteProtocols(protocols: seq<string>) returns (text: string)
    ensures text == ProtocolBlock(protocols)
  {
    text := "";
    if protocols != [] {
      var lines := WriteProtocolLines(SortedSet(protocols));
      text := "<pre>\n" + lines + "</pre>\n\n";
    }
  }

  /** One record's section. */
  method WriteVehicle(v: Vehicle) returns (text: string)
    ensures text == VehicleBlock(v)
  {
    text := "<h2>" + HtmlEscape(v.name) + "</h2>\n";
    if v.sources != [] {
      var latest := MaxStr(Basenames(v.sources));
      text := text + (HtmlEscape(latest) + "<br>\n");
    }
    var configs := WriteConfigs(v.configs);
    var protocols := WriteProtocols(v.protocols);
    text := text + configs + protocols;
  }

  /** The sections of the records, in the order given. */
  method WriteSections(vs: seq<Vehicle>) returns (text: string)
    ensures text == Concat(vs, VehicleBlock)
  {
    text := "";
    for k := 0 to |vs|
      invariant text == Concat(vs[..k], VehicleBlock)
    {
      var block := WriteVehicle(vs[k]);
      ConcatStep(vs, VehicleBlock, k);
      text := text + block;
    }
    assert vs[..|vs|] == vs;
  }

  /** The no-logs list, or nothing when every requested id has logs. */
  method WriteNoData(heading: string, ids: seq<string>) returns (text: string)
    ensures text == NoDataBlock(heading, ids)
  {
    text := "";
    if ids != [] {
      var items := "";
      for k := 0 to |ids|
        invariant items == Concat(ids[..k], NoDataItem)
      {
        ConcatStep(ids, NoDataItem, k);
        items := items + NoDataItem(ids[k]);
      }
      assert ids[..|ids|] == ids;
      text := NoDataOpen(heading) + items + "</ul>\n";
    }
  }

  /** The record of each vehicle after both passes over the matched lines, in key order. */
  method CollectRecords(ms: seq<MatchedLine>) returns (records: seq<Vehicle>)
    ensures records == Records(ms)
  {
    var table := BuildFileVehicles(ms);
    var keys, byKey := GroupLines(ms, table);
    records := Values(Groups(keys, byKey));
  }

  /** `write_vehicle_summary_html`: both passes, the sort, then the page written in order. */
  method WriteVehicleSummaryHtml(ms: seq<MatchedLine>, all: seq<string>, with: seq<string>, title: string, heading: string)
    returns (out: string)
    ensures out == SummaryHtml(ms, all, with, title, heading)
  {
    var records := CollectRecords(ms);
    var sorted := SortVehicles(records);
    var missing := NoData(all, with);
    var sections := WriteSections(sorted);
    var tail := WriteNoData(heading, missing);
    out := PageHead(title) + sections + tail + PageTail;
  }

  // ----- what the page shows -----

  /** Every record after both passes gets its own section, headed by its escaped display name. */
  lemma EveryRecordShown(ms: seq<MatchedLine>, all: seq<string>, with: seq<string>, title: string, heading: string, i: nat)
    requires i < |Records(ms)|
    ensures Contains(SummaryHtml(ms, all, with, title, heading), VehicleBlock(Records(ms)[i]))
  {
    SectionShown(Records(ms), PageHead(title), NoDataBlock(heading, NoData(all, with)), i);
  }

  lemma SectionShown(vs: seq<Vehicle>, head: string, nd: string, i: nat)
    requires i < |vs|
    ensures Contains(head + Concat(SortVehicles(vs), VehicleBlock) + nd + PageTail, VehicleBlock(vs[i]))
  {
    var j := SortHas(vs, MismatchFirst, i);
    var sorted := SortVehicles(vs);
    var at := ConcatHas(sorted, VehicleBlock, j);
    ShownIn(head, Concat(sorted, VehicleBlock), nd, PageTail, VehicleBlock(vs[i]), at);
  }

  /** Text found in the body is found in the whole page. */
  lemma ShownIn(head: string, body: string, nd: string, tail: string, w: string, at: nat)
    requires OccursAt(body, w, at)
    ensures Contains(head + body + nd + tail, w)
  {
    OccursInside(head, body, nd, w, at);
    OccursBefore(head + body + nd, tail, w, |head| + at);
  }

  /**
   * The no-logs section names each stripped requested id that matches no id
   * with logs up to case.
   */
  lemma NoDataShown(all: seq<string>, with: seq<string>, heading: string, x: string)
    requires x in Cleaned(all) && forall y :: y in Cleaned(with) ==> Lower(y) != Lower(x)
    ensures Contains(NoDataBlock(heading, NoData(all, with)), NoDataItem(x))
  {
    var ids := NoData(all, with);
    NoDataMembers(all, with, x);
    var i :| 0 <= i < |ids| && ids[i] == x;
    var at := ConcatHas(ids, NoDataItem, i);
    OccursInside(NoDataOpen(heading), Concat(ids, NoDataItem), "</ul>\n", NoDataItem(x), at);
  }

  /** With every requested id found, no no-logs section appears at all. */
  lemma NoDataHidden(all: seq<string>, with: seq<string>, heading: string)
    requires forall x :: x in Cleaned(all) ==> exists y :: y in Cleaned(with) && Lower(y) == Lower(x)
    ensures NoDataBlock(heading, NoData(all, with)) == ""
  {
    var ids := NoData(all, with);
    if ids != [] {
      NoDataMembers(all, with, ids[0]);
      assert false;
    }
  }
}
