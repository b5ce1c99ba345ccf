/**
 * `process_selected_files` and `run_summary_range`: which files are read in
 * which order, how their matches are collected, which ids count as found,
 * and what is written at the end.  The file system is an input: the lines of
 * each LOG file outside the scratch directory and the members of each
 * readable archive.
 */
module Pipeline {
  import opened Wrappers
  import opened Text
  import opened Sorting
  import opened Dates
  import opened Keywords
  import opened Archive
  import opened Locator
  import opened Report
  import opened Reports
  import opened Summary
  import opened SummaryPage

  /** The files outside the scratch directory: each LOG file's lines, each readable archive's members. */
  datatype Disk = Disk(logs: map<string, seq<string>>, zips: map<string, seq<Entry>>)

  /** What `open(path)` reads; None where the file does not exist. */
  function LogContent(disk: Disk, p: string): Option<seq<string>> {
    if p in disk.logs then Some(disk.logs[p]) else None
  }

  /** The members of an archive; None where it is missing or not a valid archive. */
  function ArchiveAt(disk: Disk, zp: string): Option<seq<Entry>> {
    if zp in disk.zips then Some(disk.zips[zp]) else None
  }

  /** What `os.path.join(dir, name)` puts in front of a relative name. */
  function DirPrefix(dir: string): string {
    if dir == "" || EndsWith(dir, "/") then dir else dir + "/"
  }

  lemma JoinPrefix(dir: string, name: string)
    requires !StartsWith(name, "/")
    ensures Join(dir, name) == DirPrefix(dir) + name
  {
  }

  /** The lines of the scratch file at path `p`, or None when there is none. */
  function ScratchContent(dir: string, files: map<string, seq<string>>, p: string): Option<seq<string>> {
    var pre := DirPrefix(dir);
    if StartsWith(p, pre) && p[|pre|..] in files then Some(files[p[|pre|..]]) else None
  }

  /** A name held in the scratch directory is read back from that name joined to the directory. */
  lemma ScratchReadsBack(dir: string, files: map<string, seq<string>>, name: string)
    requires !StartsWith(name, "/") && name in files
    ensures ScratchContent(dir, files, Join(dir, name)) == Some(files[name])
  {
    JoinPrefix(dir, name);
    var pre := DirPrefix(dir);
    assert (pre + name)[..|pre|] == pre;
    assert (pre + name)[|pre|..] == name;
  }

  /**
   * Right after its round, the path returned for a plainly named log entry
   * reads back that entry's lines.  A later round may overwrite the file.
   */
  lemma RoundReadsBack(zipPath: string, entries: seq<Entry>, tempPath: string, log: string,
                       files: map<string, seq<string>>)
    requires Canonical(log)
    ensures var r := ExtractOne(zipPath, entries, tempPath, log, files);
            r.path.Some? && ScratchContent(tempPath, r.files, r.path.value) == Some(MemberLines(entries, log))
  {
    RoundRename(zipPath, entries, tempPath, log, files);
    MovedNamesRelative(log, zipPath);
    var r := ExtractOne(zipPath, entries, tempPath, log, files);
    var lines, base, renamed := MemberLines(entries, log), Basename(log), RenamedName(log, zipPath);
    if !Contains(log, "/") {
      ScratchReadsBack(tempPath, r.files, log);
    } else if base !in files {
      ScratchReadsBack(tempPath, r.files, base);
    } else {
      ScratchReadsBack(tempPath, r.files, renamed);
    }
  }

  // ----- the files read, in order -----

  /** One call of `filter_log_file`: the path it is given and what reading it yields. */
  datatype Read = Read(path: string, content: Option<seq<string>>)

  /** The paths an archive gave back, each read from the scratch directory. */
  function Extracted(dir: string, files: map<string, seq<string>>, paths: seq<string>): (rs: seq<Read>)
    ensures |rs| == |paths| && forall i :: 0 <= i < |paths| ==> rs[i] == Read(paths[i], ScratchContent(dir, files, paths[i]))
  {
    seq(|paths|, i requires 0 <= i < |paths| => Read(paths[i], ScratchContent(dir, files, paths[i])))
  }

  /** The LOG files, each read from the disk. */
  function LogReads(logs: seq<string>, disk: Disk): (rs: seq<Read>)
    ensures |rs| == |logs| && forall i :: 0 <= i < |logs| ==> rs[i] == Read(logs[i], LogContent(disk, logs[i]))
  {
    seq(|logs|, i requires 0 <= i < |logs| => Read(logs[i], LogContent(disk, logs[i])))
  }

  /** What the archive loop has read, and the scratch directory it leaves. */
  datatype ZipPass = ZipPass(scanned: seq<Read>, files: map<string, seq<string>>)

  /**
   * The archives in order: each is extracted into the scratch directory as
   * the earlier ones left it, then the paths it gave back are read.
   */
  function ZipReads(zips: seq<string>, disk: Disk, dir: string, files: map<string, seq<string>>): ZipPass {
    if zips == [] then ZipPass([], files)
    else
      var z := ZipReads(zips[..|zips| - 1], disk, dir, files);
      var zp := zips[|zips| - 1];
      var o := ExtractSpec(zp, ArchiveAt(disk, zp), dir, z.files);
      ZipPass(z.scanned + Extracted(dir, o.files, o.extracted), o.files)
  }

  /** The matches of one read. */
  function LinesOf(ps: seq<KeywordPattern>, r: Read): seq<MatchedLine> {
    FilterSpec(r.path, ps, r.content)
  }

  /** All matches of the reads, in order (`all_lines.extend(lines)` after each). */
  function AllLines(ps: seq<KeywordPattern>, rs: seq<Read>): seq<MatchedLine> {
    if rs == [] then [] else AllLines(ps, rs[..|rs| - 1]) + LinesOf(ps, rs[|rs| - 1])
  }

  lemma {:induction false} AllLinesAppend(ps: seq<KeywordPattern>, a: seq<Read>, b: seq<Read>)
    ensures AllLines(ps, a + b) == AllLines(ps, a) + AllLines(ps, b)
    decreases |b|
  {
    if b == [] {
      assert a + b == a;
    } else {
      var init, last := b[..|b| - 1], b[|b| - 1];
      assert (a + b)[..|a + b| - 1] == a + init;
      assert (a + b)[|a + b| - 1] == last;
      AllLinesAppend(ps, a, init);
      var l := LinesOf(ps, last);
      calc {
        AllLines(ps, a + b);
        AllLines(ps, a + init) + l;
        (AllLines(ps, a) + AllLines(ps, init)) + l;
        AllLines(ps, a) + (AllLines(ps, init) + l);
        AllLines(ps, a) + AllLines(ps, b);
      }
    }
  }

  // ----- process_selected_files -----

  /** `results` (its keys in insertion order and the list under each) and `all_lines`. */
  datatype Collected = Collected(names: seq<string>, byName: map<string, seq<MatchedLine>>, all: seq<MatchedLine>)

  const Nothing: Collected := Collected([], map[], [])

  /** One file's matches: `results.setdefault(name, []).extend(lines)` and `all_lines.extend(lines)`, when there are any. */
  function Merge(c: Collected, name: string, lines: seq<MatchedLine>): Collected {
    if lines == [] then c
    else if name in c.byName then Collected(c.names, c.byName[name := c.byName[name] + lines], c.all + lines)
    else Collected(c.names + [name], c.byName[name := lines], c.all + lines)
  }

  /** The reads merged one after the other, each under the base name of its path. */
  function MergeReads(c: Collected, ps: seq<KeywordPattern>, rs: seq<Read>): Collected {
    if rs == [] then c
    else
      var r := rs[|rs| - 1];
      Merge(MergeReads(c, ps, rs[..|rs| - 1]), Basename(r.path), LinesOf(ps, r))
  }

  lemma {:induction false} MergeReadsAppend(c: Collected, ps: seq<KeywordPattern>, a: seq<Read>, b: seq<Read>)
    ensures MergeReads(c, ps, a + b) == MergeReads(MergeReads(c, ps, a), ps, b)
    decreases |b|
  {
    if b == [] {
      assert a + b == a;
    } else {
      var init := b[..|b| - 1];
      assert (a + b)[..|a + b| - 1] == a + init;
      assert (a + b)[|a + b| - 1] == b[|b| - 1];
      MergeReadsAppend(c, ps, a, init);
    }
  }

  /** The reads of `process_selected_files`: every archive's logs first, then the LOG files. */
  function SelectedReads(logFiles: seq<string>, zipFiles: seq<string>, disk: Disk, dir: string): seq<Read> {
    ZipReads(zipFiles, disk, dir, map[]).scanned + LogReads(logFiles, disk)
  }

  /** `results` and `all_lines` after both loops. */
  function Processed(logFiles: seq<string>, zipFiles: seq<string>, keywords: seq<string>, disk: Disk, dir: string): Collected {
    MergeReads(Nothing, CompileKeywordPatterns(keywords), SelectedReads(logFiles, zipFiles, disk, dir))
  }

  /** The two reports, written only when something matched. */
  datatype Written = Written(text: string, html: string)

  function WrittenFor(all: seq<MatchedLine>, words: Option<Highlights>): Option<Written> {
    if all == [] then None else Some(Written(TextReport(all), HtmlReport(all, words)))
  }

  /** `filter_log_file` on one path, then the merge of what it found. */
  method MergeFile(c: Collected, ps: seq<KeywordPattern>, path: string, content: Option<seq<string>>)
    returns (c': Collected)
    ensures c' == Merge(c, Basename(path), LinesOf(ps, Read(path, content)))
  {
    var lines := FilterLogFile(path, ps, content);
    c' := c;
    if lines != [] {
      var name := Basename(path);
      if name in c'.byName {
        c' := c'.(byName := c'.byName[name := c'.byName[name] + lines]);
      } else {
        c' := c'.(names := c'.names + [name], byName := c'.byName[name := lines]);
      }
      c' := c'.(all := c'.all + lines);
    }
  }

  /** The inner loop over the paths one archive gave back. */
  method MergeExtracted(c: Collected, ps: seq<KeywordPattern>, dir: ScratchDir, paths: seq<string>)
    returns (c': Collected)
    ensures c' == MergeReads(c, ps, Extracted(dir.path, dir.files, paths))
  {
    c' := c;
    ghost var rs := Extracted(dir.path, dir.files, paths);
    for i := 0 to |paths|
      invariant c' == MergeReads(c, ps, rs[..i])
    {
      assert rs[..i + 1][..i] == rs[..i];
      var content := ScratchContent(dir.path, dir.files, paths[i]);
      c' := MergeFile(c', ps, paths[i], content);
    }
    assert rs[..|paths|] == rs;
  }

  /** The archive loop: extract each archive, then read what it gave back. */
  method MergeZips(c: Collected, ps: seq<KeywordPattern>, zips: seq<string>, disk: Disk, dir: ScratchDir)
    returns (c': Collected)
    modifies dir
    ensures var z := ZipReads(zips, disk, dir.path, old(dir.files));
            c' == MergeReads(c, ps, z.scanned) && dir.files == z.files
  {
    c' := c;
    for k := 0 to |zips|
      invariant var z := ZipReads(zips[..k], disk, dir.path, old(dir.files));
                c' == MergeReads(c, ps, z.scanned) && dir.files == z.files
    {
      assert zips[..k + 1][..k] == zips[..k];
      ghost var z := ZipReads(zips[..k], disk, dir.path, old(dir.files));
      var extracted := ExtractLogFiles(zips[k], ArchiveAt(disk, zips[k]), dir);
      c' := MergeExtracted(c', ps, dir, extracted);
      MergeReadsAppend(c, ps, z.scanned, Extracted(dir.path, dir.files, extracted));
    }
    assert zips[..|zips|] == zips;
  }

  /** The LOG loop. */
  method MergeLogs(c: Collected, ps: seq<KeywordPattern>, logs: seq<string>, disk: Disk)
    returns (c': Collected)
    ensures c' == MergeReads(c, ps, LogReads(logs, disk))
  {
    c' := c;
    ghost var rs := LogReads(logs, disk);
    for i := 0 to |logs|
      invariant c' == MergeReads(c, ps, rs[..i])
    {
      assert rs[..i + 1][..i] == rs[..i];
      c' := MergeFile(c', ps, logs[i], LogContent(disk, logs[i]));
    }
    assert rs[..|logs|] == rs;
  }

  /**
   * `process_selected_files`; `dir` is the name `tempfile.mkdtemp()` gives
   * the scratch directory, which is made only when there are archives.
   */
  method ProcessSelectedFiles(logFiles: seq<string>, zipFiles: seq<string>, keywords: seq<string>,
                              words: Option<Highlights>, disk: Disk, dir: string)
    returns (results: Collected, written: Option<Written>)
    ensures results == Processed(logFiles, zipFiles, keywords, disk, dir)
    ensures written == WrittenFor(results.all, words)
  {
    var ps := CompileKeywordPatterns(keywords);
    results := Nothing;
    if zipFiles != [] {
      var scratch := new ScratchDir(dir);
      results := MergeZips(results, ps, zipFiles, disk, scratch);
    }
    results := MergeLogs(results, ps, logFiles, disk);
    MergeReadsAppend(Nothing, ps, ZipReads(zipFiles, disk, dir, map[]).scanned, LogReads(logFiles, disk));
    written := None;
    if results.all != [] {
      var text := SaveResultsAsText(results.all);
      var html := SaveResultsAsHtml(results.all, words);
      written := Some(Written(text, html));
    }
  }

  // ----- what the collection promises -----

  function FromFile(name: string): MatchedLine -> bool {
    (m: MatchedLine) => m.file == name
  }

  /**
   * `results` is `all_lines` grouped by file: its keys are distinct and in
   * first-seen order, every line's file is a key, and under each key are
   * exactly the lines of `all_lines` from that file, in order, at least one.
   */
  ghost predicate Grouped(c: Collected) {
    && (forall i, j :: 0 <= i < j < |c.names| ==> c.names[i] != c.names[j])
    && (forall n :: n in c.byName <==> n in c.names)
    && (forall m :: m in c.all ==> m.file in c.byName)
    && (forall n :: n in c.byName ==> c.byName[n] == Filter(c.all, FromFile(n)) && c.byName[n] != [])
  }

  lemma {:induction false} FilterAll<T>(s: seq<T>, p: T -> bool)
    requires forall i :: 0 <= i < |s| ==> p(s[i])
    ensures Filter(s, p) == s
  {
    if s != [] {
      FilterAll(s[1..], p);
    }
  }

  lemma {:induction false} FilterNone<T>(s: seq<T>, p: T -> bool)
    requires forall i :: 0 <= i < |s| ==> !p(s[i])
    ensures Filter(s, p) == []
  {
    if s != [] {
      FilterNone(s[1..], p);
    }
  }

  /** Every match of a read carries the base name of the read's path. */
  lemma LinesOfFile(ps: seq<KeywordPattern>, r: Read)
    ensures forall i :: 0 <= i < |LinesOf(ps, r)| ==> LinesOf(ps, r)[i].file == Basename(r.path)
  {
    if r.content.Some? {
      forall i | 0 <= i < |LinesOf(ps, r)| ensures LinesOf(ps, r)[i].file == Basename(r.path) {
        var m := LinesOf(ps, r)[i];
        MatchingLinesMembers(Basename(r.path), ps, r.content.value, m);
      }
    }
  }

  /** Merging lines that all come from file `name` keeps the grouping. */
  lemma MergeGrouped(c: Collected, name: string, lines: seq<MatchedLine>)
    requires Grouped(c)
    requires forall i :: 0 <= i < |lines| ==> lines[i].file == name
    ensures Grouped(Merge(c, name, lines))
  {
    if lines != [] {
      var c' := Merge(c, name, lines);
      forall n | n in c'.byName ensures c'.byName[n] == Filter(c'.all, FromFile(n)) && c'.byName[n] != [] {
        FilterAppend(c.all, lines, FromFile(n));
        if n == name {
          FilterAll(lines, FromFile(n));
          if n !in c.byName {
            forall i | 0 <= i < |c.all| ensures !FromFile(n)(c.all[i]) {
              assert c.all[i] in c.all;
            }
            FilterNone(c.all, FromFile(n));
          }
        } else {
          FilterNone(lines, FromFile(n));
        }
      }
      forall m | m in c'.all ensures m.file in c'.byName {
        if m !in c.all {
          var i :| 0 <= i < |lines| && lines[i] == m;
        }
      }
    }
  }

  lemma {:induction false} MergeReadsGrouped(c: Collected, ps: seq<KeywordPattern>, rs: seq<Read>)
    requires Grouped(c)
    ensures Grouped(MergeReads(c, ps, rs))
  {
    if rs != [] {
      var r := rs[|rs| - 1];
      MergeReadsGrouped(c, ps, rs[..|rs| - 1]);
      LinesOfFile(ps, r);
      MergeGrouped(MergeReads(c, ps, rs[..|rs| - 1]), Basename(r.path), LinesOf(ps, r));
    }
  }

  lemma {:induction false} MergeReadsAll(c: Collected, ps: seq<KeywordPattern>, rs: seq<Read>)
    ensures MergeReads(c, ps, rs).all == c.all + AllLines(ps, rs)
  {
    if rs != [] {
      MergeReadsAll(c, ps, rs[..|rs| - 1]);
    } else {
      assert c.all + [] == c.all;
    }
  }

  /** The results are the matched lines grouped by file name. */
  lemma ProcessedGrouped(logFiles: seq<string>, zipFiles: seq<string>, keywords: seq<string>, disk: Disk, dir: string)
    ensures Grouped(Processed(logFiles, zipFiles, keywords, disk, dir))
  {
    MergeReadsGrouped(Nothing, CompileKeywordPatterns(keywords), SelectedReads(logFiles, zipFiles, disk, dir));
  }

  /** Every archive's matches come before those of the LOG files, each group in its own order. */
  lemma ZipsFirst(logFiles: seq<string>, zipFiles: seq<string>, keywords: seq<string>, disk: Disk, dir: string)
    ensures var ps := CompileKeywordPatterns(keywords);
            Processed(logFiles, zipFiles, keywords, disk, dir).all
            == AllLines(ps, ZipReads(zipFiles, disk, dir, map[]).scanned) + AllLines(ps, LogReads(logFiles, disk))
  {
    var ps := CompileKeywordPatterns(keywords);
    var z := ZipReads(zipFiles, disk, dir, map[]).scanned;
    MergeReadsAll(Nothing, ps, z + LogReads(logFiles, disk));
    AllLinesAppend(ps, z, LogReads(logFiles, disk));
  }

  // ----- run_summary_range -----

  const RangeTitle: string := "Vehicle Summary"
  const RangeHeading: string := "Vehicles has no LOG files in selected date range"

  /** The first component with a serial-folder name gives the serial. */
  function SerialFrom(parts: seq<string>): (r: Option<string>)
    ensures r.Some? ==> exists i :: 0 <= i < |parts| && SerialCapture(parts[i]) == r
  {
    if parts == [] then None
    else if SerialCapture(parts[0]).Some? then SerialCapture(parts[0])
    else
      assert forall i :: 0 <= i < |parts[1..]| ==> parts[1..][i] == parts[i + 1];
      SerialFrom(parts[1..])
  }

  /** `_serial_from_path`. */
  function SerialFromPath(p: string): Option<string> {
    SerialFrom(Parts(p))
  }

  /**
   * `_id_from_path`: the serial of the path, or else its first component
   * below the base path.  `resolve()` and `relative_to` are taken as a plain
   * prefix test on the path as given.
   */
  function IdFromPath(basePath: string, p: string): Option<string> {
    var sn := SerialFromPath(p);
    if sn.Some? && sn.value != "" then sn
    else
      var pre := DirPrefix(basePath);
      if StartsWith(p, pre) && Parts(p[|pre|..]) != [] then Some(Parts(p[|pre|..])[0]) else None
  }

  /** The ids that `credit` collects from `paths`, in order and with repeats. */
  function Credited(paths: seq<string>, id: string -> Option<string>): seq<string> {
    if paths == [] then []
    else
      var d := id(paths[|paths| - 1]);
      Credited(paths[..|paths| - 1], id) + (if d.Some? && d.value != "" then [d.value] else [])
  }

  lemma {:induction false} CreditedMembers(paths: seq<string>, id: string -> Option<string>, x: string)
    ensures x in Credited(paths, id) <==> x != "" && exists i :: 0 <= i < |paths| && id(paths[i]) == Some(x)
  {
    if paths != [] {
      var n := |paths|;
      var init := paths[..n - 1];
      CreditedMembers(init, id, x);
      var d := id(paths[n - 1]);
      var last := if d.Some? && d.value != "" then [d.value] else [];
      assert Credited(paths, id) == Credited(init, id) + last;
      assert x in Credited(init, id) + last <==> x in Credited(init, id) || x in last;
      if x != "" && exists i :: 0 <= i < n && id(paths[i]) == Some(x) {
        var i :| 0 <= i < n && id(paths[i]) == Some(x);
        if i < n - 1 {
          assert init[i] == paths[i];
        }
      }
      if x != "" && exists i :: 0 <= i < n - 1 && id(init[i]) == Some(x) {
        var i :| 0 <= i < n - 1 && id(init[i]) == Some(x);
        assert init[i] == paths[i];
      }
    }
  }

  function IdOf(basePath: string): string -> Option<string> {
    p => IdFromPath(basePath, p)
  }

  /** The ids that `serials_with_logs` collects from `paths`. */
  function FoundIds(basePath: string, paths: seq<string>): seq<string> {
    Credited(paths, IdOf(basePath))
  }

  /** The id of each path that has one is found, and nothing else is. */
  lemma FoundIdsMembers(basePath: string, paths: seq<string>, x: string)
    ensures x in FoundIds(basePath, paths) <==> x != "" && exists i :: 0 <= i < |paths| && IdFromPath(basePath, paths[i]) == Some(x)
  {
    CreditedMembers(paths, IdOf(basePath), x);
  }

  /** The output of the run: the page and the name of the file it goes to. */
  datatype Output = Output(file: string, page: string)

  /**
   * `run_summary_range`: nothing when no id is left after stripping;
   * otherwise the page over the matches of the LOG files and then of the
   * archives, with the ids of the located files as the ids with logs.
   */
  function SummaryRun(basePath: string, tree: Option<seq<Node>>, serials: seq<string>, from: Option<Date>, to: Option<Date>,
                      includeZips: bool, today: Date, prefix: string, keywords: seq<string>, title: string,
                      disk: Disk, dir: string): Option<Output>
  {
    var ids := Cleaned(serials);
    if ids == [] then None
    else
      match Located(basePath, tree, ids, from, to, includeZips, today)
      case Err(_) => None
      case Ok(found) =>
        var ps := CompileKeywordPatterns(keywords);
        var all := RangeLines(ps, found, disk, dir);
        var with := FoundIds(basePath, found.logs) + FoundIds(basePath, found.zips);
        Some(Output(prefix + "_summary.html", SummaryHtml(all, ids, with, title, RangeHeading)))
  }

  /** The matches of the run: the LOG files first, then the logs of each archive. */
  function RangeLines(ps: seq<KeywordPattern>, found: Found, disk: Disk, dir: string): seq<MatchedLine> {
    AllLines(ps, LogReads(found.logs, disk) + ZipReads(found.zips, disk, dir, map[]).scanned)
  }

  /** Both loops of `run_summary_range`. */
  method ReadFound(ps: seq<KeywordPattern>, basePath: string, found: Found, disk: Disk, dir: string)
    returns (with: seq<string>, all: seq<MatchedLine>)
    ensures with == FoundIds(basePath, found.logs) + FoundIds(basePath, found.zips)
    ensures all == RangeLines(ps, found, disk, dir)
  {
    var withLogs, logLines := ReadLogs(ps, basePath, found.logs, disk);
    var withZips: seq<string> := [];
    var zipLines: seq<MatchedLine> := [];
    if found.zips != [] {
      var scratch := new ScratchDir(dir);
      withZips, zipLines := ReadZips(ps, basePath, found.zips, disk, scratch);
    }
    AllLinesAppend(ps, LogReads(found.logs, disk), ZipReads(found.zips, disk, dir, map[]).scanned);
    with, all := withLogs + withZips, logLines + zipLines;
  }

  /** The LOG loop of `run_summary_range`. */
  method ReadLogs(ps: seq<KeywordPattern>, basePath: string, logs: seq<string>, disk: Disk)
    returns (with: seq<string>, all: seq<MatchedLine>)
    ensures with == FoundIds(basePath, logs) && all == AllLines(ps, LogReads(logs, disk))
  {
    with, all := [], [];
    ghost var rs := LogReads(logs, disk);
    for i := 0 to |logs|
      invariant with == FoundIds(basePath, logs[..i]) && all == AllLines(ps, rs[..i])
    {
      assert logs[..i + 1][..i] == logs[..i];
      assert rs[..i + 1][..i] == rs[..i];
      var id := IdFromPath(basePath, logs[i]);
      if id.Some? && id.value != "" {
        with := with + [id.value];
      }
      var lines := FilterLogFile(logs[i], ps, LogContent(disk, logs[i]));
      all := all + lines;
    }
    assert logs[..|logs|] == logs;
    assert rs[..|logs|] == rs;
  }

  /** The lines of the paths one archive gave back. */
  method ReadExtracted(ps: seq<KeywordPattern>, dir: ScratchDir, paths: seq<string>) returns (lines: seq<MatchedLine>)
    ensures lines == AllLines(ps, Extracted(dir.path, dir.files, paths))
  {
    lines := [];
    ghost var rs := Extracted(dir.path, dir.files, paths);
    for i := 0 to |paths|
      invariant lines == AllLines(ps, rs[..i])
    {
      assert rs[..i + 1][..i] == rs[..i];
      var found := FilterLogFile(paths[i], ps, ScratchContent(dir.path, dir.files, paths[i]));
      lines := lines + found;
    }
    assert rs[..|paths|] == rs;
  }

  /** The archive loop of `run_summary_range`. */
  method ReadZips(ps: seq<KeywordPattern>, basePath: string, zips: seq<string>, disk: Disk, dir: ScratchDir)
    returns (with: seq<string>, all: seq<MatchedLine>)
    modifies dir
    ensures var z := ZipReads(zips, disk, dir.path, old(dir.files));
            with == FoundIds(basePath, zips) && all == AllLines(ps, z.scanned) && dir.files == z.files
  {
    with, all := [], [];
    for k := 0 to |zips|
      invariant var z := ZipReads(zips[..k], disk, dir.path, old(dir.files));
                with == FoundIds(basePath, zips[..k]) && all == AllLines(ps, z.scanned) && dir.files == z.files
    {
      assert zips[..k + 1][..k] == zips[..k];
      ghost var z := ZipReads(zips[..k], disk, dir.path, old(dir.files));
      var id := IdFromPath(basePath, zips[k]);
      if id.Some? && id.value != "" {
        with := with + [id.value];
      }
      var extracted := ExtractLogFiles(zips[k], ArchiveAt(disk, zips[k]), dir);
      var lines := ReadExtracted(ps, dir, extracted);
      AllLinesAppend(ps, z.scanned, Extracted(dir.path, dir.files, extracted));
      all := all + lines;
    }
    assert zips[..|zips|] == zips;
  }

  /** A stripped, non-blank id is its own strip. */
  lemma StripStripped(s: string)
    ensures Strip(Strip(s)) == Strip(s)
  {
    StripEnds(s);
    StripUnchanged(Strip(s));
  }

  /** With an id left after stripping, locating the files cannot fail. */
  lemma CleanedLocates(basePath: string, tree: Option<seq<Node>>, serials: seq<string>, from: Option<Date>, to: Option<Date>,
                       includeZips: bool, today: Date)
    requires Cleaned(serials) != []
    ensures Located(basePath, tree, Cleaned(serials), from, to, includeZips, today).Ok?
  {
    var ids := Cleaned(serials);
    CleanedMembers(serials, ids[0]);
    var i :| 0 <= i < |serials| && Strip(serials[i]) == ids[0];
    StripStripped(serials[i]);
    ErrorIffNoIdentity(basePath, tree, ids, from, to, includeZips, today);
    assert ids[0] in ids;
  }

  /** `run_summary_range`; `dir` is the name `tempfile.mkdtemp()` gives the scratch directory. */
  method RunSummaryRange(basePath: string, tree: Option<seq<Node>>, serials: seq<string>, from: Option<Date>, to: Option<Date>,
                         includeZips: bool, today: Date, prefix: string, keywords: seq<string>, title: string,
                         disk: Disk, dir: string)
    returns (out: Option<Output>)
    ensures out == SummaryRun(basePath, tree, serials, from, to, includeZips, today, prefix, keywords, title, disk, dir)
  {
    var ids := Cleaned(serials);
    if ids == [] {
      return None;
    }
    var located := FindFilesBySerialAndDate(basePath, tree, ids, from, to, includeZips, today);
    CleanedLocates(basePath, tree, serials, from, to, includeZips, today);
    var found := located.value;
    var ps := CompileKeywordPatterns(keywords);
    var with, all := ReadFound(ps, basePath, located.value, disk, dir);
    var page := WriteVehicleSummaryHtml(all, ids, with, title, RangeHeading);
    out := Some(Output(prefix + "_summary.html", page));
  }

  /** With no id left after stripping, the run writes nothing and does not fail. */
  lemma NoIdsNoSummary(basePath: string, tree: Option<seq<Node>>, serials: seq<string>, from: Option<Date>, to: Option<Date>,
                       includeZips: bool, today: Date, prefix: string, keywords: seq<string>, title: string,
                       disk: Disk, dir: string)
    requires forall s :: s in serials ==> Strip(s) == ""
    ensures SummaryRun(basePath, tree, serials, from, to, includeZips, today, prefix, keywords, title, disk, dir).None?
  {
    if Cleaned(serials) != [] {
      CleanedMembers(serials, Cleaned(serials)[0]);
      assert false;
    }
  }

  /** The first component with a serial-folder name decides the id. */
  lemma {:induction false} SerialFromFirst(parts: seq<string>, i: nat)
    requires i < |parts| && SerialCapture(parts[i]).Some?
    requires forall j :: 0 <= j < i ==> SerialCapture(parts[j]).None?
    ensures SerialFrom(parts) == SerialCapture(parts[i])
  {
    if i > 0 {
      SerialFromFirst(parts[1..], i - 1);
    }
  }

  predicate NoSlash(s: string) {
    forall k :: 0 <= k < |s| ==> s[k] != '/'
  }

  /** Two names without '/' joined by one '/' are the two components. */
  lemma PartsTwo(a: string, b: string)
    requires a != "" && b != "" && NoSlash(a) && NoSlash(b)
    ensures Parts(a + "/" + b) == [a, b]
  {
    var p := a + "/" + b;
    assert p[|a|] == '/';
    forall k | |a| < k < |p| ensures p[k] != '/' {
      assert p[k] == b[k - |a| - 1];
    }
    assert LastIndexOf(p, '/') == |a|;
    assert p[..|a|] == a && p[|a| + 1..] == b;
    var r := LastIndexOf(a, '/');
    assert r < 0;
  }

  lemma PrefixedPath(pre: string, folder: string, name: string)
    ensures var p := pre + folder + "/" + name;
            StartsWith(p, pre) && p[|pre|..] == folder + "/" + name
  {
    var p := pre + folder + "/" + name;
    assert p == pre + (folder + "/" + name);
  }

  /** Below the base path and without a serial, a path is credited to its first component there. */
  lemma IdBelowBase(basePath: string, p: string, rest: string)
    requires SerialFromPath(p).None?
    requires StartsWith(p, DirPrefix(basePath)) && p[|DirPrefix(basePath)|..] == rest && Parts(rest) != []
    ensures IdFromPath(basePath, p) == Some(Parts(rest)[0])
  {
  }

  /**
   * A file directly in a vehicle folder under the base path, with no
   * serial-folder name on its path, is credited to that folder.
   */
  lemma VehicleFolderId(basePath: string, folder: string, name: string)
    requires folder != "" && name != "" && NoSlash(folder) && NoSlash(name)
    requires SerialFromPath(DirPrefix(basePath) + folder + "/" + name).None?
    ensures IdFromPath(basePath, DirPrefix(basePath) + folder + "/" + name) == Some(folder)
  {
    var pre := DirPrefix(basePath);
    var rest := folder + "/" + name;
    var p := pre + folder + "/" + name;
    PrefixedPath(pre, folder, name);
    PartsTwo(folder, name);
    IdBelowBase(basePath, p, rest);
  }
}
