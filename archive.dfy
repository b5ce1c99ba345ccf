/**
 * Extracting the log files of an archive into the scratch directory
 * (`extract_log_files_from_zip`): which entries are taken, where each one is
 * written, when a nested entry is renamed to `{base}_{archive}{ext}`, and the
 * list of paths handed back.
 */
module Archive {
  import opened Wrappers
  import opened Text
  import opened Sorting

  /** An archive member: its stored name and the lines it holds. */
  datatype Entry = Entry(name: string, lines: seq<string>)

  /** The names of the members, in archive order (`namelist()`). */
  function Names(entries: seq<Entry>): (ns: seq<string>)
    ensures |ns| == |entries| && forall k :: 0 <= k < |ns| ==> ns[k] == entries[k].name
  {
    seq(|entries|, k requires 0 <= k < |entries| => entries[k].name)
  }

  /** What extracting `name` writes: the last member stored under that name, as `getinfo` picks it. */
  function MemberLines(entries: seq<Entry>, name: string): seq<string>
  {
    if entries == [] then []
    else if entries[|entries| - 1].name == name then entries[|entries| - 1].lines
    else MemberLines(entries[..|entries| - 1], name)
  }

  /** The test of the comprehension below. */
  predicate IsLogEntry(n: string) {
    EndsWith(Upper(n), ".LOG")
  }

  /** `logs = [n for n in names if n.upper().endswith('.LOG')]`. */
  function LogNames(names: seq<string>): (logs: seq<string>)
    ensures forall n :: n in logs <==> n in names && IsLogEntry(n)
    ensures logs == Filter(names, IsLogEntry)
    ensures |logs| <= |names|
  {
    if names == [] then []
    else
      var init, n := names[..|names| - 1], names[|names| - 1];
      assert names == init + [n];
      FilterAppend(init, [n], IsLogEntry);
      LogNames(init) + if IsLogEntry(n) then [n] else []
  }

  // ----- paths inside the scratch directory -----

  /** The '/'-separated components of a relative path, joined back together. */
  function JoinAll(ps: seq<string>): string
  {
    if ps == [] then ""
    else if |ps| == 1 then ps[0]
    else JoinAll(ps[..|ps| - 1]) + "/" + ps[|ps| - 1]
  }

  /** The components that `zipfile` keeps when it extracts: it drops empty, "." and ".." ones. */
  function KeptParts(ps: seq<string>): (kept: seq<string>)
    ensures forall p :: p in kept <==> p in ps && p != "." && p != ".."
  {
    if ps == [] then []
    else
      var p := ps[|ps| - 1];
      assert ps == ps[..|ps| - 1] + [p];
      KeptParts(ps[..|ps| - 1]) + if p != "." && p != ".." then [p] else []
  }

  /** Where `zf.extract(name, temp_dir)` writes the member, relative to the scratch directory. */
  function ExtractTarget(name: string): string {
    JoinAll(KeptParts(Parts(name)))
  }

  /** Lexical resolution of the components: "." stays, ".." goes up; None once it leaves the top. */
  function ResolveParts(ps: seq<string>): Option<seq<string>>
  {
    if ps == [] then Some([])
    else
      var p := ps[|ps| - 1];
      match ResolveParts(ps[..|ps| - 1])
      case None => None
      case Some(st) =>
        if p == "." then Some(st)
        else if p == ".." then (if st == [] then None else Some(st[..|st| - 1]))
        else Some(st + [p])
  }

  /**
   * The file `os.path.join(temp_dir, name)` denotes, relative to the scratch
   * directory; None when it lies outside it (an absolute name, or too many "..").
   */
  function Resolve(name: string): Option<string>
  {
    if StartsWith(name, "/") then None
    else match ResolveParts(Parts(name))
      case None => None
      case Some(st) => Some(JoinAll(st))
  }

  /** `f"{base}_{os.path.basename(zip_path)}{ext}"` for the entry's base name. */
  function RenamedName(log: string, zipPath: string): string
  {
    var (base, ext) := SplitExt(Basename(log));
    base + "_" + Basename(zipPath) + ext
  }

  /** `shutil.move` within the scratch directory: the file leaves `src` and replaces whatever `dst` held. */
  function Move(files: map<string, seq<string>>, src: string, dst: string): map<string, seq<string>>
    requires src in files
  {
    (files - {src})[dst := files[src]]
  }

  // ----- the extraction loop -----

  /**
   * The paths returned so far, the scratch directory's files (by path relative
   * to it) and whether an error ended the loop.
   */
  datatype Outcome = Outcome(extracted: seq<string>, files: map<string, seq<string>>, failed: bool)

  /** What one round of the loop returns (None where it raises) and leaves in the scratch directory. */
  datatype Round = Round(path: Option<string>, files: map<string, seq<string>>)

  /** One round of the loop for the entry `log`, in the scratch directory holding `files`. */
  function ExtractOne(zipPath: string, entries: seq<Entry>, tempPath: string, log: string,
                      files: map<string, seq<string>>): Round
  {
    var written := files[ExtractTarget(log) := MemberLines(entries, log)];
    if !Contains(log, "/") then Round(Some(Join(tempPath, log)), written)
    else
      var dst := if Basename(log) in written then RenamedName(log, zipPath) else Basename(log);
      var src := Resolve(log);
      if src.None? || src.value !in written then Round(None, written)
      else Round(Some(Join(tempPath, dst)), Move(written, src.value, dst))
  }

  /** The loop over `logs`, which stops at the first error. */
  function ExtractAll(zipPath: string, entries: seq<Entry>, tempPath: string, logs: seq<string>,
                      files: map<string, seq<string>>): Outcome
  {
    if logs == [] then Outcome([], files, false)
    else
      var o := ExtractAll(zipPath, entries, tempPath, logs[..|logs| - 1], files);
      if o.failed then o
      else
        var r := ExtractOne(zipPath, entries, tempPath, logs[|logs| - 1], o.files);
        match r.path
        case None => Outcome(o.extracted, r.files, true)
        case Some(p) => Outcome(o.extracted + [p], r.files, false)
  }

  /**
   * `extract_log_files_from_zip(zip_path, temp_dir)`: `archive` is None when it
   * is not a valid archive; `files` is the scratch directory before the call.
   */
  function ExtractSpec(zipPath: string, archive: Option<seq<Entry>>, tempPath: string,
                       files: map<string, seq<string>>): Outcome
  {
    match archive
    case None => Outcome([], files, true)
    case Some(entries) =>
      var logs := LogNames(Names(entries));
      if logs == [] then Outcome([], files, false)
      else ExtractAll(zipPath, entries, tempPath, logs, files)
  }

  /** The scratch directory (`tempfile.mkdtemp()`), holding files by their path relative to it. */
  class ScratchDir {
    const path: string
    var files: map<string, seq<string>>

    constructor(path: string)
      ensures this.path == path && files == map[]
    {
      this.path := path;
      files := map[];
    }

    /** `zf.extract(log, temp_dir)`: the member is written, replacing any file at its target. */
    method Extract(entries: seq<Entry>, log: string)
      modifies this
      ensures files == old(files)[ExtractTarget(log) := MemberLines(entries, log)]
    {
      files := files[ExtractTarget(log) := MemberLines(entries, log)];
    }

    /** `shutil.move(src, dst)`; false where it raises because `src` is not there. */
    method MoveFile(src: Option<string>, dst: string) returns (ok: bool)
      modifies this
      ensures ok <==> src.Some? && src.value in old(files)
      ensures ok ==> files == Move(old(files), src.value, dst)
      ensures !ok ==> files == old(files)
    {
      if src.None? || src.value !in files {
        return false;
      }
      files := Move(files, src.value, dst);
      ok := true;
    }
  }

  lemma {:induction false} FailedStays(zipPath: string, entries: seq<Entry>, tempPath: string, logs: seq<string>,
                                       files: map<string, seq<string>>, k: nat)
    requires k <= |logs| && ExtractAll(zipPath, entries, tempPath, logs[..k], files).failed
    ensures ExtractAll(zipPath, entries, tempPath, logs, files) == ExtractAll(zipPath, entries, tempPath, logs[..k], files)
    decreases |logs| - k
  {
    if k < |logs| {
      assert logs[..k + 1][..k] == logs[..k];
      FailedStays(zipPath, entries, tempPath, logs, files, k + 1);
    } else {
      assert logs[..k] == logs;
    }
  }

  /** One round of the loop: extract the entry, and move it up to the top when it is nested. */
  method ExtractEntry(zipPath: string, entries: seq<Entry>, log: string, dir: ScratchDir)
    returns (path: Option<string>)
    modifies dir
    ensures Round(path, dir.files) == ExtractOne(zipPath, entries, dir.path, log, old(dir.files))
  {
    dir.Extract(entries, log);
    var dst := Join(dir.path, Basename(log));
    if !Contains(log, "/") { BasenameOfName(log); }
    // `os.path.dirname(log) or src != dst` holds exactly when the name has a '/'.
    if Contains(log, "/") {
      var dstName := Basename(log);
      if dstName in dir.files {
        dstName := RenamedName(log, zipPath);
      }
      dst := Join(dir.path, dstName);
      var moved := dir.MoveFile(Resolve(log), dstName);
      if !moved {
        return None;
      }
    }
    path := Some(dst);
  }

  /** `extract_log_files_from_zip`: the loop over the log entries. */
  method ExtractLogFiles(zipPath: string, archive: Option<seq<Entry>>, dir: ScratchDir)
    returns (extracted: seq<string>)
    modifies dir
    ensures var o := ExtractSpec(zipPath, archive, dir.path, old(dir.files));
            extracted == o.extracted && dir.files == o.files
  {
    extracted := [];
    if archive.None? {
      return;
    }
    var entries := archive.value;
    var logs := LogNames(Names(entries));
    if logs == [] {
      return;
    }
    ghost var start := dir.files;
    for k := 0 to |logs|
      invariant Outcome(extracted, dir.files, false) == ExtractAll(zipPath, entries, dir.path, logs[..k], start)
    {
      assert logs[..k + 1][..k] == logs[..k];
      var path := ExtractEntry(zipPath, entries, logs[k], dir);
      if path.None? {
        FailedStays(zipPath, entries, dir.path, logs, start, k + 1);
        return;
      }
      extracted := extracted + [path.value];
    }
    assert logs[..|logs|] == logs;
  }

  // ----- what the extraction promises -----

  /** An invalid archive, or one without log entries, gives no paths and leaves the directory alone. */
  lemma NothingToExtract(zipPath: string, archive: Option<seq<Entry>>, tempPath: string, files: map<string, seq<string>>)
    requires archive.Some? ==> forall e :: e in archive.value ==> !EndsWith(Upper(e.name), ".LOG")
    ensures ExtractSpec(zipPath, archive, tempPath, files).extracted == []
    ensures ExtractSpec(zipPath, archive, tempPath, files).files == files
  {
    if archive.Some? {
      var es := archive.value;
      forall n | n in Names(es) ensures !EndsWith(Upper(n), ".LOG") {
        var k :| 0 <= k < |es| && Names(es)[k] == n;
        assert es[k] in es;
      }
      LogNamesNone(Names(es));
    }
  }

  lemma {:induction false} LogNamesNone(names: seq<string>)
    requires forall n :: n in names ==> !EndsWith(Upper(n), ".LOG")
    ensures LogNames(names) == []
  {
    if names != [] {
      var init := names[..|names| - 1];
      forall n | n in init ensures !EndsWith(Upper(n), ".LOG") {
        var i :| 0 <= i < |init| && init[i] == n;
        assert names[i] in names;
      }
      LogNamesNone(init);
      assert names[|names| - 1] in names;
    }
  }

  /** The path a round returns for `log`: the name itself at the top, else its base name or the renamed one. */
  predicate ReturnedFor(zipPath: string, tempPath: string, log: string, p: string) {
    if Contains(log, "/") then p == Join(tempPath, Basename(log)) || p == Join(tempPath, RenamedName(log, zipPath))
    else p == Join(tempPath, log)
  }

  /** A round returns the path `ReturnedFor` names, and can fail only for a nested entry. */
  lemma RoundShape(zipPath: string, entries: seq<Entry>, tempPath: string, log: string, files: map<string, seq<string>>)
    ensures var r := ExtractOne(zipPath, entries, tempPath, log, files);
            && (r.path.Some? ==> ReturnedFor(zipPath, tempPath, log, r.path.value))
            && (r.path.None? ==> Contains(log, "/"))
  {
  }

  /** One path per entry until an error stops the loop, and only a nested entry can fail. */
  lemma {:induction false} ExtractAllCount(zipPath: string, entries: seq<Entry>, tempPath: string, logs: seq<string>,
                                           files: map<string, seq<string>>)
    ensures var o := ExtractAll(zipPath, entries, tempPath, logs, files);
            && |o.extracted| <= |logs|
            && (!o.failed ==> |o.extracted| == |logs|)
            && (o.failed ==> |o.extracted| < |logs| && Contains(logs[|o.extracted|], "/"))
  {
    if logs != [] {
      var n := |logs|;
      ExtractAllCount(zipPath, entries, tempPath, logs[..n - 1], files);
      var o := ExtractAll(zipPath, entries, tempPath, logs[..n - 1], files);
      if !o.failed {
        RoundShape(zipPath, entries, tempPath, logs[n - 1], o.files);
      }
    }
  }

  /** The last round of the loop either adds nothing or adds the path `ReturnedFor` names. */
  lemma ExtractAllLast(zipPath: string, entries: seq<Entry>, tempPath: string, logs: seq<string>,
                       files: map<string, seq<string>>)
    requires logs != []
    ensures var o := ExtractAll(zipPath, entries, tempPath, logs[..|logs| - 1], files);
            var full := ExtractAll(zipPath, entries, tempPath, logs, files);
            || full.extracted == o.extracted
            || (&& full.extracted == o.extracted + [full.extracted[|o.extracted|]]
                && ReturnedFor(zipPath, tempPath, logs[|logs| - 1], full.extracted[|o.extracted|]))
  {
    var o := ExtractAll(zipPath, entries, tempPath, logs[..|logs| - 1], files);
    RoundShape(zipPath, entries, tempPath, logs[|logs| - 1], o.files);
  }

  /** The `i`-th path is the `i`-th log entry's: a top-level entry is never renamed. */
  lemma {:induction false} ExtractAllPaths(zipPath: string, entries: seq<Entry>, tempPath: string, logs: seq<string>,
                                           files: map<string, seq<string>>, i: nat)
    requires i < |ExtractAll(zipPath, entries, tempPath, logs, files).extracted| && i < |logs|
    ensures ReturnedFor(zipPath, tempPath, logs[i], ExtractAll(zipPath, entries, tempPath, logs, files).extracted[i])
  {
    var n := |logs|;
    var init := logs[..n - 1];
    ExtractAllLast(zipPath, entries, tempPath, logs, files);
    var o := ExtractAll(zipPath, entries, tempPath, init, files);
    var full := ExtractAll(zipPath, entries, tempPath, logs, files);
    if i < |o.extracted| {
      ExtractAllCount(zipPath, entries, tempPath, init, files);
      ExtractAllPaths(zipPath, entries, tempPath, init, files, i);
      assert init[i] == logs[i];
      assert full.extracted[i] == o.extracted[i];
    } else {
      ExtractAllCount(zipPath, entries, tempPath, init, files);
      assert i == n - 1;
    }
  }

  /** A name `zipfile` extracts to the very place that `os.path.join(temp_dir, name)` denotes. */
  predicate Clean(name: string) {
    !StartsWith(name, "/") && forall p :: p in Parts(name) ==> p != "." && p != ".."
  }

  lemma {:induction false} KeptPartsClean(ps: seq<string>)
    requires forall p :: p in ps ==> p != "." && p != ".."
    ensures KeptParts(ps) == ps
  {
    if ps != [] {
      assert ps == ps[..|ps| - 1] + [ps[|ps| - 1]];
      var init := ps[..|ps| - 1];
      forall p | p in init ensures p != "." && p != ".." {
        var i :| 0 <= i < |init| && init[i] == p;
        assert ps[i] in ps;
      }
      KeptPartsClean(init);
      assert ps[|ps| - 1] in ps;
    }
  }

  lemma {:induction false} ResolvePartsClean(ps: seq<string>)
    requires forall p :: p in ps ==> p != "." && p != ".."
    ensures ResolveParts(ps) == Some(ps)
  {
    if ps != [] {
      assert ps == ps[..|ps| - 1] + [ps[|ps| - 1]];
      var init := ps[..|ps| - 1];
      forall p | p in init ensures p != "." && p != ".." {
        var i :| 0 <= i < |init| && init[i] == p;
        assert ps[i] in ps;
      }
      ResolvePartsClean(init);
      assert ps[|ps| - 1] in ps;
    }
  }

  /** A clean entry name is moved from exactly where it was written. */
  lemma CleanResolvesToTarget(name: string)
    requires Clean(name)
    ensures Resolve(name) == Some(ExtractTarget(name))
  {
    KeptPartsClean(Parts(name));
    ResolvePartsClean(Parts(name));
  }

  /** A name written without a leading '/' and without empty, "." or ".." components. */
  predicate Canonical(name: string) {
    Clean(name) && JoinAll(Parts(name)) == name
  }

  /** Such a name is extracted to, and moved from, the name itself. */
  lemma CanonicalTarget(name: string)
    requires Canonical(name)
    ensures ExtractTarget(name) == name && Resolve(name) == Some(name)
  {
    KeptPartsClean(Parts(name));
    CleanResolvesToTarget(name);
  }

  /** The base name of a nested name is shorter than the name. */
  lemma NestedBaseShorter(log: string)
    requires Contains(log, "/")
    ensures |Basename(log)| < |log|
  {
    var i :| 0 <= i <= |log| - 1 && OccursAt(log, "/", i);
    assert log[i] == log[i..i + 1][0];
    assert LastIndexOf(log, '/') >= i;
  }

  /** The renamed name is longer than the base name, so the two never coincide. */
  lemma RenamedLonger(log: string, zipPath: string)
    ensures |RenamedName(log, zipPath)| > |Basename(log)|
  {
    SplitExtJoins(Basename(log));
  }

  /** Neither name a nested entry is moved to starts with '/'. */
  lemma MovedNamesRelative(log: string, zipPath: string)
    ensures !StartsWith(Basename(log), "/") && !StartsWith(RenamedName(log, zipPath), "/")
  {
    var b := Basename(log);
    var (stem, ext) := SplitExt(b);
    SplitExtJoins(b);
    if b != [] {
      assert b[0] == log[LastIndexOf(log, '/') + 1];
      assert b[..1] != "/";
    }
    var renamed := RenamedName(log, zipPath);
    if stem != [] {
      assert renamed[0] == stem[0] == b[0];
    } else {
      assert renamed[0] == '_';
    }
    assert renamed[..1] != "/";
  }

  /**
   * One round for a plainly written name.  A top-level entry is written and
   * returned under its own name.  A nested entry is moved to its base name
   * when no file has that name yet, and otherwise to `{base}_{zip}{ext}`,
   * leaving the file already at the base name as it was.  Either way the
   * returned name holds the entry's lines and nothing else changes.
   */
  lemma RoundRename(zipPath: string, entries: seq<Entry>, tempPath: string, log: string,
                    files: map<string, seq<string>>)
    requires Canonical(log)
    ensures var r := ExtractOne(zipPath, entries, tempPath, log, files);
            var lines, base, renamed := MemberLines(entries, log), Basename(log), RenamedName(log, zipPath);
            if !Contains(log, "/") then
              r == Round(Some(Join(tempPath, log)), files[log := lines])
            else if base !in files then
              r == Round(Some(Join(tempPath, base)), (files - {log})[base := lines])
            else
              && r == Round(Some(Join(tempPath, renamed)), (files - {log})[renamed := lines])
              && r.files[base] == files[base]
  {
    CanonicalTarget(log);
    if Contains(log, "/") {
      var lines, base, renamed := MemberLines(entries, log), Basename(log), RenamedName(log, zipPath);
      var written := files[log := lines];
      NestedBaseShorter(log);
      RenamedLonger(log, zipPath);
      assert base != log && renamed != base;
      assert base in written <==> base in files;
      assert written - {log} == files - {log};
    }
  }

  /** With clean entry names no round fails, so every log entry gives one path. */
  lemma {:induction false} CleanNamesAllExtracted(zipPath: string, entries: seq<Entry>, tempPath: string,
                                                  logs: seq<string>, files: map<string, seq<string>>)
    requires forall l :: l in logs ==> Clean(l)
    ensures !ExtractAll(zipPath, entries, tempPath, logs, files).failed
    ensures |ExtractAll(zipPath, entries, tempPath, logs, files).extracted| == |logs|
  {
    if logs != [] {
      var n := |logs|;
      assert forall l :: l in logs[..n - 1] ==> l in logs;
      CleanNamesAllExtracted(zipPath, entries, tempPath, logs[..n - 1], files);
      CleanResolvesToTarget(logs[n - 1]);
    }
  }
}
