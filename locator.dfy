/**
 * Locating log files by identity and date (`find_files_by_serial_and_date`):
 * the directory tree under the base path, the two folder conventions
 * (serial-number folders such as `ipelog2_82902308`, or one folder per vehicle
 * name), and the selection of `.LOG` and `.ZIP` files whose date window
 * overlaps the requested one.
 */
module Locator {
  import opened Wrappers
  import opened Text
  import opened Sorting
  import opened Dates

  // ----- the directory tree -----

  /**
   * A directory entry.  A file carries the day of its modification time, or
   * None when it cannot be read (`os.path.getmtime` raising).
   */
  datatype Node = File(name: string, mtime: Option<Date>) | Dir(name: string, children: seq<Node>)

  /** A file as `os.walk` reports it: its joined path, its own name and its mtime day. */
  datatype FileRef = FileRef(path: string, name: string, mtime: Option<Date>)

  /** One `(root, dirs, files)` triple of `os.walk`, with the files already joined to `root`. */
  datatype WalkStep = WalkStep(root: string, files: seq<FileRef>)

  /** The files directly in a directory, in listing order. */
  function FilesOf(root: string, cs: seq<Node>): (fs: seq<FileRef>)
    ensures |fs| <= |cs|
    ensures forall f :: f in fs ==> exists c :: c in cs && c.File? && f == FileRef(Join(root, c.name), c.name, c.mtime)
  {
    if cs == [] then []
    else
      FilesOf(root, cs[..|cs| - 1])
      + match cs[|cs| - 1]
        case File(n, t) => [FileRef(Join(root, n), n, t)]
        case Dir(_, _) => []
  }

  /** The sub-directories of a directory, in listing order (`entry.is_dir()`). */
  function DirsOf(cs: seq<Node>): (ds: seq<Node>)
    ensures forall d :: d in ds <==> d in cs && d.Dir?
    ensures ds == Filter(cs, IsDir)
  {
    if cs == [] then []
    else
      var init, last := cs[..|cs| - 1], cs[|cs| - 1];
      assert cs == init + [last];
      FilterAppend(init, [last], IsDir);
      DirsOf(init) + (if last.Dir? then [last] else [])
  }

  /** The test of `DirsOf`. */
  predicate IsDir(c: Node) {
    c.Dir?
  }

  /** `os.walk(root)` top-down: this directory first, then each sub-directory's walk in order. */
  function Walk(root: string, cs: seq<Node>): seq<WalkStep>
    decreases cs, 1
  {
    [WalkStep(root, FilesOf(root, cs))] + WalkSubdirs(root, cs)
  }

  function WalkSubdirs(root: string, cs: seq<Node>): seq<WalkStep>
    decreases cs, 0
  {
    if cs == [] then []
    else
      var last := cs[|cs| - 1];
      WalkSubdirs(root, cs[..|cs| - 1])
      + match last
        case Dir(n, sub) => Walk(Join(root, n), sub)
        case File(_, _) => []
  }

  /** Every file the walk reports, in the order the loops meet them. */
  function StepFiles(steps: seq<WalkStep>): seq<FileRef>
  {
    if steps == [] then [] else StepFiles(steps[..|steps| - 1]) + steps[|steps| - 1].files
  }

  // ----- the serial-folder pattern -----

  /** The alternatives of `^(?:ipelog|ipelog2|ipelogger|logger|ipelog3|arcos2)_?(?P<sn>\d+)$`, in order. */
  const SerialPrefixes: seq<string> := ["ipelog", "ipelog2", "ipelogger", "logger", "ipelog3", "arcos2"]

  /**
   * What `_?(\d+)$` matches: an optional '_', a non-empty run of digits, and the
   * end of the name or a final newline (where `$` also matches).
   */
  predicate SerialRest(rest: string, sn: string) {
    && sn != "" && AllDigits(sn)
    && (rest == sn || rest == "_" + sn || rest == sn + "\n" || rest == "_" + sn + "\n")
  }

  /** `(\d+)$` from index `j`: the digits, taken greedily, must reach the end. */
  function DigitsToEnd(s: string, j: nat): (r: Option<string>)
    requires j <= |s|
    ensures r.Some? ==> r.value != "" && AllDigits(r.value) && (s[j..] == r.value || s[j..] == r.value + "\n")
    ensures r.None? ==> forall sn :: sn != "" && AllDigits(sn) ==> s[j..] != sn && s[j..] != sn + "\n"
  {
    var e := RunEnd(s, j, IsDigit);
    if e > j && (e == |s| || (e == |s| - 1 && s[e] == '\n')) then
      assert s[j..] == s[j..e] || s[j..] == s[j..e] + "\n";
      Some(s[j..e])
    else
      None
  }

  /** `_?(\d+)$` after a prefix of length `j`, trying the '_' first as backtracking does. */
  function RestCapture(s: string, j: nat): (r: Option<string>)
    requires j <= |s|
    ensures r.Some? ==> SerialRest(s[j..], r.value)
    ensures r.None? ==> forall sn :: !SerialRest(s[j..], sn)
  {
    var withSep := if j < |s| && s[j] == '_' then DigitsToEnd(s, j + 1) else None;
    if withSep.Some? then
      assert s[j..] == "_" + s[j + 1..];
      withSep
    else
      var plain := DigitsToEnd(s, j);
      if plain.Some? then plain
      else
        None
  }

  /** The alternative `p` matches the start of `name`, ignoring ASCII case. */
  predicate PrefixMatch(name: string, p: string) {
    |p| <= |name| && Lower(name[..|p|]) == p
  }

  /** The first alternative, in order, after which the rest of the name matches. */
  function CaptureFrom(name: string, ps: seq<string>): (r: Option<string>)
    ensures r.Some? ==> exists p :: p in ps && PrefixMatch(name, p) && SerialRest(name[|p|..], r.value)
    ensures r.None? ==> forall p, sn :: p in ps && PrefixMatch(name, p) ==> !SerialRest(name[|p|..], sn)
  {
    if ps == [] then None
    else
      var p := ps[0];
      var here := if PrefixMatch(name, p) then RestCapture(name, |p|) else None;
      if here.Some? then here
      else
        var r := CaptureFrom(name, ps[1..]);
        assert forall q :: q in ps ==> q == p || q in ps[1..];
        r
  }

  /** `serial_folder_re.match(name).group("sn")`, or None when the folder name does not match. */
  function SerialCapture(name: string): (r: Option<string>)
    ensures r.Some? ==> exists p :: p in SerialPrefixes && PrefixMatch(name, p) && SerialRest(name[|p|..], r.value)
    ensures r.None? ==> forall p, sn :: p in SerialPrefixes && PrefixMatch(name, p) ==> !SerialRest(name[|p|..], sn)
  {
    CaptureFrom(name, SerialPrefixes)
  }

  // ----- what is looked for -----

  /** `{s.strip() for s in serials if s and s.strip()}`. */
  function IdSet(serials: seq<string>): (ids: set<string>)
    ensures forall x :: x in ids <==> x != "" && exists s :: s in serials && Strip(s) == x
  {
    set s | s in serials && Strip(s) != "" :: Strip(s)
  }

  /** `{s.upper() for s in serials_set}`. */
  function UpperSet(ids: set<string>): set<string> {
    set x | x in ids :: Upper(x)
  }

  /** The parameters every file is judged by. */
  datatype Query = Query(includeZips: bool, wanted: Window, today: Date)

  predicate IsLogName(name: string) { EndsWith(Upper(name), ".LOG") }

  predicate IsZipName(name: string) { EndsWith(Upper(name), ".ZIP") }

  function FileWindow(q: Query, f: FileRef): Window {
    FileDateWindow(f.path, f.mtime, q.today)
  }

  /** A file goes to the log list. */
  predicate WantLog(q: Query, f: FileRef) {
    IsLogName(f.name) && Overlaps(FileWindow(q, f), q.wanted)
  }

  /** A file goes to the archive list. */
  predicate WantZip(q: Query, f: FileRef) {
    !IsLogName(f.name) && q.includeZips && IsZipName(f.name) && Overlaps(FileWindow(q, f), q.wanted)
  }

  /** The two result lists of `find_files_by_serial_and_date`. */
  datatype Found = Found(logs: seq<string>, zips: seq<string>)

  function Cat(a: Found, b: Found): Found {
    Found(a.logs + b.logs, a.zips + b.zips)
  }

  lemma CatNone(a: Found)
    ensures Cat(a, Found([], [])) == a
  {
    assert a.logs + [] == a.logs && a.zips + [] == a.zips;
  }

  /** Which list a file goes to, if any. */
  datatype Kind = LogFile | ZipFile | Skipped

  /** The extension test and then the window test of the walk loop. */
  function Classify(q: Query, f: FileRef): Kind {
    if WantLog(q, f) then LogFile else if WantZip(q, f) then ZipFile else Skipped
  }

  function Classifier(q: Query): FileRef -> Kind {
    f => Classify(q, f)
  }

  /** The paths of the files `kind` keeps, each in the list it names, in order. */
  function Pick(fs: seq<FileRef>, kind: FileRef -> Kind): Found
  {
    if fs == [] then Found([], [])
    else Cat(Pick(fs[..|fs| - 1], kind), PickOne(fs[|fs| - 1], kind))
  }

  /** The lists one file adds to. */
  function PickOne(f: FileRef, kind: FileRef -> Kind): Found {
    match kind(f)
    case LogFile => Found([f.path], [])
    case ZipFile => Found([], [f.path])
    case Skipped => Found([], [])
  }

  /** Whether a folder under the base path is searched, in the convention in force. */
  predicate FolderSelected(serialMode: bool, ids: set<string>, name: string) {
    if serialMode then SerialCapture(name).Some? && SerialCapture(name).value in ids
    else Strip(name) != "" && Upper(Strip(name)) in UpperSet(ids)
  }

  /** Some folder name matches the serial pattern: the base path uses the serial convention. */
  predicate HasSerialFolders(entries: seq<Node>) {
    exists e :: e in entries && SerialCapture(e.name).Some?
  }

  function Selector(serialMode: bool, ids: set<string>): string -> bool {
    n => FolderSelected(serialMode, ids, n)
  }

  /** Every file reached by walking the selected folders, in the order the loops meet them. */
  function SelectedFiles(basePath: string, entries: seq<Node>, selected: string -> bool): seq<FileRef>
  {
    if entries == [] then []
    else SelectedFiles(basePath, entries[..|entries| - 1], selected) + Reached(basePath, entries[|entries| - 1], selected)
  }

  /** The files under one entry of the base path: all of a selected folder's, none otherwise. */
  function Reached(basePath: string, e: Node, selected: string -> bool): seq<FileRef> {
    if e.Dir? && selected(e.name) then StepFiles(Walk(Join(basePath, e.name), e.children)) else []
  }

  /**
   * What `find_files_by_serial_and_date` computes: an error when no identity
   * is left after stripping, two empty lists when the base path does not exist
   * (`tree` None), and otherwise the wanted files of the selected folders.
   */
  function Located(basePath: string, tree: Option<seq<Node>>, serials: seq<string>,
                   from: Option<Date>, to: Option<Date>, includeZips: bool, today: Date): Result<Found, string>
  {
    if IdSet(serials) == {} then Err("Minst ett serienummer/fordonsnamn krävs.")
    else if tree.None? then Ok(Found([], []))
    else Ok(Pick(SelectedFiles(basePath, DirsOf(tree.value), Selector(HasSerialFolders(DirsOf(tree.value)), IdSet(serials))),
                 Classifier(Query(includeZips, WantedWindow(from, to), today))))
  }

  // ----- the loops -----

  lemma {:induction false} PickCat(a: seq<FileRef>, b: seq<FileRef>, kind: FileRef -> Kind)
    ensures Pick(a + b, kind) == Cat(Pick(a, kind), Pick(b, kind))
    decreases |b|
  {
    if b != [] {
      var b' := b[..|b| - 1];
      assert (a + b)[..|a + b| - 1] == a + b';
      PickCat(a, b', kind);
    } else {
      assert a + b == a;
    }
  }

  /** The `for fname in files` loop of one walk step. */
  method PickFiles(q: Query, files: seq<FileRef>) returns (found: Found)
    ensures found == Pick(files, Classifier(q))
  {
    found := Found([], []);
    for k := 0 to |files|
      invariant found == Pick(files[..k], Classifier(q))
    {
      assert files[..k + 1][..k] == files[..k];
      var f := files[k];
      assert Pick(files[..k + 1], Classifier(q)) == Cat(found, PickOne(f, Classifier(q)));
      var upper := Upper(f.name);
      if !(EndsWith(upper, ".LOG") || (q.includeZips && EndsWith(upper, ".ZIP"))) {
        assert PickOne(f, Classifier(q)) == Found([], []);
        CatNone(found);
        continue;
      }
      var window := FileDateWindow(f.path, f.mtime, q.today);
      if Overlaps(window, q.wanted) {
        if EndsWith(upper, ".LOG") {
          assert PickOne(f, Classifier(q)) == Found([f.path], []);
          assert found.zips + [] == found.zips;
          found := found.(logs := found.logs + [f.path]);
        } else {
          assert PickOne(f, Classifier(q)) == Found([], [f.path]);
          assert found.logs + [] == found.logs;
          found := found.(zips := found.zips + [f.path]);
        }
      } else {
        assert PickOne(f, Classifier(q)) == Found([], []);
        CatNone(found);
      }
    }
    assert files[..|files|] == files;
  }

  /** The `for root, dirs, files in os.walk(entry.path)` loop. */
  method PickWalk(q: Query, steps: seq<WalkStep>) returns (found: Found)
    ensures found == Pick(StepFiles(steps), Classifier(q))
  {
    found := Found([], []);
    for k := 0 to |steps|
      invariant found == Pick(StepFiles(steps[..k]), Classifier(q))
    {
      assert steps[..k + 1][..k] == steps[..k];
      var here := PickFiles(q, steps[k].files);
      PickCat(StepFiles(steps[..k]), steps[k].files, Classifier(q));
      found := Cat(found, here);
    }
    assert steps[..|steps|] == steps;
  }

  /** The loop over the folders of the base path, in either convention. */
  method PickFolders(q: Query, basePath: string, entries: seq<Node>, serialMode: bool, ids: set<string>)
    returns (found: Found)
    ensures found == Pick(SelectedFiles(basePath, entries, Selector(serialMode, ids)), Classifier(q))
  {
    found := Found([], []);
    var upperIds := UpperSet(ids);
    for k := 0 to |entries|
      invariant found == Pick(SelectedFiles(basePath, entries[..k], Selector(serialMode, ids)), Classifier(q))
    {
      assert entries[..k + 1][..k] == entries[..k];
      var entry := entries[k];
      var before := SelectedFiles(basePath, entries[..k], Selector(serialMode, ids));
      assert SelectedFiles(basePath, entries[..k + 1], Selector(serialMode, ids)) == before + Reached(basePath, entry, Selector(serialMode, ids));
      if !entry.Dir? {
        assert before + [] == before;
        continue;
      }
      if serialMode {
        var m := SerialCapture(entry.name);
        if m.None? || m.value !in ids {
          assert before + [] == before;
          continue;
        }
      } else {
        var vehName := Strip(entry.name);
        if vehName == "" || Upper(vehName) !in upperIds {
          assert before + [] == before;
          continue;
        }
      }
      var files := StepFiles(Walk(Join(basePath, entry.name), entry.children));
      var here := PickWalk(q, Walk(Join(basePath, entry.name), entry.children));
      PickCat(before, files, Classifier(q));
      found := Cat(found, here);
    }
    assert entries[..|entries|] == entries;
  }

  /**
   * `find_files_by_serial_and_date(base_path, serials, date_from, date_to, include_zips)`.
   * `tree` is the listing of the base path (None when it does not exist) and
   * `today` the local date that stands in for an unreadable modification time.
   */
  method FindFilesBySerialAndDate(basePath: string, tree: Option<seq<Node>>, serials: seq<string>,
                                  from: Option<Date>, to: Option<Date>, includeZips: bool, today: Date)
    returns (r: Result<Found, string>)
    ensures r == Located(basePath, tree, serials, from, to, includeZips, today)
  {
    var ids := IdSet(serials);
    if ids == {} {
      return Err("Minst ett serienummer/fordonsnamn krävs.");
    }
    var q := Query(includeZips, WantedWindow(from, to), today);
    if tree.None? {
      return Ok(Found([], []));
    }
    var entries := DirsOf(tree.value);
    var serialMode := exists e :: e in entries && SerialCapture(e.name).Some?;
    var found := PickFolders(q, basePath, entries, serialMode, ids);
    r := Ok(found);
  }

  // ----- what the result holds -----

  /** No identity survives stripping exactly when the call fails. */
  lemma ErrorIffNoIdentity(basePath: string, tree: Option<seq<Node>>, serials: seq<string>,
                           from: Option<Date>, to: Option<Date>, includeZips: bool, today: Date)
    ensures Located(basePath, tree, serials, from, to, includeZips, today).Err?
        <==> forall s :: s in serials ==> Strip(s) == ""
  {
    IdSetEmpty(serials);
  }

  lemma IdSetEmpty(serials: seq<string>)
    ensures IdSet(serials) == {} <==> forall s :: s in serials ==> Strip(s) == ""
  {
    if exists s :: s in serials && Strip(s) != "" {
      var s :| s in serials && Strip(s) != "";
      assert Strip(s) in IdSet(serials);
    } else {
      assert forall x :: x !in IdSet(serials);
    }
  }

  /** A base path that does not exist gives two empty lists. */
  lemma MissingBaseFindsNothing(basePath: string, serials: seq<string>,
                                from: Option<Date>, to: Option<Date>, includeZips: bool, today: Date)
    requires exists s :: s in serials && Strip(s) != ""
    ensures Located(basePath, None, serials, from, to, includeZips, today) == Ok(Found([], []))
  {
    var s :| s in serials && Strip(s) != "";
    assert Strip(s) in IdSet(serials);
  }

  /** A path is in a list exactly when some file with that path is wanted for it. */
  lemma {:induction false} PickMembers(fs: seq<FileRef>, kind: FileRef -> Kind, p: string)
    ensures p in Pick(fs, kind).logs <==> exists f :: f in fs && f.path == p && kind(f) == LogFile
    ensures p in Pick(fs, kind).zips <==> exists f :: f in fs && f.path == p && kind(f) == ZipFile
  {
    if fs != [] {
      PickMembers(fs[..|fs| - 1], kind, p);
      assert fs == fs[..|fs| - 1] + [fs[|fs| - 1]];
    }
  }

  /** A file is reached exactly when it lies under a selected folder. */
  lemma {:induction false} SelectedFilesMembers(basePath: string, entries: seq<Node>, selected: string -> bool,
                                                f: FileRef)
    ensures f in SelectedFiles(basePath, entries, selected)
        <==> exists e :: e in entries && e.Dir? && selected(e.name)
                         && f in StepFiles(Walk(Join(basePath, e.name), e.children))
  {
    if entries != [] {
      SelectedFilesMembers(basePath, entries[..|entries| - 1], selected, f);
      assert entries == entries[..|entries| - 1] + [entries[|entries| - 1]];
    }
  }

  lemma {:induction false} StepFilesCat(a: seq<WalkStep>, b: seq<WalkStep>)
    ensures StepFiles(a + b) == StepFiles(a) + StepFiles(b)
    decreases |b|
  {
    if b == [] {
      assert a + b == a;
    } else {
      assert (a + b)[..|a + b| - 1] == a + b[..|b| - 1];
      StepFilesCat(a, b[..|b| - 1]);
    }
  }

  /** Every file a walk reports is its own name joined to some directory path. */
  lemma {:induction false} WalkPaths(root: string, cs: seq<Node>)
    ensures forall f :: f in StepFiles(Walk(root, cs)) ==> exists r :: f.path == Join(r, f.name)
    decreases cs, 1
  {
    assert [WalkStep(root, FilesOf(root, cs))] + WalkSubdirs(root, cs) == Walk(root, cs);
    StepFilesCat([WalkStep(root, FilesOf(root, cs))], WalkSubdirs(root, cs));
    assert StepFiles([WalkStep(root, FilesOf(root, cs))]) == FilesOf(root, cs);
    WalkSubdirsPaths(root, cs);
  }

  lemma {:induction false} WalkSubdirsPaths(root: string, cs: seq<Node>)
    ensures forall f :: f in StepFiles(WalkSubdirs(root, cs)) ==> exists r :: f.path == Join(r, f.name)
    decreases cs, 0
  {
    if cs != [] {
      var last := cs[|cs| - 1];
      WalkSubdirsPaths(root, cs[..|cs| - 1]);
      match last
      case Dir(n, sub) =>
        WalkPaths(Join(root, n), sub);
        StepFilesCat(WalkSubdirs(root, cs[..|cs| - 1]), Walk(Join(root, n), sub));
      case File(_, _) =>
        assert WalkSubdirs(root, cs) == WalkSubdirs(root, cs[..|cs| - 1]) + [];
        assert WalkSubdirs(root, cs) == WalkSubdirs(root, cs[..|cs| - 1]);
    }
  }

  lemma UpperCat(a: string, b: string)
    ensures Upper(a + b) == Upper(a) + Upper(b)
  {
  }

  /** A joined path ends, upper-cased, with whatever its last name ends with. */
  lemma JoinKeepsSuffix(r: string, name: string, ext: string)
    requires EndsWith(Upper(name), ext)
    ensures EndsWith(Upper(Join(r, name)), ext)
  {
    if !StartsWith(name, "/") {
      var pre := if r == "" || EndsWith(r, "/") then r else r + "/";
      assert Join(r, name) == pre + name;
      UpperCat(pre, name);
    }
  }

  /** Every file reached under the selected folders is its own name joined to a directory path. */
  lemma PickedFileIsJoined(basePath: string, entries: seq<Node>, selected: string -> bool, f: FileRef)
    requires f in SelectedFiles(basePath, entries, selected)
    ensures exists r :: f.path == Join(r, f.name)
  {
    SelectedFilesMembers(basePath, entries, selected, f);
    var e :| e in entries && e.Dir? && selected(e.name)
             && f in StepFiles(Walk(Join(basePath, e.name), e.children));
    WalkPaths(Join(basePath, e.name), e.children);
  }

  /**
   * The two lists hold exactly the paths of the wanted files under the selected
   * folders: a `.LOG` file whose window overlaps the requested one goes to the
   * first, and a `.ZIP` file, when archives are asked for, to the second.
   */
  lemma LocatedMembers(basePath: string, tree: seq<Node>, serials: seq<string>,
                       from: Option<Date>, to: Option<Date>, includeZips: bool, today: Date, p: string)
    requires Located(basePath, Some(tree), serials, from, to, includeZips, today).Ok?
    ensures var found := Located(basePath, Some(tree), serials, from, to, includeZips, today).value;
            var entries := DirsOf(tree);
            var fs := SelectedFiles(basePath, entries, Selector(HasSerialFolders(entries), IdSet(serials)));
            var q := Query(includeZips, WantedWindow(from, to), today);
            && (p in found.logs <==> exists f :: f in fs && f.path == p && WantLog(q, f))
            && (p in found.zips <==> exists f :: f in fs && f.path == p && WantZip(q, f))
  {
    var entries := DirsOf(tree);
    var fs := SelectedFiles(basePath, entries, Selector(HasSerialFolders(entries), IdSet(serials)));
    var q := Query(includeZips, WantedWindow(from, to), today);
    PickMembers(fs, Classifier(q), p);
  }

  /** Every log path ends in `.LOG`; an archive path ends in `.ZIP`, and only when archives are asked for. */
  lemma LocatedExtensions(basePath: string, tree: seq<Node>, serials: seq<string>,
                          from: Option<Date>, to: Option<Date>, includeZips: bool, today: Date, p: string)
    requires Located(basePath, Some(tree), serials, from, to, includeZips, today).Ok?
    ensures var found := Located(basePath, Some(tree), serials, from, to, includeZips, today).value;
            && (p in found.logs ==> EndsWith(Upper(p), ".LOG"))
            && (p in found.zips ==> includeZips && EndsWith(Upper(p), ".ZIP"))
  {
    var found := Located(basePath, Some(tree), serials, from, to, includeZips, today).value;
    var entries := DirsOf(tree);
    var selected := Selector(HasSerialFolders(entries), IdSet(serials));
    var fs := SelectedFiles(basePath, entries, selected);
    var q := Query(includeZips, WantedWindow(from, to), today);
    LocatedMembers(basePath, tree, serials, from, to, includeZips, today, p);
    if p in found.logs {
      var f :| f in fs && f.path == p && WantLog(q, f);
      PickedFileIsJoined(basePath, entries, selected, f);
      var r :| f.path == Join(r, f.name);
      JoinKeepsSuffix(r, f.name, ".LOG");
    }
    if p in found.zips {
      var f :| f in fs && f.path == p && WantZip(q, f);
      PickedFileIsJoined(basePath, entries, selected, f);
      var r :| f.path == Join(r, f.name);
      JoinKeepsSuffix(r, f.name, ".ZIP");
    }
  }

  /**
   * In the serial convention a folder is searched only when the number its name
   * carries is one of the stripped identities; otherwise when its stripped name
   * equals one of them ignoring case.
   */
  lemma SelectionRule(entries: seq<Node>, serials: seq<string>, e: Node)
    requires e in entries && e.Dir?
    ensures HasSerialFolders(entries) ==>
      (FolderSelected(true, IdSet(serials), e.name) <==>
         exists s :: s in serials && Strip(s) != "" && SerialCapture(e.name) == Some(Strip(s)))
    ensures !HasSerialFolders(entries) ==>
      (FolderSelected(false, IdSet(serials), e.name) <==>
         Strip(e.name) != "" && exists s :: s in serials && Strip(s) != "" && Upper(Strip(s)) == Upper(Strip(e.name)))
  {
    var ids := IdSet(serials);
    if FolderSelected(false, ids, e.name) {
      var x :| x in ids && Upper(x) == Upper(Strip(e.name));
      var s :| s in serials && Strip(s) == x;
    }
    if exists s :: s in serials && Strip(s) != "" && Upper(Strip(s)) == Upper(Strip(e.name)) {
      var s :| s in serials && Strip(s) != "" && Upper(Strip(s)) == Upper(Strip(e.name));
      assert Strip(s) in ids;
    }
    if exists s :: s in serials && Strip(s) != "" && SerialCapture(e.name) == Some(Strip(s)) {
      var s :| s in serials && Strip(s) != "" && SerialCapture(e.name) == Some(Strip(s));
      assert Strip(s) in ids;
    }
  }
}

/** The serial-folder pattern and the serial convention on concrete names. */
module LocatorExamples {
  import opened Wrappers
  import opened Text
  import opened Dates
  import opened Locator

  /** The number a folder name's rest carries: what lies between the optional '_' and the optional newline. */
  lemma SerialRestIs(rest: string, sn: string)
    requires SerialRest(rest, sn)
    ensures var i := if rest[0] == '_' then 1 else 0;
            var j := if rest[|rest| - 1] == '\n' then |rest| - 1 else |rest|;
            i <= j && sn == rest[i..j]
  {
    assert IsDigit(sn[0]) && IsDigit(sn[|sn| - 1]);
    if rest == sn {
    } else if rest == "_" + sn {
      assert rest[1..] == sn;
    } else if rest == sn + "\n" {
      assert rest[..|rest| - 1] == sn;
    } else {
      assert rest[1..|rest| - 1] == sn;
    }
  }

  /** At most one number fits the rest of a folder name. */
  lemma SerialRestUnique(rest: string, a: string, b: string)
    requires SerialRest(rest, a) && SerialRest(rest, b)
    ensures a == b
  {
    SerialRestIs(rest, a);
    SerialRestIs(rest, b);
  }

  lemma NoSerialAfter(rest: string, k: nat)
    requires 1 <= k < |rest| && rest[0] != '_' && !IsDigit(rest[k]) && rest[|rest| - 1] != '\n'
    ensures forall sn :: !SerialRest(rest, sn)
  {
    forall sn | SerialRest(rest, sn) ensures false {
      SerialRestIs(rest, sn);
    }
  }

  /** `ipelog2_82902308`: the first alternative fails on the '_', the second captures the number. */
  lemma SeparatedSerial()
    ensures SerialCapture("ipelog2_82902308") == Some("82902308")
  {
    var name := "ipelog2_82902308";
    assert name[..6] == "ipelog" && Lower("ipelog") == "ipelog";
    assert name[6..] == "2_82902308";
    NoSerialAfter(name[6..], 1);
    assert RestCapture(name, 6) == None;
    assert name[..7] == "ipelog2" && Lower("ipelog2") == "ipelog2";
    assert name[7..] == "_" + "82902308";
    assert SerialRest(name[7..], "82902308");
    var r := RestCapture(name, 7);
    SerialRestUnique(name[7..], r.value, "82902308");
    assert SerialPrefixes[1..][0] == "ipelog2";
  }

  /** `ipelog282902308`: the first alternative already matches, so the '2' belongs to the number. */
  lemma RunTogetherSerial()
    ensures SerialCapture("ipelog282902308") == Some("282902308")
  {
    var name := "ipelog282902308";
    assert name[..6] == "ipelog" && Lower("ipelog") == "ipelog";
    assert name[6..] == "282902308";
    assert SerialRest(name[6..], "282902308");
    var r := RestCapture(name, 6);
    SerialRestUnique(name[6..], r.value, "282902308");
  }

  const SerialTree := [Dir("ipelog2_82902308", [File("VEH_20250101_T120000.LOG", None)])]

  lemma SerialTreeEntries()
    ensures DirsOf(SerialTree) == SerialTree
  {
    assert SerialTree == [] + [SerialTree[0]];
  }

  lemma OtherSerialIds()
    ensures IdSet(["82902309"]) == {"82902309"}
  {
    OtherSerialStripped();
    OneIdSet("82902309");
  }

  lemma OtherSerialStripped()
    ensures Strip("82902309") == "82902309"
  {
    var serial := "82902309";
    assert !IsSpace(serial[0]) && !IsSpace(serial[|serial| - 1]);
    StripUnchanged(serial);
  }

  /** One serial that stripping leaves as it is gives a set of that serial alone. */
  lemma OneIdSet(serial: string)
    requires serial != [] && Strip(serial) == serial
    ensures forall x :: x in IdSet([serial]) <==> x == serial
  {
    assert serial in [serial] && Strip(serial) == serial;
    assert serial in IdSet([serial]);
    forall x | x in IdSet([serial]) ensures x == serial {
      var s :| s in [serial] && Strip(s) == x;
      assert s == serial;
    }
  }

  lemma SkipOne(basePath: string, e: Node, sel: string -> bool)
    requires !sel(e.name)
    ensures SelectedFiles(basePath, [e], sel) == []
  {
    assert [e][..0] == [];
  }

  lemma OtherSerialName()
    ensures SerialCapture("ipelog2_82902308").Some?
    ensures !FolderSelected(true, {"82902309"}, "ipelog2_82902308")
  {
    SeparatedSerial();
  }

  lemma OtherSerialSkipped(basePath: string)
    ensures HasSerialFolders(SerialTree)
    ensures SelectedFiles(basePath, SerialTree, Selector(true, {"82902309"})) == []
  {
    var e := SerialTree[0];
    OtherSerialName();
    assert e in SerialTree;
    SkipOne(basePath, e, Selector(true, {"82902309"}));
  }

  /** Serial folders are present, and the only one carries another number: nothing is found. */
  lemma OtherSerialFindsNothing(basePath: string, from: Option<Date>, to: Option<Date>, includeZips: bool, today: Date)
    ensures Located(basePath, Some(SerialTree), ["82902309"], from, to, includeZips, today) == Ok(Found([], []))
  {
    OtherSerialIds();
    SerialTreeEntries();
    OtherSerialSkipped(basePath);
  }
}
