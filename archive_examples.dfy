/** A nested archive entry whose base name collides with a top-level one. */
module ArchiveExamples {
  import opened Wrappers
  import opened Text
  import opened Sorting
  import opened Archive

  const Members := [Entry("a.LOG", ["A"]), Entry("sub/a.LOG", ["B"])]

  lemma MembersLogs()
    ensures LogNames(Names(Members)) == ["a.LOG", "sub/a.LOG"]
  {
    MembersNames();
    BothLogEntries();
    FilterKeepsTwo("a.LOG", "sub/a.LOG", IsLogEntry);
  }

  lemma MembersNames()
    ensures Names(Members) == ["a.LOG", "sub/a.LOG"]
  {
  }

  lemma BothLogEntries()
    ensures IsLogEntry("a.LOG") && IsLogEntry("sub/a.LOG")
  {
    assert Upper("a.LOG") == "A.LOG";
    assert Upper("sub/a.LOG") == "SUB/A.LOG";
  }

  lemma FilterKeepsTwo<T>(a: T, b: T, p: T -> bool)
    requires p(a) && p(b)
    ensures Filter([a, b], p) == [a, b]
  {
    var s := [a, b];
    assert s[0] == a && s[1..] == [b] && [b][1..] == [];
    assert Filter([b], p) == [b] + Filter([b][1..], p);
    assert Filter(s, p) == [a] + Filter(s[1..], p);
  }

  lemma TopLevelSlashFree()
    ensures !Contains("a.LOG", "/")
  {
    NotContainsChar("a.LOG", '/');
  }

  lemma TopLevelName()
    ensures Basename("a.LOG") == "a.LOG" && Parts("a.LOG") == ["a.LOG"]
  {
    assert LastIndexOf("a.LOG", '/') == -1;
  }

  lemma TopLevelTarget()
    ensures ExtractTarget("a.LOG") == "a.LOG"
  {
    TopLevelName();
  }

  lemma SubSlashFree()
    ensures Parts("sub") == ["sub"]
  {
    assert LastIndexOf("sub", '/') == -1;
  }

  lemma NestedSplit()
    ensures LastIndexOf("sub/a.LOG", '/') == 3
  {
    var k := LastIndexOf("sub/a.LOG", '/');
    assert "sub/a.LOG"[3] == '/';
    if k > 3 { assert false; }
  }

  lemma NestedBasename()
    ensures Basename("sub/a.LOG") == "a.LOG"
  {
    NestedSplit();
    assert "sub/a.LOG"[4..] == "a.LOG";
  }

  lemma NestedParts()
    ensures Parts("sub/a.LOG") == ["sub", "a.LOG"]
  {
    NestedSplit();
    SubSlashFree();
    assert "sub/a.LOG"[..3] == "sub";
    assert "sub/a.LOG"[4..] == "a.LOG";
  }

  lemma NestedHasSlash()
    ensures Contains("sub/a.LOG", "/")
  {
    assert OccursAt("sub/a.LOG", "/", 3);
  }

  lemma NestedTarget()
    ensures ExtractTarget("sub/a.LOG") == "sub/a.LOG" && Resolve("sub/a.LOG") == Some("sub/a.LOG")
  {
    NestedParts();
    var ps := ["sub", "a.LOG"];
    assert ps[..1] == ["sub"];
    assert KeptParts(ps) == ps;
    assert ResolveParts(ps) == Some(ps);
    assert JoinAll(ps) == "sub/a.LOG";
  }

  lemma ZipBasename()
    ensures Basename("/x/Z.zip") == "Z.zip"
  {
    var k := LastIndexOf("/x/Z.zip", '/');
    assert "/x/Z.zip"[2] == '/';
    if k > 2 { assert false; }
  }

  lemma LogSplit()
    ensures SplitExt("a.LOG") == ("a", ".LOG")
  {
    var d := LastIndexOf("a.LOG", '.');
    assert "a.LOG"[1] == '.';
    if d > 1 { assert false; }
    assert d == 1;
    assert "a.LOG"[0] != '.';
    assert "a.LOG"[..1] == "a" && "a.LOG"[1..] == ".LOG";
  }

  lemma Renamed()
    ensures RenamedName("sub/a.LOG", "/x/Z.zip") == "a_Z.zip.LOG"
  {
    NestedBasename();
    ZipBasename();
    LogSplit();
  }

  lemma MembersLines()
    ensures MemberLines(Members, "a.LOG") == ["A"] && MemberLines(Members, "sub/a.LOG") == ["B"]
  {
    assert Members[..1] == [Entry("a.LOG", ["A"])];
  }

  lemma FirstRound()
    ensures ExtractOne("/x/Z.zip", Members, "/t", "a.LOG", map[]) == Round(Some("/t/a.LOG"), map["a.LOG" := ["A"]])
  {
    TopLevelSlashFree();
    TopLevelTarget();
    MembersLines();
    JoinRelative("/t", "a.LOG");
    assert "/t" + "/" + "a.LOG" == "/t/a.LOG";
  }

  lemma SecondRoundNames()
    ensures Contains("sub/a.LOG", "/") && Basename("sub/a.LOG") == "a.LOG"
    ensures ExtractTarget("sub/a.LOG") == "sub/a.LOG" && Resolve("sub/a.LOG") == Some("sub/a.LOG")
    ensures RenamedName("sub/a.LOG", "/x/Z.zip") == "a_Z.zip.LOG"
    ensures Join("/t", "a_Z.zip.LOG") == "/t/a_Z.zip.LOG"
  {
    NestedHasSlash();
    NestedTarget();
    NestedBasename();
    Renamed();
    JoinRelative("/t", "a_Z.zip.LOG");
    RenamedPath();
  }

  lemma RenamedPath()
    ensures "/t" + "/" + "a_Z.zip.LOG" == "/t/a_Z.zip.LOG"
  {
    var a, b := "/t" + "/" + "a_Z.zip.LOG", "/t/a_Z.zip.LOG";
    forall i | 0 <= i < |a| ensures a[i] == b[i] {
    }
  }

  lemma SecondRoundMove()
    ensures Move(map["a.LOG" := ["A"], "sub/a.LOG" := ["B"]], "sub/a.LOG", "a_Z.zip.LOG")
         == map["a.LOG" := ["A"], "a_Z.zip.LOG" := ["B"]]
  {
  }

  lemma SecondRound()
    ensures ExtractOne("/x/Z.zip", Members, "/t", "sub/a.LOG", map["a.LOG" := ["A"]])
         == Round(Some("/t/a_Z.zip.LOG"), map["a.LOG" := ["A"], "a_Z.zip.LOG" := ["B"]])
  {
    SecondRoundNames();
    MembersLines();
    SecondRoundMove();
    var written := map["a.LOG" := ["A"]]["sub/a.LOG" := ["B"]];
    assert "a.LOG" in written && "sub/a.LOG" in written;
  }

  /**
   * The top-level `a.LOG` keeps its name; the nested `sub/a.LOG` finds it there
   * and is moved to `a_Z.zip.LOG`.
   */
  lemma CollisionExample()
    ensures ExtractSpec("/x/Z.zip", Some(Members), "/t", map[])
         == Outcome(["/t/a.LOG", "/t/a_Z.zip.LOG"], map["a.LOG" := ["A"], "a_Z.zip.LOG" := ["B"]], false)
  {
    MembersLogs();
    TwoRounds();
    SpecRunsLoop("/x/Z.zip", Members, "/t", map[]);
  }

  /** With some log entry, the extraction is the loop over the log entries. */
  lemma SpecRunsLoop(zipPath: string, entries: seq<Entry>, tempPath: string, files: map<string, seq<string>>)
    requires LogNames(Names(entries)) != []
    ensures ExtractSpec(zipPath, Some(entries), tempPath, files)
         == ExtractAll(zipPath, entries, tempPath, LogNames(Names(entries)), files)
  {
  }

  lemma TwoRounds()
    ensures ExtractAll("/x/Z.zip", Members, "/t", ["a.LOG", "sub/a.LOG"], map[])
         == Outcome(["/t/a.LOG", "/t/a_Z.zip.LOG"], map["a.LOG" := ["A"], "a_Z.zip.LOG" := ["B"]], false)
  {
    FirstRound();
    SecondRound();
    var logs := ["a.LOG", "sub/a.LOG"];
    assert logs[..1] == ["a.LOG"] && logs[..1][..0] == [];
    assert ExtractAll("/x/Z.zip", Members, "/t", logs[..1], map[]) == Outcome(["/t/a.LOG"], map["a.LOG" := ["A"]], false);
  }
}
