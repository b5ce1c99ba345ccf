/**
 * Date-window resolution: the dates a log or archive path names, the window of
 * days a file is taken to cover, and the inclusive overlap test
 * (`_dates_from_filename`, `_file_date_window`, `_overlaps`).
 */
module Dates {
  import opened Wrappers
  import opened Text

  /** A calendar day; the order on days is lexicographic on (year, month, day). */
  datatype Date = Date(year: int, month: int, day: int)

  predicate IsLeapYear(y: int) {
    y % 4 == 0 && (y % 100 != 0 || y % 400 == 0)
  }

  function DaysInMonth(y: int, m: int): int
    requires 1 <= m <= 12
  {
    if m == 2 then (if IsLeapYear(y) then 29 else 28)
    else if m == 4 || m == 6 || m == 9 || m == 11 then 30
    else 31
  }

  /** A day that Python's `datetime.date` can represent. */
  predicate ValidDate(d: Date) {
    1 <= d.year <= 9999 && 1 <= d.month <= 12 && 1 <= d.day <= DaysInMonth(d.year, d.month)
  }

  predicate Before(a: Date, b: Date) {
    a.year < b.year
    || (a.year == b.year && a.month < b.month)
    || (a.year == b.year && a.month == b.month && a.day < b.day)
  }

  predicate DateLe(a: Date, b: Date) { !Before(b, a) }

  /** `date.min` and `date.max`. */
  const FirstDate := Date(1, 1, 1)
  const LastDate := Date(9999, 12, 31)

  /** An inclusive span of days (`Tuple[date, date]`). */
  datatype Window = Window(start: Date, end: Date)

  predicate InWindow(d: Date, w: Window) { DateLe(w.start, d) && DateLe(d, w.end) }

  /** `_overlaps`: neither window ends before the other starts. */
  predicate Overlaps(a: Window, b: Window) {
    !(Before(a.end, b.start) || Before(b.end, a.start))
  }

  lemma OverlapsReflexive(w: Window)
    requires DateLe(w.start, w.end)
    ensures Overlaps(w, w)
  {
  }

  lemma OverlapsSymmetric(a: Window, b: Window)
    ensures Overlaps(a, b) <==> Overlaps(b, a)
  {
  }

  function LaterOf(a: Date, b: Date): Date { if Before(a, b) then b else a }

  /** Two non-empty windows overlap exactly when some day lies in both. */
  lemma OverlapsIffCommonDay(a: Window, b: Window)
    requires DateLe(a.start, a.end) && DateLe(b.start, b.end)
    ensures Overlaps(a, b) <==> exists d :: InWindow(d, a) && InWindow(d, b)
  {
    if Overlaps(a, b) {
      var d := LaterOf(a.start, b.start);
      assert InWindow(d, a) && InWindow(d, b);
    }
  }

  /** The requested window: an absent bound is `date.min` or `date.max`. */
  function WantedWindow(from: Option<Date>, to: Option<Date>): Window {
    Window(from.GetOr(FirstDate), to.GetOr(LastDate))
  }

  /** With neither bound given, every window of real days is wanted. */
  lemma UnboundedWantsAll(w: Window)
    requires ValidDate(w.start) && ValidDate(w.end)
    ensures Overlaps(w, WantedWindow(None, None))
  {
  }

  // ----- the two filename date stamps -----

  /** `_(\d{8})_T\d{6}` and `(\d{4}-\d{2}-\d{2})_\d{2}_\d{2}_\d{2}`. */
  datatype Stamp = Compact | Dashed

  /** The characters each stamp consists of; '#' stands for a digit. */
  function StampShape(p: Stamp): string {
    match p
    case Compact => "_########_T######"
    case Dashed => "####-##-##_##_##_##"
  }

  function StampLength(p: Stamp): nat { |StampShape(p)| }

  predicate Fits(shape: char, c: char) {
    if shape == '#' then IsDigit(c) else c == shape
  }

  /** The pattern matches at `i` (each pattern has a fixed length). */
  predicate MatchesAt(p: Stamp, s: string, i: nat) {
    var shape := StampShape(p);
    i + |shape| <= |s| && forall k :: 0 <= k < |shape| ==> Fits(shape[k], s[i + k])
  }

  /** `finditer` from `i`: the starts of the leftmost non-overlapping matches. */
  function FindIter(p: Stamp, s: string, i: nat): seq<nat>
    decreases |s| - i
  {
    if i + StampLength(p) > |s| then []
    else if MatchesAt(p, s, i) then [i] + FindIter(p, s, i + StampLength(p))
    else FindIter(p, s, i + 1)
  }

  lemma DigitRange(p: Stamp, s: string, i: nat, lo: nat, hi: nat)
    requires MatchesAt(p, s, i) && lo <= hi <= StampLength(p)
    requires forall k :: lo <= k < hi ==> StampShape(p)[k] == '#'
    ensures AllDigits(s[i + lo..i + hi])
  {
    var t := s[i + lo..i + hi];
    forall j | 0 <= j < |t| ensures IsDigit(t[j]) {
      assert StampShape(p)[lo + j] == '#';
      assert Fits(StampShape(p)[lo + j], s[i + (lo + j)]);
    }
  }

  /** The year, month and day digits of a match, read as numbers. */
  function StampFields(p: Stamp, s: string, i: nat): Date
    requires MatchesAt(p, s, i)
  {
    match p
    case Compact =>
      (DigitRange(p, s, i, 1, 5);
       DigitRange(p, s, i, 5, 7);
       DigitRange(p, s, i, 7, 9);
       Date(DigitsValue(s[i + 1..i + 5]), DigitsValue(s[i + 5..i + 7]), DigitsValue(s[i + 7..i + 9])))
    case Dashed =>
      (DigitRange(p, s, i, 0, 4);
       DigitRange(p, s, i, 5, 7);
       DigitRange(p, s, i, 8, 10);
       Date(DigitsValue(s[i..i + 4]), DigitsValue(s[i + 5..i + 7]), DigitsValue(s[i + 8..i + 10])))
  }

  /**
   * `datetime.strptime(group, "%Y%m%d")` (or `"%Y-%m-%d"`) on the matched group;
   * None where it raises.  On these fixed-width groups strptime accepts exactly
   * the real calendar days.
   */
  function DateAt(p: Stamp, s: string, i: nat): Option<Date>
  {
    if !MatchesAt(p, s, i) then None
    else
      var d := StampFields(p, s, i);
      if ValidDate(d) then Some(d) else None
  }

  /** The dates parsed from matches at the positions `ms`, failures dropped. */
  function Collect(p: Stamp, s: string, ms: seq<nat>): seq<Date>
  {
    if ms == [] then []
    else
      Collect(p, s, ms[..|ms| - 1])
      + match DateAt(p, s, ms[|ms| - 1]) case Some(d) => [d] case None => []
  }

  /** The dates one name yields: every compact stamp, then every dashed stamp. */
  function DatesIn(s: string): seq<Date>
  {
    Collect(Compact, s, FindIter(Compact, s, 0)) + Collect(Dashed, s, FindIter(Dashed, s, 0))
  }

  function DatesInParts(ps: seq<string>): seq<Date>
  {
    if ps == [] then [] else DatesInParts(ps[..|ps| - 1]) + DatesIn(ps[|ps| - 1])
  }

  /**
   * What `_dates_from_filename` returns: the base name's dates, or, when it has
   * none, the dates of every path segment in order.
   */
  function NameDates(path: string): seq<Date>
  {
    var b := DatesIn(Basename(path));
    if b != [] then b else DatesInParts(Parts(path))
  }

  lemma CollectStep(p: Stamp, s: string, ms: seq<nat>, k: nat)
    requires k < |ms|
    ensures var d := DateAt(p, s, ms[k]);
            Collect(p, s, ms[..k + 1]) == Collect(p, s, ms[..k]) + (if d.Some? then [d.value] else [])
  {
    assert ms[..k + 1][..k] == ms[..k];
  }

  /** One `for m in PATTERN.finditer(name)` loop: the matches that parse as dates, in order. */
  method StampDates(p: Stamp, name: string) returns (out: seq<Date>)
    ensures out == Collect(p, name, FindIter(p, name, 0))
  {
    out := [];
    var ms := FindIter(p, name, 0);
    for k := 0 to |ms|
      invariant out == Collect(p, name, ms[..k])
    {
      CollectStep(p, name, ms, k);
      var d := DateAt(p, name, ms[k]);
      if d.Some? { out := out + [d.value]; }
    }
    assert ms[..|ms|] == ms;
  }

  /** The `for part in Path(path).parts` loop: both stamp loops over every segment. */
  method PartDates(parts: seq<string>) returns (out: seq<Date>)
    ensures out == DatesInParts(parts)
  {
    out := [];
    for j := 0 to |parts|
      invariant out == DatesInParts(parts[..j])
    {
      assert parts[..j + 1][..j] == parts[..j];
      var compact := StampDates(Compact, parts[j]);
      var dashed := StampDates(Dashed, parts[j]);
      out := out + (compact + dashed);
    }
    assert parts[..|parts|] == parts;
  }

  /** `_dates_from_filename`: the base name first, every path segment only when it gave nothing. */
  method DatesFromFilename(path: string) returns (dates: seq<Date>)
    ensures dates == NameDates(path)
  {
    var basename := Basename(path);
    var compact := StampDates(Compact, basename);
    var dashed := StampDates(Dashed, basename);
    dates := compact + dashed;
    if dates != [] {
      return;
    }
    dates := PartDates(Parts(path));
  }

  /** Every date a name yields is a real calendar day. */
  lemma {:induction false} CollectValid(p: Stamp, s: string, ms: seq<nat>)
    ensures forall d :: d in Collect(p, s, ms) ==> ValidDate(d)
  {
    if ms != [] { CollectValid(p, s, ms[..|ms| - 1]); }
  }

  lemma {:induction false} DatesInPartsValid(ps: seq<string>)
    ensures forall d :: d in DatesInParts(ps) ==> ValidDate(d)
  {
    if ps != [] {
      DatesInPartsValid(ps[..|ps| - 1]);
      var last := ps[|ps| - 1];
      CollectValid(Compact, last, FindIter(Compact, last, 0));
      CollectValid(Dashed, last, FindIter(Dashed, last, 0));
    }
  }

  lemma NameDatesValid(path: string)
    ensures forall d :: d in NameDates(path) ==> ValidDate(d)
  {
    var b := Basename(path);
    CollectValid(Compact, b, FindIter(Compact, b, 0));
    CollectValid(Dashed, b, FindIter(Dashed, b, 0));
    DatesInPartsValid(Parts(path));
  }

  /** The earliest of a list of days (`min`). */
  function Earliest(ds: seq<Date>): (m: Date)
    requires ds != []
    ensures m in ds && forall k :: 0 <= k < |ds| ==> DateLe(m, ds[k])
  {
    if |ds| == 1 then ds[0]
    else
      var rest := Earliest(ds[1..]);
      assert forall k :: 1 <= k < |ds| ==> ds[k] == ds[1..][k - 1];
      if Before(ds[0], rest) then ds[0] else rest
  }

  /** The latest of a list of days (`max`). */
  function Latest(ds: seq<Date>): (m: Date)
    requires ds != []
    ensures m in ds && forall k :: 0 <= k < |ds| ==> DateLe(ds[k], m)
  {
    if |ds| == 1 then ds[0]
    else
      var rest := Latest(ds[1..]);
      assert forall k :: 1 <= k < |ds| ==> ds[k] == ds[1..][k - 1];
      if Before(rest, ds[0]) then ds[0] else rest
  }

  /**
   * `_file_date_window`: the span of the named dates, else the day of the file's
   * modification time (`mtime`, None when it cannot be read), else today.
   */
  function FileDateWindow(path: string, mtime: Option<Date>, today: Date): (w: Window)
    ensures DateLe(w.start, w.end)
    ensures forall d :: d in NameDates(path) ==> InWindow(d, w)
    ensures NameDates(path) != [] ==> w.start in NameDates(path) && w.end in NameDates(path)
    ensures NameDates(path) == [] && mtime.Some? ==> w == Window(mtime.value, mtime.value)
    ensures NameDates(path) == [] && mtime.None? ==> w == Window(today, today)
    ensures (mtime.Some? ==> ValidDate(mtime.value)) && ValidDate(today) ==> ValidDate(w.start) && ValidDate(w.end)
  {
    var ds := NameDates(path);
    NameDatesValid(path);
    if ds != [] then Window(Earliest(ds), Latest(ds))
    else match mtime
      case Some(t) => Window(t, t)
      case None => Window(today, today)
  }

  lemma {:induction false} DatesInPartsEmpty(ps: seq<string>)
    ensures DatesInParts(ps) == [] <==> forall q :: q in ps ==> DatesIn(q) == []
  {
    if ps != [] {
      DatesInPartsEmpty(ps[..|ps| - 1]);
      assert ps == ps[..|ps| - 1] + [ps[|ps| - 1]];
    }
  }

  lemma BasenameInParts(p: string)
    requires Basename(p) != ""
    ensures Basename(p) in Parts(p)
  {
  }

  /** A path yields no date exactly when none of its segments does. */
  lemma NameDatesEmpty(path: string)
    ensures NameDates(path) == [] <==> forall q :: q in Parts(path) ==> DatesIn(q) == []
  {
    DatesInPartsEmpty(Parts(path));
    if Basename(path) != "" { BasenameInParts(path); }
  }

  lemma ShortNameNoDates(s: string)
    requires |s| < StampLength(Compact)
    ensures DatesIn(s) == []
  {
  }
}

/** Worked examples of `_dates_from_filename` on concrete paths. */
module DateExamples {
  import opened Wrappers
  import opened Text
  import opened Dates


  const Veh := "VEH_20250101_T120000.LOG"

  /** A name without '/' is its own base name and its only segment. */
  lemma NoSlashName(s: string)
    requires s != [] && forall k :: 0 <= k < |s| ==> s[k] != '/'
    ensures Basename(s) == s && Parts(s) == [s]
  {
    var r := LastIndexOf(s, '/');
    assert r == -1;
    assert Basename(s) == s[0..];
    assert s[0..] == s;
  }

  lemma VehBasename()
    ensures Basename(Veh) == Veh
  {
    NoSlashName(Veh);
  }

  /** A start that is not '_' is skipped by the compact stamp's search. */
  lemma SkipStart(s: string, i: nat)
    requires i + StampLength(Compact) <= |s| && s[i] != '_'
    ensures FindIter(Compact, s, i) == FindIter(Compact, s, i + 1)
  {
    assert !Fits(StampShape(Compact)[0], s[i]);
  }

  lemma VehMatch()
    ensures MatchesAt(Compact, Veh, 3)
  {
    var s := Veh[3..20];
    assert s == "_20250101_T120000";
    forall k | 0 <= k < 17 ensures Fits(StampShape(Compact)[k], Veh[3 + k]) {
      assert Veh[3 + k] == s[k];
    }
  }

  lemma VehCompact()
    ensures FindIter(Compact, Veh, 0) == [3]
  {
    VehMatch();
    assert |Veh| == 24 && Veh[0] == 'V' && Veh[1] == 'E' && Veh[2] == 'H';
    OnlyAtThree(Veh);
  }

  /** In a 24-character name with no '_' before a stamp at 3, that stamp is the only one. */
  lemma OnlyAtThree(s: string)
    requires |s| == 24 && MatchesAt(Compact, s, 3)
    requires s[0] != '_' && s[1] != '_' && s[2] != '_'
    ensures FindIter(Compact, s, 0) == [3]
  {
    assert FindIter(Compact, s, 20) == [];
    assert FindIter(Compact, s, 3) == [3];
    SkipStart(s, 2);
    SkipStart(s, 1);
    SkipStart(s, 0);
  }

  lemma YearDigits()
    ensures DigitsValue("2025") == 2025
  {
    assert "2025"[..3] == "202" && "202"[..2] == "20" && "20"[..1] == "2" && "2"[..0] == "";
  }

  lemma OneDigits()
    ensures DigitsValue("01") == 1
  {
    assert "01"[..1] == "0" && "0"[..0] == "";
  }

  lemma VehFields()
    ensures Veh[4..8] == "2025" && Veh[8..10] == "01" && Veh[10..12] == "01"
  {
    var s := Veh;
    assert s[4] == '2' && s[5] == '0' && s[6] == '2' && s[7] == '5';
    assert s[8] == '0' && s[9] == '1' && s[10] == '0' && s[11] == '1';
  }

  lemma VehDate()
    ensures DateAt(Compact, Veh, 3) == Some(Date(2025, 1, 1))
  {
    assert MatchesAt(Compact, Veh, 3);
    VehFields();
    YearDigits();
    OneDigits();
    assert StampFields(Compact, Veh, 3) == Date(2025, 1, 1);
  }

  /** A name without '-' holds no dashed stamp. */
  lemma {:induction false} NoDashNoDashed(s: string, i: nat)
    requires forall k :: i <= k < |s| ==> s[k] != '-'
    ensures FindIter(Dashed, s, i) == []
    decreases |s| - i
  {
    if i + StampLength(Dashed) <= |s| {
      assert StampShape(Dashed)[4] == '-';
      assert !Fits(StampShape(Dashed)[4], s[i + 4]);
      NoDashNoDashed(s, i + 1);
    }
  }

  lemma VehDashed()
    ensures FindIter(Dashed, Veh, 0) == []
  {
    NoDashNoDashed(Veh, 0);
  }

  /** A base name with one compact stamp, parsing to `d`, and no dashed stamp yields `[d]`. */
  lemma OneStampName(s: string, i: nat, d: Date)
    requires Basename(s) == s
    requires FindIter(Compact, s, 0) == [i] && DateAt(Compact, s, i) == Some(d)
    requires FindIter(Dashed, s, 0) == []
    ensures NameDates(s) == [d]
  {
    assert [i][..0] == [];
    assert Collect(Compact, s, [i]) == [d];
    assert DatesIn(s) == [d];
  }

  lemma CompactExample()
    ensures NameDates(Veh) == [Date(2025, 1, 1)]
  {
    VehBasename();
    VehCompact();
    VehDate();
    VehDashed();
    OneStampName(Veh, 3, Date(2025, 1, 1));
  }

  const Bad := "_20251340_T000000"

  lemma BadPath()
    ensures Basename(Bad) == Bad && Parts(Bad) == [Bad]
  {
    NoSlashName(Bad);
  }

  lemma ThirteenDigits()
    ensures DigitsValue("13") == 13
  {
    assert "13"[..1] == "1" && "1"[..0] == "";
  }

  lemma BadDate()
    ensures DateAt(Compact, Bad, 0) == None
  {
    var s := Bad;
    assert MatchesAt(Compact, s, 0);
    assert s[5] == '1' && s[6] == '3';
    assert s[5..7] == "13";
    ThirteenDigits();
    assert StampFields(Compact, s, 0).month == 13;
  }

  /** A 17-character name that is one compact stamp holds exactly that one. */
  lemma WholeStamp(s: string)
    requires |s| == StampLength(Compact) && MatchesAt(Compact, s, 0)
    ensures FindIter(Compact, s, 0) == [0]
  {
    assert FindIter(Compact, s, 17) == [];
  }

  lemma BadDates()
    ensures DatesIn(Bad) == []
  {
    assert MatchesAt(Compact, Bad, 0);
    WholeStamp(Bad);
    BadDate();
    assert Collect(Compact, Bad, [0]) == [];
    assert |Bad| < StampLength(Dashed);
  }

  lemma ImpossibleDateExample()
    ensures NameDates(Bad) == []
  {
    BadPath();
    BadDates();
    assert DatesInParts([Bad]) == DatesInParts([]) + DatesIn(Bad);
  }

  const Dir := "_20250101_T000000"
  const InDir := "_20250101_T000000/x.LOG"

  /** `a/b` with neither part holding '/' has base name `b` and segments `a`, `b`. */
  lemma OneSlash(a: string, b: string)
    requires a != [] && forall k :: 0 <= k < |a| ==> a[k] != '/'
    requires b != [] && forall k :: 0 <= k < |b| ==> b[k] != '/'
    ensures Basename(a + "/" + b) == b && Parts(a + "/" + b) == [a, b]
  {
    var p := a + "/" + b;
    var r := LastIndexOf(p, '/');
    forall k | |a| < k < |p| ensures p[k] != '/' {
      assert p[k] == b[k - |a| - 1];
    }
    assert p[|a|] == '/';
    assert r == |a|;
    assert p[..r] == a && p[r + 1..] == b;
    NoSlashName(a);
  }

  lemma InDirPath()
    ensures Basename(InDir) == "x.LOG" && Parts(InDir) == [Dir, "x.LOG"]
  {
    assert InDir == Dir + "/" + "x.LOG";
    OneSlash(Dir, "x.LOG");
  }

  lemma DirFields()
    ensures Dir[1..5] == "2025" && Dir[5..7] == "01" && Dir[7..9] == "01"
  {
    var s := Dir;
    assert s[1] == '2' && s[2] == '0' && s[3] == '2' && s[4] == '5';
    assert s[5] == '0' && s[6] == '1' && s[7] == '0' && s[8] == '1';
  }

  lemma DirDate()
    ensures DateAt(Compact, Dir, 0) == Some(Date(2025, 1, 1))
  {
    assert MatchesAt(Compact, Dir, 0);
    DirFields();
    YearDigits();
    OneDigits();
    assert StampFields(Compact, Dir, 0) == Date(2025, 1, 1);
  }

  lemma DirDates()
    ensures DatesIn(Dir) == [Date(2025, 1, 1)]
  {
    assert MatchesAt(Compact, Dir, 0);
    WholeStamp(Dir);
    DirDate();
    assert Collect(Compact, Dir, [0]) == [Date(2025, 1, 1)];
    assert |Dir| < StampLength(Dashed);
  }

  /** The base name has no stamp, so the folder's stamp is used. */
  lemma FolderDateExample()
    ensures NameDates(InDir) == [Date(2025, 1, 1)]
  {
    InDirPath();
    DirDates();
    ShortNameNoDates("x.LOG");
    assert DatesInParts([Dir, "x.LOG"]) == DatesInParts([Dir]) + DatesIn("x.LOG");
    assert DatesInParts([Dir]) == DatesInParts([]) + DatesIn(Dir);
  }
}
