/** `_vehicle_from_content` on concrete lines and file names. */
module VehicleExamples {
  import opened Wrappers
  import opened Text
  import opened Report
  import opened Vehicles

  const ConfigLine: string := "Configuration file: Axlerod_BEV3_A.cfg"
  const BevLine: string := "ab_BEV3"
  const LogName: string := "Other_20251118_T123000.LOG"

  lemma ConfigLineSpace()
    ensures OccursAt(ConfigLine, ConfigLabel, 0)
    ensures RunEnd(ConfigLine, |ConfigLabel|, IsSpace) == 20
  {
    assert ConfigLine[..19] == ConfigLabel;
    assert IsSpace(ConfigLine[19]) && !IsSpace(ConfigLine[20]);
  }

  lemma ConfigLineName()
    ensures ConfigNameAt(ConfigLine, 0) == Some("Axlerod")
  {
    ConfigLineSpace();
    assert ConfigLine[20..27] == "Axlerod";
    ConfigNameDirect(ConfigLine, 0, 20, "Axlerod");
  }

  /** The name after the configuration label comes first. */
  lemma ConfigExample()
    ensures VehicleFromContent(LogName, ConfigLine) == "Axlerod"
  {
    ConfigLineName();
    VehicleFromConfig(LogName, ConfigLine, 0);
  }

  /** A line too short for the label has no configuration match. */
  lemma NoLabel(s: string)
    requires |s| < |ConfigLabel|
    ensures forall t :: 0 <= t <= |s| ==> ConfigNameAt(s, t).None?
  {
  }

  lemma BevLineName()
    ensures BevNameAt(BevLine, 0) == Some("ab")
  {
    assert RunEnd(BevLine, 0, IsAlnum) == 2;
    assert BevLine[2..7] == "_BEV3";
    assert Boundary(BevLine, 0);
    assert BevLine[0..2] == "ab";
  }

  /** Without the label, the name before `_BEV3` is taken. */
  lemma BevExample()
    ensures VehicleFromContent(LogName, BevLine) == "ab"
  {
    NoLabel(BevLine);
    BevLineName();
    VehicleFromBev(LogName, BevLine, 0);
  }

  lemma LogNameBase()
    ensures Basename(LogName) == LogName
  {
    NotContainsChar(LogName, '/');
    BasenameOfName(LogName);
  }

  lemma LogNameParts()
    ensures |LogName| == 26 && LogName[..5] == "Other" && LogName[5] == '_'
    ensures LogName[6..14] == "20251118" && LogName[14..16] == "_T"
  {
  }

  lemma DateDigits()
    ensures AllDigits("20251118")
  {
    var d := "20251118";
    forall i | 0 <= i < |d| ensures IsDigit(d[i]) {
    }
  }

  lemma OtherAlnum()
    ensures AllAlnum("Other")
  {
    var o := "Other";
    forall t | 0 <= t < |o| ensures IsAlnum(o[t]) {
    }
  }

  lemma LogNamePrefix()
    ensures Basename(LogName) == LogName
    ensures FileNamePrefix(LogName) == Some("Other")
  {
    LogNameBase();
    LogNameParts();
    DateDigits();
    OtherAlnum();
    FileNamePrefixDirect(LogName, "Other");
  }

  /** With neither pattern in the line, the log file's name gives the vehicle. */
  lemma FileNameExample()
    ensures VehicleFromContent(LogName, "") == "Other"
  {
    NoLabel("");
    LogNamePrefix();
    VehicleFromFileName(LogName, "");
  }

  /** Neither pattern matches in an empty line, and a name without the date shape is "Unknown". */
  lemma UnknownExample()
    ensures VehicleFromContent("notes.LOG", "") == "Unknown"
  {
    NoLabel("");
    NotContainsChar("notes.LOG", '/');
    BasenameOfName("notes.LOG");
    VehicleFromFileName("notes.LOG", "");
  }
}
