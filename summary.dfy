/**
 * The two passes of `write_vehicle_summary_html` over the matched lines: the
 * file-to-vehicle map read from configuration lines, then one record per
 * vehicle key (display name, configurations, protocols, mismatch flag and
 * source files), the order in which the records are listed, and the list of
 * requested ids that found no log.
 */
module Summary {
  import opened Wrappers
  import opened Text
  import opened Sorting
  import opened Keywords
  import opened Vehicles

  const ProtocolsLabel: string := "Protocols:"
  const EpkLabel: string := "CCP: EPK"

  /** The configuration text of a line: what follows the label, stripped. */
  function ConfigOf(content: string): (r: Option<string>)
    ensures r.Some? <==> Contains(content, ConfigLabel)
  {
    if Contains(content, ConfigLabel) then Some(Strip(After(content, ConfigLabel))) else None
  }

  /**
   * The protocol text of a line: what follows "Protocols:", or else, on a
   * "CCP: EPK" line, that label with what follows it.
   */
  function ProtocolOf(content: string): (r: Option<string>)
    ensures r.Some? <==> Contains(content, ProtocolsLabel) || Contains(content, EpkLabel)
    ensures r.Some? && !Contains(content, ProtocolsLabel) ==> StartsWith(r.value, EpkLabel)
  {
    if Contains(content, ProtocolsLabel) then Some(Strip(After(content, ProtocolsLabel)))
    else if Contains(content, EpkLabel) then
      var part := Strip(After(content, EpkLabel));
      Some(if part != "" then EpkLabel + " " + part else EpkLabel)
    else None
  }

  /** `"mismatch" in p.lower()`. */
  predicate MentionsMismatch(p: string) { Contains(Lower(p), "mismatch") }

  /**
   * What the summary reads from one matched line: its vehicle, its
   * configuration and protocol texts, and whether the protocol text mentions
   * "mismatch".
   */
  datatype Reading = Reading(vehicle: string, config: Option<string>, protocol: Option<string>, flagged: bool)

  function ReadLine(m: MatchedLine): (r: Reading)
    ensures r.flagged <==> r.protocol.Some? && MentionsMismatch(r.protocol.value)
  {
    var p := ProtocolOf(m.content);
    Reading(VehicleFromContent(m.file, m.content), ConfigOf(m.content), p, p.Some? && MentionsMismatch(p.value))
  }

  /**
   * The passes below take the reader as a parameter, so that what is proved
   * about them holds for any reading of the lines; the page uses `Reader()`.
   */
  function Reader(): MatchedLine -> Reading {
    m => ReadLine(m)
  }

  // ----- pass 1: file -> vehicle from the configuration lines -----

  /** A configuration line whose vehicle could be read. */
  predicate ConfigNamed(r: Reading) {
    r.config.Some? && r.vehicle != "Unknown"
  }

  /** `file_to_vehicle` after the first loop over `ms`. */
  function ConfigVehicles(ms: seq<MatchedLine>, read: MatchedLine -> Reading): map<string, string> {
    if ms == [] then map[]
    else
      var t := ConfigVehicles(ms[..|ms| - 1], read);
      var m := ms[|ms| - 1];
      if ConfigNamed(read(m)) then t[m.file := read(m).vehicle] else t
  }

  /** The first loop of `write_vehicle_summary_html`. */
  method BuildFileVehicles(ms: seq<MatchedLine>) returns (table: map<string, string>)
    ensures table == ConfigVehicles(ms, Reader())
  {
    table := map[];
    for i := 0 to |ms|
      invariant table == ConfigVehicles(ms[..i], Reader())
    {
      assert ms[..i + 1][..i] == ms[..i];
      var m := ms[i];
      if Contains(m.content, ConfigLabel) {
        var veh := VehicleFromContent(m.file, m.content);
        if veh != "Unknown" {
          table := table[m.file := veh];
        }
      }
    }
    assert ms[..|ms|] == ms;
  }

  /** A file is in the map exactly when one of its lines is a configuration line naming a vehicle. */
  lemma {:induction false} ConfigVehiclesDomain(ms: seq<MatchedLine>, read: MatchedLine -> Reading, f: string)
    ensures f in ConfigVehicles(ms, read) <==> exists i :: 0 <= i < |ms| && ms[i].file == f && ConfigNamed(read(ms[i]))
  {
    if ms != [] {
      var init := ms[..|ms| - 1];
      ConfigVehiclesDomain(init, read, f);
      assert forall i :: 0 <= i < |init| ==> ms[i] == init[i];
    }
  }

  /** A mapped file maps to the vehicle of its last configuration line that names one. */
  lemma {:induction false} ConfigVehiclesLast(ms: seq<MatchedLine>, read: MatchedLine -> Reading, f: string, i: nat)
    requires i < |ms| && ms[i].file == f && ConfigNamed(read(ms[i]))
    requires forall j :: i < j < |ms| && ms[j].file == f ==> !ConfigNamed(read(ms[j]))
    ensures f in ConfigVehicles(ms, read) && ConfigVehicles(ms, read)[f] == read(ms[i]).vehicle
  {
    var init, m := ms[..|ms| - 1], ms[|ms| - 1];
    if i < |ms| - 1 {
      ConfigVehiclesLast(init, read, f, i);
      assert ms[i] == init[i];
      assert !(m.file == f && ConfigNamed(read(m)));
    }
  }

  // ----- pass 2: one record per vehicle key -----

  /** `veh_raw`: the line's own vehicle, or the file's configured one when that is "Unknown". */
  function RawName(table: map<string, string>, read: MatchedLine -> Reading, m: MatchedLine): string {
    var raw := read(m).vehicle;
    if raw == "Unknown" && m.file in table then table[m.file] else raw
  }

  /** `veh_raw.strip().lower() or "unknown"`. */
  function KeyOf(raw: string): string {
    var k := Lower(Strip(raw));
    if k == "" then "unknown" else k
  }

  /** The name a line is filed with and the key it is filed under. */
  datatype Label = Label(raw: string, key: string)

  /**
   * The labels of the second loop.  The grouping below takes the labelling as
   * a parameter, so that what is proved about it holds for any labelling.
   */
  function Labeler(table: map<string, string>, read: MatchedLine -> Reading): MatchedLine -> Label {
    m => var raw := RawName(table, read, m); Label(raw, KeyOf(raw))
  }

  /**
   * One entry of `vehicles`.  The source's sets `configs` and `sources` are
   * kept as the lists of what was added, with repeats; only their elements
   * are ever used.
   */
  datatype Vehicle = Vehicle(name: string, configs: seq<string>, protocols: seq<string>,
                             hasMismatch: bool, sources: seq<string>)

  /** What one line adds to its vehicle's record. */
  function AddToVehicle(v: Vehicle, file: string, r: Reading): Vehicle {
    var v1 := v.(sources := v.sources + [file]);
    var v2 := if r.config.Some? then v1.(configs := v1.configs + [r.config.value]) else v1;
    if r.protocol.Some? then
      v2.(protocols := v2.protocols + [r.protocol.value],
          hasMismatch := v2.hasMismatch || r.flagged)
    else v2
  }

  /** `vehicles`: its keys in insertion order and the record of each. */
  datatype Groups = Groups(keys: seq<string>, byKey: map<string, Vehicle>)

  ghost predicate WellFormed(g: Groups) {
    && (forall i, j :: 0 <= i < j < |g.keys| ==> g.keys[i] != g.keys[j])
    && (forall k :: k in g.byKey <==> k in g.keys)
  }

  /** One iteration of the second loop: `setdefault` under the line's key, then the additions. */
  function AddLine(g: Groups, labels: MatchedLine -> Label, read: MatchedLine -> Reading, m: MatchedLine): Groups {
    var raw := labels(m).raw;
    var key := labels(m).key;
    var v := if key in g.byKey then g.byKey[key] else Vehicle(raw, [], [], false, []);
    Groups(if key in g.byKey then g.keys else g.keys + [key], g.byKey[key := AddToVehicle(v, m.file, read(m))])
  }

  /** The record one line leaves under a key: the line's own key gets the additions, the others are kept. */
  lemma AddLineRecord(g: Groups, labels: MatchedLine -> Label, read: MatchedLine -> Reading, m: MatchedLine, k: string)
    requires k in AddLine(g, labels, read, m).byKey
    ensures var v := AddLine(g, labels, read, m).byKey[k];
      if labels(m).key == k then
        var v0 := if k in g.byKey then g.byKey[k] else Vehicle(labels(m).raw, [], [], false, []);
        && v.configs == v0.configs + (if read(m).config.Some? then [read(m).config.value] else [])
        && v.protocols == v0.protocols + (if read(m).protocol.Some? then [read(m).protocol.value] else [])
      else k in g.byKey && v == g.byKey[k]
  {
  }

  /** `vehicles` after the second loop over `ms`. */
  function GroupAll(ms: seq<MatchedLine>, labels: MatchedLine -> Label, read: MatchedLine -> Reading): (g: Groups)
    ensures WellFormed(g)
  {
    if ms == [] then Groups([], map[])
    else
      var g0 := GroupAll(ms[..|ms| - 1], labels, read);
      var g := AddLine(g0, labels, read, ms[|ms| - 1]);
      assert forall k :: k in g.byKey <==> k in g.keys;
      g
  }

  /** The second loop of `write_vehicle_summary_html`. */
  method GroupLines(ms: seq<MatchedLine>, table: map<string, string>)
    returns (keys: seq<string>, byKey: map<string, Vehicle>)
    ensures Groups(keys, byKey) == GroupAll(ms, Labeler(table, Reader()), Reader())
  {
    keys, byKey := [], map[];
    for i := 0 to |ms|
      invariant Groups(keys, byKey) == GroupAll(ms[..i], Labeler(table, Reader()), Reader())
    {
      assert ms[..i + 1][..i] == ms[..i];
      keys, byKey := FileLine(keys, byKey, table, ms[i]);
    }
    assert ms[..|ms|] == ms;
  }

  /** One iteration of the second loop. */
  method FileLine(keys: seq<string>, byKey: map<string, Vehicle>, table: map<string, string>, m: MatchedLine)
    returns (keys': seq<string>, byKey': map<string, Vehicle>)
    ensures Groups(keys', byKey') == AddLine(Groups(keys, byKey), Labeler(table, Reader()), Reader(), m)
  {
    var raw := VehicleFromContent(m.file, m.content);
    if raw == "Unknown" && m.file in table {
      raw := table[m.file];
    }
    var key := KeyOf(raw);
    assert Labeler(table, Reader())(m) == Label(raw, key);
    ghost var r := ReadLine(m);
    assert Reader()(m) == r;
    // `setdefault`
    var v := if key in byKey then byKey[key] else Vehicle(raw, [], [], false, []);
    keys' := if key in byKey then keys else keys + [key];
    ghost var v0 := v;
    v := v.(sources := v.sources + [m.file]);
    var config := ConfigOf(m.content);
    if config.Some? {
      v := v.(configs := v.configs + [config.value]);
    }
    var protocol := ProtocolOf(m.content);
    if protocol.Some? {
      v := v.(protocols := v.protocols + [protocol.value]);
      if MentionsMismatch(protocol.value) {
        v := v.(hasMismatch := true);
      }
    }
    assert v == AddToVehicle(v0, m.file, r);
    byKey' := byKey[key := v];
  }

  // ----- what the records hold -----

  /** Some line of `ms` satisfies `p`. */
  predicate AnyLine(ms: seq<MatchedLine>, p: MatchedLine -> bool) {
    exists i :: 0 <= i < |ms| && p(ms[i])
  }

  lemma AnyLineLast(ms: seq<MatchedLine>, p: MatchedLine -> bool)
    requires ms != []
    ensures AnyLine(ms, p) <==> AnyLine(ms[..|ms| - 1], p) || p(ms[|ms| - 1])
  {
    var init := ms[..|ms| - 1];
    if AnyLine(ms, p) && !p(ms[|ms| - 1]) {
      var i :| 0 <= i < |ms| && p(ms[i]);
      assert init[i] == ms[i];
    }
    if AnyLine(init, p) {
      var i :| 0 <= i < |init| && p(init[i]);
      assert init[i] == ms[i];
    }
  }

  /** A key has a record exactly when some line is filed under it. */
  lemma {:induction false} GroupAllKeys(ms: seq<MatchedLine>, labels: MatchedLine -> Label, read: MatchedLine -> Reading, k: string)
    ensures k in GroupAll(ms, labels, read).byKey <==> exists i :: 0 <= i < |ms| && labels(ms[i]).key == k
  {
    if ms != [] {
      var init := ms[..|ms| - 1];
      GroupAllKeys(init, labels, read, k);
      assert forall i :: 0 <= i < |init| ==> ms[i] == init[i];
    }
  }

  /** The display name is the raw name of the first line filed under the key, and it has that key. */
  lemma {:induction false} GroupAllName(ms: seq<MatchedLine>, labels: MatchedLine -> Label, read: MatchedLine -> Reading, k: string)
    requires k in GroupAll(ms, labels, read).byKey
    ensures var v := GroupAll(ms, labels, read).byKey[k];
      exists i :: 0 <= i < |ms| && labels(ms[i]).key == k && v.name == labels(ms[i]).raw
           && forall j :: 0 <= j < i ==> labels(ms[j]).key != k
  {
    var init, m := ms[..|ms| - 1], ms[|ms| - 1];
    var g0 := GroupAll(init, labels, read);
    assert forall i :: 0 <= i < |init| ==> ms[i] == init[i];
    if k in g0.byKey {
      GroupAllName(init, labels, read, k);
      assert GroupAll(ms, labels, read).byKey[k].name == g0.byKey[k].name;
    } else {
      GroupAllKeys(init, labels, read, k);
      assert labels(ms[|ms| - 1]).key == k;
    }
  }

  /** A file is among a record's sources exactly when one of its lines is filed under the key. */
  lemma {:induction false} GroupAllSources(ms: seq<MatchedLine>, labels: MatchedLine -> Label, read: MatchedLine -> Reading, k: string, f: string)
    requires k in GroupAll(ms, labels, read).byKey
    ensures f in GroupAll(ms, labels, read).byKey[k].sources
        <==> exists i :: 0 <= i < |ms| && labels(ms[i]).key == k && ms[i].file == f
  {
    var init, m := ms[..|ms| - 1], ms[|ms| - 1];
    var g0 := GroupAll(init, labels, read);
    var v := GroupAll(ms, labels, read).byKey[k];
    var p := (x: MatchedLine) => labels(x).key == k && x.file == f;
    AnyLineLast(ms, p);
    if k in g0.byKey {
      GroupAllSources(init, labels, read, k, f);
      assert AnyLine(init, p) <==> f in g0.byKey[k].sources;
      if labels(m).key == k {
        assert v.sources == g0.byKey[k].sources + [m.file];
      } else {
        assert v == g0.byKey[k];
      }
    } else {
      GroupAllKeys(init, labels, read, k);
      assert !AnyLine(init, p);
      assert v.sources == [m.file];
    }
    assert AnyLine(ms, p) <==> exists i :: 0 <= i < |ms| && labels(ms[i]).key == k && ms[i].file == f;
  }

  /** A configuration is in a record exactly when a line filed under the key carries it. */
  lemma {:induction false} GroupAllConfigs(ms: seq<MatchedLine>, labels: MatchedLine -> Label, read: MatchedLine -> Reading, k: string, c: string)
    requires k in GroupAll(ms, labels, read).byKey
    ensures c in GroupAll(ms, labels, read).byKey[k].configs
        <==> exists i :: 0 <= i < |ms| && labels(ms[i]).key == k && read(ms[i]).config == Some(c)
  {
    var init, m := ms[..|ms| - 1], ms[|ms| - 1];
    var g0 := GroupAll(init, labels, read);
    var v := GroupAll(ms, labels, read).byKey[k];
    var p := (x: MatchedLine) => labels(x).key == k && read(x).config == Some(c);
    AnyLineLast(ms, p);
    var before := if k in g0.byKey then g0.byKey[k].configs else [];
    if k in g0.byKey {
      GroupAllConfigs(init, labels, read, k, c);
      assert AnyLine(init, p) <==> c in before;
    } else {
      GroupAllKeys(init, labels, read, k);
      assert !AnyLine(init, p);
    }
    assert GroupAll(ms, labels, read) == AddLine(g0, labels, read, m);
    AddLineRecord(g0, labels, read, m, k);
    assert AnyLine(ms, p) <==> exists i :: 0 <= i < |ms| && labels(ms[i]).key == k && read(ms[i]).config == Some(c);
  }

  /** A protocol is in a record exactly when a line filed under the key carries it. */
  lemma {:induction false} GroupAllProtocols(ms: seq<MatchedLine>, labels: MatchedLine -> Label, read: MatchedLine -> Reading, k: string, q: string)
    requires k in GroupAll(ms, labels, read).byKey
    ensures q in GroupAll(ms, labels, read).byKey[k].protocols
        <==> exists i :: 0 <= i < |ms| && labels(ms[i]).key == k && read(ms[i]).protocol == Some(q)
  {
    var init, m := ms[..|ms| - 1], ms[|ms| - 1];
    var g0 := GroupAll(init, labels, read);
    var v := GroupAll(ms, labels, read).byKey[k];
    var p := (x: MatchedLine) => labels(x).key == k && read(x).protocol == Some(q);
    AnyLineLast(ms, p);
    var before := if k in g0.byKey then g0.byKey[k].protocols else [];
    if k in g0.byKey {
      GroupAllProtocols(init, labels, read, k, q);
      assert AnyLine(init, p) <==> q in before;
    } else {
      GroupAllKeys(init, labels, read, k);
      assert !AnyLine(init, p);
    }
    assert GroupAll(ms, labels, read) == AddLine(g0, labels, read, m);
    AddLineRecord(g0, labels, read, m, k);
    assert AnyLine(ms, p) <==> exists i :: 0 <= i < |ms| && labels(ms[i]).key == k && read(ms[i]).protocol == Some(q);
  }

  /** `has_mismatch` is set exactly when some protocol line filed under the key is flagged. */
  lemma {:induction false} GroupAllMismatch(ms: seq<MatchedLine>, labels: MatchedLine -> Label, read: MatchedLine -> Reading, k: string)
    requires k in GroupAll(ms, labels, read).byKey
    ensures GroupAll(ms, labels, read).byKey[k].hasMismatch
        <==> exists i :: 0 <= i < |ms| && labels(ms[i]).key == k && read(ms[i]).protocol.Some? && read(ms[i]).flagged
  {
    var init, m := ms[..|ms| - 1], ms[|ms| - 1];
    var g0 := GroupAll(init, labels, read);
    var v := GroupAll(ms, labels, read).byKey[k];
    var p := (x: MatchedLine) => labels(x).key == k && read(x).protocol.Some? && read(x).flagged;
    AnyLineLast(ms, p);
    var before := k in g0.byKey && g0.byKey[k].hasMismatch;
    if k in g0.byKey {
      GroupAllMismatch(init, labels, read, k);
      assert AnyLine(init, p) <==> before;
    } else {
      GroupAllKeys(init, labels, read, k);
      assert !AnyLine(init, p);
    }
    if labels(m).key == k {
      var r := read(m);
      assert v.hasMismatch == (before || (r.protocol.Some? && r.flagged));
    } else {
      assert v == g0.byKey[k];
    }
    assert AnyLine(ms, p) <==> exists i :: 0 <= i < |ms| && labels(ms[i]).key == k && read(ms[i]).protocol.Some? && read(ms[i]).flagged;
  }

  /** A key is its own key: the keys are lower-case and stripped, and never empty. */
  lemma KeyOfKey(raw: string)
    ensures KeyOf(raw) != []
    ensures KeyOf(KeyOf(raw)) == KeyOf(raw)
  {
    var s := Strip(raw);
    var k := Lower(s);
    StripEnds(raw);
    if k != "" {
      assert LowerChar(s[0]) == k[0] && LowerChar(s[|s| - 1]) == k[|k| - 1];
      StripUnchanged(k);
      assert Lower(k) == k;
    } else {
      assert Lower("unknown") == "unknown";
      StripUnchanged("unknown");
    }
  }

  // ----- the order of the records -----

  /** The records in the order of their keys, as `vehicles.values()` lists them. */
  function Values(g: Groups): (vs: seq<Vehicle>)
    requires WellFormed(g)
    ensures |vs| == |g.keys| && forall i :: 0 <= i < |vs| ==> vs[i] == g.byKey[g.keys[i]]
  {
    seq(|g.keys|, i requires 0 <= i < |g.keys| => g.byKey[g.keys[i]])
  }

  /** The sort key `(not has_mismatch, name_display.lower())`, compared as Python compares tuples. */
  predicate MismatchFirst(a: Vehicle, b: Vehicle) {
    if a.hasMismatch != b.hasMismatch then a.hasMismatch
    else StrLe(Lower(a.name), Lower(b.name))
  }

  lemma MismatchFirstTotalPreorder()
    ensures TotalPreorder(MismatchFirst)
  {
    forall a, b ensures MismatchFirst(a, b) || MismatchFirst(b, a) {
      StrLeTotal(Lower(a.name), Lower(b.name));
    }
    forall a, b, c | MismatchFirst(a, b) && MismatchFirst(b, c) ensures MismatchFirst(a, c) {
      if a.hasMismatch == b.hasMismatch == c.hasMismatch {
        StrLeTransitive(Lower(a.name), Lower(b.name), Lower(c.name));
      }
    }
  }

  /** `sorted(vehicles.values(), key=...)`. */
  function SortVehicles(vs: seq<Vehicle>): seq<Vehicle> {
    Sort(vs, MismatchFirst)
  }

  /**
   * The listing holds the same records; every record with a mismatch comes
   * before every record without; among records alike in that, lower-cased
   * names ascend.
   */
  lemma SortVehiclesOrder(vs: seq<Vehicle>)
    ensures var r := SortVehicles(vs);
      && multiset(r) == multiset(vs)
      && (forall i, j :: 0 <= i < j < |r| && r[j].hasMismatch ==> r[i].hasMismatch)
      && (forall i, j :: 0 <= i < j < |r| && r[i].hasMismatch == r[j].hasMismatch ==> StrLe(Lower(r[i].name), Lower(r[j].name)))
  {
    SortPermutes(vs, MismatchFirst);
    MismatchFirstTotalPreorder();
    SortSorted(vs, MismatchFirst);
  }

  function SameRank(flag: bool, lower: string): Vehicle -> bool {
    (v: Vehicle) => v.hasMismatch == flag && Lower(v.name) == lower
  }

  /** The sort is stable: records with the same flag and lower-cased name stay in key order. */
  lemma SortVehiclesStable(vs: seq<Vehicle>, flag: bool, lower: string)
    ensures Filter(SortVehicles(vs), SameRank(flag, lower)) == Filter(vs, SameRank(flag, lower))
  {
    StrLeReflexive(lower);
    SortStable(vs, MismatchFirst, SameRank(flag, lower));
  }

  // ----- requested ids without logs -----

  /** The non-empty images of `ids` under `f`, in order. */
  function NonBlank(ids: seq<string>, f: string -> string): seq<string> {
    if ids == [] then []
    else
      var s := f(ids[|ids| - 1]);
      NonBlank(ids[..|ids| - 1], f) + (if s != "" then [s] else [])
  }

  lemma {:induction false} NonBlankMembers(ids: seq<string>, f: string -> string, x: string)
    ensures x in NonBlank(ids, f) <==> x != "" && exists i :: 0 <= i < |ids| && f(ids[i]) == x
  {
    if ids != [] {
      var init := ids[..|ids| - 1];
      NonBlankMembers(init, f, x);
      assert forall i :: 0 <= i < |init| ==> ids[i] == init[i];
    }
  }

  /** `[s.strip() for s in ids if s and s.strip()]`. */
  function Cleaned(ids: seq<string>): seq<string> {
    NonBlank(ids, Strip)
  }

  /** The cleaned ids are the non-blank ids, stripped. */
  lemma CleanedMembers(ids: seq<string>, x: string)
    ensures x in Cleaned(ids) <==> x != "" && exists i :: 0 <= i < |ids| && Strip(ids[i]) == x
  {
    NonBlankMembers(ids, Strip, x);
  }

  /** The ids of `xs` whose lower-case form is not in `found`, in order. */
  function Missing(xs: seq<string>, found: set<string>): (r: seq<string>)
    ensures forall x :: x in r <==> x in xs && Lower(x) !in found
  {
    if xs == [] then []
    else
      var x := xs[|xs| - 1];
      Missing(xs[..|xs| - 1], found) + (if Lower(x) !in found then [x] else [])
  }

  predicate LowerLe(a: string, b: string) { StrLe(Lower(a), Lower(b)) }

  lemma LowerLeTotalPreorder()
    ensures TotalPreorder(LowerLe)
  {
    forall a, b ensures LowerLe(a, b) || LowerLe(b, a) {
      StrLeTotal(Lower(a), Lower(b));
    }
    forall a, b, c | LowerLe(a, b) && LowerLe(b, c) ensures LowerLe(a, c) {
      StrLeTransitive(Lower(a), Lower(b), Lower(c));
    }
  }

  /** `serials_without_logs`. */
  function NoData(all: seq<string>, with: seq<string>): seq<string> {
    var found := set x | x in Cleaned(with) :: Lower(x);
    Sort(Dedup(Missing(Cleaned(all), found)), LowerLe)
  }

  /**
   * An id is listed exactly when it is a stripped, non-blank requested id whose
   * lower-case form is the lower-case form of no stripped id with logs; each such
   * id once, ordered by lower-case form.
   */
  lemma NoDataMembers(all: seq<string>, with: seq<string>, x: string)
    ensures x in NoData(all, with)
        <==> x in Cleaned(all) && forall y :: y in Cleaned(with) ==> Lower(y) != Lower(x)
  {
    var c := Cleaned(with);
    var found := set y | y in c :: Lower(y);
    ListedMembers(Cleaned(all), found, x);
    FoundMembers(c, x);
  }

  /** Sorting and removing duplicates keep exactly the ids `Missing` keeps. */
  lemma ListedMembers(xs: seq<string>, found: set<string>, x: string)
    ensures x in Sort(Dedup(Missing(xs, found)), LowerLe) <==> x in xs && Lower(x) !in found
  {
    var d := Dedup(Missing(xs, found));
    SortPermutes(d, LowerLe);
    assert x in Sort(d, LowerLe) <==> x in multiset(d);
  }

  lemma FoundMembers(c: seq<string>, x: string)
    ensures Lower(x) in (set y | y in c :: Lower(y)) <==> exists y :: y in c && Lower(y) == Lower(x)
  {
  }

  /** Each listed id appears once, and the list ascends by lower-case form. */
  lemma NoDataOrder(all: seq<string>, with: seq<string>)
    ensures var r := NoData(all, with);
      forall i, j :: 0 <= i < j < |r| ==> r[i] != r[j] && StrLe(Lower(r[i]), Lower(r[j]))
  {
    var found := set y | y in Cleaned(with) :: Lower(y);
    var d := Dedup(Missing(Cleaned(all), found));
    SortPermutes(d, LowerLe);
    LowerLeTotalPreorder();
    SortSorted(d, LowerLe);
    DistinctPermutation(d, Sort(d, LowerLe));
  }
}
