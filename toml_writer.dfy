/**
 * `TomlWriterTask`: the dependencies of all projects are merged into one
 * coordinate per group/name/version with all their classifiers; a group
 * whose versioned coordinates agree on one version gets a shared version;
 * each coordinate becomes a library entry; both tables are filled, one
 * replacer per library key and classifier is handed on, and the tables are
 * written. Writing the file and creating its directory are left to the
 * caller: the task gives the lines.
 */
module Writer {
  import opened Wrappers
  import opened Text
  import opened Dependencies
  import opened Coordinates
  import opened Entries
  import opened Identifiers
  import opened Tables
  import opened Replacers

  predicate Distinct<T(==)>(s: seq<T>) {
    forall i, j | 0 <= i < j < |s| :: s[i] != s[j]
  }

  function Elements<T>(s: seq<T>): set<T> {
    set x | x in s
  }

  // ------------------------------------------------------- classifier groups

  /** The coordinates the dependencies merge into: their group/name/version, classifiers dropped. */
  function KeysOf(deps: set<Dependency>): set<Gva> {
    set d | d in deps :: KeyOf(d)
  }

  /** Every classifier declared with coordinate `k`, the absent one included. */
  function ClassifiersOf(deps: set<Dependency>, k: Gva): set<Classifier> {
    set d | d in deps && KeyOf(d) == k :: d.classifier
  }

  /** What `buildClassifierGroups` collects: each coordinate with the union of its classifiers. */
  function ClassifierGroups(deps: set<Dependency>): map<Gva, set<Classifier>> {
    map k | k in KeysOf(deps) :: ClassifiersOf(deps, k)
  }

  /**
   * `computeIfAbsent(key, new HashSet).add(classifier)` for one more
   * dependency: its coordinate gets its classifier added, starting from an
   * empty set if the coordinate is new, and no other coordinate changes.
   */
  lemma GroupsAdd(done: set<Dependency>, d: Dependency)
    ensures var groups := ClassifierGroups(done);
      ClassifierGroups(done + {d})
      == groups[KeyOf(d) := (if KeyOf(d) in groups then groups[KeyOf(d)] else {}) + {d.classifier}]
  {
    var groups := ClassifierGroups(done);
    var k := KeyOf(d);
    var merged := groups[k := (if k in groups then groups[k] else {}) + {d.classifier}];
    var actual := ClassifierGroups(done + {d});
    assert actual.Keys == merged.Keys by {
      assert KeysOf(done + {d}) == KeysOf(done) + {k};
    }
    forall x | x in actual ensures actual[x] == merged[x] {
      if x == k {
        if k !in groups {
          assert forall e | e in done :: KeyOf(e) != k;
          assert ClassifiersOf(done + {d}, k) == {d.classifier};
        } else {
          assert ClassifiersOf(done + {d}, k) == ClassifiersOf(done, k) + {d.classifier};
        }
      } else {
        assert ClassifiersOf(done + {d}, x) == ClassifiersOf(done, x);
      }
    }
  }

  /**
   * Declarations of one coordinate with different classifiers merge into a
   * single coordinate holding both classifiers: `group1:name1:4.1.5` and
   * `group1:name1:4.1.5:test` become one catalog row.
   */
  lemma SameCoordinateMerges(d1: Dependency, d2: Dependency)
    requires KeyOf(d1) == KeyOf(d2)
    ensures ClassifierGroups({d1, d2}) == map[KeyOf(d1) := {d1.classifier, d2.classifier}]
  {
    assert KeysOf({d1, d2}) == {KeyOf(d1)};
    assert ClassifiersOf({d1, d2}, KeyOf(d1)) == {d1.classifier, d2.classifier};
  }

  // ------------------------------------------------------- shared versions

  /**
   * `groupingBy(group, mapping(version, toList()))` over the versioned
   * coordinates, in stream order: each group with the list of its versions.
   */
  function VersionsByGroup(ks: seq<Gva>): map<string, seq<string>>
    decreases |ks|
  {
    if ks == [] then map[]
    else
      AddVersion(VersionsByGroup(ks[..|ks| - 1]), ks[|ks| - 1])
  }

  /** One coordinate more: its version appended to its group's list, unless it has none. */
  function AddVersion(byGroup: map<string, seq<string>>, k: Gva): map<string, seq<string>> {
    if k.version.None? then byGroup
    else byGroup[k.group := (if k.group in byGroup then byGroup[k.group] else []) + [k.version.value]]
  }

  /**
   * `identifySharedVersions`: the groups listing more than one version, all
   * of them equal, each with its first version.
   */
  function SharedVersions(ks: seq<Gva>): set<GroupVersionEntry> {
    var byGroup := VersionsByGroup(ks);
    set g | g in byGroup && |byGroup[g]| > 1 && |Elements(byGroup[g])| == 1 :: GroupVersionEntry(g, byGroup[g][0])
  }

  /** The coordinates of group `g` that have a version. */
  function VersionedIn(coordinates: set<Gva>, g: string): set<Gva> {
    set k | k in coordinates && k.group == g && k.version.Some?
  }

  /** The distinct versions of group `g`. */
  function VersionSet(coordinates: set<Gva>, g: string): set<string> {
    set k | k in VersionedIn(coordinates, g) :: k.version.value
  }

  /**
   * A group's list holds one version per versioned coordinate of the group:
   * as many as there are such coordinates, and exactly their versions.
   */
  lemma {:induction false} GroupVersions(ks: seq<Gva>, g: string)
    requires Distinct(ks)
    ensures GroupListed(ks, g)
    decreases |ks|
  {
    if ks == [] {
      assert VersionedIn(Elements(ks), g) == {};
    } else {
      var n := |ks| - 1;
      assert Distinct(ks[..n]);
      GroupVersions(ks[..n], g);
      ElementsSnoc(ks, n);
      GroupVersionsStep(ks, g);
    }
  }

  /** Group `g` is listed exactly when it has a versioned coordinate, with one entry per such coordinate. */
  predicate GroupListed(ks: seq<Gva>, g: string) {
    ListedIn(VersionsByGroup(ks), Elements(ks), g)
  }

  predicate ListedIn(byGroup: map<string, seq<string>>, coordinates: set<Gva>, g: string) {
    && (g in byGroup <==> VersionedIn(coordinates, g) != {})
    && (g in byGroup ==>
          |byGroup[g]| == |VersionedIn(coordinates, g)| && Elements(byGroup[g]) == VersionSet(coordinates, g))
  }

  lemma GroupVersionsStep(ks: seq<Gva>, g: string)
    requires ks != []
    requires var n := |ks| - 1;
      GroupListed(ks[..n], g) && Elements(ks) == Elements(ks[..n]) + {ks[n]} && ks[n] !in Elements(ks[..n])
    ensures GroupListed(ks, g)
  {
    var n := |ks| - 1;
    ListedStep(VersionsByGroup(ks[..n]), Elements(ks[..n]), ks[n], g);
  }

  /** Adding a new coordinate to both the lists and the coordinates keeps group `g` listed. */
  lemma ListedStep(byGroup: map<string, seq<string>>, coordinates: set<Gva>, k: Gva, g: string)
    requires k !in coordinates && ListedIn(byGroup, coordinates, g)
    ensures ListedIn(AddVersion(byGroup, k), coordinates + {k}, g)
  {
    VersionedAdd(coordinates, k, g);
    var byGroup' := AddVersion(byGroup, k);
    if k.group == g && k.version.Some? {
      var list := if g in byGroup then byGroup[g] else [];
      assert byGroup'[g] == list + [k.version.value];
      ElementsAppend(list, k.version.value);
    } else {
      assert g in byGroup' <==> g in byGroup;
      assert g in byGroup ==> byGroup'[g] == byGroup[g];
    }
  }

  /** The elements of a distinct sequence: those before the last, and the last, which is new. */
  lemma ElementsSnoc<T>(ks: seq<T>, n: nat)
    requires Distinct(ks) && n == |ks| - 1
    ensures Elements(ks) == Elements(ks[..n]) + {ks[n]} && ks[n] !in Elements(ks[..n])
  {
    assert ks == ks[..n] + [ks[n]];
    forall i | 0 <= i < n ensures ks[..n][i] != ks[n] {
      assert ks[i] != ks[n];
    }
  }

  lemma ElementsAppend<T>(list: seq<T>, x: T)
    ensures Elements(list + [x]) == Elements(list) + {x}
  {
  }

  /** One more coordinate: counted for its group when it has a version, and adding its version. */
  lemma VersionedAdd(coordinates: set<Gva>, k: Gva, g: string)
    requires k !in coordinates
    ensures k.group == g && k.version.Some? ==>
      VersionedIn(coordinates + {k}, g) == VersionedIn(coordinates, g) + {k} &&
      |VersionedIn(coordinates + {k}, g)| == |VersionedIn(coordinates, g)| + 1 &&
      VersionSet(coordinates + {k}, g) == VersionSet(coordinates, g) + {k.version.value}
    ensures !(k.group == g && k.version.Some?) ==>
      VersionedIn(coordinates + {k}, g) == VersionedIn(coordinates, g) &&
      VersionSet(coordinates + {k}, g) == VersionSet(coordinates, g)
  {
    if k.group == g && k.version.Some? {
      assert VersionedIn(coordinates + {k}, g) == VersionedIn(coordinates, g) + {k};
    } else {
      assert VersionedIn(coordinates + {k}, g) == VersionedIn(coordinates, g);
    }
  }

  /**
   * The shared versions: a group gets `v` exactly when more than one of its
   * coordinates has a version and `v` is the only version among them.
   */
  lemma SharedVersionIff(ks: seq<Gva>, g: string, v: string)
    requires Distinct(ks)
    ensures GroupVersionEntry(g, v) in SharedVersions(ks)
        <==> |VersionedIn(Elements(ks), g)| > 1 && VersionSet(Elements(ks), g) == {v}
  {
    var byGroup := VersionsByGroup(ks);
    GroupVersions(ks, g);
    if GroupVersionEntry(g, v) in SharedVersions(ks) {
      assert g in byGroup && byGroup[g][0] == v;
      assert v in Elements(byGroup[g]);
      SingletonOf(Elements(byGroup[g]), v);
    }
    if |VersionedIn(Elements(ks), g)| > 1 && VersionSet(Elements(ks), g) == {v} {
      var list := byGroup[g];
      assert list[0] in Elements(list);
      assert GroupVersionEntry(g, list[0]) in SharedVersions(ks);
    }
  }

  lemma SingletonOf<T>(s: set<T>, x: T)
    requires |s| == 1 && x in s
    ensures s == {x}
  {
    assert |s - {x}| == 0;
  }

  /** A group gets at most one shared version. */
  lemma OneVersionPerGroup(ks: seq<Gva>, e1: GroupVersionEntry, e2: GroupVersionEntry)
    requires Distinct(ks)
    requires e1 in SharedVersions(ks) && e2 in SharedVersions(ks) && e1.group == e2.group
    ensures e1 == e2
  {
    SharedVersionIff(ks, e1.group, e1.version);
    SharedVersionIff(ks, e2.group, e2.version);
  }

  /** The order the coordinates are streamed in does not matter. */
  lemma SharedVersionsOrderFree(ks1: seq<Gva>, ks2: seq<Gva>)
    requires Distinct(ks1) && Distinct(ks2) && Elements(ks1) == Elements(ks2)
    ensures SharedVersions(ks1) == SharedVersions(ks2)
  {
    forall e | e in SharedVersions(ks1) ensures e in SharedVersions(ks2) {
      SharedVersionIff(ks1, e.group, e.version);
      SharedVersionIff(ks2, e.group, e.version);
    }
    forall e | e in SharedVersions(ks2) ensures e in SharedVersions(ks1) {
      SharedVersionIff(ks1, e.group, e.version);
      SharedVersionIff(ks2, e.group, e.version);
    }
  }

  /** A coordinate without a version never contributes to the shared versions. */
  lemma UnversionedIgnored(ks: seq<Gva>, k: Gva)
    requires k.version.None?
    ensures SharedVersions(ks + [k]) == SharedVersions(ks)
  {
    assert (ks + [k])[..|ks|] == ks;
  }

  /**
   * `version-group:some-artifact:1.2.3` and `version-group:other-artifact:1.2.3`
   * share `version-group = "1.2.3"`.
   */
  lemma VersionGroupShared(some: Gva, other: Gva)
    requires some == Gva("version-group", "some-artifact", Some("1.2.3"))
    requires other == Gva("version-group", "other-artifact", Some("1.2.3"))
    ensures SharedVersions([some, other]) == {GroupVersionEntry("version-group", "1.2.3")}
  {
    var ks := [some, other];
    var v := "1.2.3";
    assert ks[..1] == [some];
    assert [some][..0] == [];
    assert VersionsByGroup([some][..0]) == map[];
    assert [] + [v] == [v];
    assert VersionsByGroup([some]) == map[some.group := [v]];
    assert [v] + [v] == [v, v];
    assert VersionsByGroup(ks) == map[some.group := [v, v]];
    assert Elements([v, v]) == {v};
  }

  // ------------------------------------------------------- library entries

  /** `groupToTomlId.get(group)`: the versions-table key of the group, if it has one. */
  function TomlIdOf(groupToTomlId: map<string, string>, group: string): Option<string> {
    if group in groupToTomlId then Some(groupToTomlId[group]) else None
  }

  /**
   * The library entry of coordinate `k`: its module and classifiers, no
   * version if it has none, a reference to its group's versions-table key if
   * there is one, and its own version otherwise.
   */
  predicate Encodes(k: Gva, classifiers: set<Classifier>, groupToTomlId: map<string, string>, e: LibraryEntry) {
    && e.group == k.group && e.name == k.name && e.classifiers == classifiers
    && (k.version.None? ==> e.spec == Unversioned)
    && (k.version.Some? && k.group in groupToTomlId ==> e.spec == Ref(groupToTomlId[k.group]))
    && (k.version.Some? && k.group !in groupToTomlId ==> e.spec == Literal(k.version.value))
  }

  /** `encodeLibraries`: one entry per coordinate, in stream order. */
  function EncodeLibraries(cs: seq<GVACoordinates>, groupToTomlId: map<string, string>): (r: seq<LibraryEntry>)
    reads set i | 0 <= i < |cs| :: cs[i]
    ensures |r| == |cs|
    ensures forall i | 0 <= i < |cs| :: Encodes(cs[i].Key(), cs[i].classifiers, groupToTomlId, r[i])
    decreases |cs|
  {
    if cs == [] then []
    else
      var c := cs[|cs| - 1];
      EncodeLibraries(cs[..|cs| - 1], groupToTomlId) + [NewLibraryEntry(c, TomlIdOf(groupToTomlId, c.group))]
  }

  /**
   * The shared version `version-group = "1.2.3"` is stored under its own
   * group, `groupToTomlId` maps the group to that key, and so
   * `version-group:other-artifact:1.2.3` refers to it with
   * `version.ref = "version-group"`.
   */
  lemma VersionGroupReferenced(e: GroupVersionEntry, baseId: GroupVersionEntry -> string, random: nat -> Suffix,
                               groupToTomlId: map<string, string>, k: Gva, classifiers: set<Classifier>, entry: LibraryEntry)
    requires e == GroupVersionEntry("version-group", "1.2.3") && baseId(e) == e.group
    requires IndexesGroups(groupToTomlId, AddSeq(map[], SortDesc([e], baseId), CandidateOf(baseId), random))
    requires k == Gva("version-group", "other-artifact", Some("1.2.3")) && Encodes(k, classifiers, groupToTomlId, entry)
    ensures AddSeq(map[], SortDesc([e], baseId), CandidateOf(baseId), random) == map["version-group" := e]
    ensures groupToTomlId == map["version-group" := "version-group"]
    ensures entry.spec == Ref("version-group")
  {
    VersionRowAlone(e, baseId, random);
    OneGroupIndexed(groupToTomlId, "version-group", e);
  }

  /** The one shared version, added to the empty versions table, is stored under its group. */
  lemma VersionRowAlone(e: GroupVersionEntry, baseId: GroupVersionEntry -> string, random: nat -> Suffix)
    requires e == GroupVersionEntry("version-group", "1.2.3") && baseId(e) == e.group
    ensures AddSeq(map[], SortDesc([e], baseId), CandidateOf(baseId), random) == map["version-group" := e]
  {
    VersionGroupWellFormed(baseId(e));
    SingleRowKeepsItsName(e, baseId, random);
    SortDescSingle(e, baseId);
    SortDescSingle(e, CandidateOf(baseId));
  }

  lemma VersionGroupWellFormed(id: string)
    requires id == "version-group"
    ensures WellFormedId(id)
  {
    assert forall i | 0 <= i < |id| :: IsKeyChar(id[i]);
  }

  /** A versions table of one row stored under its own group indexes just that group. */
  lemma OneGroupIndexed(groupToTomlId: map<string, string>, key: string, e: GroupVersionEntry)
    requires e.group == key && IndexesGroups(groupToTomlId, map[key := e])
    ensures groupToTomlId == map[key := key]
  {
    var rows := map[key := e];
    assert key in rows && rows[key].group == key;
    forall g | g in groupToTomlId ensures g == key && groupToTomlId[g] == key {
      assert groupToTomlId[g] in rows;
    }
  }

  // ------------------------------------------------------- the task's loops

  /** A set in some order, each element once (a hash set's iteration order is not modelled). */
  method Enumerate<T>(s: set<T>) returns (r: seq<T>)
    ensures Distinct(r) && Elements(r) == s
  {
    r := [];
    var remaining := s;
    while remaining != {}
      invariant remaining <= s
      invariant Distinct(r) && Elements(r) == s - remaining
      decreases |remaining|
    {
      var x :| x in remaining;
      assert forall i | 0 <= i < |r| :: r[i] != x by {
        forall i | 0 <= i < |r| ensures r[i] != x {
          assert r[i] in Elements(r);
        }
      }
      ElementsAppend(r, x);
      r := r + [x];
      remaining := remaining - {x};
    }
  }

  /** Each group of the versions table with one key whose row has that group. */
  ghost predicate IndexesGroups(groupToTomlId: map<string, string>, rows: map<string, GroupVersionEntry>) {
    && (forall g | g in groupToTomlId :: groupToTomlId[g] in rows && rows[groupToTomlId[g]].group == g)
    && (forall k | k in rows :: rows[k].group in groupToTomlId)
  }

  /** The `groupToTomlId` loop: every row of the versions table, its group mapped to its key. */
  method GroupToTomlId(versionTable: TomlTable<GroupVersionEntry>) returns (groupToTomlId: map<string, string>)
    ensures IndexesGroups(groupToTomlId, versionTable.rows)
  {
    var es := versionTable.Entries();
    groupToTomlId := map[];
    for i := 0 to |es|
      invariant forall g | g in groupToTomlId ::
        groupToTomlId[g] in versionTable.rows && versionTable.rows[groupToTomlId[g]].group == g
      invariant forall j | 0 <= j < i :: es[j].1.group in groupToTomlId
    {
      groupToTomlId := groupToTomlId[es[i].1.group := es[i].0];
    }
    forall k | k in versionTable.rows ensures versionTable.rows[k].group in groupToTomlId {
      var j :| 0 <= j < |es| && es[j].0 == k;
    }
  }

  /** The replacers of one library row: one per classifier, in the set's order. */
  method RowReplacers(key: string, entry: LibraryEntry) returns (rs: seq<BuildGradleReplacer>, ghost cs: seq<Classifier>)
    ensures |rs| == |cs| && Distinct(cs) && Elements(cs) == entry.classifiers
    ensures forall i | 0 <= i < |rs| :: rs[i] == NewReplacer(key, entry, cs[i])
    ensures forall r | r in rs :: exists c | c in entry.classifiers :: r == NewReplacer(key, entry, c)
    ensures forall c | c in entry.classifiers :: NewReplacer(key, entry, c) in rs
  {
    var classifiers := Enumerate(entry.classifiers);
    cs := classifiers;
    rs := [];
    for i := 0 to |classifiers|
      invariant |rs| == i
      invariant forall j | 0 <= j < i :: rs[j] == NewReplacer(key, entry, classifiers[j])
    {
      rs := rs + [NewReplacer(key, entry, classifiers[i])];
    }
    forall r | r in rs ensures exists c | c in entry.classifiers :: r == NewReplacer(key, entry, c) {
      var i :| 0 <= i < |rs| && rs[i] == r;
      assert classifiers[i] in Elements(classifiers);
    }
    forall c | c in entry.classifiers ensures NewReplacer(key, entry, c) in rs {
      var i :| 0 <= i < |classifiers| && classifiers[i] == c;
      assert rs[i] == NewReplacer(key, entry, c);
    }
  }

  /** The replacer emitted for a library key and classifier. */
  ghost predicate EmitsFor(rows: map<string, LibraryEntry>, pair: (string, Classifier), r: BuildGradleReplacer) {
    pair.0 in rows && pair.1 in rows[pair.0].classifiers && r == NewReplacer(pair.0, rows[pair.0], pair.1)
  }

  /**
   * The consumer loop: for every row of the library table and every one of
   * its classifiers, the absent one included, exactly one replacer.
   */
  method EmitReplacers(libraryTable: TomlTable<LibraryEntry>)
    returns (emitted: seq<BuildGradleReplacer>, ghost pairs: seq<(string, Classifier)>)
    ensures |emitted| == |pairs| && Distinct(pairs)
    ensures forall i | 0 <= i < |emitted| :: EmitsFor(libraryTable.rows, pairs[i], emitted[i])
    ensures forall k, c | k in libraryTable.rows && c in libraryTable.rows[k].classifiers :: (k, c) in pairs
    ensures forall r | r in emitted ::
      exists k, c | k in libraryTable.rows && c in libraryTable.rows[k].classifiers :: r == NewReplacer(k, libraryTable.rows[k], c)
    ensures forall k, c | k in libraryTable.rows && c in libraryTable.rows[k].classifiers ::
      NewReplacer(k, libraryTable.rows[k], c) in emitted
  {
    var es := libraryTable.Entries();
    var rows := libraryTable.rows;
    emitted, pairs := [], [];
    ghost var seen: set<string> := {};
    for i := 0 to |es|
      invariant |emitted| == |pairs| && Distinct(pairs)
      invariant forall j | 0 <= j < |emitted| :: EmitsFor(rows, pairs[j], emitted[j])
      invariant forall j | 0 <= j < |pairs| :: pairs[j].0 in seen
      invariant forall m | i <= m < |es| :: es[m].0 !in seen
      invariant forall m, c | 0 <= m < i && c in es[m].1.classifiers :: (es[m].0, c) in pairs
    {
      var key, entry := es[i].0, es[i].1;
      var rs, cs := RowReplacers(key, entry);
      assert key in rows && rows[key] == entry;
      ghost var more := EmitRow(rows, pairs, emitted, seen, key, rs, cs);
      emitted, pairs := emitted + rs, pairs + more;
      seen := seen + {key};
      assert forall m | i + 1 <= m < |es| :: es[m].0 != key;
    }
    forall k, c | k in rows && c in rows[k].classifiers ensures (k, c) in pairs {
      var m :| 0 <= m < |es| && es[m].0 == k;
    }
    EmittedReplacers(rows, pairs, emitted);
  }

  /** Emitting one replacer per covered pair emits exactly the replacers of the table's rows and classifiers. */
  lemma EmittedReplacers(rows: map<string, LibraryEntry>, pairs: seq<(string, Classifier)>, emitted: seq<BuildGradleReplacer>)
    requires |emitted| == |pairs|
    requires forall i | 0 <= i < |emitted| :: EmitsFor(rows, pairs[i], emitted[i])
    requires forall k, c | k in rows && c in rows[k].classifiers :: (k, c) in pairs
    ensures forall r | r in emitted :: exists k, c | k in rows && c in rows[k].classifiers :: r == NewReplacer(k, rows[k], c)
    ensures forall k, c | k in rows && c in rows[k].classifiers :: NewReplacer(k, rows[k], c) in emitted
  {
    forall r | r in emitted ensures exists k, c | k in rows && c in rows[k].classifiers :: r == NewReplacer(k, rows[k], c) {
      var i :| 0 <= i < |emitted| && emitted[i] == r;
      assert EmitsFor(rows, pairs[i], emitted[i]);
    }
    forall k, c | k in rows && c in rows[k].classifiers ensures NewReplacer(k, rows[k], c) in emitted {
      var i :| 0 <= i < |pairs| && pairs[i] == (k, c);
      assert EmitsFor(rows, pairs[i], emitted[i]);
    }
  }

  /** The pairs of one row's replacers, appended after those of the rows before it. */
  lemma EmitRow(rows: map<string, LibraryEntry>, pairs: seq<(string, Classifier)>, emitted: seq<BuildGradleReplacer>,
                seen: set<string>, key: string, rs: seq<BuildGradleReplacer>, cs: seq<Classifier>)
    returns (more: seq<(string, Classifier)>)
    requires key in rows && key !in seen
    requires |emitted| == |pairs| && Distinct(pairs)
    requires forall j | 0 <= j < |emitted| :: EmitsFor(rows, pairs[j], emitted[j])
    requires forall j | 0 <= j < |pairs| :: pairs[j].0 in seen
    requires |rs| == |cs| && Distinct(cs) && Elements(cs) == rows[key].classifiers
    requires forall j | 0 <= j < |rs| :: rs[j] == NewReplacer(key, rows[key], cs[j])
    ensures |more| == |rs| && forall j | 0 <= j < |more| :: more[j].0 == key
    ensures Distinct(pairs + more)
    ensures forall j | 0 <= j < |emitted + rs| :: EmitsFor(rows, (pairs + more)[j], (emitted + rs)[j])
    ensures forall c | c in rows[key].classifiers :: (key, c) in pairs + more
  {
    more := seq(|cs|, j requires 0 <= j < |cs| => (key, cs[j]));
    AppendDistinct(pairs, seen, more, key);
    AppendCovers(pairs, more, key, cs);
    forall j | 0 <= j < |rs| ensures EmitsFor(rows, more[j], rs[j]) {
      assert cs[j] in Elements(cs);
    }
    AppendEmits(rows, pairs, emitted, more, rs);
  }

  lemma AppendEmits(rows: map<string, LibraryEntry>, pairs: seq<(string, Classifier)>, emitted: seq<BuildGradleReplacer>,
                    more: seq<(string, Classifier)>, rs: seq<BuildGradleReplacer>)
    requires |emitted| == |pairs| && |rs| == |more|
    requires forall j | 0 <= j < |emitted| :: EmitsFor(rows, pairs[j], emitted[j])
    requires forall j | 0 <= j < |rs| :: EmitsFor(rows, more[j], rs[j])
    ensures forall j | 0 <= j < |emitted + rs| :: EmitsFor(rows, (pairs + more)[j], (emitted + rs)[j])
  {
    forall j | 0 <= j < |emitted + rs| ensures EmitsFor(rows, (pairs + more)[j], (emitted + rs)[j]) {
      if j >= |emitted| {
        assert (pairs + more)[j] == more[j - |emitted|] && (emitted + rs)[j] == rs[j - |emitted|];
      }
    }
  }

  /** Pairs of a key not seen before, with distinct classifiers, appended to distinct pairs stay distinct. */
  lemma AppendDistinct(pairs: seq<(string, Classifier)>, seen: set<string>, more: seq<(string, Classifier)>, key: string)
    requires Distinct(pairs) && (forall j | 0 <= j < |pairs| :: pairs[j].0 in seen) && key !in seen
    requires forall j | 0 <= j < |more| :: more[j].0 == key
    requires Distinct(more)
    ensures Distinct(pairs + more)
  {
    var all := pairs + more;
    forall i, j | 0 <= i < j < |all| ensures all[i] != all[j] {
      if j < |pairs| {
        assert all[i] == pairs[i] && all[j] == pairs[j];
      } else if i >= |pairs| {
        assert all[i] == more[i - |pairs|] && all[j] == more[j - |pairs|];
      } else {
        assert all[i].0 in seen && all[j].0 == key;
      }
    }
  }

  /** The pairs of one row cover all of its classifiers. */
  lemma AppendCovers(pairs: seq<(string, Classifier)>, more: seq<(string, Classifier)>, key: string, cs: seq<Classifier>)
    requires |more| == |cs| && forall j | 0 <= j < |cs| :: more[j] == (key, cs[j])
    requires Distinct(cs)
    ensures Distinct(more)
    ensures forall c | c in Elements(cs) :: (key, c) in pairs + more
  {
    forall c | c in Elements(cs) ensures (key, c) in pairs + more {
      var j :| 0 <= j < |cs| && cs[j] == c;
      assert (pairs + more)[|pairs| + j] == (key, c);
    }
  }

  /** The identity of each coordinate, in order. */
  function KeySeq(cs: seq<GVACoordinates>): (ks: seq<Gva>)
    ensures |ks| == |cs| && forall i | 0 <= i < |cs| :: ks[i] == cs[i].Key()
  {
    seq(|cs|, i requires 0 <= i < |cs| => cs[i].Key())
  }

  /** The `computeIfAbsent` loop: each dependency's classifier added under its coordinate. */
  method CollectClassifiers(deps: set<Dependency>) returns (groups: map<Gva, set<Classifier>>)
    ensures groups == ClassifierGroups(deps)
  {
    groups := map[];
    var remaining := deps;
    while remaining != {}
      invariant remaining <= deps
      invariant groups == ClassifierGroups(deps - remaining)
      decreases |remaining|
    {
      var d :| d in remaining;
      var key := KeyOf(d);
      GroupsAdd(deps - remaining, d);
      var classifiers := if key in groups then groups[key] else {};
      groups := groups[key := classifiers + {d.classifier}];
      assert deps - (remaining - {d}) == (deps - remaining) + {d};
      remaining := remaining - {d};
    }
    assert deps - remaining == deps;
  }

  /** `addClassifiers` over the map's entries: one new coordinate per key, holding that key's classifiers. */
  method NewCoordinates(groups: map<Gva, set<Classifier>>) returns (coords: seq<GVACoordinates>)
    ensures forall i | 0 <= i < |coords| :: fresh(coords[i])
    ensures Distinct(KeySeq(coords)) && Elements(KeySeq(coords)) == groups.Keys
    ensures forall i | 0 <= i < |coords| :: coords[i].Key() in groups && coords[i].classifiers == groups[coords[i].Key()]
  {
    var keys := Enumerate(groups.Keys);
    coords := [];
    for i := 0 to |keys|
      invariant |coords| == i
      invariant forall j | 0 <= j < i :: fresh(coords[j])
      invariant forall j | 0 <= j < i :: coords[j].Key() == keys[j] && coords[j].classifiers == groups[keys[j]]
    {
      var c := new GVACoordinates(keys[i].group, keys[i].name, keys[i].version);
      var _ := c.AddClassifiers(groups[keys[i]]);
      coords := coords + [c];
    }
    assert KeySeq(coords) == keys;
  }

  /** A versions table as the task builds it: rows keyed by their group and written as the quoted version. */
  ghost predicate VersionTableOf(t: TomlTable<GroupVersionEntry>) {
    && t.candidate == CandidateOf(t.baseId)
    && forall e: GroupVersionEntry :: t.baseId(e) == e.BaseId() && t.render(e) == e.Render()
  }

  /** A libraries table as the plugin builds it: rows keyed by artifact name and written as inline tables. */
  ghost predicate LibraryTableOf(t: TomlTable<LibraryEntry>) {
    && t.candidate == CandidateOf(t.baseId)
    && forall e: LibraryEntry :: t.baseId(e) == e.BaseId() && t.render(e) == e.Render()
  }

  /**
   * The written libraries table reads back: every row line is a key of the
   * table and its entry's inline table, and that inline table reads back as
   * the entry's group, name and version.
   */
  lemma LibraryLinesReadBack(name: string, rows: map<string, LibraryEntry>, render: LibraryEntry -> string)
    requires forall e: LibraryEntry :: render(e) == e.Render()
    requires forall k | k in rows :: ' ' !in k
    requires forall k | k in rows ::
      QuoteFree(rows[k].group) && QuoteFree(rows[k].name) && QuoteFree(SpecText(rows[k].spec)) && ':' !in rows[k].group
    ensures |TableLines(name, rows, render)| == |rows| + 2
    ensures forall i | 1 <= i <= |rows| :: exists k | k in rows ::
      ParseLine(TableLines(name, rows, render)[i]) == Some((k, rows[k].Render()))
    ensures forall k | k in rows :: ParseLibraryValue(rows[k].Render()) == Some((rows[k].group, rows[k].name, rows[k].spec))
  {
    TableLinesReadBack(name, rows, render);
    forall k | k in rows ensures ParseLibraryValue(rows[k].Render()) == Some((rows[k].group, rows[k].name, rows[k].spec)) {
      LibraryRenderRoundTrip(rows[k]);
    }
  }

  class TomlWriterTask {
    const versionTable: TomlTable<GroupVersionEntry>
    var libraryTable: TomlTable?<LibraryEntry>
    var dependencies: set<Dependency>

    /** The versions table is the task's own; the library table and the dependencies are set later. */
    constructor ()
      ensures fresh(versionTable) && versionTable.tableName == "versions" && versionTable.rows == map[]
      ensures VersionTableOf(versionTable)
      ensures libraryTable == null && dependencies == {}
    {
      versionTable := new TomlTable("versions", (e: GroupVersionEntry) => e.BaseId(), (e: GroupVersionEntry) => e.Render());
      libraryTable := null;
      dependencies := {};
    }

    method SetDependencies(deps: set<Dependency>) returns (self: TomlWriterTask)
      modifies this
      ensures self == this && dependencies == deps && libraryTable == old(libraryTable)
    {
      dependencies := deps;
      self := this;
    }

    method SetLibraryTable(table: TomlTable<LibraryEntry>) returns (self: TomlWriterTask)
      modifies this
      ensures self == this && libraryTable == table && dependencies == old(dependencies)
    {
      libraryTable := table;
      self := this;
    }

    /**
     * `buildClassifierGroups`: one new coordinate per distinct
     * group/name/version of the dependencies, each holding every classifier
     * declared with it.
     */
    method BuildClassifierGroups() returns (coords: seq<GVACoordinates>)
      ensures forall i | 0 <= i < |coords| :: fresh(coords[i])
      ensures Distinct(KeySeq(coords)) && Elements(KeySeq(coords)) == KeysOf(dependencies)
      ensures forall i | 0 <= i < |coords| :: coords[i].classifiers == ClassifiersOf(dependencies, coords[i].Key())
    {
      var groups := CollectClassifiers(dependencies);
      coords := NewCoordinates(groups);
    }

    /**
     * `writeToml`, without the file: shared versions go into the versions
     * table first, the library entries refer to the keys they got there, one
     * replacer per library key and classifier is emitted, and both tables are
     * written. Both tables are filled by `addAll`, in descending order of
     * base id, and every key stored begins with its row's sanitised base id.
     * The ghost results name the intermediate values: the coordinates
     * in their stream order, the shared versions, `groupToTomlId` and the
     * library entries.
     */
    method WriteToml(randomVersions: nat -> Suffix, randomLibraries: nat -> Suffix)
      returns (emitted: seq<BuildGradleReplacer>, output: seq<string>,
               ghost keys: seq<Gva>, ghost shared: seq<GroupVersionEntry>, ghost groupToTomlId: map<string, string>,
               ghost libraries: seq<LibraryEntry>, ghost pairs: seq<(string, Classifier)>)
      requires libraryTable != null && LibraryTableOf(libraryTable) && VersionTableOf(versionTable)
      modifies versionTable, libraryTable
      ensures Distinct(keys) && Elements(keys) == KeysOf(dependencies)
      ensures Distinct(shared) && Elements(shared) == SharedVersions(keys)
      ensures versionTable.rows
           == AddSeq(old(versionTable.rows), SortDesc(shared, versionTable.baseId), versionTable.candidate, randomVersions)
      ensures forall k | k in versionTable.rows ::
        (k in old(versionTable.rows) && versionTable.rows[k] == old(versionTable.rows)[k])
        || StartsWith(k, Sanitize(versionTable.rows[k].group))
      ensures IndexesGroups(groupToTomlId, versionTable.rows)
      ensures |libraries| == |keys|
      ensures forall i | 0 <= i < |keys| :: Encodes(keys[i], ClassifiersOf(dependencies, keys[i]), groupToTomlId, libraries[i])
      ensures libraryTable.rows
           == AddSeq(old(libraryTable.rows), SortDesc(libraries, libraryTable.baseId), libraryTable.candidate, randomLibraries)
      ensures forall k | k in libraryTable.rows ::
        (k in old(libraryTable.rows) && libraryTable.rows[k] == old(libraryTable.rows)[k])
        || StartsWith(k, Sanitize(libraryTable.rows[k].name))
      ensures |emitted| == |pairs| && Distinct(pairs)
      ensures forall i | 0 <= i < |emitted| :: EmitsFor(libraryTable.rows, pairs[i], emitted[i])
      ensures forall k, c | k in libraryTable.rows && c in libraryTable.rows[k].classifiers :: (k, c) in pairs
      ensures output == TableLines(versionTable.tableName, versionTable.rows, versionTable.render)
                      + TableLines(libraryTable.tableName, libraryTable.rows, libraryTable.render)
    {
      var coords := BuildClassifierGroups();
      var coordinateKeys := KeySeq(coords);
      keys := coordinateKeys;
      var tomlIds;
      shared, tomlIds := FillVersionTable(coordinateKeys, randomVersions);
      groupToTomlId := tomlIds;
      var entries := EncodeLibraries(coords, tomlIds);
      libraries := entries;
      assert forall i | 0 <= i < |keys| :: Encodes(keys[i], ClassifiersOf(dependencies, keys[i]), groupToTomlId, libraries[i]);
      FillLibraryTable(libraryTable, entries, randomLibraries);
      ghost var emittedPairs;
      emitted, emittedPairs := EmitReplacers(libraryTable);
      pairs := emittedPairs;
      var versionLines := versionTable.Write();
      var libraryLines := libraryTable.Write();
      output := versionLines + libraryLines;
    }

    /** The library entries added to the libraries table by `addAll`. */
    static method FillLibraryTable(libraryTable: TomlTable<LibraryEntry>, entries: seq<LibraryEntry>, randomLibraries: nat -> Suffix)
      requires LibraryTableOf(libraryTable)
      modifies libraryTable
      ensures libraryTable.rows
           == AddSeq(old(libraryTable.rows), SortDesc(entries, libraryTable.baseId), libraryTable.candidate, randomLibraries)
      ensures forall k | k in libraryTable.rows ::
        (k in old(libraryTable.rows) && libraryTable.rows[k] == old(libraryTable.rows)[k])
        || StartsWith(k, Sanitize(libraryTable.rows[k].name))
    {
      libraryTable.AddAll(entries, randomLibraries);
      AddSeqKeyedByCandidate(old(libraryTable.rows), SortDesc(entries, libraryTable.baseId), libraryTable.candidate, randomLibraries);
    }

    /** The shared versions of the coordinates added to the versions table, and each group's key read back. */
    method FillVersionTable(keys: seq<Gva>, randomVersions: nat -> Suffix)
      returns (ghost shared: seq<GroupVersionEntry>, groupToTomlId: map<string, string>)
      requires VersionTableOf(versionTable)
      modifies versionTable
      ensures Distinct(shared) && Elements(shared) == SharedVersions(keys)
      ensures versionTable.rows
           == AddSeq(old(versionTable.rows), SortDesc(shared, versionTable.baseId), versionTable.candidate, randomVersions)
      ensures forall k | k in versionTable.rows ::
        (k in old(versionTable.rows) && versionTable.rows[k] == old(versionTable.rows)[k])
        || StartsWith(k, Sanitize(versionTable.rows[k].group))
      ensures IndexesGroups(groupToTomlId, versionTable.rows)
    {
      var sharedVersions := Enumerate(SharedVersions(keys));
      shared := sharedVersions;
      versionTable.AddAll(sharedVersions, randomVersions);
      AddSeqKeyedByCandidate(old(versionTable.rows), SortDesc(sharedVersions, versionTable.baseId), versionTable.candidate, randomVersions);
      groupToTomlId := GroupToTomlId(versionTable);
    }
  }
}
