/**
 * The two kinds of catalog row: `GroupVersionEntry` (a shared version in the
 * `[versions]` table) and `LibraryEntry` (a module in the `[libraries]`
 * table). Each has a base id, the preferred key before sanitising, and a
 * rendering as a TOML value. The values are written without escaping.
 */
module Entries {
  import opened Wrappers
  import opened Text
  import opened Coordinates

  /** A group whose versioned coordinates all agree on one version. */
  datatype GroupVersionEntry = GroupVersionEntry(group: string, version: string) {
    /** The preferred key is the group. */
    function BaseId(): string {
      group
    }

    /** The version as a TOML basic string: wrapped in double quotes. */
    function Render(): string {
      "\"" + version + "\""
    }
  }

  /** How a library entry names its version: not at all, literally, or by reference to `[versions]`. */
  datatype VersionSpec = Unversioned | Literal(version: string) | Ref(versionId: string)

  datatype LibraryEntry = LibraryEntry(group: string, name: string, spec: VersionSpec, classifiers: set<Classifier>) {
    /** `getVersion() != null`: the literal version or the referenced key is present. */
    predicate HasVersion() {
      !spec.Unversioned?
    }

    /** The preferred key is the artifact name. */
    function BaseId(): string {
      name
    }

    /** An inline table: the module, then the version key if there is one. */
    function Render(): string {
      "{ module = \"" + group + ":" + name + "\"" + VersionPart(spec) + " }"
    }
  }

  function VersionPart(spec: VersionSpec): string {
    match spec
    case Unversioned => ""
    case Literal(v) => ", version = \"" + v + "\""
    case Ref(id) => ", version.ref = \"" + id + "\""
  }

  /**
   * The constructor: an unversioned coordinate gives no version key; a
   * versioned one refers to `tomlId` when its group has a shared version and
   * otherwise keeps its literal version. The classifiers are copied as they
   * are at construction.
   */
  function NewLibraryEntry(dep: GVACoordinates, tomlId: Option<string>): (e: LibraryEntry)
    reads dep
    ensures e.group == dep.group && e.name == dep.name && e.classifiers == dep.classifiers
    ensures e.HasVersion() <==> dep.version.Some?
    ensures e.spec.Ref? <==> dep.version.Some? && tomlId.Some?
    ensures e.spec.Ref? ==> e.spec.versionId == tomlId.value
    ensures e.spec.Literal? ==> e.spec.version == dep.version.value
  {
    var spec :=
      if dep.version.None? then Unversioned
      else if tomlId.Some? then Ref(tomlId.value)
      else Literal(dep.version.value);
    LibraryEntry(dep.group, dep.name, spec, dep.classifiers)
  }

  const ModuleOpen: string := "{ module = "
  const LiteralKey: string := ", version = "
  const RefKey: string := ", version.ref = "

  /**
   * Reads a rendered library value back into its group, name and version
   * specification, the catalog consumer's view of the line.
   */
  function ParseLibraryValue(s: string): Option<(string, string, VersionSpec)> {
    if !StartsWith(s, ModuleOpen) then None
    else
      match SplitQuoted(s[|ModuleOpen|..])
      case None => None
      case Some((coordinates, rest)) =>
        var c := IndexOf(coordinates, ':');
        if c == |coordinates| then None
        else
          match ParseVersionPart(rest)
          case None => None
          case Some(spec) => Some((coordinates[..c], coordinates[c + 1..], spec))
  }

  /** Reads what follows the module string: the optional version key and the closing brace. */
  function ParseVersionPart(rest: string): Option<VersionSpec> {
    if rest == " }" then Some(Unversioned)
    else if StartsWith(rest, LiteralKey) then
      match SplitQuoted(rest[|LiteralKey|..])
      case Some((v, " }")) => Some(Literal(v))
      case _ => None
    else if StartsWith(rest, RefKey) then
      match SplitQuoted(rest[|RefKey|..])
      case Some((id, " }")) => Some(Ref(id))
      case _ => None
    else None
  }

  predicate QuoteFree(s: string) {
    '"' !in s
  }

  /** The version text written or referenced by a specification. */
  function SpecText(spec: VersionSpec): string {
    match spec
    case Unversioned => ""
    case Literal(v) => v
    case Ref(id) => id
  }

  lemma VersionPartRoundTrip(spec: VersionSpec)
    requires QuoteFree(SpecText(spec))
    ensures ParseVersionPart(VersionPart(spec) + " }") == Some(spec)
  {
    match spec
    case Unversioned =>
    case Literal(v) => LiteralPartRoundTrip(v);
    case Ref(id) => RefPartRoundTrip(id);
  }

  lemma LiteralPartRoundTrip(v: string)
    requires QuoteFree(v)
    ensures ParseVersionPart(VersionPart(Literal(v)) + " }") == Some(Literal(v))
  {
    var rest := VersionPart(Literal(v)) + " }";
    assert rest == LiteralKey + ("\"" + v + "\"" + " }");
    assert rest[|LiteralKey|..] == "\"" + v + "\"" + " }";
    SplitQuotedInverse(v, " }");
  }

  lemma RefPartRoundTrip(id: string)
    requires QuoteFree(id)
    ensures ParseVersionPart(VersionPart(Ref(id)) + " }") == Some(Ref(id))
  {
    var rest := VersionPart(Ref(id)) + " }";
    assert rest == RefKey + ("\"" + id + "\"" + " }");
    assert !StartsWith(rest, LiteralKey) by {
      assert rest[9] == '.' && LiteralKey[9] == ' ';
    }
    assert rest[|RefKey|..] == "\"" + id + "\"" + " }";
    SplitQuotedInverse(id, " }");
  }

  /**
   * A library line's value reads back as the same group, name and version
   * specification, as long as the values need no escaping and the group has
   * no colon.
   */
  lemma LibraryRenderRoundTrip(e: LibraryEntry)
    requires QuoteFree(e.group) && QuoteFree(e.name) && QuoteFree(SpecText(e.spec)) && ':' !in e.group
    ensures ParseLibraryValue(e.Render()) == Some((e.group, e.name, e.spec))
  {
    var coordinates := e.group + ":" + e.name;
    var rest := VersionPart(e.spec) + " }";
    RenderParts(e);
    PrefixOfAppend(ModuleOpen, "\"" + coordinates + "\"" + rest);
    SplitQuotedInverse(coordinates, rest);
    CoordinatesSplit(e.group, e.name);
    VersionPartRoundTrip(e.spec);
  }

  lemma RenderParts(e: LibraryEntry)
    ensures e.Render() == ModuleOpen + ("\"" + (e.group + ":" + e.name) + "\"" + (VersionPart(e.spec) + " }"))
  {
  }

  /** The first colon of `group:name` is the one after a colon-free group. */
  lemma CoordinatesSplit(group: string, name: string)
    requires ':' !in group
    ensures var c := IndexOf(group + ":" + name, ':');
      c == |group| && (group + ":" + name)[..c] == group && (group + ":" + name)[c + 1..] == name
  {
    var coordinates := group + ":" + name;
    assert coordinates[|group|] == ':';
    assert forall j | 0 <= j < |group| :: coordinates[j] == group[j];
    assert coordinates[..|group|] == group;
    assert coordinates[|group| + 1..] == name;
  }

  /** A shared version's value reads back as exactly its version. */
  lemma VersionRenderRoundTrip(e: GroupVersionEntry)
    requires QuoteFree(e.version)
    ensures SplitQuoted(e.Render()) == Some((e.version, ""))
  {
    assert e.Render() == "\"" + e.version + "\"" + "";
    SplitQuotedInverse(e.version, "");
  }
}
