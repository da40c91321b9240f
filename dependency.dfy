/**
 * `Dependency`: one declaration site's group/name/version/classifier, as the
 * extraction step reports it. An immutable value with structural equality.
 */
module Dependencies {
  import opened Wrappers
  import Hashing

  /** Version and classifier may be absent; group and name never are. */
  datatype Dependency = Dependency(group: string, name: string, version: Option<string>, classifier: Option<string>)

  /** Which `Objects.requireNonNull` check of the constructor threw. */
  datatype NullField = NullGroup | NullName

  /** The private constructor: group is checked first, then name. */
  function NewDependency(group: Option<string>, name: Option<string>, version: Option<string>, classifier: Option<string>)
    : (r: Result<Dependency, NullField>)
    ensures r.Ok? <==> group.Some? && name.Some?
    ensures group.None? ==> r == Failure(NullGroup)
    ensures group.Some? && name.None? ==> r == Failure(NullName)
    ensures r.Ok? ==> r.value.group == group.value && r.value.name == name.value
    ensures r.Ok? ==> r.value.version == version && r.value.classifier == classifier
  {
    if group.None? then Failure(NullGroup)
    else if name.None? then Failure(NullName)
    else Ok(Dependency(group.value, name.value, version, classifier))
  }

  /**
   * `Dependency.from(ExternalModuleDependency)`: the module's coordinates and
   * the classifier of its first artifact, if it has any artifact (an artifact
   * may itself have no classifier).
   */
  function FromModule(group: Option<string>, name: Option<string>, version: Option<string>,
                      artifactClassifiers: seq<Option<string>>): (r: Result<Dependency, NullField>)
    ensures r.Ok? <==> group.Some? && name.Some?
    ensures r.Ok? && artifactClassifiers == [] ==> r.value.classifier.None?
    ensures r.Ok? && artifactClassifiers != [] ==> r.value.classifier == artifactClassifiers[0]
    ensures r.Ok? ==> r.value.version == version
  {
    NewDependency(group, name, version, if artifactClassifiers == [] then None else artifactClassifiers[0])
  }

  /** `Dependency.from(DependencyConstraint)`: a constraint never carries a classifier. */
  function FromConstraint(group: Option<string>, name: Option<string>, version: Option<string>)
    : (r: Result<Dependency, NullField>)
    ensures r.Ok? <==> group.Some? && name.Some?
    ensures r.Ok? ==> r.value.classifier.None? && r.value.version == version
  {
    NewDependency(group, name, version, None)
  }

  /** `equals`: all four fields, with `Objects.equals` on the nullable two. */
  predicate Equals(a: Dependency, b: Dependency) {
    a.group == b.group && a.name == b.name && a.version == b.version && a.classifier == b.classifier
  }

  /** `hashCode`: `Objects.hash` over the same four fields. */
  function HashCode(d: Dependency): (h: int)
    ensures -0x8000_0000 <= h < 0x8000_0000
  {
    Hashing.ObjectsHash([Hashing.StringHash(d.group), Hashing.StringHash(d.name),
                         Hashing.NullableHash(d.version), Hashing.NullableHash(d.classifier)])
  }

  /** `equals` is value equality of the four fields, and `hashCode` agrees with it. */
  lemma EqualsMeansSameFields(a: Dependency, b: Dependency)
    ensures Equals(a, b) <==> a == b
    ensures Equals(a, b) ==> HashCode(a) == HashCode(b)
  {
  }
}
