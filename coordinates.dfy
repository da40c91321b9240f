/**
 * `GVACoordinates`: the group/name/version of a library as it will appear in
 * the catalog, together with every classifier declared for it. Identity
 * (equality and hash) is the three coordinates; the classifier set is a
 * mutable attribute filled in while dependencies are merged.
 */
module Coordinates {
  import opened Wrappers
  import Hashing
  import opened Dependencies

  /** A classifier as declared; `None` is a declaration without one. */
  type Classifier = Option<string>

  /** The identity of a coordinate: what `equals` and `hashCode` look at. */
  datatype Gva = Gva(group: string, name: string, version: Option<string>)

  /** The coordinate key a dependency merges under (its classifier dropped). */
  function KeyOf(d: Dependency): (k: Gva)
    ensures k.group == d.group && k.name == d.name && k.version == d.version
  {
    Gva(d.group, d.name, d.version)
  }

  class GVACoordinates {
    const group: string
    const name: string
    const version: Option<string>
    var classifiers: set<Classifier>

    /** Group and name are non-null by their type; a new coordinate has no classifiers. */
    constructor (group: string, name: string, version: Option<string>)
      ensures this.group == group && this.name == name && this.version == version
      ensures classifiers == {}
    {
      this.group := group;
      this.name := name;
      this.version := version;
      classifiers := {};
    }

    function Key(): (k: Gva)
      ensures k.group == group && k.name == name && k.version == version
    {
      Gva(group, name, version)
    }

    /** Unions the collection into the classifiers and returns this same object. */
    method AddClassifiers(collection: set<Classifier>) returns (self: GVACoordinates)
      modifies this
      ensures self == this
      ensures classifiers == old(classifiers) + collection
    {
      classifiers := classifiers + collection;
      self := this;
    }

    /** `equals`: group, name and version; an absent version equals only an absent one. */
    predicate Equals(that: GVACoordinates) {
      group == that.group && name == that.name && version == that.version
    }

    /** `hashCode`: `Objects.hash(group, name, version)`. */
    function HashCode(): (h: int)
      ensures -0x8000_0000 <= h < 0x8000_0000
    {
      Hashing.ObjectsHash([Hashing.StringHash(group), Hashing.StringHash(name), Hashing.NullableHash(version)])
    }
  }

  /**
   * Equality ignores the classifiers: two coordinates are equal exactly when
   * their keys are, whatever classifiers each has collected, and equal
   * coordinates hash alike.
   */
  lemma EqualsIsKeyEquality(a: GVACoordinates, b: GVACoordinates)
    ensures a.Equals(b) <==> a.Key() == b.Key()
    ensures a.Equals(b) ==> a.HashCode() == b.HashCode()
  {
  }
}
