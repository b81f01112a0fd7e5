/**
 * The loaded `package.json` as this core sees it: a map from field names to
 * values, of which the four declaration groups matter.
 */
module Manifest {
  import opened Wrappers

  /** A field's value. */
  datatype Value =
      /** A declaration group: package name to specifier, `order` being `Object.keys` order. */
    | Deps(order: seq<string>, specs: map<string, string>)
      /** What `shrink` leaves in a group's place: the package names to reinstall. */
    | Names(items: seq<string>)
      /** Any other field (name, scripts, ...), carried along unread. */
    | Other(text: string)

  /** The four group keys in their fixed order (index.js:68). */
  const Keys: seq<string> := ["dependencies", "devDependencies", "peerDependencies", "optionalDependencies"]

  lemma KeysDistinct()
    ensures forall i, j :: 0 <= i < j < |Keys| ==> Keys[i] != Keys[j]
  {
  }

  /** A well-formed group: its names are distinct and are exactly the keys of its map. */
  predicate IsGroup(v: Value) {
    && v.Deps?
    && (forall i, j :: 0 <= i < j < |v.order| ==> v.order[i] != v.order[j])
    && (forall m :: m in v.specs ==> m in v.order)
    && (forall k :: 0 <= k < |v.order| ==> v.order[k] in v.specs)
  }

  /** As read from disk: each of the four keys that is present holds a group. */
  predicate Loaded(fields: map<string, Value>) {
    forall g :: g in fields && g in Keys ==> IsGroup(fields[g])
  }

  /** `pkg[g][mod]` when `g` holds a group declaring `mod`; otherwise `None`. */
  function Lookup(fields: map<string, Value>, g: string, mod: string): Option<string> {
    if g in fields && fields[g].Deps? && mod in fields[g].specs then Some(fields[g].specs[mod]) else None
  }
}
