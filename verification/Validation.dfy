/** Where the validator looks and where the prune cuts (crates/config/src/validation.rs): the
    schema is checked on the JSON form of the tree, and locations are removed from its TOML
    form. */
module Validation {
  import opened Values
  import opened Text
  import opened Pointers
  import opened Prune
  import opened TomlJson

  /** The value at a location of a JSON document. */
  function LookupJson(j: Json, path: Path): Option<Json>
    decreases |path|
  {
    if path == [] then Some(j)
    else
      match j
      case Obj(fields) => if path[0] in fields then LookupJson(fields[path[0]], path[1..]) else None
      case Arr(elems) =>
        (match ParseUnsigned(path[0])
         case Some(i) => if i < |elems| then LookupJson(elems[i], path[1..]) else None
         case None => None)
      case _ => None
  }

  /** The two forms have the same locations, with the JSON form of the value at each: nothing
      is dropped and every array keeps its indices. */
  lemma {:induction false} SameLocations(v: Value, path: Path)
    ensures LookupJson(ToJson(v), path) ==
            match Lookup(v, path)
            case Some(w) => Some(ToJson(w))
            case None => None
    decreases |path|
  {
    if path != [] {
      match v
      case Table(t) =>
        if path[0] in t {
          SameLocations(t[path[0]], path[1..]);
        }
      case Array(a) =>
        var i := Index(a, path[0]);
        if i.Some? {
          SameLocations(a[i.value], path[1..]);
        }
      case _ =>
    }
  }

  /** A validator reports only locations of the document it is given. */
  ghost predicate ReportsExisting(validate: Json -> seq<Path>) {
    forall j, p :: p in validate(j) ==> LookupJson(j, p).Some?
  }

  /** Then everything it flags is there to prune. */
  lemma FlaggedExist(validate: Json -> seq<Path>, v: Value)
    requires ReportsExisting(validate)
    ensures forall p :: p in validate(ToJson(v)) ==> Lookup(v, p).Some?
  {
    forall p | p in validate(ToJson(v)) ensures Lookup(v, p).Some? {
      SameLocations(v, p);
    }
  }
}
