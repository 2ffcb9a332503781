/** The older static-path map of src/staticpaths.cpp: a static path is a directory with two
    flags, and `set` inserts without replacing, so the first value stored under a name stays. */
module StaticPathsMap {
  import opened Wrappers

  /** `StaticPath` of this file. */
  datatype StaticPath = StaticPath(path: string, index: bool, fallthrough: bool)

  type PathMap = map<string, StaticPath>

  /** `get`: the value stored under the name, if any. */
  function Get(m: PathMap, path: string): (r: Option<StaticPath>)
    ensures r.None? <==> path !in m
    ensures r.Some? ==> r.value == m[path]
  {
    if path in m then Some(m[path]) else None
  }

  /** `set`: `std::map::insert`, which leaves an existing entry alone. */
  function Set(m: PathMap, path: string, sp: StaticPath): (r: PathMap)
    ensures path in r
    ensures path in m ==> r == m
    ensures path !in m ==> r[path] == sp && r.Keys == m.Keys + {path}
    ensures forall p | p in m :: p in r && r[p] == m[p]
  {
    if path in m then m else m[path := sp]
  }

  /** Setting a name twice keeps the first value. */
  lemma {:induction false} FirstSetWins(m: PathMap, path: string, a: StaticPath, b: StaticPath)
    requires path !in m
    ensures Get(Set(Set(m, path, a), path, b), path) == Some(a)
  {
  }

  /** `set` of a whole map: every entry inserted in turn, so entries already present keep their
      values and only new names are added. */
  method SetAll(m: PathMap, entries: PathMap) returns (r: PathMap)
    ensures r == entries + m
  {
    r := m;
    var todo := entries.Keys;
    while todo != {}
      invariant todo <= entries.Keys
      invariant r.Keys == m.Keys + (entries.Keys - todo)
      invariant forall p | p in r :: r[p] == if p in m then m[p] else entries[p]
      decreases todo
    {
      var p :| p in todo;
      r := Set(r, p, entries[p]);
      todo := todo - {p};
    }
  }

  /** `remove`: the entry under the name goes, if there is one; nothing else changes. */
  function Remove(m: PathMap, path: string): (r: PathMap)
    ensures path !in r
    ensures path !in m ==> r == m
    ensures forall p | p != path :: (p in r <==> p in m)
    ensures forall p | p in r :: r[p] == m[p]
  {
    if path in m then m - {path} else m
  }

  /** `remove` of several names: one after the other. */
  function RemoveAll(m: PathMap, names: seq<string>): (r: PathMap)
    ensures forall p :: p in r <==> p in m && p !in names
    ensures forall p | p in r :: r[p] == m[p]
    decreases |names|
  {
    if |names| == 0 then m
    else
      var rest := RemoveAll(Remove(m, names[0]), names[1..]);
      assert forall p :: p in names <==> p == names[0] || p in names[1..];
      rest
  }

  /** Removing names and then setting one of them again makes room for the new value. */
  lemma {:induction false} RemoveThenSet(m: PathMap, path: string, sp: StaticPath)
    ensures Get(Set(Remove(m, path), path, sp), path) == Some(sp)
  {
  }
}
