/** Static-path routing of src/staticpath.cpp: the options a static path carries, their merge
    with the manager's defaults, request-header validation, the checks a new static path must
    pass, the manager's map of paths, and the longest-prefix match of a URL path. */
module StaticPathManager {
  import opened Wrappers
  import opened Ascii
  import opened Constants
  import Utils

  // ---------------------------------------------------------------------------
  // options
  // ---------------------------------------------------------------------------

  /** `StaticPathOptions`: six settings, each of which may be unset. */
  datatype Options = Options(
    indexhtml: Option<bool>,
    fallthrough: Option<bool>,
    htmlCharset: Option<string>,
    headers: Option<ResponseHeaders>,
    validation: Option<seq<string>>,
    exclude: Option<bool>)

  const Unset: Options := Options(None, None, None, None, None, None)

  function Or<T>(a: Option<T>, b: Option<T>): Option<T> {
    if a.Some? then a else b
  }

  /** `StaticPathOptions::merge`: each setting of `a`, or `b`'s where `a` leaves it unset. */
  function Merge(a: Options, b: Options): (r: Options)
    ensures a.indexhtml.Some? ==> r.indexhtml == a.indexhtml
    ensures a.fallthrough.Some? ==> r.fallthrough == a.fallthrough
    ensures a.htmlCharset.Some? ==> r.htmlCharset == a.htmlCharset
    ensures a.headers.Some? ==> r.headers == a.headers
    ensures a.validation.Some? ==> r.validation == a.validation
    ensures a.exclude.Some? ==> r.exclude == a.exclude
  {
    Options(Or(a.indexhtml, b.indexhtml), Or(a.fallthrough, b.fallthrough),
            Or(a.htmlCharset, b.htmlCharset), Or(a.headers, b.headers),
            Or(a.validation, b.validation), Or(a.exclude, b.exclude))
  }

  /** Unset options are neutral on either side, a setting of `a` is never overridden, and
      merging is associative, so defaults can be layered in any grouping. */
  lemma {:induction false} MergeLaws(a: Options, b: Options, c: Options)
    ensures Merge(a, Unset) == a && Merge(Unset, b) == b
    ensures Merge(a, a) == a
    ensures Merge(Merge(a, b), c) == Merge(a, Merge(b, c))
    ensures Merge(Merge(a, b), b) == Merge(a, b)
  {
  }

  /** A setting of the result is unset only where both sides leave it unset. */
  lemma {:induction false} MergeUnsetOnlyIfBoth(a: Options, b: Options)
    ensures Merge(a, b).exclude.None? <==> a.exclude.None? && b.exclude.None?
    ensures Merge(a, b).validation.None? <==> a.validation.None? && b.validation.None?
    ensures a.indexhtml.None? ==> Merge(a, b).indexhtml == b.indexhtml
  {
  }

  // ---------------------------------------------------------------------------
  // validateRequestHeaders
  // ---------------------------------------------------------------------------

  /** A validation pattern is `{}` or `{"==", name, value}`; one that starts with "==" but is
      shorter than three entries would be read past its end. */
  predicate PatternReadable(opts: Options) {
    opts.validation.Some? && 0 < |opts.validation.value| < 3 ==> opts.validation.value[0] != "=="
  }

  /** `validateRequestHeaders`: an unset pattern and an operator other than "==" are errors; an
      empty pattern accepts everything; otherwise the named header (in any case) must be there
      with exactly the given value, compared as `constant_time_compare` does. */
  function ValidateRequestHeaders(opts: Options, h: RequestHeaders): (r: Result<bool>)
    requires PatternReadable(opts)
    ensures r.Err? <==> opts.validation.None? || (|opts.validation.value| > 0 && opts.validation.value[0] != "==")
    ensures r == Ok(true) <==>
      opts.validation.Some? &&
      (|opts.validation.value| == 0
       || (opts.validation.value[0] == "=="
           && FindHeader(h, opts.validation.value[1]) == Some(opts.validation.value[2])))
  {
    if opts.validation.None? then Err("Cannot validate request headers because validation pattern is not set.")
    else
      var pattern := opts.validation.value;
      if |pattern| == 0 then Ok(true)
      else if pattern[0] != "==" then Err("Validation only knows the == operator.")
      else
        match FindHeader(h, pattern[1])
        case Some(v) => Ok(v == pattern[2])
        case None => Ok(false)
  }

  /** The header name is matched without regard to case: a request carrying the value under
      any spelling of the name passes. */
  lemma {:induction false} ValidationIgnoresNameCase(opts: Options, h: RequestHeaders, spelling: string)
    requires opts.validation.Some? && |opts.validation.value| >= 3 && opts.validation.value[0] == "=="
    requires Utils.EqualsIgnoreCase(spelling, opts.validation.value[1])
    ensures ValidateRequestHeaders(opts, PutHeader(h, spelling, opts.validation.value[2])) == Ok(true)
  {
    FindHeaderIgnoresCase(PutHeader(h, spelling, opts.validation.value[2]), spelling, opts.validation.value[1]);
  }

  // ---------------------------------------------------------------------------
  // StaticPath
  // ---------------------------------------------------------------------------

  datatype StaticPath = StaticPath(path: string, options: Options)

  /** The checks of the `StaticPath` constructor: an empty path is allowed only for an excluded
      path, and a path may not end in '/'. An empty path dereferences `exclude`, which must
      then be set. */
  function NewStaticPath(path: string, options: Options): (r: Result<StaticPath>)
    requires |path| == 0 ==> options.exclude.Some?
    ensures r.Ok? <==>
      (|path| == 0 ==> options.exclude == Some(true)) && (|path| > 0 ==> path[|path| - 1] != '/')
    ensures r.Ok? ==> r.value == StaticPath(path, options)
  {
    if |path| == 0 then
      if !options.exclude.value then Err("Static path must not be empty.") else Ok(StaticPath(path, options))
    else if path[|path| - 1] == '/' then Err("Static path must not have trailing slash.")
    else Ok(StaticPath(path, options))
  }

  // ---------------------------------------------------------------------------
  // StaticPathManager
  // ---------------------------------------------------------------------------

  /** `StaticPathManager`: the static paths by name, and the options every path defaults to. */
  datatype Manager = Manager(paths: map<string, StaticPath>, options: Options)

  /** `get`: the path stored under the name, its options merged over the manager's. */
  function Get(m: Manager, path: string): (r: Option<StaticPath>)
    ensures r.Some? <==> path in m.paths
    ensures r.Some? ==> r.value.path == m.paths[path].path
    ensures r.Some? ==> r.value.options == Merge(m.paths[path].options, m.options)
  {
    if path !in m.paths then None
    else
      var sp := m.paths[path];
      Some(sp.(options := Merge(sp.options, m.options)))
  }

  /** `set`: an existing entry is replaced, otherwise one is inserted. */
  function Set(m: Manager, path: string, sp: StaticPath): (r: Manager)
    ensures r.options == m.options
    ensures path in r.paths && r.paths[path] == sp
    ensures forall p | p != path :: (p in r.paths <==> p in m.paths)
    ensures forall p | p != path && p in m.paths :: r.paths[p] == m.paths[p]
  {
    m.(paths := m.paths[path := sp])
  }

  /** What `set` stores, `get` returns, with the manager's options as defaults. */
  lemma {:induction false} GetAfterSet(m: Manager, path: string, sp: StaticPath, other: string)
    ensures Get(Set(m, path, sp), path) == Some(sp.(options := Merge(sp.options, m.options)))
    ensures other != path ==> Get(Set(m, path, sp), other) == Get(m, other)
  {
  }

  /** `set` of a whole map: every entry in turn, so the new entries win over old ones with the
      same name. */
  method SetAll(m: Manager, entries: map<string, StaticPath>) returns (r: Manager)
    ensures r.options == m.options
    ensures r.paths == m.paths + entries
  {
    r := m;
    var todo := entries.Keys;
    while todo != {}
      invariant todo <= entries.Keys
      invariant r.options == m.options
      invariant r.paths.Keys == m.paths.Keys + (entries.Keys - todo)
      invariant forall p | p in r.paths :: r.paths[p] == if p in entries && p !in todo then entries[p] else m.paths[p]
      decreases todo
    {
      var p :| p in todo;
      r := Set(r, p, entries[p]);
      todo := todo - {p};
    }
  }

  /** `remove`: the entry under the name goes, if there is one; nothing else changes. */
  function Remove(m: Manager, path: string): (r: Manager)
    ensures r.options == m.options
    ensures path !in r.paths
    ensures forall p | p != path :: (p in r.paths <==> p in m.paths)
    ensures forall p | p in r.paths :: r.paths[p] == m.paths[p]
    ensures path !in m.paths ==> r == m
  {
    if path in m.paths then m.(paths := m.paths - {path}) else m
  }

  /** `remove` of several names: one after the other. */
  function RemoveAll(m: Manager, names: seq<string>): (r: Manager)
    ensures r.options == m.options
    ensures forall p :: p in r.paths <==> p in m.paths && p !in names
    ensures forall p | p in r.paths :: r.paths[p] == m.paths[p]
    decreases |names|
  {
    if |names| == 0 then m
    else
      var rest := RemoveAll(Remove(m, names[0]), names[1..]);
      assert forall p :: p in names <==> p == names[0] || p in names[1..];
      rest
  }

  // ---------------------------------------------------------------------------
  // matchStaticPath
  // ---------------------------------------------------------------------------

  /** `find_last_of('/', pos)`: the last '/' at or before `pos` (a position past the end means
      the end). */
  function LastSlashAtOrBefore(s: string, pos: nat): (r: Option<nat>)
    ensures r.Some? ==> r.value <= pos && r.value < |s| && s[r.value] == '/'
    ensures r.Some? ==> forall i | r.value < i <= pos && i < |s| :: s[i] != '/'
    ensures r.None? ==> forall i | 0 <= i <= pos && i < |s| :: s[i] != '/'
    decreases pos
  {
    if pos >= |s| then (if |s| == 0 then None else LastSlashAtOrBefore(s, |s| - 1))
    else if s[pos] == '/' then Some(pos)
    else if pos == 0 then None
    else LastSlashAtOrBefore(s, pos - 1)
  }

  /** One trailing '/' is dropped, except from "/" itself. */
  function StripTrailingSlash(url: string): (path: string)
    ensures |url| > 0 ==> |path| > 0
  {
    if |url| > 1 && url[|url| - 1] == '/' then url[..|url| - 1] else url
  }

  /** The loop of `matchStaticPath`: try the part before the current cut; failing that, cut at
      the previous '/', and give up after the leading one. */
  function Search(m: Manager, path: string, pre: string, post: string, found: nat): Option<(StaticPath, string)>
    decreases found
  {
    match Get(m, pre)
    case Some(sp) => Some((sp, post))
    case None =>
      if found == 0 then None
      else
        match LastSlashAtOrBefore(path, found - 1)
        case None => None
        case Some(i) => Search(m, path, if i == 0 then "/" else path[..i], path[i + 1..], i)
  }

  /** `matchStaticPath`: nothing for an empty URL or one with a backslash; otherwise, with one
      trailing slash dropped, a registered name that is the whole path or ends just before one
      of its slashes, together with what follows that slash. */
  function MatchStaticPath(m: Manager, url: string): (r: Option<(StaticPath, string)>)
    ensures |url| == 0 || '\\' in url ==> r.None?
    ensures r.Some? ==> var path := StripTrailingSlash(url);
      exists j | 0 <= j <= |path| :: IsCut(path, j) && CutName(path, j) in m.paths
                   && r.value == (Get(m, CutName(path, j)).value, CutRest(path, j))
  {
    if |url| == 0 || '\\' in url then None
    else
      var path := StripTrailingSlash(url);
      SearchFindsLongest(m, path, |path|, |path| + 1);
      Search(m, path, path, "", |path| + 1)
  }

  /** Reference definition. A cut of the path is its end or one of its slashes; the static path
      name a cut stands for is the text before it ("/" for a leading slash), and the rest is
      the text after it. */
  predicate IsCut(path: string, j: nat) {
    j == |path| || (j < |path| && path[j] == '/')
  }

  function CutName(path: string, j: nat): string
    requires j <= |path|
  {
    if j == |path| then path else if j == 0 then "/" else path[..j]
  }

  function CutRest(path: string, j: nat): string
    requires j <= |path|
  {
    if j == |path| then "" else path[j + 1..]
  }

  /** The manager knows no cut in (`c`, end]. */
  predicate NoneAbove(m: Manager, path: string, c: nat) {
    forall j | c < j <= |path| && IsCut(path, j) :: CutName(path, j) !in m.paths
  }

  lemma {:induction false} SearchFindsLongest(m: Manager, path: string, c: nat, found: nat)
    requires c <= |path| && IsCut(path, c)
    requires found == c || (c == |path| && found == |path| + 1)
    requires NoneAbove(m, path, c)
    ensures var r := Search(m, path, CutName(path, c), CutRest(path, c), found);
      && (r.None? ==> NoneAbove(m, path, 0) && (IsCut(path, 0) ==> CutName(path, 0) !in m.paths))
      && (r.Some? ==> exists j | 0 <= j <= c :: IsCut(path, j) && CutName(path, j) in m.paths
                        && NoneAbove(m, path, j)
                        && r.value == (Get(m, CutName(path, j)).value, CutRest(path, j)))
    decreases found
  {
    var pre := CutName(path, c);
    var post := CutRest(path, c);
    var r := Search(m, path, pre, post, found);
    if pre in m.paths {
      assert r == Some((Get(m, pre).value, post));
      assert IsCut(path, c) && CutName(path, c) in m.paths && NoneAbove(m, path, c);
    } else if found == 0 {
      assert r.None? && c == 0;
    } else {
      var next := LastSlashAtOrBefore(path, found - 1);
      if next.Some? {
        var i := next.value;
        assert forall j | i < j < c :: !IsCut(path, j);
        assert NoneAbove(m, path, i);
        assert r == Search(m, path, CutName(path, i), CutRest(path, i), i);
        SearchFindsLongest(m, path, i, i);
      } else {
        assert r.None?;
        assert forall j | 0 <= j < c :: !IsCut(path, j);
      }
    }
  }

  /** Section-by-section: `matchStaticPath` returns the longest registered name that is the
      whole path or ends just before one of its slashes, with what follows that slash; it
      returns nothing when no such name is registered, or for an empty path or one with a
      backslash. */
  lemma {:induction false} MatchIsLongestPrefix(m: Manager, url: string)
    ensures |url| == 0 || '\\' in url ==> MatchStaticPath(m, url).None?
    ensures |url| > 0 && '\\' !in url ==>
      var path := StripTrailingSlash(url);
      var r := MatchStaticPath(m, url);
      && (r.None? <==> forall j | 0 <= j <= |path| && IsCut(path, j) :: CutName(path, j) !in m.paths)
      && (r.Some? ==> exists j | 0 <= j <= |path| :: IsCut(path, j) && CutName(path, j) in m.paths
                        && NoneAbove(m, path, j)
                        && r.value == (Get(m, CutName(path, j)).value, CutRest(path, j)))
  {
    if |url| > 0 && '\\' !in url {
      var path := StripTrailingSlash(url);
      SearchFindsLongest(m, path, |path|, |path| + 1);
      var r := MatchStaticPath(m, url);
      if r.Some? {
        var j :| 0 <= j <= |path| && IsCut(path, j) && CutName(path, j) in m.paths && NoneAbove(m, path, j)
                 && r.value == (Get(m, CutName(path, j)).value, CutRest(path, j));
      } else {
        forall j | 0 <= j <= |path| && IsCut(path, j)
          ensures CutName(path, j) !in m.paths
        {
          if j > 0 {
            assert NoneAbove(m, path, 0);
          }
        }
      }
    }
  }

  /** A name that the manager knows, of length `n`, can only stand for the cut at `n`, or for
      the whole path or its leading slash. */
  lemma {:induction false} CutOfLength(path: string, j: nat, name: string)
    requires j <= |path| && CutName(path, j) == name && 1 < |name| < |path|
    ensures j == |name|
  {
  }

  /** With "/foo" registered, "/foo/bar/page.html" is served from it with "bar/page.html". */
  lemma {:induction false} MatchNested(sp: StaticPath, opts: Options)
    ensures var m := Manager(map["/foo" := sp], opts);
      MatchStaticPath(m, "/foo/bar/page.html") == Some((Get(m, "/foo").value, "bar/page.html"))
  {
    var m := Manager(map["/foo" := sp], opts);
    var path := "/foo/bar/page.html";
    assert forall i | 0 <= i < |path| :: path[i] != '\\';
    assert StripTrailingSlash(path) == path;
    MatchIsLongestPrefix(m, path);
    assert IsCut(path, 4) && CutName(path, 4) == "/foo";
    var r := MatchStaticPath(m, path);
    var j :| 0 <= j <= |path| && IsCut(path, j) && CutName(path, j) in m.paths && NoneAbove(m, path, j)
             && r.value == (Get(m, CutName(path, j)).value, CutRest(path, j));
    CutOfLength(path, j, "/foo");
    assert path[5..] == "bar/page.html";
  }

  /** "/foobar" is not under "/foo": a match ends at a slash. */
  lemma {:induction false} MatchNeedsSlash(sp: StaticPath, opts: Options)
    ensures MatchStaticPath(Manager(map["/foo" := sp], opts), "/foobar").None?
  {
    var m := Manager(map["/foo" := sp], opts);
    var path := "/foobar";
    assert forall i | 0 <= i < |path| :: path[i] != '\\';
    MatchIsLongestPrefix(m, path);
    forall j | 0 <= j <= |path| && IsCut(path, j)
      ensures CutName(path, j) !in m.paths
    {
    }
  }
}
