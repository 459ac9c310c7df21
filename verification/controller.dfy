/**
  The cached call (Persister.__call__ and Persister._check_arguments in
  persist_to_disk/persister.py): the per-call switch and the function's
  own cache setting pick one of four modes, NOCACHE, CACHE, RECACHE and
  READONLY; every mode but NOCACHE normalises the arguments, locates the
  bucket and then reads, computes or writes.
 */
module CacheController {
  import opened Values
  import opened Text
  import opened Utils
  import opened ArgBinding
  import opened KwargCleaning
  import opened BucketLocator
  import opened CacheStore

  const NOCACHE: int := 0
  const CACHE: int := 1
  const RECACHE: int := 2
  const READONLY: int := 3

  /** A registered function with its settings, as __init__ leaves them:
      the wrapped function and its parameter schema, the function's cache
      directory, hashsize, the skip, expand and groupby lists, the name of
      the per-call switch, whether alternative roots are configured, and
      the function-level mode that overrides the switch when set. */
  datatype Persister = Persister(
    f: Wrapped,
    schema: Schema,
    cacheDir: string,
    hashsize: int,
    skip: seq<string>,
    switchKwarg: string,
    expand: seq<string>,
    groupby: seq<GroupEntry>,
    altRoots: bool,
    cache: Option<int>)

  /** int(v) for the switch value: an int as it is, a string of an
      optionally signed decimal number as its value, anything else fails. */
  function IntOf(v: Value): (r: Result<int>)
    ensures v.Int? ==> r == Ok(v.i)
    ensures v.Dict? ==> r == Err(BadSwitch)
    ensures r.Err? ==> r.error == BadSwitch
  {
    match v
    case Int(i) => Ok(i)
    case Str(s) => (match ParseInt(s) case Some(i) => Ok(i) case None => Err(BadSwitch))
    case Dict(_) => Err(BadSwitch)
  }

  /** A switch given as the string of a number selects that number. */
  lemma IntOfString(i: int)
    ensures IntOf(Str(IntToString(i))) == Ok(i)
  {
    ParseIntToString(i);
  }

  /** The mode and arguments a call works with: the resolved mode, the
      bound keyword dict, and the call's keywords without the switch. */
  datatype Prepared = Prepared(mode: int, full: Kwargs, rest: Kwargs)

  /** The part of __call__ before any file is touched: pop the switch
      (CACHE when absent) and convert it with int(), bind the arguments,
      and let the function-level setting override the switch. */
  function Prepare(p: Persister, pos: seq<Value>, kw: Kwargs): (r: Result<Prepared>)
    ensures r.Ok? <==>
      IntOf(if p.switchKwarg in kw then kw[p.switchKwarg] else Int(CACHE)).Ok? &&
      Bind(p.schema, pos, kw - {p.switchKwarg}).Ok?
    ensures r.Ok? ==> r.value.rest == kw - {p.switchKwarg} && p.switchKwarg !in r.value.rest
    ensures r.Ok? ==> r.value.full == Bind(p.schema, pos, kw - {p.switchKwarg}).value
    ensures r.Ok? && p.cache.Some? ==> r.value.mode == p.cache.value
    ensures r.Ok? && p.cache.None? && p.switchKwarg !in kw ==> r.value.mode == CACHE
    ensures r.Ok? && p.cache.None? && p.switchKwarg in kw ==> Ok(r.value.mode) == IntOf(kw[p.switchKwarg])
  {
    var raw := if p.switchKwarg in kw then kw[p.switchKwarg] else Int(CACHE);
    var rest := kw - {p.switchKwarg};
    match IntOf(raw)
    case Err(e) => Err(e)
    case Ok(switch) =>
      match Bind(p.schema, pos, rest)
      case Err(e) => Err(e)
      case Ok(full) => Ok(Prepared(if p.cache.Some? then p.cache.value else switch, full, rest))
  }

  /** _clean_kwargs in list mode, the only mode a registered function
      can have (a string expand list fails at registration). */
  function Cleaned(p: Persister, full: Kwargs): (r: Result<Kwargs>)
    ensures r.Err? ==> r.error.NotADict? && r.error.name in p.expand
    ensures (forall i :: 0 <= i < |p.expand| ==> p.expand[i] !in full - Elems(p.skip)) ==>
      r == Ok(full - Elems(p.skip))
  {
    ExpandNamed(full - Elems(p.skip), p.expand)
  }

  /** The complete effect of one call: what it returns, how it calls the
      wrapped function, and the directories and bucket files afterwards.
      NOCACHE calls the function with every bound argument as a keyword
      and touches no file; the other modes call it with the call's own
      arguments (switch removed), and only after locating the bucket. */
  function CallOutcome(p: Persister, env: Env, dirs: set<string>, pickles: map<string, PickleFile>,
                       pos: seq<Value>, kw: Kwargs): (o: Outcome)
    ensures |o.calls| <= 1
    ensures o.calls != [] && o.result.Err? ==> o.result == Err(ComputationFailed) || o.result == Err(Unhashable)
    ensures o.result.Err? ==> forall q :: Stored(o.pickles, q) == Stored(pickles, q)
  {
    match Prepare(p, pos, kw)
    case Err(e) => Outcome(Err(e), [], dirs, pickles)
    case Ok(prep) =>
      if prep.mode == NOCACHE then
        var inv := ([], prep.full);
        Outcome(if p.f(inv.0, inv.1).Some? then Ok(p.f(inv.0, inv.1).value) else Err(ComputationFailed),
                [inv], dirs, pickles)
      else
        match Cleaned(p, prep.full)
        case Err(e) => Outcome(Err(e), [], dirs, pickles)
        case Ok(cleaned) =>
          var (located, dirs') := Locate(dirs, env, p.cacheDir, cleaned, p.hashsize, p.groupby);
          match located
          case Err(e) => Outcome(Err(e), [], dirs', pickles)
          case Ok(loc) =>
            if prep.mode == RECACHE then WriteOutcome(dirs', pickles, loc, p.f, (pos, prep.rest), false)
            else WriteIfNecessaryOutcome(dirs', pickles, loc, p.f, (pos, prep.rest), prep.mode == READONLY, p.altRoots)
  }

  /** Persister.__call__, step by step as the source takes them. */
  method Call(fs: FileSystem, p: Persister, env: Env, pos: seq<Value>, kw: Kwargs)
    returns (r: Result<Value>, calls: seq<Invocation>)
    modifies fs
    ensures Outcome(r, calls, fs.dirs, fs.pickles) == CallOutcome(p, env, old(fs.dirs), old(fs.pickles), pos, kw)
    ensures fs.tables == old(fs.tables)
  {
    var rest := kw;
    var raw := Int(CACHE);
    if p.switchKwarg in rest {
      raw := rest[p.switchKwarg];
      rest := rest - {p.switchKwarg};
    }
    assert rest == kw - {p.switchKwarg};
    var switch := IntOf(raw);
    if switch.Err? {
      return Err(switch.error), [];
    }
    var full := GetFullKwargs(p.schema, pos, rest);
    if full.Err? {
      return Err(full.error), [];
    }
    var mode := if p.cache.Some? then p.cache.value else switch.value;
    if mode == NOCACHE {
      var out := p.f([], full.value);
      calls := [([], full.value)];
      r := if out.Some? then Ok(out.value) else Err(ComputationFailed);
      return;
    }
    var cleaned := CleanKwargs(full.value, p.skip, ExpandNames(p.expand));
    if cleaned.Err? {
      return Err(cleaned.error), [];
    }
    var loc := GetHashedPathAndKey(fs, env, p.cacheDir, cleaned.value, p.hashsize, p.groupby);
    if loc.Err? {
      return Err(loc.error), [];
    }
    if mode == RECACHE {
      r, calls := PersistWrite(fs, loc.value, p.f, (pos, rest), false);
    } else {
      r, calls := PersistWriteIfNecessary(fs, loc.value, p.f, (pos, rest), mode == READONLY, p.altRoots);
    }
  }

  /** NOCACHE calls the function once with all bound arguments as
      keywords, returns what it returns, and touches no file. */
  lemma NoCacheTouchesNothing(p: Persister, env: Env, dirs: set<string>, pickles: map<string, PickleFile>,
                              pos: seq<Value>, kw: Kwargs)
    requires Prepare(p, pos, kw).Ok? && Prepare(p, pos, kw).value.mode == NOCACHE
    ensures var o := CallOutcome(p, env, dirs, pickles, pos, kw);
      var full := Prepare(p, pos, kw).value.full;
      && o.calls == [([], full)]
      && o.dirs == dirs && o.pickles == pickles
      && (p.f([], full).Some? ==> o.result == Ok(p.f([], full).value))
      && (p.f([], full).None? ==> o.result == Err(ComputationFailed))
  {
  }

  /** The bucket a cached-mode call uses, given the directories before
      it. */
  function BucketOf(p: Persister, env: Env, dirs: set<string>, pos: seq<Value>, kw: Kwargs): Result<Location>
  {
    match Prepare(p, pos, kw)
    case Err(e) => Err(e)
    case Ok(prep) =>
      match Cleaned(p, prep.full)
      case Err(e) => Err(e)
      case Ok(cleaned) => Locate(dirs, env, p.cacheDir, cleaned, p.hashsize, p.groupby).0
  }

  /** CACHE or READONLY (or any mode other than NOCACHE and RECACHE) with
      the key in its bucket: the stored value comes back, the function is
      not called, and no bucket's contents change. */
  lemma CacheHit(p: Persister, env: Env, dirs: set<string>, pickles: map<string, PickleFile>,
                 pos: seq<Value>, kw: Kwargs)
    requires Prepare(p, pos, kw).Ok?
    requires Prepare(p, pos, kw).value.mode != NOCACHE && Prepare(p, pos, kw).value.mode != RECACHE
    requires BucketOf(p, env, dirs, pos, kw).Ok?
    requires var loc := BucketOf(p, env, dirs, pos, kw).value; loc.key in Stored(pickles, loc.path)
    requires var loc := BucketOf(p, env, dirs, pos, kw).value; Hashable(loc.key)
    ensures var o := CallOutcome(p, env, dirs, pickles, pos, kw);
      var loc := BucketOf(p, env, dirs, pos, kw).value;
      && o.result == Ok(Stored(pickles, loc.path)[loc.key])
      && o.calls == []
      && forall q :: Stored(o.pickles, q) == Stored(pickles, q)
  {
  }

  /** CACHE with a hashable key missing from its bucket: the function is called
      once with the call's own arguments; its value is returned and
      stored under the key, every other entry staying as it was. */
  lemma CacheMiss(p: Persister, env: Env, dirs: set<string>, pickles: map<string, PickleFile>,
                  pos: seq<Value>, kw: Kwargs)
    requires Prepare(p, pos, kw).Ok? && Prepare(p, pos, kw).value.mode == CACHE && !p.altRoots
    requires BucketOf(p, env, dirs, pos, kw).Ok?
    requires var loc := BucketOf(p, env, dirs, pos, kw).value; loc.key !in Stored(pickles, loc.path)
    requires var loc := BucketOf(p, env, dirs, pos, kw).value; Hashable(loc.key)
    ensures var o := CallOutcome(p, env, dirs, pickles, pos, kw);
      var loc := BucketOf(p, env, dirs, pos, kw).value;
      var inv := (pos, kw - {p.switchKwarg});
      && o.calls == [inv]
      && (p.f(inv.0, inv.1).Some? ==>
            o.result == Ok(p.f(inv.0, inv.1).value) &&
            Stored(o.pickles, loc.path) == Stored(pickles, loc.path)[loc.key := p.f(inv.0, inv.1).value])
      && (p.f(inv.0, inv.1).None? ==> o.result == Err(ComputationFailed))
      && forall q :: q != loc.path ==> Stored(o.pickles, q) == Stored(pickles, q)
  {
  }

  /** READONLY with a hashable key missing: the call fails without calling the
      function and without changing any bucket's contents. */
  lemma ReadonlyMissFails(p: Persister, env: Env, dirs: set<string>, pickles: map<string, PickleFile>,
                          pos: seq<Value>, kw: Kwargs)
    requires Prepare(p, pos, kw).Ok? && Prepare(p, pos, kw).value.mode == READONLY
    requires BucketOf(p, env, dirs, pos, kw).Ok?
    requires var loc := BucketOf(p, env, dirs, pos, kw).value; loc.key !in Stored(pickles, loc.path)
    requires var loc := BucketOf(p, env, dirs, pos, kw).value; Hashable(loc.key)
    ensures var o := CallOutcome(p, env, dirs, pickles, pos, kw);
      && o.result == Err(ReadonlyMiss)
      && o.calls == []
      && forall q :: Stored(o.pickles, q) == Stored(pickles, q)
  {
  }

  /** RECACHE with a hashable key always calls the function (alternative
      roots are ignored) and, when it returns, overwrites the entry with
      the new value. */
  lemma RecacheOverwrites(p: Persister, env: Env, dirs: set<string>, pickles: map<string, PickleFile>,
                          pos: seq<Value>, kw: Kwargs)
    requires Prepare(p, pos, kw).Ok? && Prepare(p, pos, kw).value.mode == RECACHE
    requires BucketOf(p, env, dirs, pos, kw).Ok?
    requires var loc := BucketOf(p, env, dirs, pos, kw).value; Hashable(loc.key)
    ensures var o := CallOutcome(p, env, dirs, pickles, pos, kw);
      var loc := BucketOf(p, env, dirs, pos, kw).value;
      var inv := (pos, kw - {p.switchKwarg});
      && o.calls == [inv]
      && (p.f(inv.0, inv.1).Some? ==>
            o.result == Ok(p.f(inv.0, inv.1).value) &&
            Stored(o.pickles, loc.path) == Stored(pickles, loc.path)[loc.key := p.f(inv.0, inv.1).value])
      && (p.f(inv.0, inv.1).None? ==> o.result == Err(ComputationFailed) && o.pickles == pickles)
  {
  }

  /** A key holding a dict (an argument left unexpanded) fails every
      cached mode with TypeError once the bucket has been read: CACHE and
      READONLY before the function is called, RECACHE after calling it,
      when storing the value; no bucket's contents change. */
  lemma UnhashableKeyFails(p: Persister, env: Env, dirs: set<string>, pickles: map<string, PickleFile>,
                           pos: seq<Value>, kw: Kwargs)
    requires Prepare(p, pos, kw).Ok? && Prepare(p, pos, kw).value.mode != NOCACHE
    requires BucketOf(p, env, dirs, pos, kw).Ok?
    requires var loc := BucketOf(p, env, dirs, pos, kw).value; !Hashable(loc.key)
    ensures var o := CallOutcome(p, env, dirs, pickles, pos, kw);
      var inv := (pos, kw - {p.switchKwarg});
      && (Prepare(p, pos, kw).value.mode != RECACHE ==> o.result == Err(Unhashable) && o.calls == [])
      && (Prepare(p, pos, kw).value.mode == RECACHE ==>
            o.calls == [inv] &&
            o.result == (if p.f(inv.0, inv.1).Some? then Err(Unhashable) else Err(ComputationFailed)))
      && forall q :: Stored(o.pickles, q) == Stored(pickles, q)
  {
  }

  /** Memoisation: after a call in any cached mode (CACHE, RECACHE,
      READONLY) returns, the same call again (the switch may differ) in
      a mode that reads the cache returns the same value without calling
      the function and without creating a directory. */
  lemma {:induction false} Memoised(p: Persister, env: Env, dirs: set<string>, pickles: map<string, PickleFile>,
                                    pos: seq<Value>, kw1: Kwargs, kw2: Kwargs)
    requires kw1 - {p.switchKwarg} == kw2 - {p.switchKwarg}
    requires Prepare(p, pos, kw1).Ok? && Prepare(p, pos, kw1).value.mode != NOCACHE
    requires Prepare(p, pos, kw2).Ok?
    requires Prepare(p, pos, kw2).value.mode != NOCACHE && Prepare(p, pos, kw2).value.mode != RECACHE
    requires CallOutcome(p, env, dirs, pickles, pos, kw1).result.Ok?
    ensures var o1 := CallOutcome(p, env, dirs, pickles, pos, kw1);
      var o2 := CallOutcome(p, env, o1.dirs, o1.pickles, pos, kw2);
      o2.result == o1.result && o2.calls == [] && o2.dirs == o1.dirs
  {
    var prep1 := Prepare(p, pos, kw1).value;
    var prep2 := Prepare(p, pos, kw2).value;
    assert prep1.full == prep2.full && prep1.rest == prep2.rest;
    var cleaned := Cleaned(p, prep1.full).value;
    var (located, dirs') := Locate(dirs, env, p.cacheDir, cleaned, p.hashsize, p.groupby);
    LocateIdempotent(dirs, env, p.cacheDir, cleaned, p.hashsize, p.groupby);
  }

  /** The special names of _check_arguments: groupby entries (a tuple is
      one entry), then expand names, then skip names. */
  function Special(groupby: seq<GroupEntry>, expand: seq<string>, skip: seq<string>): seq<GroupEntry>
  {
    groupby + seq(|expand|, i requires 0 <= i < |expand| => Name(expand[i]))
            + seq(|skip|, i requires 0 <= i < |skip| => Name(skip[i]))
  }

  /** _check_arguments: the set of special names is as large as the three
      lists together, and the switch is not one of them. */
  function CheckArguments(groupby: seq<GroupEntry>, expand: seq<string>, skip: seq<string>, switchKwarg: string): (ok: bool)
    ensures ok <==> Distinct(Special(groupby, expand, skip)) && Name(switchKwarg) !in Special(groupby, expand, skip)
  {
    var special := Special(groupby, expand, skip);
    DistinctElems(special);
    |Elems(special)| == |special| && Name(switchKwarg) !in Elems(special)
  }

  /** The check compares a groupby tuple as one entry, so a name inside a
      tuple may also be a skip name: the settings pass, yet every call
      that skips that name before grouping fails. */
  lemma TupleOverlapPasses(env: Env)
    ensures CheckArguments([Names(["a", "b"])], [], ["a"], "cache")
    ensures var full := map["a" := Int(1), "b" := Int(2)];
      && ExpandNamed(full - Elems(["a"]), []) == Ok(map["b" := Int(2)])
      && GroupDirs(env, map["b" := Int(2)], [Names(["a", "b"])]) == Err(MissingGroupby("a"))
  {
    var special := Special([Names(["a", "b"])], [], ["a"]);
    assert special == [Names(["a", "b"]), Name("a")];
    assert map["a" := Int(1), "b" := Int(2)] - Elems(["a"]) == map["b" := Int(2)];
  }

  /** The check with every name inside a groupby tuple counted on its own. */
  function CheckArgumentsFlat(groupby: seq<GroupEntry>, expand: seq<string>, skip: seq<string>, switchKwarg: string): (ok: bool)
    ensures ok <==> Distinct(FlatNames(groupby) + expand + skip) && switchKwarg !in FlatNames(groupby) + expand + skip
  {
    var special := FlatNames(groupby) + expand + skip;
    DistinctElems(special);
    |Elems(special)| == |special| && switchKwarg !in Elems(special)
  }

  /** With the flattened check, cleaning never removes a groupby name:
      when the bound arguments hold every groupby name, the groupby loop
      succeeds. */
  lemma {:induction false} FlatCheckGroupsFound(p: Persister, env: Env, full: Kwargs)
    requires CheckArgumentsFlat(p.groupby, p.expand, p.skip, p.switchKwarg)
    requires forall n :: n in FlatNames(p.groupby) ==> n in full
    requires Cleaned(p, full).Ok?
    ensures GroupDirs(env, Cleaned(p, full).value, p.groupby).Ok?
  {
    var flat := FlatNames(p.groupby);
    DistinctConcat(flat + p.expand, p.skip);
    DistinctConcat(flat, p.expand);
    forall n | n in flat ensures n in Cleaned(p, full).value {
      assert n !in p.skip && n !in p.expand;
      ExpandNamedKeeps(full - Elems(p.skip), p.expand, n);
    }
    GroupDirsOk(env, Cleaned(p, full).value, p.groupby);
  }
}
